/** Decimal rendering of natural numbers, as Python's `str(n)` and `%s` do it. */
module Numerals {
  import opened Text

  function DigitChar(d: nat): (c: char)
    requires d < 10
    ensures IsDigit(c)
  {
    ('0' as int + d) as char
  }

  function DigitValue(c: char): (d: nat)
    requires IsDigit(c)
    ensures d < 10 && DigitChar(d) == c
  {
    c as int - '0' as int
  }

  /** `str(n)`: the digits of `n`, most significant first, without leading zeros. */
  function Decimal(n: nat): (r: string)
    ensures |r| >= 1 && AllDigits(r)
    ensures |r| > 1 ==> r[0] != '0'
  {
    if n < 10 then [DigitChar(n)] else Decimal(n / 10) + [DigitChar(n % 10)]
  }

  /** `int(s)` for a string of ASCII digits. */
  function ParseDecimal(s: string): nat
    requires AllDigits(s)
  {
    if s == [] then 0 else 10 * ParseDecimal(s[..|s| - 1]) + DigitValue(s[|s| - 1])
  }

  /** Reading back the rendering of `n` gives `n`. */
  lemma {:induction false} ParseDecimalOfDecimal(n: nat)
    ensures ParseDecimal(Decimal(n)) == n
  {
    var s := Decimal(n);
    if n >= 10 {
      assert s[..|s| - 1] == Decimal(n / 10);
      ParseDecimalOfDecimal(n / 10);
    }
  }

  /** Multiplying by ten appends a zero digit. */
  lemma DecimalTimesTen(n: nat)
    requires n > 0
    ensures Decimal(10 * n) == Decimal(n) + "0"
  {
    assert (10 * n) / 10 == n && (10 * n) % 10 == 0;
  }

  /** `str(d * 1000000)` for a digit `d > 0` is `d` followed by six zeros. */
  lemma DecimalMillions(d: nat)
    requires 0 < d < 10
    ensures Decimal(d * 1_000_000) == [DigitChar(d)] + "000000"
  {
    DecimalTimesTen(d);
    DecimalTimesTen(d * 10);
    DecimalTimesTen(d * 100);
    DecimalTimesTen(d * 1_000);
    DecimalTimesTen(d * 10_000);
    DecimalTimesTen(d * 100_000);
    assert [DigitChar(d)] + "0" + "0" + "0" + "0" + "0" + "0" == [DigitChar(d)] + "000000";
  }

  /** Different numbers render differently. */
  lemma DecimalInjective(m: nat, n: nat)
    requires Decimal(m) == Decimal(n)
    ensures m == n
  {
    ParseDecimalOfDecimal(m);
    ParseDecimalOfDecimal(n);
  }
}
