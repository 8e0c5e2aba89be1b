/** Raw file contents. */
module Bytes {
  type Byte = bv8

  /** The local files an invocation can see: path to contents. */
  type FileSystem = map<string, seq<Byte>>

  /** `os.path.exists(path)` for the paths of `fs`; the empty path never exists. */
  predicate Exists(fs: FileSystem, path: string) {
    path != "" && path in fs
  }
}

/**
 * The manifest (`--file-list`): one input reference per line, each classified
 * as a sequencing-run accession, a remote URL or a local file, and the check
 * pass that makes sure every local file exists before anything is sent.
 */
module Manifest {
  import opened Wrappers
  import opened Text
  import opened Bytes

  datatype Kind = Accession | Url | Local

  /** The manifest lines as `main` keeps them: every line stripped. */
  function StripAll(lines: seq<string>): (files: seq<string>)
    ensures |files| == |lines|
    ensures forall i :: 0 <= i < |lines| ==> files[i] == Strip(lines[i])
  {
    seq(|lines|, i requires 0 <= i < |lines| => Strip(lines[i]))
  }

  /** "SRR" followed by one or more digits, and nothing else. */
  predicate IsRunNumber(s: string) {
    |s| > 3 && s[..3] == "SRR" && AllDigits(s[3..])
  }

  /** `re.match(r'^SRR\d+$', s)`: `$` matches at the end or just before a final newline. */
  predicate IsBareAccession(s: string) {
    IsRunNumber(s) || (|s| > 0 && s[|s| - 1] == '\n' && IsRunNumber(s[..|s| - 1]))
  }

  /** The end of the run of digits that starts at `i`. */
  function DigitsEnd(s: string, i: nat): (j: nat)
    requires i <= |s|
    ensures i <= j <= |s| && AllDigits(s[i..j])
    ensures j == |s| || !IsDigit(s[j])
    decreases |s| - i
  {
    if i < |s| && IsDigit(s[i]) then DigitsEnd(s, i + 1) else i
  }

  /** The end of the run of whitespace that starts at `i`. */
  function SpacesEnd(s: string, i: nat): (j: nat)
    requires i <= |s|
    ensures i <= j <= |s| && AllSpace(s[i..j])
    ensures j == |s| || !IsSpace(s[j])
    decreases |s| - i
  {
    if i < |s| && IsSpace(s[i]) then SpacesEnd(s, i + 1) else i
  }

  /** `re.match(r'^SRR\d+\s+\S+', s)`, decided by scanning the digit run and
      the whitespace run that follows it. */
  predicate IsMateAccession(s: string) {
    |s| >= 3 && s[..3] == "SRR" &&
    var k := DigitsEnd(s, 3);
    var m := SpacesEnd(s, k);
    3 < k < m < |s|
  }

  /** One way to match `^SRR\d+\s+\S+`: digits `s[3..k]`, whitespace `s[k..m]`,
      and a non-whitespace character at `m`. */
  predicate MateSplit(s: string, k: int, m: int) {
    3 < k < m < |s| && s[..3] == "SRR" && AllDigits(s[3..k]) && AllSpace(s[k..m]) && !IsSpace(s[m])
  }

  /** The pattern as the regular expression states it: some split matches. */
  ghost predicate MatchesMatePattern(s: string) {
    exists k, m :: MateSplit(s, k, m)
  }

  predicate IsAccession(s: string) {
    IsBareAccession(s) || IsMateAccession(s)
  }

  /** `re.match(r'^(http://|https://|ftp://)', s)`. */
  predicate IsUrl(s: string) {
    StartsWith(s, "http://") || StartsWith(s, "https://") || StartsWith(s, "ftp://")
  }

  /** The classification both passes over the manifest apply, in their order:
      accession first, then URL, and anything else names a local file. */
  function KindOf(s: string): Kind {
    if IsAccession(s) then Accession
    else if IsUrl(s) then Url
    else Local
  }

  lemma SpaceIsNoDigit(c: char)
    requires IsSpace(c)
    ensures !IsDigit(c)
  {
  }

  /** The scan decides exactly the regular expression `^SRR\d+\s+\S+`. */
  lemma MatePatternScan(s: string)
    ensures IsMateAccession(s) <==> MatchesMatePattern(s)
  {
    if IsMateAccession(s) {
      var k := DigitsEnd(s, 3);
      var m := SpacesEnd(s, k);
      assert MateSplit(s, k, m);
    }
    if MatchesMatePattern(s) {
      var k, m :| MateSplit(s, k, m);
      ScanFindsSplit(s, k, m);
    }
  }

  /** A split that matches is the one the scan finds. */
  lemma ScanFindsSplit(s: string, k: int, m: int)
    requires MateSplit(s, k, m)
    ensures DigitsEnd(s, 3) == k && SpacesEnd(s, k) == m
  {
    var j, e := DigitsEnd(s, 3), SpacesEnd(s, k);
    SpaceIsNoDigit(s[k]) by {
      assert s[k..m][0] == s[k];
    }
    SliceAt(s, 3, k, j);
    SliceAt(s, 3, j, k);
    SliceAt(s, k, m, e);
    SliceAt(s, k, e, m);
  }

  /** Position `p` of `s` inside the slice `s[i..j]`. */
  lemma SliceAt<T>(s: seq<T>, i: nat, j: nat, p: nat)
    ensures i <= p < j <= |s| ==> s[i..j][p - i] == s[p]
  {
  }

  /** The accession test agrees with the two regular expressions of the source. */
  lemma AccessionIsRegexMatch(s: string)
    ensures KindOf(s) == Accession <==> IsBareAccession(s) || MatchesMatePattern(s)
  {
    MatePatternScan(s);
  }

  /** No URL looks like an accession, so the order of the first two tests never
      changes a classification. */
  lemma UrlIsNoAccession(s: string)
    requires IsUrl(s)
    ensures !IsAccession(s)
    ensures KindOf(s) == Url
  {
    assert s[0] == 'h' || s[0] == 'f' by {
      if StartsWith(s, "http://") {
        assert s[..7][0] == 'h';
      } else if StartsWith(s, "https://") {
        assert s[..8][0] == 'h';
      } else {
        assert s[..6][0] == 'f';
      }
    }
  }

  /** A local line that the check pass rejects. */
  predicate Missing(fs: FileSystem, line: string) {
    KindOf(line) == Local && !Exists(fs, line)
  }

  predicate AllLocalsExist(files: seq<string>, fs: FileSystem) {
    forall i :: 0 <= i < |files| ==> !Missing(fs, files[i])
  }

  /** The message of the exception that stops the run. */
  function MissingMessage(path: string): string {
    "File " + path + " does not exist."
  }

  /** Where the check pass stops: the first missing local line, if any. */
  function FirstMissing(files: seq<string>, fs: FileSystem): (r: Option<nat>)
    ensures r.None? <==> AllLocalsExist(files, fs)
    ensures r.Some? ==> r.value < |files| && Missing(fs, files[r.value]) && AllLocalsExist(files[..r.value], fs)
  {
    if files == [] then None
    else if Missing(fs, files[0]) then Some(0)
    else
      match FirstMissing(files[1..], fs)
      case None => None
      case Some(i) =>
        assert files[1..][..i] == files[1..i + 1];
        Some(i + 1)
  }

  /** The line at `i` is where the check pass stops when it is missing and every
      local line before it exists. */
  lemma FirstMissingAt(files: seq<string>, fs: FileSystem, i: nat)
    requires i < |files| && Missing(fs, files[i]) && AllLocalsExist(files[..i], fs)
    ensures FirstMissing(files, fs) == Some(i)
  {
    var r := FirstMissing(files, fs);
    assert !AllLocalsExist(files, fs);
    var v := r.value;
    SliceAt(files, 0, i, v);
    SliceAt(files, 0, v, i);
  }

  /** The `file_sizes` record of the check pass: every local line with its size
      in bytes. */
  function SizeMap(files: seq<string>, fs: FileSystem): (sizes: map<string, nat>)
    requires AllLocalsExist(files, fs)
    ensures forall p :: p in sizes <==> p in files && KindOf(p) == Local
    ensures forall p :: p in sizes ==> p in fs && sizes[p] == |fs[p]|
  {
    map p | p in files && KindOf(p) == Local :: |fs[p]|
  }

  /** The check pass (the first loop of `main`): accession and URL lines are
      skipped, every other line must exist, and the size of each is recorded.
      It fails with the message for the first missing line. */
  method CheckFiles(files: seq<string>, fs: FileSystem) returns (r: Result<map<string, nat>, string>)
    ensures r.Ok? <==> AllLocalsExist(files, fs)
    ensures r.Ok? ==> r.value == SizeMap(files, fs)
    ensures r.Err? ==> FirstMissing(files, fs).Some? && r.error == MissingMessage(files[FirstMissing(files, fs).value])
  {
    var sizes: map<string, nat> := map[];
    for i := 0 to |files|
      invariant AllLocalsExist(files[..i], fs)
      invariant sizes == SizeMap(files[..i], fs)
    {
      var line := files[i];
      assert files[..i + 1] == files[..i] + [line];
      if IsAccession(line) {
        continue;
      }
      if IsUrl(line) {
        continue;
      }
      if !Exists(fs, line) {
        FirstMissingAt(files, fs, i);
        return Err(MissingMessage(line));
      }
      sizes := sizes[line := |fs[line]|];
    }
    assert files[..|files|] == files;
    return Ok(sizes);
  }

  /** The lines of kind `k`, in manifest order: what the upload pass appends to
      `srr_list` (accessions) and `url_list` (URLs). */
  function OfKind(files: seq<string>, k: Kind): seq<string> {
    if files == [] then []
    else
      var last := files[|files| - 1];
      OfKind(files[..|files| - 1], k) + (if KindOf(last) == k then [last] else [])
  }

  /** Filtering keeps the manifest order: it distributes over concatenation. */
  lemma {:induction false} OfKindAppend(a: seq<string>, b: seq<string>, k: Kind)
    ensures OfKind(a + b, k) == OfKind(a, k) + OfKind(b, k)
  {
    if b != [] {
      var b' := b[..|b| - 1];
      assert (a + b)[..|a + b| - 1] == a + b';
      OfKindAppend(a, b', k);
    } else {
      assert a + b == a;
    }
  }

  /** Each line of kind `k` is one of the manifest's lines of that kind. */
  lemma {:induction false} OfKindMembers(files: seq<string>, k: Kind)
    ensures forall x :: x in OfKind(files, k) ==> x in files && KindOf(x) == k
  {
    if files != [] {
      OfKindMembers(files[..|files| - 1], k);
    }
  }

  /** Each line of kind `k` lands in the list of kind `k`. */
  lemma {:induction false} OfKindComplete(files: seq<string>, k: Kind)
    ensures forall x :: x in files && KindOf(x) == k ==> x in OfKind(files, k)
  {
    if files != [] {
      var init := files[..|files| - 1];
      OfKindComplete(init, k);
      assert files == init + [files[|files| - 1]];
    }
  }

  /** The check pass and the upload pass classify alike: the lines the check
      pass skips are exactly those collected into `srr_list` and `url_list`,
      and every other line was checked to exist. */
  lemma SkippedLinesCollected(files: seq<string>, fs: FileSystem)
    requires AllLocalsExist(files, fs)
    ensures forall x :: x in files && !IsAccession(x) && !IsUrl(x) ==> Exists(fs, x)
    ensures forall x :: x in files && (IsAccession(x) || IsUrl(x))
                   <==> x in OfKind(files, Accession) || x in OfKind(files, Url)
  {
    OfKindComplete(files, Accession);
    OfKindComplete(files, Url);
    OfKindMembers(files, Accession);
    OfKindMembers(files, Url);
  }

  /** What appending one line does to each of the three lists. */
  lemma OfKindSnoc(init: seq<string>, last: string, k: Kind)
    ensures OfKind(init + [last], k) == OfKind(init, k) + (if KindOf(last) == k then [last] else [])
  {
    assert (init + [last])[..|init|] == init;
  }

  /** The three kinds partition the manifest: every line lands in exactly one
      of the three lists, as often as it occurs. */
  lemma ManifestPartition(files: seq<string>)
    ensures multiset(OfKind(files, Accession)) + multiset(OfKind(files, Url)) + multiset(OfKind(files, Local))
         == multiset(files)
    ensures |OfKind(files, Accession)| + |OfKind(files, Url)| + |OfKind(files, Local)| == |files|
  {
    PartitionMultiset(files);
  }

  lemma {:induction false} PartitionMultiset(files: seq<string>)
    ensures multiset(OfKind(files, Accession)) + multiset(OfKind(files, Url)) + multiset(OfKind(files, Local))
         == multiset(files)
  {
    if files != [] {
      var init, last := files[..|files| - 1], files[|files| - 1];
      PartitionMultiset(init);
      MultisetSnoc(files);
      PartsSnoc(init, last, KindOf(last),
                OfKind(init, Accession), OfKind(init, Url), OfKind(init, Local),
                OfKind(files, Accession), OfKind(files, Url), OfKind(files, Local));
    }
  }

  /** A sequence counts its elements but the last, and the last. */
  lemma MultisetSnoc<T>(s: seq<T>)
    requires s != []
    ensures multiset(s) == multiset(s[..|s| - 1]) + multiset{s[|s| - 1]}
  {
    assert s == s[..|s| - 1] + [s[|s| - 1]];
  }

  /** One line more, added to the list of its kind, keeps the three lists a
      partition of the lines. */
  lemma PartsSnoc(init: seq<string>, last: string, k: Kind,
                  a: seq<string>, u: seq<string>, l: seq<string>,
                  a': seq<string>, u': seq<string>, l': seq<string>)
    requires multiset(a) + multiset(u) + multiset(l) == multiset(init)
    requires a' == a + (if k == Accession then [last] else [])
    requires u' == u + (if k == Url then [last] else [])
    requires l' == l + (if k == Local then [last] else [])
    ensures multiset(a') + multiset(u') + multiset(l') == multiset(init) + multiset{last}
  {
    match k
    case Accession =>
      assert multiset(a') == multiset(a) + multiset{last};
    case Url =>
      assert multiset(u') == multiset(u) + multiset{last};
    case Local =>
      assert multiset(l') == multiset(l) + multiset{last};
  }

  /** A manifest that passes the check pass has only existing files among its
      local lines, so the upload pass can open each of them. */
  lemma CheckedLocalsExist(files: seq<string>, fs: FileSystem)
    requires AllLocalsExist(files, fs)
    ensures forall x :: x in OfKind(files, Local) ==> Exists(fs, x)
  {
    OfKindMembers(files, Local);
  }

  /** A blank manifest line strips to "", which is a local path that does not
      exist, so it stops the run. */
  lemma BlankLineIsMissing(line: string, fs: FileSystem)
    requires AllSpace(line)
    ensures Strip(line) == "" && Missing(fs, Strip(line))
  {
    StripBlank(line);
    assert !IsUrl("");
  }
}
