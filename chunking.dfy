/** `read_in_chunks`: reading a file in pieces of at most `chunk_size` bytes. */
module Chunking {
  import opened Bytes

  /** The default `chunk_size`, the only one `main` uses. */
  const DefaultChunkSize: int := 50_000_000

  /** `file_object.read(n)` on a binary file whose unread contents are
      `rest`: at most `n` bytes, everything when `n` is -1, nothing at the end
      of the file. A size below -1 makes the read raise, so it is excluded. */
  function Read(rest: seq<Byte>, n: int): (r: seq<Byte>)
    requires n >= -1
    ensures |r| <= |rest| && r == rest[..|r|]
    ensures n >= 0 ==> |r| == if n < |rest| then n else |rest|
    ensures n == -1 ==> r == rest
  {
    if n == -1 || |rest| <= n then rest else rest[..n]
  }

  /** The chunks the generator yields: it reads until a read returns nothing. */
  function Chunks(data: seq<Byte>, n: int): seq<seq<Byte>>
    requires n >= -1
    decreases |data|
  {
    var piece := Read(data, n);
    if piece == [] then [] else [piece] + Chunks(data[|piece|..], n)
  }

  /** The bytes of a sequence of chunks, in order. */
  function Flatten(chunks: seq<seq<Byte>>): seq<Byte> {
    if chunks == [] then [] else chunks[0] + Flatten(chunks[1..])
  }

  lemma {:induction false} FlattenAppend(a: seq<seq<Byte>>, b: seq<seq<Byte>>)
    ensures Flatten(a + b) == Flatten(a) + Flatten(b)
  {
    if a != [] {
      assert (a + b)[1..] == a[1..] + b;
      FlattenAppend(a[1..], b);
    } else {
      assert a + b == b;
    }
  }

  /** Reading the chunks back to back gives the whole file, unless the chunk
      size is 0, in which case the first read already returns nothing. */
  lemma {:induction false} ChunksCoverData(data: seq<Byte>, n: int)
    requires n >= -1
    ensures n != 0 ==> Flatten(Chunks(data, n)) == data
    ensures n == 0 ==> Chunks(data, n) == []
  {
    var piece := Read(data, n);
    if piece != [] {
      ChunksCoverData(data[|piece|..], n);
      assert data == piece + data[|piece|..];
    }
  }

  /** No chunk is empty; for a positive size `n` each holds at most `n`
      bytes and all but the last exactly `n`. */
  predicate WellSized(cs: seq<seq<Byte>>, n: int) {
    && (forall k :: 0 <= k < |cs| ==> cs[k] != [])
    && (n > 0 ==> forall k :: 0 <= k < |cs| ==> |cs[k]| <= n)
    && (n > 0 ==> forall k :: 0 <= k < |cs| - 1 ==> |cs[k]| == n)
  }

  /** The generator yields well-sized chunks; with size -1 it yields the
      whole file at once. */
  lemma {:induction false} ChunkSizes(data: seq<Byte>, n: int)
    requires n >= -1
    ensures WellSized(Chunks(data, n), n)
    ensures n == -1 ==> Chunks(data, n) == if data == [] then [] else [data]
  {
    var piece := Read(data, n);
    var cs := Chunks(data, n);
    if piece != [] {
      var rest := Chunks(data[|piece|..], n);
      ChunkSizes(data[|piece|..], n);
      assert cs == [piece] + rest;
      forall k | 0 <= k < |cs|
        ensures cs[k] != [] && (n > 0 ==> |cs[k]| <= n)
        ensures n > 0 && k < |cs| - 1 ==> |cs[k]| == n
      {
        if k > 0 {
          assert cs[k] == rest[k - 1];
        }
      }
      if n == -1 {
        assert data[|piece|..] == [];
      }
    }
  }

  /** An empty file yields no chunk at all. */
  lemma EmptyFileNoChunks(n: int)
    requires n >= -1
    ensures Chunks([], n) == []
  {
  }

  /** `read_in_chunks` itself: the `while True` loop that reads until a read
      comes back empty. */
  method ReadInChunks(data: seq<Byte>, chunkSize: int) returns (chunks: seq<seq<Byte>>)
    requires chunkSize >= -1
    ensures chunks == Chunks(data, chunkSize)
    ensures WellSized(chunks, chunkSize)
    ensures chunkSize != 0 ==> Flatten(chunks) == data
  {
    chunks := [];
    var pos := 0;
    while true
      invariant 0 <= pos <= |data|
      invariant chunks + Chunks(data[pos..], chunkSize) == Chunks(data, chunkSize)
      decreases |data| - pos
    {
      var piece := Read(data[pos..], chunkSize);
      if piece == [] {
        assert Chunks(data[pos..], chunkSize) == [];
        break;
      }
      ChunksStep(data, pos, chunkSize, chunks);
      chunks := chunks + [piece];
      pos := pos + |piece|;
    }
    assert chunks == Chunks(data, chunkSize);
    ChunksShape(data, chunkSize);
  }

  lemma ChunksShape(data: seq<Byte>, n: int)
    requires n >= -1
    ensures WellSized(Chunks(data, n), n)
    ensures n != 0 ==> Flatten(Chunks(data, n)) == data
  {
    ChunksCoverData(data, n);
    ChunkSizes(data, n);
  }

  /** One turn of the loop: the chunks from `pos` on are the piece read
      there, then the chunks after it. */
  lemma ChunksStep(data: seq<Byte>, pos: nat, n: int, done: seq<seq<Byte>>)
    requires n >= -1 && pos <= |data| && Read(data[pos..], n) != []
    ensures var piece := Read(data[pos..], n);
      pos + |piece| <= |data|
      && (done + [piece]) + Chunks(data[pos + |piece|..], n) == done + Chunks(data[pos..], n)
  {
    var piece := Read(data[pos..], n);
    assert data[pos..][|piece|..] == data[pos + |piece|..];
    assert Chunks(data[pos..], n) == [piece] + Chunks(data[pos + |piece|..], n);
  }
}

/**
 * The byte ranges `main` computes for the chunks of one file: `index` runs
 * from 0, each chunk covers `[index, index + len(chunk))`, and the
 * `Content-Range` header renders that as `bytes start-end/total`.
 */
module Ranges {
  import opened Wrappers
  import opened Text
  import opened Numerals
  import opened Bytes
  import opened Chunking

  /** `[start, end)` within a file of `total` bytes; `end` is exclusive. */
  datatype Range = Range(start: nat, end: nat, total: nat)

  /** The ranges of successive chunks when the running index starts at `index`. */
  function RangesFrom(chunks: seq<seq<Byte>>, index: nat, total: nat): (rs: seq<Range>)
    ensures |rs| == |chunks|
  {
    if chunks == [] then []
    else [Range(index, index + |chunks[0]|, total)] + RangesFrom(chunks[1..], index + |chunks[0]|, total)
  }

  /** The range of chunk `k` starts after the bytes of all chunks before it. */
  lemma {:induction false} RangeAt(chunks: seq<seq<Byte>>, index: nat, total: nat, k: nat)
    requires k < |chunks|
    ensures |RangesFrom(chunks, index, total)| == |chunks|
    ensures RangesFrom(chunks, index, total)[k]
         == Range(index + |Flatten(chunks[..k])|, index + |Flatten(chunks[..k + 1])|, total)
  {
    var rest := chunks[1..];
    if k == 0 {
      assert chunks[..1] == [chunks[0]];
      if |rest| > 0 {
        RangeAt(rest, index + |chunks[0]|, total, 0);
      }
    } else {
      RangeAt(rest, index + |chunks[0]|, total, k - 1);
      assert chunks[..k] == [chunks[0]] + rest[..k - 1];
      assert chunks[..k + 1] == [chunks[0]] + rest[..k];
      FlattenAppend([chunks[0]], rest[..k - 1]);
      FlattenAppend([chunks[0]], rest[..k]);
    }
  }

  /** The bytes before chunk `k`, chunk `k` itself, and the bytes after it. */
  lemma FlattenAround(cs: seq<seq<Byte>>, k: nat)
    requires k < |cs|
    ensures Flatten(cs[..k + 1]) == Flatten(cs[..k]) + cs[k]
    ensures Flatten(cs) == Flatten(cs[..k + 1]) + Flatten(cs[k + 1..])
  {
    FlattenPrefixStep(cs, k);
    FlattenSplit(cs, k + 1);
  }

  lemma FlattenPrefixStep(cs: seq<seq<Byte>>, k: nat)
    requires k < |cs|
    ensures Flatten(cs[..k + 1]) == Flatten(cs[..k]) + cs[k]
  {
    assert cs[..k + 1] == cs[..k] + [cs[k]];
    FlattenSnoc(cs[..k], cs[k]);
  }

  lemma FlattenSnoc(a: seq<seq<Byte>>, c: seq<Byte>)
    ensures Flatten(a + [c]) == Flatten(a) + c
  {
    FlattenAppend(a, [c]);
    assert Flatten([c]) == c + Flatten([]);
  }

  lemma FlattenSplit(cs: seq<seq<Byte>>, j: nat)
    requires j <= |cs|
    ensures Flatten(cs) == Flatten(cs[..j]) + Flatten(cs[j..])
  {
    assert cs == cs[..j] + cs[j..];
    FlattenAppend(cs[..j], cs[j..]);
  }

  /** The range of chunk `k` of a file addresses exactly that chunk's bytes. */
  lemma RangeOfChunk(data: seq<Byte>, n: int, k: nat)
    requires n != 0 && n >= -1 && k < |Chunks(data, n)|
    ensures var cs := Chunks(data, n); var rs := RangesFrom(cs, 0, |data|);
      && |rs| == |cs|
      && rs[k] == Range(|Flatten(cs[..k])|, |Flatten(cs[..k + 1])|, |data|)
      && rs[k].start < rs[k].end <= |data|
      && data[rs[k].start..rs[k].end] == cs[k]
  {
    var cs := Chunks(data, n);
    ChunksCoverData(data, n);
    ChunkNonEmpty(data, n, k);
    RangeAt(cs, 0, |data|, k);
    FlattenAround(cs, k);
    MiddleSlice(Flatten(cs[..k]), cs[k], Flatten(cs[k + 1..]));
  }

  lemma ChunkNonEmpty(data: seq<Byte>, n: int, k: nat)
    requires n >= -1 && k < |Chunks(data, n)|
    ensures Chunks(data, n)[k] != []
  {
    ChunkSizes(data, n);
  }

  /** The middle part of a three-part sequence, by its offsets. */
  lemma MiddleSlice<T>(before: seq<T>, mid: seq<T>, after: seq<T>)
    ensures (before + mid + after)[|before|..|before| + |mid|] == mid
  {
  }

  /** Each range lies within the file and addresses exactly its chunk's bytes. */
  lemma RangesAddressChunks(data: seq<Byte>, n: int)
    requires n != 0 && n >= -1
    ensures var cs := Chunks(data, n); var rs := RangesFrom(cs, 0, |data|);
      forall k :: 0 <= k < |rs| ==>
        rs[k].total == |data| && rs[k].start < rs[k].end <= |data| && data[rs[k].start..rs[k].end] == cs[k]
  {
    var cs := Chunks(data, n);
    var rs := RangesFrom(cs, 0, |data|);
    forall k | 0 <= k < |rs|
      ensures rs[k].total == |data| && rs[k].start < rs[k].end <= |data|
      ensures data[rs[k].start..rs[k].end] == cs[k]
    {
      RangeOfChunk(data, n, k);
    }
  }

  /** Each range ends where the next one starts. */
  lemma RangesAdjacent(data: seq<Byte>, n: int)
    requires n != 0 && n >= -1
    ensures var rs := RangesFrom(Chunks(data, n), 0, |data|);
      forall k :: 0 <= k < |rs| - 1 ==> rs[k].end == rs[k + 1].start
  {
    var rs := RangesFrom(Chunks(data, n), 0, |data|);
    forall k | 0 <= k < |rs| - 1
      ensures rs[k].end == rs[k + 1].start
    {
      RangeOfChunk(data, n, k);
      RangeOfChunk(data, n, k + 1);
    }
  }

  /** The first range starts at 0 and the last ends at the file size; there
      are none exactly when the file is empty. */
  lemma RangesEnds(data: seq<Byte>, n: int)
    requires n != 0 && n >= -1
    ensures var rs := RangesFrom(Chunks(data, n), 0, |data|);
      && (|rs| > 0 ==> rs[0].start == 0 && rs[|rs| - 1].end == |data|)
      && (data == [] <==> rs == [])
  {
    var cs := Chunks(data, n);
    ChunksCoverData(data, n);
    if |cs| == 0 {
      assert |Flatten(cs)| == 0;
    } else {
      FirstRangeStart(data, n);
      LastRangeEnd(data, n);
    }
  }

  /** A file with chunks has its first range starting at offset 0. */
  lemma FirstRangeStart(data: seq<Byte>, n: int)
    requires n != 0 && n >= -1 && |Chunks(data, n)| > 0
    ensures var rs := RangesFrom(Chunks(data, n), 0, |data|);
      |rs| > 0 && rs[0].start == 0 && data != []
  {
    var cs := Chunks(data, n);
    RangeOfChunk(data, n, 0);
    assert cs[..0] == [];
  }

  /** A file with chunks has its last range ending at the file size. */
  lemma LastRangeEnd(data: seq<Byte>, n: int)
    requires n != 0 && n >= -1 && |Chunks(data, n)| > 0
    ensures var rs := RangesFrom(Chunks(data, n), 0, |data|);
      |rs| > 0 && rs[|rs| - 1].end == |data|
  {
    var cs := Chunks(data, n);
    ChunksCoverData(data, n);
    RangeOfChunk(data, n, |cs| - 1);
    assert cs[..|cs|] == cs;
  }

  /** The ranges of a file's chunks tile `[0, size)`: the first starts at 0,
      each ends where the next starts, the last ends at the file size, and each
      range addresses exactly the bytes of its chunk. */
  lemma RangesTile(data: seq<Byte>, n: int)
    requires n != 0 && n >= -1
    ensures var cs := Chunks(data, n); var rs := RangesFrom(cs, 0, |data|);
      && |rs| == |cs|
      && (forall k :: 0 <= k < |rs| ==>
            rs[k].total == |data| && rs[k].start < rs[k].end <= |data|
            && data[rs[k].start..rs[k].end] == cs[k])
      && (forall k :: 0 <= k < |rs| - 1 ==> rs[k].end == rs[k + 1].start)
      && (|rs| > 0 ==> rs[0].start == 0 && rs[|rs| - 1].end == |data|)
      && (data == [] <==> rs == [])
  {
    RangesAddressChunks(data, n);
    RangesAdjacent(data, n);
    RangesEnds(data, n);
  }

  /** The `Content-Range` value `'bytes %s-%s/%s' % (index, offset, content_size)`. */
  function ContentRange(r: Range): string {
    "bytes " + Decimal(r.start) + "-" + Decimal(r.end) + "/" + Decimal(r.total)
  }

  /** How a server would read a `Content-Range` value of this form. */
  function ParseContentRange(s: string): Option<Range> {
    if !StartsWith(s, "bytes ") then None
    else
      match SplitAt(s[6..], '-')
      case None => None
      case Some((a, tail)) =>
        match SplitAt(tail, '/')
        case None => None
        case Some((b, c)) =>
          if AllDigits(a) && AllDigits(b) && AllDigits(c)
          then Some(Range(ParseDecimal(a), ParseDecimal(b), ParseDecimal(c)))
          else None
  }

  /** Three digit strings between the separators are read as three numbers. */
  lemma ParseContentRangeParts(a: string, b: string, c: string)
    requires AllDigits(a) && AllDigits(b) && AllDigits(c)
    ensures ParseContentRange("bytes " + a + "-" + b + "/" + c)
         == Some(Range(ParseDecimal(a), ParseDecimal(b), ParseDecimal(c)))
  {
    var tail := b + ['/'] + c;
    var s := "bytes " + a + "-" + b + "/" + c;
    assert s == "bytes " + (a + ['-'] + tail);
    assert StartsWith(s, "bytes ") && s[6..] == a + ['-'] + tail;
    assert '-' !in a by { forall x | x in a ensures x != '-' { } }
    SplitAtAfter(a, '-', tail);
    assert '/' !in b by { forall x | x in b ensures x != '/' { } }
    SplitAtAfter(b, '/', c);
  }

  /** The header value determines the range it was made from. */
  lemma ContentRangeReadsBack(r: Range)
    ensures ParseContentRange(ContentRange(r)) == Some(r)
  {
    ParseContentRangeParts(Decimal(r.start), Decimal(r.end), Decimal(r.total));
    ParseDecimalOfDecimal(r.start);
    ParseDecimalOfDecimal(r.end);
    ParseDecimalOfDecimal(r.total);
  }

  /** The `headers` dict after it is filled in for a chunk with range `r`:
      `Content-length` is the size of the whole file, not of the chunk. */
  function HeaderMap(r: Range): map<string, string> {
    map[
      "Content-Type" := "application/octet-stream",
      "Content-length" := Decimal(r.total),
      "Content-Range" := ContentRange(r)
    ]
  }
}
