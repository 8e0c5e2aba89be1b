/**
 * The upload pass (the second loop of `main`): accession lines go to
 * `srr_list`, URL lines to `url_list`, and every local file is read in chunks,
 * each chunk posted with the retry loop, its byte range recorded in `headers`.
 */
module Upload {
  import opened Wrappers
  import opened Text
  import opened Bytes
  import opened Manifest
  import opened Chunking
  import opened Ranges
  import opened Events
  import opened Retry

  /** Every one of the `MaxAttempts` attempts raises. */
  predicate AllRaised(outcome: nat -> Attempt) {
    forall j :: 0 <= j < MaxAttempts ==> outcome(j).Raised?
  }

  /** The events of one chunk: its attempts, and the warning that names the
      session when none of them returned. */
  function ChunkEvents(sd: string, name: string, chunk: seq<Byte>, outcome: nat -> Attempt): seq<Event> {
    AttemptsFrom(UploadPost(sd, name, chunk), outcome, 0) + (if AllRaised(outcome) then [GaveUp(sd)] else [])
  }

  /** One chunk's retry loop followed by the `if error != ''` warning. */
  method PostChunk(sd: string, name: string, chunk: seq<Byte>, outcome: nat -> Attempt) returns (events: seq<Event>)
    ensures events == ChunkEvents(sd, name, chunk, outcome)
  {
    var error;
    events, error := PostWithRetry(UploadPost(sd, name, chunk), outcome);
    if error.Some? {
      events := events + [GaveUp(sd)];
    }
  }

  /** The events of the chunks of one file, in order; chunk `k` meets the
      outcomes `net(k)`. */
  function FileEvents(sd: string, name: string, chunks: seq<seq<Byte>>, net: nat -> nat -> Attempt): seq<Event> {
    if chunks == [] then []
    else FileEvents(sd, name, chunks[..|chunks| - 1], net) + ChunkEvents(sd, name, chunks[|chunks| - 1], net(|chunks| - 1))
  }

  const HeaderNames: set<string> := {"Content-Type", "Content-length", "Content-Range"}

  lemma HeaderMapKeys(r: Range)
    ensures HeaderMap(r).Keys == HeaderNames
  {
  }

  /** The events of a file grow by one chunk's events at a time. */
  lemma FileEventsSnoc(sd: string, name: string, chunks: seq<seq<Byte>>, net: nat -> nat -> Attempt, k: nat)
    requires k < |chunks|
    ensures FileEvents(sd, name, chunks[..k + 1], net)
         == FileEvents(sd, name, chunks[..k], net) + ChunkEvents(sd, name, chunks[k], net(k))
  {
    assert chunks[..k + 1][..k] == chunks[..k];
  }

  /** The ranges of the first `k + 1` chunks: those of the first `k`, then
      the range of chunk `k`, which starts after the bytes before it. */
  lemma RangesPrefixStep(chunks: seq<seq<Byte>>, k: nat, total: nat)
    requires k < |chunks|
    ensures var rs := RangesFrom(chunks, 0, total); var before := |Flatten(chunks[..k])|;
      && |Flatten(chunks[..k + 1])| == before + |chunks[k]|
      && |rs| == |chunks|
      && rs[..k + 1] == rs[..k] + [Range(before, before + |chunks[k]|, total)]
  {
    RangeAt(chunks, 0, total, k);
    FlattenAround(chunks, k);
    var rs := RangesFrom(chunks, 0, total);
    assert rs[..k + 1] == rs[..k] + [rs[k]];
  }

  /** The `headers` dict as it is after each chunk with ranges `rs`. */
  function HeadersOf(rs: seq<Range>): (hs: seq<map<string, string>>)
    ensures |hs| == |rs|
  {
    if rs == [] then [] else HeadersOf(rs[..|rs| - 1]) + [HeaderMap(rs[|rs| - 1])]
  }

  /** After chunk `k`, `headers` holds the three values of range `k`. */
  lemma {:induction false} HeadersOfAt(rs: seq<Range>, k: nat)
    requires k < |rs|
    ensures HeadersOf(rs)[k] == HeaderMap(rs[k])
  {
    if k < |rs| - 1 {
      HeadersOfAt(rs[..|rs| - 1], k);
    }
  }

  /** Lines 118-122 for one chunk: the range it covers from the running
      index, and `headers` filled in for that range whatever it held before. */
  method RecordChunk(headers: map<string, string>, index: nat, chunk: seq<Byte>, contentSize: nat)
    returns (h: map<string, string>, range: Range, offset: nat)
    requires headers.Keys <= HeaderNames
    ensures offset == index + |chunk|
    ensures range == Range(index, offset, contentSize)
    ensures h == HeaderMap(range) && h.Keys == HeaderNames
  {
    offset := index + |chunk|;
    range := Range(index, offset, contentSize);
    h := headers["Content-Type" := "application/octet-stream"];
    h := h["Content-length" := Numerals.Decimal(contentSize)];
    h := h["Content-Range" := ContentRange(range)];
    HeaderMapKeys(range);
  }

  /** The `for chunk in read_in_chunks(fin)` loop over the chunks of one file
      of `contentSize` bytes: record each chunk's range in `headers` and post
      the chunk with the retry loop. `headerLog` holds `headers` as it is
      after each chunk; `index` ends at the number of bytes read. */
  method UploadChunks(sd: string, fileName: string, chunks: seq<seq<Byte>>, contentSize: nat, net: nat -> nat -> Attempt)
    returns (trace: seq<Event>, ranges: seq<Range>, headerLog: seq<map<string, string>>, index: nat)
    ensures trace == FileEvents(sd, fileName, chunks, net)
    ensures ranges == RangesFrom(chunks, 0, contentSize)
    ensures headerLog == HeadersOf(ranges)
    ensures index == |Flatten(chunks)|
  {
    var headers: map<string, string> := map[];
    index := 0;
    trace, ranges, headerLog := [], [], [];
    for k := 0 to |chunks|
      invariant index == |Flatten(chunks[..k])|
      invariant ranges == RangesFrom(chunks, 0, contentSize)[..k]
      invariant headerLog == HeadersOf(ranges)
      invariant trace == FileEvents(sd, fileName, chunks[..k], net)
      invariant headers.Keys <= HeaderNames
    {
      var chunk := chunks[k];
      var range, offset;
      headers, range, offset := RecordChunk(headers, index, chunk, contentSize);
      var events := PostChunk(sd, fileName, chunk, net(k));
      ChunkStep(sd, fileName, chunks, contentSize, net, k, ranges, index, range);
      ranges := ranges + [range];
      headerLog := headerLog + [headers];
      index := offset;
      trace := trace + events;
    }
    AllChunksDone(chunks, contentSize);
  }

  /** What one turn of the chunk loop adds: the bytes of chunk `k`, its range,
      the `headers` for that range and the events of its post. */
  lemma ChunkStep(sd: string, fileName: string, chunks: seq<seq<Byte>>, total: nat, net: nat -> nat -> Attempt,
                  k: nat, ranges: seq<Range>, index: nat, range: Range)
    requires k < |chunks|
    requires ranges == RangesFrom(chunks, 0, total)[..k]
    requires index == |Flatten(chunks[..k])|
    requires range == Range(index, index + |chunks[k]|, total)
    ensures |Flatten(chunks[..k + 1])| == range.end
    ensures ranges + [range] == RangesFrom(chunks, 0, total)[..k + 1]
    ensures HeadersOf(ranges + [range]) == HeadersOf(ranges) + [HeaderMap(range)]
    ensures FileEvents(sd, fileName, chunks[..k + 1], net)
         == FileEvents(sd, fileName, chunks[..k], net) + ChunkEvents(sd, fileName, chunks[k], net(k))
  {
    RangesPrefixStep(chunks, k, total);
    HeadersOfSnoc(ranges, range);
    FileEventsSnoc(sd, fileName, chunks, net, k);
  }

  lemma HeadersOfSnoc(rs: seq<Range>, r: Range)
    ensures HeadersOf(rs + [r]) == HeadersOf(rs) + [HeaderMap(r)]
  {
    assert (rs + [r])[..|rs|] == rs;
  }

  /** After the last turn the prefixes are the whole. */
  lemma AllChunksDone(chunks: seq<seq<Byte>>, total: nat)
    ensures chunks[..|chunks|] == chunks
    ensures RangesFrom(chunks, 0, total)[..|chunks|] == RangesFrom(chunks, 0, total)
  {
  }

  /** The body of the per-file `with open(f, 'rb')` block: the size and base
      name of the file, then its chunks, each posted under the base name. */
  method UploadFile(sd: string, path: string, data: seq<Byte>, chunkSize: int, net: nat -> nat -> Attempt)
    returns (trace: seq<Event>, ranges: seq<Range>, headerLog: seq<map<string, string>>, index: nat)
    requires chunkSize >= -1
    ensures trace == FileEvents(sd, Basename(path), Chunks(data, chunkSize), net)
    ensures ranges == RangesFrom(Chunks(data, chunkSize), 0, |data|)
    ensures headerLog == HeadersOf(ranges)
    ensures chunkSize != 0 ==> index == |data|
  {
    var contentSize := |data|;
    var fileName := Basename(path);
    var chunks := ReadInChunks(data, chunkSize);
    trace, ranges, headerLog, index := UploadChunks(sd, fileName, chunks, contentSize, net);
  }

  /** The bytes the posts among `events` carry, in order. */
  function PostedBytes(events: seq<Event>): seq<Byte> {
    if events == [] then []
    else PostedBytes(events[..|events| - 1])
         + (if events[|events| - 1].UploadPost? then events[|events| - 1].chunk else [])
  }

  lemma {:induction false} PostedBytesAppend(a: seq<Event>, b: seq<Event>)
    ensures PostedBytes(a + b) == PostedBytes(a) + PostedBytes(b)
  {
    if b == [] {
      assert a + b == a;
    } else {
      assert (a + b)[..|a + b| - 1] == a + b[..|b| - 1];
      PostedBytesAppend(a, b[..|b| - 1]);
    }
  }

  /** The number of chunks among the first `n` whose attempts all raise. */
  function Abandoned(net: nat -> nat -> Attempt, n: nat): nat {
    if n == 0 then 0 else Abandoned(net, n - 1) + (if AllRaised(net(n - 1)) then 1 else 0)
  }

  /** One chunk is posted first, then between 1 and `MaxAttempts` times in
      all, and abandoned, with one warning, exactly when every attempt raises. */
  lemma ChunkCounts(sd: string, name: string, chunk: seq<Byte>, outcome: nat -> Attempt)
    ensures var t := ChunkEvents(sd, name, chunk, outcome);
      && t != [] && t[0] == UploadPost(sd, name, chunk)
      && 1 <= CountPosts(t) <= MaxAttempts
      && CountGaveUp(t) == (if AllRaised(outcome) then 1 else 0)
  {
    var post := UploadPost(sd, name, chunk);
    var attempts := AttemptsFrom(post, outcome, 0);
    var tail := if AllRaised(outcome) then [GaveUp(sd)] else [];
    assert CountPosts(attempts) >= 1 && CountPosts(attempts) <= MaxAttempts && CountGaveUp(attempts) == 0 by {
      AttemptCounts(post, outcome, 0);
    }
    assert attempts[0] == post;
    assert CountPosts(tail) == 0 && CountGaveUp(tail) == (if AllRaised(outcome) then 1 else 0) by {
      if AllRaised(outcome) {
        assert tail[1..] == [];
      }
    }
    CountsAppend(attempts, tail);
  }

  /** Upload bounds for one file: every chunk is posted at least once and at
      most `MaxAttempts` times, one warning is logged per abandoned chunk, and
      abandoning a chunk does not stop the chunks after it from being posted. */
  lemma FileCounts(sd: string, name: string, chunks: seq<seq<Byte>>, net: nat -> nat -> Attempt)
    ensures var t := FileEvents(sd, name, chunks, net);
      && |chunks| <= CountPosts(t) <= MaxAttempts * |chunks|
      && CountGaveUp(t) == Abandoned(net, |chunks|)
      && forall k :: 0 <= k < |chunks| ==> UploadPost(sd, name, chunks[k]) in t
    ensures EachChunkBounded(sd, name, chunks, net)
  {
    FilePostCounts(sd, name, chunks, net);
    ChunksAllPosted(sd, name, chunks, net);
    ChunkSegments(sd, name, chunks, net);
  }

  /** The events of the file split chunk by chunk: the events of chunk `k`
      follow those of the chunks before it and hold between 1 and
      `MaxAttempts` posts. */
  predicate EachChunkBounded(sd: string, name: string, chunks: seq<seq<Byte>>, net: nat -> nat -> Attempt) {
    forall k :: 0 <= k < |chunks| ==>
      var seg := ChunkEvents(sd, name, chunks[k], net(k));
      && FileEvents(sd, name, chunks[..k + 1], net) == FileEvents(sd, name, chunks[..k], net) + seg
      && 1 <= CountPosts(seg) <= MaxAttempts
  }

  lemma ChunkSegments(sd: string, name: string, chunks: seq<seq<Byte>>, net: nat -> nat -> Attempt)
    ensures EachChunkBounded(sd, name, chunks, net)
  {
    forall k | 0 <= k < |chunks|
      ensures var seg := ChunkEvents(sd, name, chunks[k], net(k));
        && FileEvents(sd, name, chunks[..k + 1], net) == FileEvents(sd, name, chunks[..k], net) + seg
        && 1 <= CountPosts(seg) <= MaxAttempts
    {
      FileEventsSnoc(sd, name, chunks, net, k);
      ChunkCounts(sd, name, chunks[k], net(k));
    }
  }

  lemma {:induction false} FilePostCounts(sd: string, name: string, chunks: seq<seq<Byte>>, net: nat -> nat -> Attempt)
    ensures var t := FileEvents(sd, name, chunks, net);
      && |chunks| <= CountPosts(t) <= MaxAttempts * |chunks|
      && CountGaveUp(t) == Abandoned(net, |chunks|)
  {
    if chunks != [] {
      var n := |chunks| - 1;
      var init := chunks[..n];
      var head := FileEvents(sd, name, init, net);
      var last := ChunkEvents(sd, name, chunks[n], net(n));
      assert FileEvents(sd, name, chunks, net) == head + last;
      FilePostCounts(sd, name, init, net);
      ChunkCounts(sd, name, chunks[n], net(n));
      CountsAppend(head, last);
    }
  }

  lemma ChunksAllPosted(sd: string, name: string, chunks: seq<seq<Byte>>, net: nat -> nat -> Attempt)
    ensures forall k :: 0 <= k < |chunks| ==> UploadPost(sd, name, chunks[k]) in FileEvents(sd, name, chunks, net)
  {
    forall k | 0 <= k < |chunks|
      ensures UploadPost(sd, name, chunks[k]) in FileEvents(sd, name, chunks, net)
    {
      ChunkPosted(sd, name, chunks, net, k);
    }
  }

  lemma {:induction false} ChunkPosted(sd: string, name: string, chunks: seq<seq<Byte>>, net: nat -> nat -> Attempt, k: nat)
    requires k < |chunks|
    ensures UploadPost(sd, name, chunks[k]) in FileEvents(sd, name, chunks, net)
  {
    var n := |chunks| - 1;
    if k < n {
      ChunkPosted(sd, name, chunks[..n], net, k);
      assert chunks[..n][k] == chunks[k];
      EarlierStillPosted(sd, name, chunks, net, k);
    } else {
      LastPosted(sd, name, chunks, net);
    }
  }

  /** The last chunk's first attempt is among the events of the file. */
  lemma LastPosted(sd: string, name: string, chunks: seq<seq<Byte>>, net: nat -> nat -> Attempt)
    requires chunks != []
    ensures UploadPost(sd, name, chunks[|chunks| - 1]) in FileEvents(sd, name, chunks, net)
  {
    var n := |chunks| - 1;
    var head := FileEvents(sd, name, chunks[..n], net);
    var last := ChunkEvents(sd, name, chunks[n], net(n));
    FileEventsLast(sd, name, chunks, net);
    ChunkStartsWithPost(sd, name, chunks[n], net(n));
    assert (head + last)[|head|] == last[0];
  }

  /** A post among the events of all chunks but the last stays among the
      events of the file. */
  lemma EarlierStillPosted(sd: string, name: string, chunks: seq<seq<Byte>>, net: nat -> nat -> Attempt, k: nat)
    requires k < |chunks| - 1
    requires UploadPost(sd, name, chunks[k]) in FileEvents(sd, name, chunks[..|chunks| - 1], net)
    ensures UploadPost(sd, name, chunks[k]) in FileEvents(sd, name, chunks, net)
  {
    FileEventsLast(sd, name, chunks, net);
  }

  lemma FileEventsLast(sd: string, name: string, chunks: seq<seq<Byte>>, net: nat -> nat -> Attempt)
    requires chunks != []
    ensures var n := |chunks| - 1;
      FileEvents(sd, name, chunks, net) == FileEvents(sd, name, chunks[..n], net) + ChunkEvents(sd, name, chunks[n], net(n))
  {
  }

  lemma ChunkStartsWithPost(sd: string, name: string, chunk: seq<Byte>, outcome: nat -> Attempt)
    ensures var t := ChunkEvents(sd, name, chunk, outcome); t != [] && t[0] == UploadPost(sd, name, chunk)
  {
  }

  /** When the first attempt of every chunk returns, the server receives each
      chunk exactly once, in order, with no wait and no warning: the posted
      bytes are the file's bytes. */
  lemma {:induction false} CleanUploadChunks(sd: string, name: string, chunks: seq<seq<Byte>>, net: nat -> nat -> Attempt)
    requires forall k :: 0 <= k < |chunks| ==> net(k)(0).Returned?
    ensures var t := FileEvents(sd, name, chunks, net);
      && PostedBytes(t) == Flatten(chunks)
      && CountPosts(t) == |chunks|
      && Sleeps(t) == []
      && CountGaveUp(t) == 0
  {
    if chunks != [] {
      var n := |chunks| - 1;
      var init := chunks[..n];
      CleanUploadChunks(sd, name, init, net);
      var head := FileEvents(sd, name, init, net);
      var post := UploadPost(sd, name, chunks[n]);
      FileEventsLast(sd, name, chunks, net);
      CleanChunk(sd, name, chunks[n], net(n));
      CountsAppend(head, [post]);
      PostedBytesAppend(head, [post]);
      assert chunks == init + [chunks[n]];
      FlattenSnoc(init, chunks[n]);
    }
  }

  /** A chunk whose first attempt returns is posted once and nothing else. */
  lemma CleanChunk(sd: string, name: string, chunk: seq<Byte>, outcome: nat -> Attempt)
    requires outcome(0).Returned?
    ensures ChunkEvents(sd, name, chunk, outcome) == [UploadPost(sd, name, chunk)]
    ensures PostedBytes([UploadPost(sd, name, chunk)]) == chunk
  {
    var post := UploadPost(sd, name, chunk);
    assert AttemptsFrom(post, outcome, 0) == [post];
    assert !AllRaised(outcome);
  }

  /** The clean upload of a whole file sends exactly its bytes. */
  lemma CleanUpload(sd: string, path: string, data: seq<Byte>, n: int, net: nat -> nat -> Attempt)
    requires n != 0 && n >= -1
    requires forall k :: net(k)(0).Returned?
    ensures var t := FileEvents(sd, Basename(path), Chunks(data, n), net);
      PostedBytes(t) == data && CountPosts(t) == |Chunks(data, n)| && Sleeps(t) == []
  {
    CleanUploadChunks(sd, Basename(path), Chunks(data, n), net);
    ChunksCoverData(data, n);
  }

  /** What the upload pass does for line `i` of the manifest: nothing visible
      for an accession or a URL, the upload of the file for a local line. The
      chunks of line `i` meet the outcomes `net(i)`. */
  function LineEvents(f: string, i: nat, fs: FileSystem, sd: string, net: nat -> nat -> nat -> Attempt): seq<Event>
    requires !Missing(fs, f)
  {
    if KindOf(f) == Local then FileEvents(sd, Basename(f), Chunks(fs[f], DefaultChunkSize), net(i)) else []
  }

  /** The events of the upload pass over `files`, line by line. */
  function PassEvents(files: seq<string>, fs: FileSystem, sd: string, net: nat -> nat -> nat -> Attempt): seq<Event>
    requires AllLocalsExist(files, fs)
  {
    if files == [] then []
    else
      var n := |files| - 1;
      assert forall i :: 0 <= i < n ==> files[..n][i] == files[i];
      PassEvents(files[..n], fs, sd, net) + LineEvents(files[n], n, fs, sd, net)
  }

  /** What line `i` adds to the lists and to the events of the pass. */
  lemma PassStep(files: seq<string>, fs: FileSystem, sd: string, net: nat -> nat -> nat -> Attempt, i: nat)
    requires i < |files| && AllLocalsExist(files, fs)
    ensures !Missing(fs, files[i]) && AllLocalsExist(files[..i + 1], fs)
    ensures OfKind(files[..i + 1], Accession)
         == OfKind(files[..i], Accession) + (if KindOf(files[i]) == Accession then [files[i]] else [])
    ensures OfKind(files[..i + 1], Url)
         == OfKind(files[..i], Url) + (if KindOf(files[i]) == Url then [files[i]] else [])
    ensures OfKind(files[..i + 1], Local)
         == OfKind(files[..i], Local) + (if KindOf(files[i]) == Local then [files[i]] else [])
    ensures PassEvents(files[..i + 1], fs, sd, net)
         == PassEvents(files[..i], fs, sd, net) + LineEvents(files[i], i, fs, sd, net)
  {
    assert files[..i + 1] == files[..i] + [files[i]];
    assert files[..i + 1][..i] == files[..i];
    OfKindSnoc(files[..i], files[i], Accession);
    OfKindSnoc(files[..i], files[i], Url);
    OfKindSnoc(files[..i], files[i], Local);
  }

  /** The second loop of `main`: accessions and URLs are collected in manifest
      order, every local file is uploaded, and the counter ends one past the
      number of local files. The check pass must have accepted `files`. */
  method UploadPass(files: seq<string>, fs: FileSystem, sd: string, net: nat -> nat -> nat -> Attempt)
    returns (srrList: seq<string>, urlList: seq<string>, uploadCounter: nat, trace: seq<Event>)
    requires AllLocalsExist(files, fs)
    ensures srrList == OfKind(files, Accession)
    ensures urlList == OfKind(files, Url)
    ensures uploadCounter == 1 + |OfKind(files, Local)|
    ensures trace == PassEvents(files, fs, sd, net)
  {
    srrList, urlList, uploadCounter, trace := [], [], 1, [];
    for i := 0 to |files|
      invariant AllLocalsExist(files[..i], fs)
      invariant srrList == OfKind(files[..i], Accession)
      invariant urlList == OfKind(files[..i], Url)
      invariant uploadCounter == 1 + |OfKind(files[..i], Local)|
      invariant trace == PassEvents(files[..i], fs, sd, net)
    {
      var f := files[i];
      PassStep(files, fs, sd, net, i);
      if IsAccession(f) {
        srrList := srrList + [f];
        continue;
      }
      if IsUrl(f) {
        urlList := urlList + [f];
        continue;
      }
      var fileTrace, ranges, headerLog, index := UploadFile(sd, f, fs[f], DefaultChunkSize, net(i));
      trace := trace + fileTrace;
      uploadCounter := uploadCounter + 1;
    }
    assert files[..|files|] == files;
  }

  /** The number of chunks of the local files of the manifest. */
  function TotalChunks(files: seq<string>, fs: FileSystem): nat
    requires AllLocalsExist(files, fs)
  {
    if files == [] then 0
    else
      var n := |files| - 1;
      assert forall i :: 0 <= i < n ==> files[..n][i] == files[i];
      TotalChunks(files[..n], fs) + (if KindOf(files[n]) == Local then |Chunks(fs[files[n]], DefaultChunkSize)| else 0)
  }

  /** Over the whole pass, each chunk of each local file is posted at least
      once and at most `MaxAttempts` times. */
  lemma {:induction false} PassCounts(files: seq<string>, fs: FileSystem, sd: string, net: nat -> nat -> nat -> Attempt)
    requires AllLocalsExist(files, fs)
    ensures var t := PassEvents(files, fs, sd, net);
      TotalChunks(files, fs) <= CountPosts(t) <= MaxAttempts * TotalChunks(files, fs)
    ensures EachLineBounded(files, fs, sd, net)
  {
    LineSegments(files, fs, sd, net);
    if files != [] {
      var n := |files| - 1;
      var f := files[n];
      assert AllLocalsExist(files[..n], fs) by {
        assert forall i :: 0 <= i < n ==> files[..n][i] == files[i];
      }
      PassCounts(files[..n], fs, sd, net);
      var head := PassEvents(files[..n], fs, sd, net);
      var line := LineEvents(f, n, fs, sd, net);
      CountsAppend(head, line);
      if KindOf(f) == Local {
        FileCounts(sd, Basename(f), Chunks(fs[f], DefaultChunkSize), net(n));
      }
    }
  }

  /** The events of line `i` follow those of the lines before it; an
      accession or URL line adds none, and a local line adds its file's
      chunks, each posted between 1 and `MaxAttempts` times. */
  predicate LineBounded(files: seq<string>, fs: FileSystem, sd: string, net: nat -> nat -> nat -> Attempt, i: nat)
    requires i < |files| && AllLocalsExist(files, fs)
  {
    && AllLocalsExist(files[..i + 1], fs)
    && PassEvents(files[..i + 1], fs, sd, net)
       == PassEvents(files[..i], fs, sd, net) + LineEvents(files[i], i, fs, sd, net)
    && (KindOf(files[i]) != Local ==> LineEvents(files[i], i, fs, sd, net) == [])
    && (KindOf(files[i]) == Local ==>
          var chunks := Chunks(fs[files[i]], DefaultChunkSize);
          LineEvents(files[i], i, fs, sd, net) == FileEvents(sd, Basename(files[i]), chunks, net(i))
          && EachChunkBounded(sd, Basename(files[i]), chunks, net(i)))
  }

  /** The events of the pass split line by line, each line bounded. */
  predicate EachLineBounded(files: seq<string>, fs: FileSystem, sd: string, net: nat -> nat -> nat -> Attempt)
    requires AllLocalsExist(files, fs)
  {
    forall i :: 0 <= i < |files| ==> LineBounded(files, fs, sd, net, i)
  }

  lemma LineSegments(files: seq<string>, fs: FileSystem, sd: string, net: nat -> nat -> nat -> Attempt)
    requires AllLocalsExist(files, fs)
    ensures EachLineBounded(files, fs, sd, net)
  {
    forall i | 0 <= i < |files|
      ensures LineBounded(files, fs, sd, net, i)
    {
      PassStep(files, fs, sd, net, i);
      if KindOf(files[i]) == Local {
        ChunkSegments(sd, Basename(files[i]), Chunks(fs[files[i]], DefaultChunkSize), net(i));
      }
    }
  }

  /** A manifest without local lines uploads nothing. */
  lemma {:induction false} NoLocalNoUpload(files: seq<string>, fs: FileSystem, sd: string, net: nat -> nat -> nat -> Attempt)
    requires AllLocalsExist(files, fs)
    requires OfKind(files, Local) == []
    ensures PassEvents(files, fs, sd, net) == []
  {
    if files != [] {
      var n := |files| - 1;
      assert AllLocalsExist(files[..n], fs) by {
        assert forall i :: 0 <= i < n ==> files[..n][i] == files[i];
      }
      assert OfKind(files[..n], Local) == [];
      NoLocalNoUpload(files[..n], fs, sd, net);
    }
  }

  /** A file of three times the chunk size is read in three full chunks,
      whose ranges are the three thirds of the file. */
  lemma ThreeChunks(data: seq<Byte>, n: nat)
    requires n > 0 && |data| == 3 * n
    ensures Chunks(data, n) == [data[..n], data[n..2 * n], data[2 * n..]]
    ensures RangesFrom(Chunks(data, n), 0, |data|)
         == [Range(0, n, 3 * n), Range(n, 2 * n, 3 * n), Range(2 * n, 3 * n, 3 * n)]
  {
    ThreePieces(data, n);
    ThreeRanges(data[..n], data[n..2 * n], data[2 * n..], n);
  }

  /** The three pieces a file of three chunk sizes is read in. */
  lemma ThreePieces(data: seq<Byte>, n: nat)
    requires n > 0 && |data| == 3 * n
    ensures Chunks(data, n) == [data[..n], data[n..2 * n], data[2 * n..]]
  {
    var rest1 := data[n..];
    var rest2 := rest1[n..];
    assert rest2 == data[2 * n..];
    assert rest2[n..] == [];
    assert Chunks(rest2[n..], n) == [];
    assert Chunks(rest2, n) == [rest2];
    assert Chunks(rest1, n) == [rest1[..n]] + [rest2];
    assert rest1[..n] == data[n..2 * n];
  }

  /** The ranges of three chunks of one size. */
  lemma ThreeRanges(x: seq<Byte>, y: seq<Byte>, z: seq<Byte>, n: nat)
    requires |x| == |y| == |z| == n
    ensures RangesFrom([x, y, z], 0, 3 * n)
         == [Range(0, n, 3 * n), Range(n, 2 * n, 3 * n), Range(2 * n, 3 * n, 3 * n)]
  {
    var cs := [x, y, z];
    assert cs[1..] == [y, z];
    assert cs[1..][1..] == [z];
    assert RangesFrom(cs[1..][1..], 2 * n, 3 * n) == [Range(2 * n, 3 * n, 3 * n)];
    assert RangesFrom(cs[1..], n, 3 * n) == [Range(n, 2 * n, 3 * n), Range(2 * n, 3 * n, 3 * n)];
  }

  /** A 6,000,000-byte file with 2,000,000-byte chunks gets the
      `Content-Range` values `bytes 0-2000000/6000000`,
      `bytes 2000000-4000000/6000000` and `bytes 4000000-6000000/6000000`,
      and `Content-length` 6000000 with each. */
  lemma SixMegabyteFile(data: seq<Byte>)
    requires |data| == 6_000_000
    ensures var rs := RangesFrom(Chunks(data, 2_000_000), 0, |data|);
      && |rs| == 3
      && HeaderMap(rs[0])["Content-Range"] == "bytes 0-2000000/6000000"
      && HeaderMap(rs[1])["Content-Range"] == "bytes 2000000-4000000/6000000"
      && HeaderMap(rs[2])["Content-Range"] == "bytes 4000000-6000000/6000000"
      && forall k :: 0 <= k < 3 ==> HeaderMap(rs[k])["Content-length"] == "6000000"
  {
    ThreeChunks(data, 2_000_000);
    var rs := RangesFrom(Chunks(data, 2_000_000), 0, |data|);
    assert rs == [Range(0, 2_000_000, 6_000_000), Range(2_000_000, 4_000_000, 6_000_000), Range(4_000_000, 6_000_000, 6_000_000)];
    HeaderValues(rs[0]);
    HeaderValues(rs[1]);
    HeaderValues(rs[2]);
    Millions();
    ThirdsInContentRange();
  }

  /** The two header values that vary with the range. */
  lemma HeaderValues(r: Range)
    ensures HeaderMap(r)["Content-Range"] == ContentRange(r)
    ensures HeaderMap(r)["Content-length"] == Numerals.Decimal(r.total)
  {
  }

  /** The three `Content-Range` values, from the renderings of 2000000,
      4000000 and 6000000. Each value has a lemma of its own, and so has
      each literal concatenation, so that every proof compares one string
      literal with another. */
  lemma ThirdsInContentRange()
    ensures ContentRange(Range(0, 2_000_000, 6_000_000)) == "bytes 0-2000000/6000000"
    ensures ContentRange(Range(2_000_000, 4_000_000, 6_000_000)) == "bytes 2000000-4000000/6000000"
    ensures ContentRange(Range(4_000_000, 6_000_000, 6_000_000)) == "bytes 4000000-6000000/6000000"
  {
    FirstThird();
    SecondThird();
    LastThird();
  }

  lemma FirstThird()
    ensures ContentRange(Range(0, 2_000_000, 6_000_000)) == "bytes 0-2000000/6000000"
  {
    Millions();
    FirstThirdText();
  }

  lemma FirstThirdText()
    ensures "bytes " + "0" + "-" + "2000000" + "/" + "6000000" == "bytes 0-2000000/6000000"
  {
  }

  lemma SecondThird()
    ensures ContentRange(Range(2_000_000, 4_000_000, 6_000_000)) == "bytes 2000000-4000000/6000000"
  {
    Millions();
    SecondThirdText();
  }

  lemma SecondThirdText()
    ensures "bytes " + "2000000" + "-" + "4000000" + "/" + "6000000" == "bytes 2000000-4000000/6000000"
  {
  }

  lemma LastThird()
    ensures ContentRange(Range(4_000_000, 6_000_000, 6_000_000)) == "bytes 4000000-6000000/6000000"
  {
    Millions();
    LastThirdText();
  }

  lemma LastThirdText()
    ensures "bytes " + "4000000" + "-" + "6000000" + "/" + "6000000" == "bytes 4000000-6000000/6000000"
  {
  }

  /** The renderings of the three offsets, one lemma each. */
  lemma Millions()
    ensures Numerals.Decimal(2_000_000) == "2000000"
    ensures Numerals.Decimal(4_000_000) == "4000000"
    ensures Numerals.Decimal(6_000_000) == "6000000"
  {
    TwoMillion();
    FourMillion();
    SixMillion();
  }

  lemma TwoMillion()
    ensures Numerals.Decimal(2_000_000) == "2000000"
  {
    Numerals.DecimalMillions(2);
    assert Numerals.DigitChar(2) == '2';
  }

  lemma FourMillion()
    ensures Numerals.Decimal(4_000_000) == "4000000"
  {
    Numerals.DecimalMillions(4);
    assert Numerals.DigitChar(4) == '4';
  }

  lemma SixMillion()
    ensures Numerals.Decimal(6_000_000) == "6000000"
  {
    Numerals.DecimalMillions(6);
    assert Numerals.DigitChar(6) == '6';
  }
}
