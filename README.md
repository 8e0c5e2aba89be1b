# ISMARA uploader, modelled in Dafny

`ismara_uploader.py` sends a batch of sequencing inputs to the ISMARA web
server. It reads a manifest (`--file-list`) with one input reference per
line and classifies each stripped line:

- a sequencing-run accession (`^SRR\d+$` or `^SRR\d+\s+\S+`);
- a remote URL (`http://`, `https://`, `ftp://`);
- otherwise a local file, which must exist.

Then it works in this order:

1. It checks every local file before anything is sent.
2. It opens a session and saves the job parameters. The organism code is resolved through an alias table and gets the `_f5` suffix for the CAGE builds.
3. It uploads every local file in chunks of 50,000,000 bytes. Each chunk is posted with up to 20 attempts, and failed attempt `i` is followed by a wait of `i * 60` seconds.
4. It requests the run, sending the accession and URL lines newline-joined.

This project models that core in Dafny 4.11 and proves what it promises.
What the script does towards the outside world is modelled as a trace of
events:

- the session request;
- the saved job parameters;
- each chunk post attempt;
- each wait;
- each "could not upload" warning;
- the run request.

The network is an oracle. `net(i)(k)(j)` says whether attempt `j` at
chunk `k` of manifest line `i` returns or raises. The session name `sd` is
a parameter. The local file system is a map from path to bytes.

Modules, in dependency order:

- `Wrappers`, `Text`, `Numerals` (text.dfy, numerals.dfy): `Option` and `Result`; `str.strip` over the whitespace set of `str.isspace`; `"\n".join` and its inverse; `os.path.basename`; decimal rendering of naturals.
- `Bytes`, `Manifest` (manifest.dfy): the file system, line classification, the check pass, and the partition of the manifest into accession, URL and local lines.
- `Organism`, `Job` (job.dfy): the alias table and the `_f5` rule, the saved job parameters, and the run-request fields.
- `Chunking`, `Ranges` (chunking.dfy): `read_in_chunks`, the byte ranges of the chunks, and the `Content-Range` value.
- `Events`, `Retry` (retry.dfy): the event trace and the 20-attempt retry loop.
- `Upload` (upload.dfy): the per-file chunk loop and the upload pass over the manifest.
- `Uploader` (uploader.dfy): `main` from the parsed command line to the run request.

Imperative parts of the source are methods with loops, proved against
specification functions:

- the check pass: `CheckFiles`;
- the retry loop: `PostWithRetry`;
- `read_in_chunks`: `ReadInChunks`;
- the chunk loop with its running `index` and the `headers` dict: `UploadChunks`;
- the upload pass with its lists and counter: `UploadPass`;
- `main`: `RunUploader`.

Classification, organism resolution and field construction are functions.

Behaviour of the code worth knowing; the model follows the code:

- The `-t` choices are `microarray`, `rnaseq` and `chipseq` (ismara_uploader.py:29). There is no CAGE data type.
- The wait `i * 60` also follows the twentieth failed attempt, 19 minutes, before the loop gives up (:130-133). Waits before giving up total 11400 seconds.
- The `headers` dict (:114-121) is filled in for every chunk but never passed to the post (:126). The model records what it holds and does not send it.
- `Content-length` holds the size of the whole file, not of the chunk (:120).
- The range end is exclusive (`offset = index + len(chunk)`, :118). Section 4.2 of RFC 7233 has an inclusive last-byte position.
- Any response, whatever its status, ends the retry loop. Only a raised exception is retried (:125-131).
- `re.match(r'^SRR\d+$', s)` also matches before a final newline, and the model says so. Lines are stripped first, so this never shows.

## Model

| member | source | states |
|---|---|---|
| Text.Strip | ismara_uploader.py:53 | `line.strip()`: `TrimEnd` after `TrimStart`; its properties are those of `StripMargins`, `StripIdempotent` and `StripBlank` |
| Text.TrimStart | ismara_uploader.py:53 | `lstrip`: the result is a suffix of the line, what is cut off is all whitespace, and the result does not start with whitespace |
| Text.TrimEnd | ismara_uploader.py:53 | `rstrip`: the result is a prefix, what is cut off is all whitespace, and the result does not end with whitespace |
| Text.StripMargins | ismara_uploader.py:53 | `strip()` returns a slice of the line with only whitespace removed on both sides and no whitespace at either end |
| Text.StripIdempotent | ismara_uploader.py:53 | stripping a stripped line changes nothing |
| Text.StripBlank | ismara_uploader.py:53 | a line of whitespace strips to the empty string |
| Text.SplitJoin | ismara_uploader.py:151-152 | splitting a newline-joined list of newline-free items at the newlines gives the list back |
| Text.Basename | ismara_uploader.py:116 | the base name is the part of the path after its last `/`, and it holds no `/` |
| Numerals.Decimal | ismara_uploader.py:120-121 | `str(n)` is a non-empty digit string without a leading zero |
| Numerals.ParseDecimalOfDecimal | ismara_uploader.py:120-121 | reading the decimal rendering of `n` back gives `n` |
| Numerals.DecimalInjective | ismara_uploader.py:120-121 | different sizes and offsets render differently |
| Bytes.Exists | ismara_uploader.py:59 | `os.path.exists`: the path is a file of the file system, and the empty path never exists; `BlankLineIsMissing` and `CheckedLocalsExist` use it |
| Manifest.StripAll | ismara_uploader.py:53 | the manifest kept by `main` has one stripped entry per line, in order |
| Manifest.IsBareAccession | ismara_uploader.py:55 | `re.match(r'^SRR\d+$', s)`: "SRR" and digits, with `$` also matching before a final newline; `AccessionIsRegexMatch` states it with the other pattern |
| Manifest.DigitsEnd | ismara_uploader.py:55 | the scan for `\d+` stops at the first non-digit |
| Manifest.SpacesEnd | ismara_uploader.py:55 | the scan for `\s+` stops at the first non-whitespace |
| Manifest.MatePatternScan | ismara_uploader.py:55 | the scanning test holds iff some split of the line matches `^SRR\d+\s+\S+` |
| Manifest.IsMateAccession | ismara_uploader.py:55 | `re.match(r'^SRR\d+\s+\S+', s)` decided by one scan; `MatePatternScan` proves it holds iff some split matches the pattern |
| Manifest.IsUrl | ismara_uploader.py:57 | the URL test of :57: the line starts with `http://`, `https://` or `ftp://`; `UrlIsNoAccession` shows a URL is never taken for an accession |
| Manifest.KindOf | ismara_uploader.py:104-110 | the classification of both passes, accession before URL before local file (also :55-59); `OfKindMembers`, `OfKindComplete`, `ManifestPartition` and `SkippedLinesCollected` state what it sorts where |
| Manifest.IsAccession | ismara_uploader.py:55 | the `or` of the two accession tests, also at :105; `AccessionIsRegexMatch` states it is exactly a match of either pattern |
| Manifest.AccessionIsRegexMatch | ismara_uploader.py:55 | a line is classified as an accession iff it matches `^SRR\d+$` or `^SRR\d+\s+\S+` |
| Manifest.UrlIsNoAccession | ismara_uploader.py:55-58 | no URL line matches an accession pattern, so a URL line is always classified as a URL |
| Manifest.MissingMessage | ismara_uploader.py:60 | the text `"File %s does not exist."` of the exception; `CheckFiles` and `AbortIffMissing` state that it names the first missing line |
| Manifest.FirstMissing | ismara_uploader.py:54-60 | the check pass stops at the first local line that does not exist; it finds none iff every local line exists |
| Manifest.FirstMissingAt | ismara_uploader.py:54-60 | a missing line with every local line before it existing is where the check pass stops |
| Manifest.SizeMap | ismara_uploader.py:61 | `file_sizes` has exactly the local lines as keys, each with the size of its file |
| Manifest.CheckFiles | ismara_uploader.py:51-61 | the check loop succeeds iff every local line exists, returns `file_sizes`, and otherwise fails with "File p does not exist." for the first missing line |
| Manifest.OfKind | ismara_uploader.py:101-110 | the lines of one kind in manifest order, as `srr_list` and `url_list` are collected; `OfKindAppend`, `OfKindMembers`, `OfKindComplete`, `OfKindSnoc` and `ManifestPartition` state it |
| Manifest.OfKindAppend | ismara_uploader.py:104-110 | the collected lists keep manifest order: collecting distributes over concatenation |
| Manifest.OfKindMembers | ismara_uploader.py:104-110 | every collected line is a manifest line of that kind |
| Manifest.OfKindComplete | ismara_uploader.py:104-110 | every manifest line of a kind is collected in the list of that kind |
| Manifest.SkippedLinesCollected | ismara_uploader.py:54-110 | the lines the check pass skips are exactly those in `srr_list` and `url_list`, and every other line exists |
| Manifest.OfKindSnoc | ismara_uploader.py:104-110 | one more line adds itself to the list of its kind only |
| Manifest.ManifestPartition | ismara_uploader.py:104-110 | the accession, URL and local lists partition the manifest as a multiset, with their lengths adding up to its length |
| Manifest.CheckedLocalsExist | ismara_uploader.py:59-112 | after the check pass every local line that the upload pass opens exists |
| Manifest.BlankLineIsMissing | ismara_uploader.py:53-60 | a blank line strips to "", which is a local path that does not exist |
| Organism.Resolve | ismara_uploader.py:71-81 | an alias of `organism_map` maps to its build, any other code passes through; `ResolveIdempotent` states it |
| Organism.OrganismField | ismara_uploader.py:78-91 | the resolved build, with `_f5` appended for hg19, mm10, hg38 and mm39; `OrganismFieldTable` and `SuffixRule` state it |
| Organism.OrganismFieldTable | ismara_uploader.py:71-91 | each of the 18 choices is sent as listed, e.g. human as hg38_f5, hg18 unchanged |
| Organism.ResolveIdempotent | ismara_uploader.py:71-81 | resolving twice is resolving once; a resolved choice is a choice and no alias |
| Organism.SuffixRule | ismara_uploader.py:90-91 | the organism field ends in `_f5` iff the resolved build is hg19, mm10, hg38 or mm39, and dropping the suffix gives the build |
| Job.TypeName | ismara_uploader.py:85 | the `-t` choice as sent in the `type` field, also at :148; `SingleAccessionRun` states it for `rnaseq` |
| Job.BoolText | ismara_uploader.py:87 | `str(b).lower()`; `BoolTextReadsBack` states it |
| Job.JobDataOf | ismara_uploader.py:83-91 | `job_data` with the resolved organism field and the byte sizes of the local files; `SingleAccessionRun` and `SubmittedOrganism` state what it holds |
| Job.ListField | ismara_uploader.py:151-152 | `"\n".join(xs)`; `ListFieldRoundTrip` states that it reads back |
| Job.BoolTextReadsBack | ismara_uploader.py:87-144 | `str(b).lower()` is "true" or "false" and is "true" iff the flag is set |
| Job.ListFieldRoundTrip | ismara_uploader.py:151-152 | a newline-joined list of non-empty newline-free items reads back as the list |
| Job.RunFields | ismara_uploader.py:145-153 | the nine form fields of the run request; `RunFieldsReadBack` and `SingleAccessionFields` state what they carry |
| Job.RunFieldsReadBack | ismara_uploader.py:141-153 | the run request gives back both lists, the flag, the session name and the organism of the saved job parameters |
| Chunking.Read | ismara_uploader.py:168 | `read(n)` returns the next `min(n, rest)` bytes, and everything for `n == -1` |
| Chunking.Chunks | ismara_uploader.py:165-171 | the chunks `read_in_chunks` yields; `ChunksCoverData`, `ChunkSizes` and `EmptyFileNoChunks` state them, and `ReadInChunks` is proved against them |
| Chunking.FlattenAppend | ismara_uploader.py:165-171 | the bytes of two runs of chunks are the bytes of each in turn |
| Chunking.ChunksCoverData | ismara_uploader.py:165-171 | the chunks concatenate to the file; a chunk size of 0 yields no chunk |
| Chunking.ChunkSizes | ismara_uploader.py:165-171 | no chunk is empty, each holds at most `chunk_size` bytes and all but the last exactly that; size -1 yields the file at once |
| Chunking.EmptyFileNoChunks | ismara_uploader.py:169-170 | an empty file yields no chunk |
| Chunking.ReadInChunks | ismara_uploader.py:165-171 | the `while True` read loop yields exactly the chunks of the specification, well sized and covering the file |
| Ranges.RangesFrom | ismara_uploader.py:113-122 | the `[index, offset)` range of each chunk, `index` starting at 0 and moving to `offset`; `RangesTile` and `RangesAddressChunks` state them |
| Ranges.RangeAt | ismara_uploader.py:113-122 | chunk `k` covers the bytes from the total length of the chunks before it to that length plus its own |
| Ranges.FlattenAround | ismara_uploader.py:117-122 | the file is the bytes before chunk `k`, chunk `k`, and the bytes after it |
| Ranges.RangeOfChunk | ismara_uploader.py:118-121 | the range of chunk `k` lies within the file and addresses exactly the bytes of chunk `k` |
| Ranges.RangesAddressChunks | ismara_uploader.py:118-121 | every range lies within the file, carries the file size, and addresses exactly its chunk's bytes |
| Ranges.RangesAdjacent | ismara_uploader.py:118-122 | each range ends where the next one starts |
| Ranges.RangesEnds | ismara_uploader.py:113-122 | the first range starts at 0, the last ends at the file size, and there are none iff the file is empty |
| Ranges.RangesTile | ismara_uploader.py:113-122 | the ranges tile `[0, size)` without gap or overlap and address their chunks |
| Ranges.ContentRange | ismara_uploader.py:121 | `'bytes %s-%s/%s' % (index, offset, content_size)`; `ContentRangeReadsBack` states that it determines the range |
| Ranges.HeaderMap | ismara_uploader.py:119-121 | the three `headers` entries for a range; `RecordChunk` and `SixMegabyteFile` state them |
| Ranges.ParseContentRangeParts | ismara_uploader.py:121 | a value `bytes a-b/c` of digit strings reads as the three numbers |
| Ranges.ContentRangeReadsBack | ismara_uploader.py:121 | the `Content-Range` value determines the range it was made from |
| Events.CountsAppend | ismara_uploader.py:123-135 | posts, waits and warnings of consecutive events add up |
| Retry.Backoff | ismara_uploader.py:133 | the wait `i * 60` after failed attempt `i`; `AttemptCounts`, `BackoffsGrow` and `TotalBackoffs` state it |
| Retry.AttemptsFrom | ismara_uploader.py:124-133 | the events of the `for i in range(20)` loop; `AttemptCounts`, `RetryBound`, `ExhaustedWait` and `LastWait` state them, and `PostWithRetry` is proved against them |
| Retry.FirstReturnFrom | ismara_uploader.py:124-129 | the attempt that ends the loop is the first that does not raise, or none of the 20 |
| Retry.AttemptCounts | ismara_uploader.py:124-133 | the loop posts once per failed attempt plus once for a returning one, waits `j * 60` after failed attempt `j`, and warns nowhere |
| Retry.FirstReturnExists | ismara_uploader.py:124-129 | the loop ends early iff some of the 20 attempts returns |
| Retry.BackoffsGrow | ismara_uploader.py:133 | the waits start at 0 and never decrease |
| Retry.RetryBound | ismara_uploader.py:123-133 | each chunk gets between 1 and 20 posts; the waits start at 0 and grow; all 20 posts and waits happen iff every attempt raises, the last wait then being 19 minutes |
| Retry.TotalBackoffs | ismara_uploader.py:133 | the waits after attempts `i` to `f - 1` add up to `60 * (i + ... + (f - 1))` seconds |
| Retry.ExhaustedWait | ismara_uploader.py:124-133 | when every attempt raises, the waits add up to 11400 seconds |
| Retry.LastWait | ismara_uploader.py:130-133 | when no attempt returns, the last event is the wait after attempt 19 |
| Retry.AttemptsSplit | ismara_uploader.py:124-133 | failed attempts are followed by the rest of the loop |
| Retry.PostWithRetry | ismara_uploader.py:123-133 | the `for i in range(20)` loop produces the events of the specification; `error` is empty iff some attempt returns, and otherwise holds the exception of attempt 20 |
| Upload.ChunkEvents | ismara_uploader.py:123-135 | a chunk's attempts, then the warning when all 20 raise; `ChunkCounts` states them and `PostChunk` is proved against them |
| Upload.FileEvents | ismara_uploader.py:117-135 | the events of a file's chunks in order; `FileCounts` and `CleanUploadChunks` state them and `UploadChunks` is proved against them |
| Upload.PostChunk | ismara_uploader.py:123-135 | one chunk's retry loop followed by the warning naming the session when it is exhausted |
| Upload.HeadersOf | ismara_uploader.py:114-121 | the `headers` dict after each chunk, for ranges in order; `HeadersOfAt` states that entry `k` holds the values of range `k`, and `UploadChunks` is proved against it |
| Upload.HeadersOfAt | ismara_uploader.py:114-121 | after chunk `k`, `headers` holds exactly the three values of range `k` |
| Upload.RecordChunk | ismara_uploader.py:118-122 | the chunk covers `[index, index + len(chunk))` of the file, and `headers` then holds exactly the three values for that range, whatever values it held for those three keys |
| Upload.UploadChunks | ismara_uploader.py:113-135 | the chunk loop posts the chunks in order under the base name, records their ranges and each state of `headers`, and its `index` ends at the number of bytes read |
| Upload.UploadFile | ismara_uploader.py:112-135 | one local file is posted chunk by chunk, each range recorded, and `index` ends at the file size |
| Upload.ChunkCounts | ismara_uploader.py:123-135 | a chunk is posted first, between 1 and 20 times in all, and warned about once exactly when all 20 attempts raise |
| Upload.FileCounts | ismara_uploader.py:117-135 | the events of a file split chunk by chunk, each chunk's events holding between 1 and 20 posts; so the file gets between `n` and `20 n` posts for `n` chunks; one warning per abandoned chunk; an abandoned chunk does not stop the later ones |
| Upload.CleanUploadChunks | ismara_uploader.py:117-129 | when every first attempt returns, each chunk is posted once, with no wait and no warning, and the posted bytes are the chunks in order |
| Upload.CleanUpload | ismara_uploader.py:112-129 | a clean upload posts exactly the bytes of the file, once |
| Upload.LineEvents | ismara_uploader.py:104-137 | one turn of the upload loop: nothing for an accession or URL line, the file's chunk events for a local line; `PassStep` and `PassCounts` state it |
| Upload.PassEvents | ismara_uploader.py:104-137 | the events of the upload loop, line by line; `PassCounts` and `NoLocalNoUpload` state them and `UploadPass` is proved against them |
| Upload.UploadPass | ismara_uploader.py:101-137 | the upload loop collects the accession and URL lines in manifest order, uploads every local file, and ends with the counter one past the number of local files |
| Upload.PassCounts | ismara_uploader.py:104-137 | the events of the pass split line by line: accession and URL lines add none, a local line adds its file's chunks, each posted between 1 and 20 times; in total between `c` and `20 c` posts for `c` chunks |
| Upload.NoLocalNoUpload | ismara_uploader.py:104-110 | a manifest without local lines uploads nothing |
| Upload.ThreeChunks | ismara_uploader.py:117-171 | a file of three chunk sizes is read in three full chunks whose ranges are its thirds |
| Upload.SixMegabyteFile | ismara_uploader.py:115-121 | a 6,000,000-byte file in 2,000,000-byte chunks gets `bytes 0-2000000/6000000`, `bytes 2000000-4000000/6000000`, `bytes 4000000-6000000/6000000`, with `Content-length` 6000000 |
| Upload.ThirdsInContentRange | ismara_uploader.py:121 | the three `Content-Range` values of that file, written out |
| Uploader.RunSpec | ismara_uploader.py:50-153 | `main` as a function of the manifest lines: the abort with the first missing line, or the session request, the saved parameters, the upload events and the run request; `AbortIffMissing`, `SubmittedReadsBack` and `SubmittedOrganism` state it and `RunUploader` is proved against it |
| Uploader.RunUploader | ismara_uploader.py:50-153 | `main` produces the events and outcome of the specification |
| Uploader.AbortIffMissing | ismara_uploader.py:54-68 | the run stops iff a local line is missing, with the message for the first such line and before the session request or anything else is sent |
| Uploader.BlankLineAborts | ismara_uploader.py:53-60 | a blank manifest line stops the run before anything is sent |
| Uploader.StrippedLineHasNoNewline | ismara_uploader.py:52-53 | a line read from the manifest holds no newline once stripped |
| Uploader.ListsAreCarried | ismara_uploader.py:53-110 | the collected accessions and URLs are non-empty and newline-free, so the joined fields keep them apart |
| Uploader.FieldsReadBack | ismara_uploader.py:141-153 | the run request gives back the manifest's accession and URL lines in order, the flag and the saved organism |
| Uploader.SubmittedReadsBack | ismara_uploader.py:68-153 | a submitted run starts with the session request and the saved parameters and ends with the run request, from which the lists, flag and organism read back |
| Uploader.SubmittedOrganism | ismara_uploader.py:71-150 | for an accepted `-o` choice, the saved parameters and the run request both carry the organism code the table of choices lists for it |
| Uploader.SingleAccessionRun | ismara_uploader.py:53-153 | a manifest of one run number for a human RNA-seq job sends only the session request, the parameters with organism hg38_f5, and a run request with that run number and an empty URL list |

## Left out

- Command-line parsing (:16-48). Its validated result is the `Args` value, and `--file-list` is the list of its lines.
- The network. The session setup (:65-67) is not modelled, and neither are the contents of `get_sd`'s response (:157-162): the session name `sd` is a parameter.
- The outcome of the `save_json` post (:94-99) is left out. Its failure is swallowed, so the model records the post only.
- Each upload attempt (:126) is an oracle outcome. Responses are not inspected.
- A failure of the run post (:145) is left out, and so is the printed link (:154).
- Chunking.Read: a chunk size below -1 is excluded by a precondition. On the binary file opened at :112, `read` raises `ValueError` for such a size, so `read_in_chunks` would raise at its first read (:168). `main` always uses the default 50,000,000 (:117), so this never arises in a run.
- The saved job parameters are modelled as a `JobData` record carried by the `SaveJson` event. The source posts their JSON text `json.dumps(job_data)` (:97), and the JSON encoding is not modelled.
- `time.sleep` (:133) is recorded as a `Sleep` event carrying the duration.
- Logging and printing (:62, :99, :111, :132, :135-136, :154) are left out, including the progress counter's denominator `len(files)`. The "could not upload" warning is kept as the `GaveUp` event with the session name.
- Manifest.SizeMap: the `file_sizes` value `"%.4f GB"` (:61) involves floating-point division. The model records each file's size in bytes instead.
- Uploader.RunSpec: failures after the check pass are not represented. A directory or an unreadable file passes `os.path.exists` (:59) and then makes `open(f, 'rb')` (:112) raise, after the session request, the saved parameters and the earlier uploads were sent and with no run request. `get_sd` raising, or answering with an empty body (:160-161), ends the run the same way. The model's file system holds readable files only, so such a line counts as missing and the run aborts before anything is sent, and `get_sd` always answers `sd`.
- Filesystem. The file system is a map from path to contents. It does not change during a run, and directories do not exist in it. For `os.path.exists`, a directory counts as existing.
- Python's `re` with Unicode. `\d` is approximated by the ASCII digits. `\s` and `strip()` use the whitespace set of `str.isspace`.
- Universal-newline translation when reading the manifest. Lines are given already split.
- Upload.UploadFile: the generator is materialised as a sequence before the chunk loop runs. Reads are not observable, so the traces are unchanged.
