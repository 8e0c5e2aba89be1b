/**
 * `main`: check every local file of the manifest, open a session, save the
 * job parameters, upload, and request the run. The session name `sd` is the
 * answer of the session request; `net(i)(k)(j)` is the outcome of attempt
 * `j` at chunk `k` of manifest line `i`.
 */
module Uploader {
  import opened Wrappers
  import opened Text
  import opened Bytes
  import opened Manifest
  import opened Job
  import opened Chunking
  import opened Events
  import opened Retry
  import opened Upload

  /** How an invocation ends: the exception of the check pass, or the run
      request sent. */
  datatype Status = Aborted(message: string) | Submitted

  datatype Run = Run(trace: seq<Event>, status: Status)

  /** What an invocation does, given the lines of the manifest file. */
  function RunSpec(args: Args, lines: seq<string>, fs: FileSystem, sd: string, net: nat -> nat -> nat -> Attempt): Run {
    var files := StripAll(lines);
    match FirstMissing(files, fs)
    case Some(i) => Run([], Aborted(MissingMessage(files[i])))
    case None =>
      Run([GetSd, SaveJson(sd, JobDataOf(args, SizeMap(files, fs)))]
          + PassEvents(files, fs, sd, net)
          + [RunPost(RunFields(sd, args, OfKind(files, Url), OfKind(files, Accession)))],
          Submitted)
  }

  /** `main` after the command line is parsed. */
  method RunUploader(args: Args, lines: seq<string>, fs: FileSystem, sd: string, net: nat -> nat -> nat -> Attempt)
    returns (run: Run)
    ensures run == RunSpec(args, lines, fs, sd, net)
  {
    var files := StripAll(lines);
    var checked := CheckFiles(files, fs);
    if checked.Err? {
      run := Run([], Aborted(checked.error));
      return;
    }
    var saveDir := sd;
    var trace := [GetSd, SaveJson(saveDir, JobDataOf(args, checked.value))];
    var srrList, urlList, uploadCounter, passTrace := UploadPass(files, fs, saveDir, net);
    trace := trace + passTrace;
    trace := trace + [RunPost(RunFields(saveDir, args, urlList, srrList))];
    run := Run(trace, Submitted);
    assert FirstMissing(files, fs).None?;
  }

  /** The run stops exactly when a local line of the manifest does not exist,
      with the message for the first such line and before anything is sent. */
  lemma AbortIffMissing(args: Args, lines: seq<string>, fs: FileSystem, sd: string, net: nat -> nat -> nat -> Attempt)
    ensures var run := RunSpec(args, lines, fs, sd, net); var files := StripAll(lines);
      && (run.status.Aborted? <==> !AllLocalsExist(files, fs))
      && (run.status.Aborted? ==>
            run.trace == []
            && exists i :: 0 <= i < |files| && Missing(fs, files[i]) && AllLocalsExist(files[..i], fs)
                           && run.status.message == MissingMessage(files[i]))
  {
  }

  /** A blank line anywhere in the manifest stops the run. */
  lemma BlankLineAborts(args: Args, lines: seq<string>, fs: FileSystem, sd: string, net: nat -> nat -> nat -> Attempt, i: nat)
    requires i < |lines| && AllSpace(lines[i])
    ensures RunSpec(args, lines, fs, sd, net).status.Aborted?
    ensures RunSpec(args, lines, fs, sd, net).trace == []
  {
    var files := StripAll(lines);
    BlankLineIsMissing(lines[i], fs);
    assert Missing(fs, files[i]);
  }

  /** A line as iterating over a text file yields it: a newline, if any, only
      at the end. */
  predicate IsFileLine(s: string) {
    forall k :: 0 <= k < |s| - 1 ==> s[k] != '\n'
  }

  /** A stripped file line holds no newline. */
  lemma StrippedLineHasNoNewline(s: string)
    requires IsFileLine(s)
    ensures '\n' !in Strip(s)
  {
    StripMargins(s);
    var r := Strip(s);
    var i := |s| - |TrimStart(s)|;
    assert IsSpace('\n');
    forall k | 0 <= k < |r|
      ensures r[k] != '\n'
    {
      assert r[k] == s[i + k];
      if k < |r| - 1 {
        assert i + k < |s| - 1;
      }
    }
  }

  /** No stripped file line holds a newline. */
  lemma StrippedLinesHaveNoNewline(lines: seq<string>)
    requires forall i :: 0 <= i < |lines| ==> IsFileLine(lines[i])
    ensures forall x :: x in StripAll(lines) ==> '\n' !in x
  {
    var files := StripAll(lines);
    forall x | x in files
      ensures '\n' !in x
    {
      var i :| 0 <= i < |files| && files[i] == x;
      StrippedLineHasNoNewline(lines[i]);
    }
  }

  /** Manifest lines without interior newlines give lists the run request
      can carry: every accession and URL is non-empty and holds no newline. */
  lemma ListsAreCarried(lines: seq<string>)
    requires forall i :: 0 <= i < |lines| ==> IsFileLine(lines[i])
    ensures var files := StripAll(lines); var srrs, urls := OfKind(files, Accession), OfKind(files, Url);
      Carriable(srrs) && Carriable(urls)
  {
    var files := StripAll(lines);
    var srrs, urls := OfKind(files, Accession), OfKind(files, Url);
    StrippedLinesHaveNoNewline(lines);
    OfKindMembers(files, Accession);
    OfKindMembers(files, Url);
    forall i | 0 <= i < |srrs|
      ensures srrs[i] != "" && '\n' !in srrs[i]
    {
      assert srrs[i] in srrs;
    }
    forall i | 0 <= i < |urls|
      ensures urls[i] != "" && '\n' !in urls[i]
    {
      assert urls[i] in urls;
      assert IsUrl(urls[i]);
    }
  }

  /** The fields of the run request give back both lists, the flag and the
      organism of the saved job parameters. */
  lemma FieldsReadBack(args: Args, lines: seq<string>, sizes: map<string, nat>, sd: string)
    requires forall i :: 0 <= i < |lines| ==> IsFileLine(lines[i])
    ensures var files := StripAll(lines);
      var fields := RunFields(sd, args, OfKind(files, Url), OfKind(files, Accession));
      && ParseListField(fields["srr_list"]) == OfKind(files, Accession)
      && ParseListField(fields["url_list"]) == OfKind(files, Url)
      && (fields["mirna"] == "true" <==> args.useMirna)
      && fields["organism"] == JobDataOf(args, sizes).organism
  {
    var files := StripAll(lines);
    ListsAreCarried(lines);
    RunFieldsReadBack(sd, args, OfKind(files, Url), OfKind(files, Accession), sizes);
  }

  /** What a reader of a submitted run request recovers: the accession and
      URL lines of the manifest in order, the miRNA flag, and the organism of
      the saved job parameters; the session request comes first and the run
      request last. */
  lemma SubmittedReadsBack(args: Args, lines: seq<string>, fs: FileSystem, sd: string, net: nat -> nat -> nat -> Attempt)
    requires forall i :: 0 <= i < |lines| ==> IsFileLine(lines[i])
    requires AllLocalsExist(StripAll(lines), fs)
    ensures var run := RunSpec(args, lines, fs, sd, net); var files := StripAll(lines);
      && run.status == Submitted
      && run.trace[0] == GetSd
      && run.trace[1] == SaveJson(sd, JobDataOf(args, SizeMap(files, fs)))
      && run.trace[|run.trace| - 1].RunPost?
      && var fields := run.trace[|run.trace| - 1].fields;
         && ParseListField(fields["srr_list"]) == OfKind(files, Accession)
         && ParseListField(fields["url_list"]) == OfKind(files, Url)
         && (fields["mirna"] == "true" <==> args.useMirna)
         && fields["organism"] == run.trace[1].job.organism
  {
    var files := StripAll(lines);
    var sizes := SizeMap(files, fs);
    var fields := RunFields(sd, args, OfKind(files, Url), OfKind(files, Accession));
    var trace := [GetSd, SaveJson(sd, JobDataOf(args, sizes))] + PassEvents(files, fs, sd, net) + [RunPost(fields)];
    assert RunSpec(args, lines, fs, sd, net) == Run(trace, Submitted);
    FieldsReadBack(args, lines, sizes, sd);
  }

  /** For an accepted `-o` choice, the saved job parameters and the run
      request both carry the organism code the table of choices lists for it. */
  lemma SubmittedOrganism(args: Args, lines: seq<string>, fs: FileSystem, sd: string, net: nat -> nat -> nat -> Attempt)
    requires ValidArgs(args)
    requires AllLocalsExist(StripAll(lines), fs)
    ensures var run := RunSpec(args, lines, fs, sd, net); var last := run.trace[|run.trace| - 1];
      && run.status == Submitted
      && |run.trace| >= 3 && run.trace[1].SaveJson? && last.RunPost?
      && args.organism in Organism.ExpectedFields
      && run.trace[1].job.organism == Organism.ExpectedFields[args.organism]
      && "organism" in last.fields
      && last.fields["organism"] == Organism.ExpectedFields[args.organism]
  {
    OrganismSent(args, lines, fs, sd, net);
    Organism.OrganismFieldTable(args.organism);
  }

  /** Both the saved job parameters and the run request carry the resolved
      organism field. */
  lemma OrganismSent(args: Args, lines: seq<string>, fs: FileSystem, sd: string, net: nat -> nat -> nat -> Attempt)
    requires AllLocalsExist(StripAll(lines), fs)
    ensures var run := RunSpec(args, lines, fs, sd, net); var last := run.trace[|run.trace| - 1];
      && run.status == Submitted
      && |run.trace| >= 3 && run.trace[1].SaveJson? && last.RunPost?
      && run.trace[1].job.organism == Organism.OrganismField(args.organism)
      && "organism" in last.fields
      && last.fields["organism"] == Organism.OrganismField(args.organism)
  {
    var files := StripAll(lines);
    var job := JobDataOf(args, SizeMap(files, fs));
    var fields := RunFields(sd, args, OfKind(files, Url), OfKind(files, Accession));
    var pass := PassEvents(files, fs, sd, net);
    SubmittedTrace(args, lines, fs, sd, net);
    var trace := [GetSd, SaveJson(sd, job)] + pass + [RunPost(fields)];
    assert trace[1] == SaveJson(sd, job);
    assert trace[|trace| - 1] == RunPost(fields);
    RunFieldsOrganism(sd, args, OfKind(files, Url), OfKind(files, Accession));
  }

  /** The trace of a run whose check pass succeeds. */
  lemma SubmittedTrace(args: Args, lines: seq<string>, fs: FileSystem, sd: string, net: nat -> nat -> nat -> Attempt)
    requires AllLocalsExist(StripAll(lines), fs)
    ensures var files := StripAll(lines);
      RunSpec(args, lines, fs, sd, net)
      == Run([GetSd, SaveJson(sd, JobDataOf(args, SizeMap(files, fs)))] + PassEvents(files, fs, sd, net)
             + [RunPost(RunFields(sd, args, OfKind(files, Url), OfKind(files, Accession)))], Submitted)
  {
  }

  lemma RunFieldsOrganism(sd: string, args: Args, urls: seq<string>, srrs: seq<string>)
    ensures "organism" in RunFields(sd, args, urls, srrs)
    ensures RunFields(sd, args, urls, srrs)["organism"] == Organism.OrganismField(args.organism)
  {
  }

  /** A run-number line strips to the run number. */
  lemma StripAccessionLine(acc: string)
    requires IsRunNumber(acc)
    ensures StripAll([acc + "\n"]) == [acc]
  {
    var line := acc + "\n";
    assert line[0] == acc[..3][0] == 'S';
    assert TrimStart(line) == line;
    assert line[..|line| - 1] == acc;
    assert IsDigit(acc[|acc| - 1]) by {
      assert acc[|acc| - 1] == acc[3..][|acc| - 4];
    }
    assert TrimEnd(acc) == acc;
  }

  /** A manifest of one run number has no URL and no local file. */
  lemma AccessionOnly(acc: string)
    requires IsRunNumber(acc)
    ensures OfKind([acc], Accession) == [acc]
    ensures OfKind([acc], Url) == []
    ensures OfKind([acc], Local) == []
  {
    assert KindOf(acc) == Accession;
    assert [acc][..0] == [];
  }

  /** A manifest holding one run-number line, for a human RNA-seq job: nothing
      is uploaded, the session request, the saved parameters and the run
      request are all that is sent, and the run request names the run number
      and the `_f5` build. */
  lemma SingleAccessionRun(acc: string, email: string, project: string, fs: FileSystem, sd: string, net: nat -> nat -> nat -> Attempt)
    requires IsRunNumber(acc)
    ensures var args := Args(email, project, RnaSeq, "human", false);
      var run := RunSpec(args, [acc + "\n"], fs, sd, net);
      && run.status == Submitted
      && |run.trace| == 3
      && run.trace[0] == GetSd
      && run.trace[1] == SaveJson(sd, JobData(email, project, "rnaseq", "hg38_f5", "false", map[], "uploader"))
      && run.trace[2].RunPost?
      && run.trace[2].fields["srr_list"] == acc
      && run.trace[2].fields["url_list"] == ""
      && run.trace[2].fields["organism"] == "hg38_f5"
      && run.trace[2].fields["method"] == "ismara_uploader"
  {
    var args := Args(email, project, RnaSeq, "human", false);
    SingleAccessionTrace(acc, args, fs, sd, net);
    Organism.HumanField();
    assert JobDataOf(args, map[]) == JobData(email, project, "rnaseq", "hg38_f5", "false", map[], "uploader");
    SingleAccessionFields(sd, args, acc);
  }

  /** The whole trace of a one-accession manifest. */
  lemma SingleAccessionTrace(acc: string, args: Args, fs: FileSystem, sd: string, net: nat -> nat -> nat -> Attempt)
    requires IsRunNumber(acc)
    ensures RunSpec(args, [acc + "\n"], fs, sd, net)
         == Run([GetSd, SaveJson(sd, JobDataOf(args, map[])), RunPost(RunFields(sd, args, [], [acc]))], Submitted)
  {
    var files := [acc];
    var job := SaveJson(sd, JobDataOf(args, map[]));
    var request := RunPost(RunFields(sd, args, [], [acc]));
    StripAccessionLine(acc);
    AccessionOnly(acc);
    AccessionPasses(acc, fs);
    NoLocalNoUpload(files, fs, sd, net);
    assert RunSpec(args, [acc + "\n"], fs, sd, net) == Run([GetSd, job] + [] + [request], Submitted);
    assert [GetSd, job] + [] + [request] == [GetSd, job, request];
  }

  /** The check pass accepts a lone accession and records no size. */
  lemma AccessionPasses(acc: string, fs: FileSystem)
    requires IsRunNumber(acc)
    ensures AllLocalsExist([acc], fs) && FirstMissing([acc], fs).None?
    ensures SizeMap([acc], fs) == map[]
  {
    assert KindOf([acc][0]) == Accession;
  }

  /** The run request fields of a one-accession manifest. */
  lemma SingleAccessionFields(sd: string, args: Args, acc: string)
    ensures var f := RunFields(sd, args, [], [acc]);
      && f["srr_list"] == acc
      && f["url_list"] == ""
      && f["organism"] == Organism.OrganismField(args.organism)
      && f["method"] == "ismara_uploader"
  {
    assert ListField([acc]) == acc;
    assert ListField([]) == "";
  }
}
