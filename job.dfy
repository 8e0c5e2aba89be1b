/**
 * Organism resolution: the alias table `main` applies to `-o`, and the `_f5`
 * suffix it appends for the genome builds of the CAGE analysis.
 */
module Organism {
  import opened Text

  /** The `-o` choices the command line accepts. */
  const Choices: set<string> := {
    "human", "mouse", "rat", "zebrafish", "yeast", "ecoli", "arabidopsis",
    "hg18", "mm9", "hg19", "mm10", "rn6", "e_coli", "arTal", "sacSer2", "dr11", "hg38", "mm39"
  }

  /** `organism_map`: common names to genome builds. */
  const Aliases: map<string, string> := map[
    "human" := "hg38", "mouse" := "mm39", "rat" := "rn6", "zebrafish" := "dr11",
    "yeast" := "sacSer2", "ecoli" := "e_coli", "arabidopsis" := "arTal"
  ]

  /** The builds whose organism code gets the `_f5` suffix. */
  const SuffixedBuilds: set<string> := {"hg19", "mm10", "hg38", "mm39"}

  const Suffix: string := "_f5"

  /** An alias maps to its build; every other code passes through unchanged. */
  function Resolve(code: string): string {
    if code in Aliases then Aliases[code] else code
  }

  /** The organism field of the job data and of the run request. */
  function OrganismField(code: string): string {
    var build := Resolve(code);
    if build in SuffixedBuilds then build + Suffix else build
  }

  predicate EndsWith(s: string, suffix: string) {
    |suffix| <= |s| && s[|s| - |suffix|..] == suffix
  }

  /** What each accepted choice is sent as, written out choice by choice. */
  const ExpectedFields: map<string, string> := map[
    "human" := "hg38_f5", "mouse" := "mm39_f5", "rat" := "rn6", "zebrafish" := "dr11",
    "yeast" := "sacSer2", "ecoli" := "e_coli", "arabidopsis" := "arTal",
    "hg18" := "hg18", "mm9" := "mm9", "hg19" := "hg19_f5", "mm10" := "mm10_f5",
    "rn6" := "rn6", "e_coli" := "e_coli", "arTal" := "arTal", "sacSer2" := "sacSer2",
    "dr11" := "dr11", "hg38" := "hg38_f5", "mm39" := "mm39_f5"
  ]

  /** Every choice resolves as the table above says. */
  lemma OrganismFieldTable(code: string)
    requires code in Choices
    ensures code in ExpectedFields && OrganismField(code) == ExpectedFields[code]
  {
  }

  /** The default choice: `human` is sent as `hg38_f5`. This is the `human`
      entry of the table above, resolved directly so that a proof about a
      `human` run does not look the code up among the 18 entries. */
  lemma HumanField()
    ensures OrganismField("human") == "hg38_f5"
  {
    assert Resolve("human") == "hg38";
    assert "hg38" in SuffixedBuilds;
    assert "hg38" + Suffix == "hg38_f5";
  }

  /** Resolving is idempotent: an alias always names a build that is no alias
      itself, and a resolved choice is still an accepted choice. */
  lemma ResolveIdempotent(code: string)
    ensures Resolve(Resolve(code)) == Resolve(code)
    ensures code in Choices ==> Resolve(code) in Choices && Resolve(code) !in Aliases
  {
    if code in Aliases {
      assert Aliases.Values !! Aliases.Keys;
    }
  }

  /** For every accepted choice, the suffix is there exactly when the resolved
      build is one of the suffixed builds, and removing it gives the build back. */
  lemma SuffixRule(code: string)
    requires code in Choices
    ensures var field := OrganismField(code);
      (EndsWith(field, Suffix) <==> Resolve(code) in SuffixedBuilds)
      && (if EndsWith(field, Suffix) then field[..|field| - |Suffix|] else field) == Resolve(code)
  {
    var build := Resolve(code);
    ResolveIdempotent(code);
    assert build + Suffix == build + "_f5";
    assert (build + Suffix)[..|build|] == build;
  }
}

/** The job parameters `main` saves in advance and the fields of the run request. */
module Job {
  import opened Text
  import Organism

  /** The `-t` choices. */
  datatype DataType = Microarray | RnaSeq | ChipSeq

  function TypeName(t: DataType): string {
    match t
    case Microarray => "microarray"
    case RnaSeq => "rnaseq"
    case ChipSeq => "chipseq"
  }

  /** The validated command line, apart from `--file-list`. */
  datatype Args = Args(email: string, project: string, dataType: DataType, organism: string, useMirna: bool)

  /** The command line accepts only the listed `-o` choices. */
  predicate ValidArgs(args: Args) {
    args.organism in Organism.Choices
  }

  /** `str(b).lower()`. */
  function BoolText(b: bool): string {
    if b then "true" else "false"
  }

  /** The boolean text is one of two words and gives the flag back. */
  lemma BoolTextReadsBack(b: bool)
    ensures BoolText(b) == "true" || BoolText(b) == "false"
    ensures BoolText(b) == "true" <==> b
  {
    assert "false" != "true" by { assert "false"[0] != "true"[0]; }
  }

  /** `job_data`: the parameters saved before the upload, with the byte size of
      each local file in place of its size in gigabytes. */
  datatype JobData = JobData(
    email: string, project: string, dataType: string, organism: string,
    mirna: string, files: map<string, nat>, submission: string)

  function JobDataOf(args: Args, sizes: map<string, nat>): JobData {
    JobData(args.email, args.project, TypeName(args.dataType), Organism.OrganismField(args.organism),
            BoolText(args.useMirna), sizes, "uploader")
  }

  /** `"\n".join(xs)`. */
  function ListField(xs: seq<string>): string {
    Join(xs, '\n')
  }

  /** How a reader of the run request gets the list back. */
  function ParseListField(s: string): seq<string> {
    if s == "" then [] else Split(s, '\n')
  }

  /** A list whose items are non-empty and hold no newline. */
  predicate Carriable(xs: seq<string>) {
    forall i :: 0 <= i < |xs| ==> xs[i] != "" && '\n' !in xs[i]
  }

  /** A list of non-empty lines without newlines survives the join. */
  lemma ListFieldRoundTrip(xs: seq<string>)
    requires Carriable(xs)
    ensures ParseListField(ListField(xs)) == xs
  {
    if xs != [] {
      if |xs| > 1 {
        assert ListField(xs)[0] == xs[0][0];
      }
      SplitJoin(xs, '\n');
    }
  }

  /** The form fields of the run request. */
  function RunFields(sd: string, args: Args, urls: seq<string>, srrs: seq<string>): map<string, string> {
    map[
      "sd" := sd, "email" := args.email, "project" := args.project,
      "type" := TypeName(args.dataType), "method" := "ismara_uploader",
      "organism" := Organism.OrganismField(args.organism),
      "url_list" := ListField(urls), "srr_list" := ListField(srrs),
      "mirna" := BoolText(args.useMirna)
    ]
  }

  /** What a reader of the run request recovers: both lists, the flag, and the
      same organism code as the saved job parameters. */
  lemma RunFieldsReadBack(sd: string, args: Args, urls: seq<string>, srrs: seq<string>, sizes: map<string, nat>)
    requires Carriable(urls) && Carriable(srrs)
    ensures var f := RunFields(sd, args, urls, srrs);
      && ParseListField(f["url_list"]) == urls
      && ParseListField(f["srr_list"]) == srrs
      && (f["mirna"] == "true" <==> args.useMirna)
      && f["organism"] == JobDataOf(args, sizes).organism
      && f["sd"] == sd
  {
    ListFieldRoundTrip(urls);
    ListFieldRoundTrip(srrs);
    BoolTextReadsBack(args.useMirna);
  }
}
