/** The command-line pipeline's file plan: the default output path, which file each stage
    reads and writes under the two skip flags, and which intermediate files are deleted at
    the end. File existence is a given predicate. */
module Pipeline {
  import opened Frame
  import opened Text
  import Completion
  import Categorize

  const ProcessedSuffix: string := "_processed.csv"
  const CategorizedSuffix: string := "_categorized.csv"
  const FacilitizedSuffix: string := "_facilitized.csv"

  /** Where the extension of `path` starts, as `os.path.splitext` (POSIX) finds it: at the
      last dot, provided that dot lies in the last path component and something other than a
      dot comes before it in that component; otherwise there is no extension. */
  function ExtensionStart(path: string): (i: nat)
    ensures i <= |path|
    ensures i < |path| ==> path[i] == '.' && forall k :: i < k < |path| ==> path[k] != '.' && path[k] != '/'
  {
    var sep := LastIndexOf(path, '/');
    var dot := LastIndexOf(path, '.');
    if dot > sep && exists k :: sep < k < dot && path[k] != '.' then dot else |path|
  }

  /** `os.path.splitext(path)[0]`: the path without its extension. */
  function Root(path: string): (root: string)
    ensures |root| <= |path| && root == path[..|root|]
    ensures |root| < |path| ==> path[|root|] == '.'
  {
    path[..ExtensionStart(path)]
  }

  /** The last path component holds something other than dots. */
  predicate HasStem(stem: string) {
    exists k :: LastIndexOf(stem, '/') < k < |stem| && stem[k] != '.'
  }

  /** A name `stem.ext` whose extension holds no dot and no separator loses exactly `.ext`. */
  lemma RootOfNamed(stem: string, ext: string)
    requires forall k :: 0 <= k < |ext| ==> ext[k] != '.' && ext[k] != '/'
    requires HasStem(stem)
    ensures Root(stem + "." + ext) == stem
  {
    var path := stem + "." + ext;
    assert path[|stem|] == '.';
    forall k | |stem| < k < |path| ensures path[k] != '.' && path[k] != '/' {
      assert path[k] == ext[k - |stem| - 1];
    }
    LastIndexOfIs(path, '.', |stem|);
    var sep := LastIndexOf(stem, '/');
    forall k | sep < k < |path| ensures path[k] != '/' {
      if k < |stem| {
        assert path[k] == stem[k];
      }
    }
    LastIndexOfIs(path, '/', sep);
    var k :| sep < k < |stem| && stem[k] != '.';
    assert path[k] == stem[k];
  }

  /** A path whose last component has no dot has no extension. */
  lemma RootWithoutDot(path: string)
    requires forall k :: LastIndexOf(path, '/') < k < |path| ==> path[k] != '.'
    ensures Root(path) == path
  {
  }

  /** Appending to the root anything that does not start with a dot never gives the path
      back. */
  lemma SuffixIsNoExtension(path: string, suffix: string)
    requires suffix != [] && suffix[0] != '.'
    ensures Root(path) + suffix != path
  {
  }

  /** `args.output`, or when it is not given (or empty) the input's root followed by
      "_processed.csv", which is never the input itself. */
  function OutputPath(input: string, output: Option<string>): (path: string)
    ensures output.Some? && output.value != "" ==> path == output.value
    ensures (output.None? || output.value == "") ==> path != input && IsPrefix(Root(input), path)
  {
    if output.Some? && output.value != "" then output.value
    else
      SuffixIsNoExtension(input, ProcessedSuffix);
      IsPrefixIff(Root(input), Root(input) + ProcessedSuffix);
      assert (Root(input) + ProcessedSuffix)[..|Root(input)|] == Root(input);
      Root(input) + ProcessedSuffix
  }

  /** The default output of "data/inventory.csv" is "data/inventory_processed.csv". */
  lemma DefaultOutputReplacesExtension(stem: string, ext: string)
    requires forall k :: 0 <= k < |ext| ==> ext[k] != '.' && ext[k] != '/'
    requires HasStem(stem)
    ensures OutputPath(stem + "." + ext, None) == stem + ProcessedSuffix
  {
    RootOfNamed(stem, ext);
  }

  /** The files the stages read and write: `categorizedOutput` is what the category stage
      writes, `facilityOutput` is what the facility stage writes (the categorized file when
      that stage is skipped), and `descriptionInput` is what the description stage reads
      (`None` when it is skipped). */
  datatype Plan = Plan(categorizedOutput: string, facilityOutput: string, descriptionInput: Option<string>)

  /** The plan for final output `output` under the two skip flags. */
  function PlanStages(output: string, skipFacility: bool, skipDescriptions: bool): (plan: Plan)
    ensures plan.descriptionInput.None? <==> skipDescriptions
    ensures plan.categorizedOutput == output <==> skipFacility && skipDescriptions
  {
    var categorized := if !skipFacility || !skipDescriptions then Root(output) + CategorizedSuffix else output;
    var facility :=
      if skipFacility then categorized
      else if !skipDescriptions then Root(output) + FacilitizedSuffix
      else output;
    var descriptionInput := if skipDescriptions then None else Some(if !skipFacility then facility else categorized);
    Plan(categorized, facility, descriptionInput)
  }

  /** The last stage that runs writes the final output; the description stage always does
      when it runs. */
  lemma LastStageWritesOutput(output: string, skipFacility: bool, skipDescriptions: bool)
    ensures var plan := PlanStages(output, skipFacility, skipDescriptions);
      (skipFacility && skipDescriptions ==> plan.categorizedOutput == output)
      && (!skipFacility && skipDescriptions ==> plan.facilityOutput == output)
      && (!skipDescriptions ==> plan.descriptionInput.Some? && plan.descriptionInput.value != output)
  {
    var plan := PlanStages(output, skipFacility, skipDescriptions);
    IntermediatesAreNotOutput(output, skipFacility, skipDescriptions);
  }

  /** Each stage reads what the stage before it wrote: the facility stage the categorized
      file, the description stage the facility stage's file when that ran and the
      categorized file otherwise. */
  lemma StagesChain(output: string, skipFacility: bool, skipDescriptions: bool)
    ensures var plan := PlanStages(output, skipFacility, skipDescriptions);
      (!skipDescriptions ==> plan.descriptionInput == Some(plan.facilityOutput))
      && (skipFacility ==> plan.facilityOutput == plan.categorizedOutput)
  {
  }

  /** A file written before the last stage is never the final output, and the two
      intermediate files are different files. */
  lemma IntermediatesAreNotOutput(output: string, skipFacility: bool, skipDescriptions: bool)
    ensures var plan := PlanStages(output, skipFacility, skipDescriptions);
      ((!skipFacility || !skipDescriptions) ==> plan.categorizedOutput != output)
      && (!skipFacility && !skipDescriptions ==>
            plan.facilityOutput != output && plan.facilityOutput != plan.categorizedOutput)
  {
    SuffixIsNoExtension(output, CategorizedSuffix);
    SuffixIsNoExtension(output, FacilitizedSuffix);
    var root := Root(output);
    assert (root + CategorizedSuffix)[|root| + 1] != (root + FacilitizedSuffix)[|root| + 1];
  }

  /** A file may be deleted when it exists and is not the final output. */
  predicate Removable(path: string, output: string, onDisk: string -> bool) {
    onDisk(path) && path != output
  }

  /** The files deleted at the end: the categorized file whenever at least one later stage
      ran, the facility file when both did, each only if removable. */
  function Intermediates(plan: Plan, output: string, skipFacility: bool, skipDescriptions: bool, onDisk: string -> bool): (files: seq<string>)
    ensures |files| <= 2
    ensures skipFacility || skipDescriptions ==> |files| <= 1
  {
    (if (!skipFacility || !skipDescriptions) && Removable(plan.categorizedOutput, output, onDisk)
     then [plan.categorizedOutput] else [])
    + (if !skipFacility && !skipDescriptions && Removable(plan.facilityOutput, output, onDisk)
       then [plan.facilityOutput] else [])
  }

  /** The clean-up list, built by appending in the order of the source's if/elif chain. */
  method IntermediateFiles(plan: Plan, output: string, skipFacility: bool, skipDescriptions: bool, onDisk: string -> bool)
    returns (files: seq<string>)
    ensures files == Intermediates(plan, output, skipFacility, skipDescriptions, onDisk)
  {
    files := [];
    var categorized, facility := plan.categorizedOutput, plan.facilityOutput;
    if !skipFacility && !skipDescriptions {
      if onDisk(categorized) && categorized != output {
        files := files + [categorized];
      }
      if onDisk(facility) && facility != output {
        files := files + [facility];
      }
    } else if !skipFacility {
      if onDisk(categorized) && categorized != output {
        files := files + [categorized];
      }
    } else if !skipDescriptions {
      if onDisk(categorized) && categorized != output {
        files := files + [categorized];
      }
    }
  }

  /** The clean-up never deletes the final output nor a file that is not there, and deletes
      nothing when both later stages are skipped. */
  lemma CleanupSpares(plan: Plan, output: string, skipFacility: bool, skipDescriptions: bool, onDisk: string -> bool)
    ensures forall f :: f in Intermediates(plan, output, skipFacility, skipDescriptions, onDisk) ==> onDisk(f) && f != output
    ensures skipFacility && skipDescriptions ==> Intermediates(plan, output, skipFacility, skipDescriptions, onDisk) == []
  {
  }

  /** With the pipeline's own plan the comparison with the output never excludes anything:
      every intermediate file of the stages that ran is deleted if it exists. */
  lemma CleanupOfPlan(output: string, skipFacility: bool, skipDescriptions: bool, onDisk: string -> bool)
    ensures var plan := PlanStages(output, skipFacility, skipDescriptions);
      Intermediates(plan, output, skipFacility, skipDescriptions, onDisk)
      == (if (!skipFacility || !skipDescriptions) && onDisk(plan.categorizedOutput) then [plan.categorizedOutput] else [])
         + (if !skipFacility && !skipDescriptions && onDisk(plan.facilityOutput) then [plan.facilityOutput] else [])
  {
    IntermediatesAreNotOutput(output, skipFacility, skipDescriptions);
  }

  /** The default of `--preserve-existing`. */
  const PreserveDefault: bool := true

  /** `args.preserve_existing`: a `store_true` flag is true when given and takes its default
      otherwise; with a default of true it is always on. */
  function PreserveExisting(flagGiven: bool): (preserve: bool)
    ensures preserve
  {
    flagGiven || PreserveDefault
  }

  /** Run from the pipeline, the category stage keeps every category a row already has,
      whatever the command line says. */
  lemma PipelineKeepsExistingCategories(flagGiven: bool, columns: seq<string>, rows: seq<Row>, service: string -> Completion.Reply, i: int)
    requires 0 <= i < |rows| && Categorize.CategoryColumn in columns
    requires Present(CellOf(rows[i], Categorize.CategoryColumn))
    ensures Categorize.CategoryPass(columns, rows, PreserveExisting(flagGiven), service)[i] == rows[i]
  {
    Categorize.PassPreservesExisting(columns, rows, service, i);
  }
}
