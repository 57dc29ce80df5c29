/** `process_screenshots`: one pass over a sorted snapshot of the folder's
    image files, threading the directory, the running index and the count of
    renamed files. OCR, the naming service and `os.rename` are oracles. */
module ScreenshotRenamer {
  import opened Wrappers
  import opened FileNames
  import opened SequenceIndex
  import opened Sanitizer
  import opened AiNaming
  import opened TargetName
  import opened Tally

  /** The extensions this pipeline picks up, compared after lower-casing
      (no `.gif`, unlike the sequential renamer). */
  const ScreenshotExtensions: seq<string> := [".png", ".jpg", ".jpeg", ".bmp", ".tiff"]

  /** OCR of the named image: the extracted text, or `None` when opening or
      reading the image raises. */
  type TextReader = string -> Option<string>

  /** Why a file was left alone. */
  datatype Skip = AlreadyIndexed | NoText | EmptyName | RenameFailed(target: string)

  /** A renamed file records its new name and which attempt of the
      collision loop produced it (0 for the plain name, k for the `_k`
      suffix). */
  datatype FileOutcome = Skipped(reason: Skip) | Renamed(target: string, attempt: nat)

  /** What is decided about a file before the directory is looked at: stop,
      or go on with this clean name. */
  datatype Decision = Halt(reason: Skip) | Proceed(clean: string)

  /** The skip rules in order: an indexed name, no text (`None` or ""), an
      empty sanitised name. Whitespace-only text is not "no text": it goes on
      to the naming step, which turns it into `document_scan`. */
  function Decide(name: string, ocr: TextReader, service: NameService): (d: Decision)
    ensures d.Halt? <==> HasIndexPrefix(name) || ocr(name) == None || ocr(name) == Some([])
                         || Sanitize(GenerateName(ocr(name).value, service)) == []
    ensures d.Halt? ==> d.reason == AlreadyIndexed || d.reason == NoText || d.reason == EmptyName
    ensures d.Halt? && d.reason == AlreadyIndexed <==> HasIndexPrefix(name)
    ensures d == Halt(NoText) <==> !HasIndexPrefix(name) && (ocr(name) == None || ocr(name) == Some([]))
    ensures d == Halt(EmptyName) <==>
      && !HasIndexPrefix(name) && ocr(name).Some? && ocr(name).value != []
      && Sanitize(GenerateName(ocr(name).value, service)) == []
    ensures d.Proceed? ==> d.clean != [] && AllClean(d.clean)
    ensures d.Proceed? ==> ocr(name).Some? && d.clean == Sanitize(GenerateName(ocr(name).value, service))
  {
    if HasIndexPrefix(name) then Halt(AlreadyIndexed)
    else match ocr(name)
      case None => Halt(NoText)
      case Some(text) =>
        if text == [] then Halt(NoText)
        else
          var clean := Sanitize(GenerateName(text, service));
          if clean == [] then Halt(EmptyName) else Proceed(clean)
  }

  /** The loop's state: the directory's names, `current_index` and
      `renamed_count`. */
  datatype RunState = RunState(dir: set<string>, index: nat, renamed: nat)

  datatype StepResult = StepResult(outcome: FileOutcome, state: RunState)

  /** One iteration of the loop, given what was decided about the file. A
      skipped file leaves the whole state as it was. A file that proceeds is
      tried under the first free candidate: it moves there when the rename
      succeeds, and the index and count both go up by exactly one; otherwise
      the failure is logged with that candidate. */
  function Step(st: RunState, name: string, decision: Decision, rename: Renamer): (r: StepResult)
    ensures r.outcome.Skipped? ==> r.state == st
    ensures decision.Halt? ==> r.outcome == Skipped(decision.reason)
    ensures decision.Proceed? ==> r.outcome.Renamed? || r.outcome.reason.RenameFailed?
    ensures decision.Proceed? && r.outcome.Skipped? ==> !rename(name, r.outcome.reason.target)
    ensures r.outcome.Renamed? ==>
      && decision.Proceed?
      && r.outcome.target !in st.dir
      && rename(name, r.outcome.target)
      && r.outcome.target == Candidate(Stem(st.index, decision.clean), SplitExt(name), r.outcome.attempt)
      && r.state == RunState(st.dir - {name} + {r.outcome.target}, st.index + 1, st.renamed + 1)
    ensures r.outcome.Renamed? ==> forall j :: 0 <= j < r.outcome.attempt ==>
      Candidate(Stem(st.index, decision.clean), SplitExt(name), j) in st.dir
    ensures decision.Proceed? ==>
      var t := ChooseTarget(st.dir, st.index, decision.clean, SplitExt(name));
      && (r.outcome.Renamed? <==> rename(name, t))
      && (r.outcome.Renamed? ==> r.outcome == Renamed(t, FreeAttempt(st.dir, Stem(st.index, decision.clean), SplitExt(name))))
      && (r.outcome.Skipped? ==> r.outcome.reason == RenameFailed(t))
  {
    match decision
    case Halt(reason) => StepResult(Skipped(reason), st)
    case Proceed(clean) =>
      var target := ChooseTarget(st.dir, st.index, clean, SplitExt(name));
      if rename(name, target) then
        StepResult(Renamed(target, FreeAttempt(st.dir, Stem(st.index, clean), SplitExt(name))), RunState(st.dir - {name} + {target}, st.index + 1, st.renamed + 1))
      else
        StepResult(Skipped(RenameFailed(target)), st)
  }

  /** Number of renamed files in a log. */
  function Successes(log: seq<FileOutcome>): (n: nat)
    ensures n <= |log|
  {
    Count(log, IsRenamed)
  }

  predicate IsRenamed(o: FileOutcome) {
    o.Renamed?
  }

  datatype RunResult = RunResult(log: seq<FileOutcome>, state: RunState)

  /** The loop over the snapshot, one outcome per file. The index moves in
      step with the count: it grows by exactly the number of renamed files. */
  function Run(st: RunState, files: seq<string>, decide: string -> Decision, rename: Renamer): (r: RunResult)
    ensures |r.log| == |files|
    ensures r.state.index == st.index + Successes(r.log)
    ensures r.state.renamed == st.renamed + Successes(r.log)
    decreases files
  {
    if files == [] then RunResult([], st)
    else
      var s := Step(st, files[0], decide(files[0]), rename);
      var rest := Run(s.state, files[1..], decide, rename);
      var log := [s.outcome] + rest.log;
      assert log[1..] == rest.log;
      RunResult(log, rest.state)
  }

  /** The files to process: the image names of the listing, in its order. */
  function Snapshot(listing: seq<string>): seq<string> {
    FilterByExtension(listing, ScreenshotExtensions)
  }

  /** The per-file decision of a pass, with OCR and the service fixed. */
  function Decider(ocr: TextReader, service: NameService): string -> Decision {
    name => Decide(name, ocr, service)
  }

  /** `process_screenshots` on a folder whose listing, in sorted order, is
      `listing`: the index starts at `get_next_index` and ends exactly
      `renamed_count` above it. */
  function ProcessScreenshots(listing: seq<string>, ocr: TextReader, service: NameService, rename: Renamer): (r: RunResult)
    requires StrictlySorted(listing)
    ensures r.state.index == NextIndex(listing) + r.state.renamed
    ensures r.state.renamed == Successes(r.log) <= |Snapshot(listing)|
  {
    Run(RunState(Listed(listing), NextIndex(listing), 0), Snapshot(listing), Decider(ocr, service), rename)
  }
}
