/** What a pass of `process_screenshots` guarantees: the skip rules, the
    indices the renamed files receive, how the directory changes, the absence
    of collisions while the index fits three digits, and idempotence. */
module ScreenshotProperties {
  import opened Ascii
  import opened Wrappers
  import opened FileNames
  import opened SequenceIndex
  import opened Sanitizer
  import opened AiNaming
  import opened TargetName
  import opened ScreenshotRenamer
  import opened Tally

  // ----- Bookkeeping over a log ---------------------------------------------

  /** The names moved away by a pass. */
  function Sources(files: seq<string>, log: seq<FileOutcome>): set<string>
    requires |files| == |log|
  {
    if files == [] then {}
    else (if log[0].Renamed? then {files[0]} else {}) + Sources(files[1..], log[1..])
  }

  /** The names created by a pass. */
  function Targets(log: seq<FileOutcome>): set<string> {
    if log == [] then {}
    else (if log[0].Renamed? then {log[0].target} else {}) + Targets(log[1..])
  }

  lemma {:induction false} SourcesMembership(files: seq<string>, log: seq<FileOutcome>)
    requires |files| == |log|
    ensures forall i :: 0 <= i < |log| && log[i].Renamed? ==> files[i] in Sources(files, log)
    ensures forall x :: x in Sources(files, log) ==> exists i :: 0 <= i < |log| && log[i].Renamed? && files[i] == x
  {
    if files != [] {
      SourcesMembership(files[1..], log[1..]);
      forall x | x in Sources(files, log)
        ensures exists i :: 0 <= i < |log| && log[i].Renamed? && files[i] == x
      {
        if !(log[0].Renamed? && x == files[0]) {
          assert x in Sources(files[1..], log[1..]);
          var i :| 0 <= i < |log[1..]| && log[1..][i].Renamed? && files[1..][i] == x;
          assert log[i + 1].Renamed? && files[i + 1] == x;
        }
      }
    }
  }

  lemma {:induction false} TargetsMembership(log: seq<FileOutcome>)
    ensures forall i :: 0 <= i < |log| && log[i].Renamed? ==> log[i].target in Targets(log)
    ensures forall x :: x in Targets(log) ==> exists i :: 0 <= i < |log| && log[i].Renamed? && log[i].target == x
  {
    if log != [] {
      TargetsMembership(log[1..]);
      forall x | x in Targets(log)
        ensures exists i :: 0 <= i < |log| && log[i].Renamed? && log[i].target == x
      {
        if !(log[0].Renamed? && x == log[0].target) {
          var i :| 0 <= i < |log[1..]| && log[1..][i].Renamed? && log[1..][i].target == x;
          assert log[i + 1].Renamed? && log[i + 1].target == x;
        }
      }
    }
  }

  /** No two renamed files of one pass share a final name. */
  ghost predicate TargetsDistinct(log: seq<FileOutcome>) {
    forall i, j :: 0 <= i < j < |log| && log[i].Renamed? && log[j].Renamed? ==> log[i].target != log[j].target
  }

  // ----- One file -----------------------------------------------------------

  /** A name already carrying a three-digit prefix is skipped before its
      image is read: the OCR oracle is never consulted. */
  lemma IndexedFileIsNotRead(name: string, ocr1: TextReader, ocr2: TextReader, service: NameService)
    requires HasIndexPrefix(name)
    ensures Decide(name, ocr1, service) == Decide(name, ocr2, service) == Halt(AlreadyIndexed)
  {
  }

  /** Text made only of whitespace is not treated as missing: the file goes
      on with the name `document_scan`. */
  lemma BlankTextIsNotSkipped(name: string, ocr: TextReader, service: NameService)
    requires !HasIndexPrefix(name)
    requires ocr(name).Some? && ocr(name).value != [] && IsBlank(ocr(name).value)
    ensures Decide(name, ocr, service) == Proceed(DocumentScan)
  {
    SentinelsSurviveSanitizing(DocumentScan);
  }

  /** A failing naming service does not stop the file: it goes on with the
      name `ai_naming_failed`. */
  lemma ServiceFailureIsNotSkipped(name: string, ocr: TextReader, service: NameService)
    requires !HasIndexPrefix(name)
    requires ocr(name).Some? && !IsBlank(ocr(name).value)
    requires service(Excerpt(ocr(name).value)) == None
    ensures Decide(name, ocr, service) == Proceed(NamingFailed)
  {
    SentinelsSurviveSanitizing(NamingFailed);
  }

  /** Every name with a three-digit prefix sits below the running index. */
  ghost predicate IndexAbove(dir: set<string>, index: nat) {
    forall n :: n in dir && HasIndexPrefix(n) ==> PrefixValue(n) < index
  }

  /** `get_next_index` establishes the prefix invariant for the listed
      directory. */
  lemma StartIsAbove(listing: seq<string>)
    ensures IndexAbove(Listed(listing), NextIndex(listing))
  {
    forall n | n in Listed(listing) && HasIndexPrefix(n)
      ensures PrefixValue(n) < NextIndex(listing)
    {
      var i :| 0 <= i < |listing| && listing[i] == n;
    }
  }

  /** The prefix invariant survives a step: a new name either carries the
      index just used, or (from 1000 on) no recognised prefix at all. */
  lemma StepKeepsIndexAbove(st: RunState, name: string, decision: Decision, rename: Renamer)
    requires IndexAbove(st.dir, st.index)
    ensures IndexAbove(Step(st, name, decision, rename).state.dir, Step(st, name, decision, rename).state.index)
  {
    var r := Step(st, name, decision, rename);
    if r.outcome.Renamed? {
      TargetCarriesIndex(st.index, decision.clean, SplitExt(name), r.outcome.attempt);
    }
  }

  /** While the index fits in three digits, the plain name
      `f"{index:03d}_{clean}{ext}"` is always free: the collision loop is
      never entered. */
  lemma StepNeedsNoSuffix(st: RunState, name: string, decision: Decision, rename: Renamer)
    requires IndexAbove(st.dir, st.index) && st.index <= 999
    ensures PlainName(Step(st, name, decision, rename).outcome)
  {
    if decision.Proceed? {
      var clean, ext := decision.clean, SplitExt(name);
      TargetCarriesIndex(st.index, clean, ext, 0);
      assert Candidate(Stem(st.index, clean), ext, 0) !in st.dir;
    }
  }

  // ----- A whole pass -------------------------------------------------------

  /** A renamed entry got a name the collision loop produces at this index. */
  ghost predicate IndexedAs(index: nat, name: string, decision: Decision, o: FileOutcome) {
    o.Renamed? ==> decision.Proceed? && o.target == Candidate(Stem(index, decision.clean), SplitExt(name), o.attempt)
  }

  /** The skip rules hold for every file of the pass: a file stopped before
      the commit is logged with that reason, and a file that reaches the
      commit is either renamed or logged as a failed rename. */
  lemma {:induction false} RunOutcomes(st: RunState, files: seq<string>, decide: string -> Decision, rename: Renamer)
    ensures var r := Run(st, files, decide, rename);
      forall i :: 0 <= i < |files| ==>
        (decide(files[i]).Halt? ==> r.log[i] == Skipped(decide(files[i]).reason))
        && (decide(files[i]).Proceed? ==> r.log[i].Renamed? || r.log[i].reason.RenameFailed?)
    decreases files
  {
    if files != [] {
      var s := Step(st, files[0], decide(files[0]), rename);
      RunOutcomes(s.state, files[1..], decide, rename);
      var r := Run(st, files, decide, rename);
      var rest := Run(s.state, files[1..], decide, rename);
      assert r.log == [s.outcome] + rest.log;
      forall i | 1 <= i < |files|
        ensures r.log[i] == rest.log[i - 1] && files[i] == files[1..][i - 1]
      {
      }
    }
  }

  /** A renamed file is named with the starting index plus the number of
      files renamed before it: indices are handed out contiguously, in
      processing order, and failures and skips consume none. */
  lemma RunIndices(st: RunState, files: seq<string>, decide: string -> Decision, rename: Renamer, i: nat)
    requires i < |files|
    ensures var r := Run(st, files, decide, rename);
      IndexedAs(st.index + Successes(r.log[..i]), files[i], decide(files[i]), r.log[i])
  {
    var r := Run(st, files, decide, rename);
    RunSplitsAt(st, files, decide, rename, i);
    var before := Run(st, files[..i], decide, rename);
    assert before.state.index == st.index + Successes(before.log);
    StepIndexedAs(before.state, files[i], decide(files[i]), rename);
  }

  /** A renamed file is named for the index the step started from. */
  lemma StepIndexedAs(st: RunState, name: string, decision: Decision, rename: Renamer)
    ensures IndexedAs(st.index, name, decision, Step(st, name, decision, rename).outcome)
  {
  }

  /** Entry `i` of a pass is what one step does from the state the first `i`
      files left behind, and the log up to there is that of the shorter pass. */
  lemma {:induction false} RunSplitsAt(st: RunState, files: seq<string>, decide: string -> Decision, rename: Renamer, i: nat)
    requires i < |files|
    ensures var r := Run(st, files, decide, rename);
      var before := Run(st, files[..i], decide, rename);
      && before.log == r.log[..i]
      && r.log[i] == Step(before.state, files[i], decide(files[i]), rename).outcome
    decreases i
  {
    var s := Step(st, files[0], decide(files[0]), rename);
    var rest := Run(s.state, files[1..], decide, rename);
    TailFacts(st, files, decide, rename);
    if i == 0 {
      assert files[..0] == [];
    } else {
      RunSplitsAt(s.state, files[1..], decide, rename, i - 1);
      var prefix := files[..i];
      assert prefix[0] == files[0] && prefix[1..] == files[1..][..i - 1];
      TailFacts(st, prefix, decide, rename);
      ConsPrefix(s.outcome, rest.log, i);
      assert files[i] == files[1..][i - 1];
    }
  }

  /** The names of `files` after the first, under the same log shift as `Run`. */
  lemma TailFacts(st: RunState, files: seq<string>, decide: string -> Decision, rename: Renamer)
    requires files != []
    ensures var s := Step(st, files[0], decide(files[0]), rename);
      var r := Run(st, files, decide, rename);
      var rest := Run(s.state, files[1..], decide, rename);
      && r.log == [s.outcome] + rest.log
      && r.state == rest.state
      && Sources(files, r.log) == (if s.outcome.Renamed? then {files[0]} else {}) + Sources(files[1..], rest.log)
      && Targets(r.log) == (if s.outcome.Renamed? then {s.outcome.target} else {}) + Targets(rest.log)
  {
    var s := Step(st, files[0], decide(files[0]), rename);
    var r := Run(st, files, decide, rename);
    var rest := Run(s.state, files[1..], decide, rename);
    assert r.log == [s.outcome] + rest.log;
    assert r.log[1..] == rest.log;
  }

  /** Distinct names that all sit in `dir` keep doing so, after the first, once
      the first has been renamed. */
  lemma TailStaysInside(st: RunState, files: seq<string>, decide: string -> Decision, rename: Renamer)
    requires files != [] && Distinct(files)
    requires forall i :: 0 <= i < |files| ==> files[i] in st.dir
    ensures Distinct(files[1..])
    ensures var s := Step(st, files[0], decide(files[0]), rename);
      forall i :: 0 <= i < |files[1..]| ==> files[1..][i] in s.state.dir
  {
    var tail := files[1..];
    forall i, j | 0 <= i < j < |tail|
      ensures tail[i] != tail[j]
    {
      assert tail[i] == files[i + 1] && tail[j] == files[j + 1];
    }
    var s := Step(st, files[0], decide(files[0]), rename);
    forall i | 0 <= i < |tail|
      ensures tail[i] in s.state.dir
    {
      assert tail[i] == files[i + 1] && files[i + 1] != files[0];
    }
  }

  /** The renamed sources of a pass are among its files. */
  lemma SourcesInside(files: seq<string>, log: seq<FileOutcome>, dir: set<string>)
    requires |files| == |log|
    requires forall i :: 0 <= i < |files| ==> files[i] in dir
    ensures Sources(files, log) <= dir
  {
    SourcesMembership(files, log);
  }

  /** How a pass changes the directory: exactly the renamed sources leave
      and exactly the targets arrive; every other name stays. No target
      clashes with a name that stays. */
  lemma {:induction false} RunDirectory(st: RunState, files: seq<string>, decide: string -> Decision, rename: Renamer)
    requires Distinct(files)
    requires forall i :: 0 <= i < |files| ==> files[i] in st.dir
    ensures var r := Run(st, files, decide, rename);
      && r.state.dir == (st.dir - Sources(files, r.log)) + Targets(r.log)
      && Targets(r.log) !! (st.dir - Sources(files, r.log))
    decreases files
  {
    if files != [] {
      var s := Step(st, files[0], decide(files[0]), rename);
      var rest := Run(s.state, files[1..], decide, rename);
      TailFacts(st, files, decide, rename);
      TailStaysInside(st, files, decide, rename);
      RunDirectory(s.state, files[1..], decide, rename);
      SourcesInside(files[1..], rest.log, st.dir);
    }
  }

  /** No two renamed files of one pass end up with the same name. */
  lemma {:induction false} RunTargetsDistinct(st: RunState, files: seq<string>, decide: string -> Decision, rename: Renamer)
    requires Distinct(files)
    requires forall i :: 0 <= i < |files| ==> files[i] in st.dir
    ensures TargetsDistinct(Run(st, files, decide, rename).log)
    decreases files
  {
    if files != [] {
      var s := Step(st, files[0], decide(files[0]), rename);
      var rest := Run(s.state, files[1..], decide, rename);
      var r := Run(st, files, decide, rename);
      TailFacts(st, files, decide, rename);
      TailStaysInside(st, files, decide, rename);
      RunTargetsDistinct(s.state, files[1..], decide, rename);
      RunDirectory(s.state, files[1..], decide, rename);
      SourcesInside(files[1..], rest.log, st.dir);
      TargetsMembership(rest.log);
      forall i, j | 0 <= i < j < |r.log| && r.log[i].Renamed? && r.log[j].Renamed?
        ensures r.log[i].target != r.log[j].target
      {
        assert r.log[j] == rest.log[j - 1];
        if i > 0 {
          assert r.log[i] == rest.log[i - 1];
        } else {
          assert r.log[j].target in Targets(rest.log);
        }
      }
    }
  }

  /** The prefix invariant holds across a whole pass. */
  lemma {:induction false} RunKeepsIndexAbove(st: RunState, files: seq<string>, decide: string -> Decision, rename: Renamer)
    requires IndexAbove(st.dir, st.index)
    ensures IndexAbove(Run(st, files, decide, rename).state.dir, Run(st, files, decide, rename).state.index)
    decreases files
  {
    if files != [] {
      var s := Step(st, files[0], decide(files[0]), rename);
      StepKeepsIndexAbove(st, files[0], decide(files[0]), rename);
      RunKeepsIndexAbove(s.state, files[1..], decide, rename);
    }
  }

  /** A pass whose every file is stopped before the commit touches nothing. */
  lemma {:induction false} HaltingRunIsIdle(st: RunState, files: seq<string>, decide: string -> Decision, rename: Renamer)
    requires forall i :: 0 <= i < |files| ==> decide(files[i]).Halt?
    ensures Run(st, files, decide, rename).state == st
    ensures Successes(Run(st, files, decide, rename).log) == 0
    decreases files
  {
    if files != [] {
      assert decide(files[0]).Halt?;
      assert forall i :: 0 <= i < |files[1..]| ==> files[1..][i] == files[i + 1];
      HaltingRunIsIdle(st, files[1..], decide, rename);
    }
  }

  /** The snapshot a pass walks: sorted, hence free of repeats, and drawn
      from the listing. */
  lemma SnapshotFacts(listing: seq<string>)
    requires StrictlySorted(listing)
    ensures StrictlySorted(Snapshot(listing)) && Distinct(Snapshot(listing))
    ensures forall i :: 0 <= i < |Snapshot(listing)| ==> Snapshot(listing)[i] in Listed(listing)
  {
    FilterKeepsOrder(listing, ScreenshotExtensions);
    SortedIsDistinct(Snapshot(listing));
  }

  /** A name without one of the pipeline's extensions is never renamed
      away, whatever OCR, the service and `os.rename` do. */
  lemma NonImagesUntouched(listing: seq<string>, ocr: TextReader, service: NameService, rename: Renamer, n: string)
    requires StrictlySorted(listing)
    requires n in listing && !HasExtension(n, ScreenshotExtensions)
    ensures n in ProcessScreenshots(listing, ocr, service, rename).state.dir
  {
    var files := Snapshot(listing);
    var st := RunState(Listed(listing), NextIndex(listing), 0);
    var r := Run(st, files, Decider(ocr, service), rename);
    SnapshotFacts(listing);
    RunDirectory(st, files, Decider(ocr, service), rename);
    SourcesMembership(files, r.log);
    assert n !in files;
  }

  /** Where a renamed file's index comes from: the count of files renamed
      before it, on top of the starting index. Below 1000 the new name
      carries that index as its recognised prefix. */
  lemma RunPrefix(st: RunState, files: seq<string>, decide: string -> Decision, rename: Renamer, i: nat)
    ensures var r := Run(st, files, decide, rename);
      i < |r.log| && r.log[i].Renamed? && r.state.index <= 1000 ==>
        && HasIndexPrefix(r.log[i].target)
        && PrefixValue(r.log[i].target) == st.index + Successes(r.log[..i])
  {
    var r := Run(st, files, decide, rename);
    if i < |r.log| && r.log[i].Renamed? && r.state.index <= 1000 {
      RunIndices(st, files, decide, rename, i);
      var index := st.index + Successes(r.log[..i]);
      var clean := decide(files[i]).clean;
      assert IndexedAs(index, files[i], decide(files[i]), r.log[i]);
      CountGrow(r.log, IsRenamed, i, |r.log|);
      assert r.log[..|r.log|] == r.log;
      TargetCarriesIndex(index, clean, SplitExt(files[i]), r.log[i].attempt);
    }
  }

  /** `RunPrefix` for a whole invocation, starting from `get_next_index`. */
  lemma RenamedPrefix(listing: seq<string>, ocr: TextReader, service: NameService, rename: Renamer, i: nat)
    requires StrictlySorted(listing)
    requires var r := ProcessScreenshots(listing, ocr, service, rename);
      i < |r.log| && r.log[i].Renamed? && r.state.index <= 1000
    ensures var r := ProcessScreenshots(listing, ocr, service, rename);
      && HasIndexPrefix(r.log[i].target)
      && PrefixValue(r.log[i].target) == NextIndex(listing) + Successes(r.log[..i])
  {
    RunPrefix(RunState(Listed(listing), NextIndex(listing), 0), Snapshot(listing), Decider(ocr, service), rename, i);
  }

  /** Renamed files receive increasing prefixes in the sorted order of their
      original names, as long as the index stays within three digits. */
  lemma PrefixesFollowNameOrder(listing: seq<string>, ocr: TextReader, service: NameService, rename: Renamer, i: nat, j: nat)
    requires StrictlySorted(listing)
    requires var r := ProcessScreenshots(listing, ocr, service, rename);
      i < j < |r.log| && r.log[i].Renamed? && r.log[j].Renamed? && r.state.index <= 1000
    ensures var r := ProcessScreenshots(listing, ocr, service, rename);
      && Less(Snapshot(listing)[i], Snapshot(listing)[j])
      && HasIndexPrefix(r.log[i].target) && HasIndexPrefix(r.log[j].target)
      && PrefixValue(r.log[i].target) < PrefixValue(r.log[j].target)
  {
    var r := ProcessScreenshots(listing, ocr, service, rename);
    SnapshotFacts(listing);
    RenamedPrefix(listing, ocr, service, rename, i);
    RenamedPrefix(listing, ocr, service, rename, j);
    CountGrow(r.log, IsRenamed, i, j);
  }

  /** While the index stays within three digits, every renamed file gets the
      plain name `f"{index:03d}_{clean}{ext}"`: no `_k` suffix is ever
      needed in a folder nobody else is writing to. */
  lemma {:induction false} RunNeedsNoSuffix(st: RunState, files: seq<string>, decide: string -> Decision, rename: Renamer)
    requires IndexAbove(st.dir, st.index)
    requires Run(st, files, decide, rename).state.index <= 1000
    ensures var r := Run(st, files, decide, rename);
      forall i :: 0 <= i < |r.log| ==> PlainName(r.log[i])
    decreases files
  {
    if files != [] {
      var s := Step(st, files[0], decide(files[0]), rename);
      var rest := Run(s.state, files[1..], decide, rename);
      var r := Run(st, files, decide, rename);
      TailFacts(st, files, decide, rename);
      CountCons(s.outcome, rest.log, IsRenamed);
      StepKeepsIndexAbove(st, files[0], decide(files[0]), rename);
      RunNeedsNoSuffix(s.state, files[1..], decide, rename);
      if s.outcome.Renamed? {
        StepNeedsNoSuffix(st, files[0], decide(files[0]), rename);
      }
      forall i | 1 <= i < |r.log|
        ensures PlainName(r.log[i])
      {
        assert r.log[i] == rest.log[i - 1];
      }
    }
  }

  /** While the index stays below 1000 and the prefix invariant held at the
      start (as `get_next_index` ensures, `StartIsAbove`), a renamed file gets
      exactly `f"{index:03d}_{clean}{ext}"`, with `index` the starting index
      plus the number of files renamed before it. */
  lemma RunPlainName(st: RunState, files: seq<string>, decide: string -> Decision, rename: Renamer, i: nat)
    requires IndexAbove(st.dir, st.index)
    ensures var r := Run(st, files, decide, rename);
      i < |r.log| && r.log[i].Renamed? && r.state.index <= 1000 ==>
        && decide(files[i]).Proceed?
        && r.log[i].target == Stem(st.index + Successes(r.log[..i]), decide(files[i]).clean) + SplitExt(files[i])
  {
    var r := Run(st, files, decide, rename);
    if i < |r.log| && r.log[i].Renamed? && r.state.index <= 1000 {
      RunNeedsNoSuffix(st, files, decide, rename);
      assert PlainName(r.log[i]);
      RunIndices(st, files, decide, rename, i);
      PlainFromIndexed(st.index + Successes(r.log[..i]), files[i], decide(files[i]), r.log[i]);
    }
  }

  lemma PlainFromIndexed(index: nat, name: string, decision: Decision, o: FileOutcome)
    requires o.Renamed? && IndexedAs(index, name, decision, o) && PlainName(o)
    ensures decision.Proceed? && o.target == Stem(index, decision.clean) + SplitExt(name)
  {
  }

  /** A renamed entry got the plain name: no `_k` suffix. */
  predicate PlainName(o: FileOutcome) {
    o.Renamed? ==> o.attempt == 0
  }

  /** No rename of the pass failed. */
  predicate NoFailedRename(log: seq<FileOutcome>) {
    forall i :: 0 <= i < |log| && log[i].Skipped? ==> !log[i].reason.RenameFailed?
  }

  /** After a pass without failed renames and without reaching index 1000,
      any file of the resulting folder is stopped before the commit by a
      second pass with the same OCR and naming service. */
  lemma SecondPassHalts(listing: seq<string>, ocr: TextReader, service: NameService, rename: Renamer, n: string)
    requires StrictlySorted(listing)
    requires var r := ProcessScreenshots(listing, ocr, service, rename);
      && r.state.index <= 1000
      && NoFailedRename(r.log)
      && n in r.state.dir && HasExtension(n, ScreenshotExtensions)
    ensures Decide(n, ocr, service).Halt?
  {
    var files := Snapshot(listing);
    var st := RunState(Listed(listing), NextIndex(listing), 0);
    var decide := Decider(ocr, service);
    var r := Run(st, files, decide, rename);
    SnapshotFacts(listing);
    RunDirectory(st, files, decide, rename);
    if n in Targets(r.log) {
      TargetsMembership(r.log);
      var i :| 0 <= i < |r.log| && r.log[i].Renamed? && r.log[i].target == n;
      RenamedPrefix(listing, ocr, service, rename, i);
    } else if !HasIndexPrefix(n) {
      assert n in files;
      var i :| 0 <= i < |files| && files[i] == n;
      SourcesMembership(files, r.log);
      RunOutcomes(st, files, decide, rename);
      assert !r.log[i].Renamed?;
      assert decide(files[i]) == Decide(n, ocr, service);
    }
  }

  /** Running the program twice is the same as running it once: on the
      folder the first pass leaves behind (listed again in sorted order),
      with the same OCR and naming service, the second pass renames nothing
      and leaves the folder as it was. This needs the first pass to have had
      no failed renames and to have stayed below index 1000. */
  lemma SecondPassIsIdle(listing: seq<string>, listing2: seq<string>, ocr: TextReader, service: NameService,
                         rename: Renamer, rename2: Renamer)
    requires StrictlySorted(listing) && StrictlySorted(listing2)
    requires var r := ProcessScreenshots(listing, ocr, service, rename);
      && r.state.index <= 1000
      && NoFailedRename(r.log)
      && Listed(listing2) == r.state.dir
    ensures var r2 := ProcessScreenshots(listing2, ocr, service, rename2);
      r2.state.renamed == 0 && r2.state.dir == ProcessScreenshots(listing, ocr, service, rename).state.dir
  {
    var files2 := Snapshot(listing2);
    var decide := Decider(ocr, service);
    forall i | 0 <= i < |files2|
      ensures decide(files2[i]).Halt?
    {
      assert files2[i] in files2;
      SecondPassHalts(listing, ocr, service, rename, files2[i]);
    }
    HaltingRunIsIdle(RunState(Listed(listing2), NextIndex(listing2), 0), files2, decide, rename2);
  }
}
