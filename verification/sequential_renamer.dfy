/** `rename_images_sequentially`: every image of a folder, in sorted order,
    is renamed to `{keyword}_{counter:02d}{ext}`. The counter starts at 1 and
    moves on only when a rename succeeds. There is no collision check, so
    whether `os.rename` succeeds is an oracle. */
module SequentialRenamer {
  import opened Wrappers
  import opened Ascii
  import opened Decimal
  import opened FileNames
  import opened Tally

  /** The extensions this script picks up, compared after lower-casing. */
  const ImageExtensions: seq<string> := [".png", ".jpg", ".jpeg", ".bmp", ".gif", ".tiff"]

  /** `f"{keyword}_{counter:02d}{file_extension}"`. The extension is the one
      `os.path.splitext` returns, in its original case. */
  function NewName(keyword: string, counter: nat, name: string): string {
    keyword + "_" + PadLeft(counter, 2) + SplitExt(name)
  }

  /** The naming scheme as the loop sees it: counter and original name to
      new name. */
  type Namer = (nat, string) -> string

  /** The script's scheme for a given keyword. */
  function Naming(keyword: string): Namer {
    (counter: nat, name: string) => NewName(keyword, counter, name)
  }

  /** What happened to one image: renamed to `target`, or the rename to
      `target` raised. */
  datatype Outcome = Renamed(target: string) | Failed(target: string)

  /** The directory's names and `counter`. */
  datatype State = State(dir: set<string>, counter: nat)

  datatype StepResult = StepResult(outcome: Outcome, state: State)

  /** One iteration over an image. A successful `os.rename` replaces the
      source name by the target; a target that already exists is
      overwritten, which is why the target is simply added to the set. */
  function Step(st: State, name: string, newName: Namer, rename: Renamer): StepResult {
    var target := newName(st.counter, name);
    if rename(name, target) then
      StepResult(Renamed(target), State(st.dir - {name} + {target}, st.counter + 1))
    else
      StepResult(Failed(target), st)
  }

  /** Number of successful renames in a log. */
  function Successes(log: seq<Outcome>): (n: nat)
    ensures n <= |log|
  {
    Count(log, IsRenamed)
  }

  predicate IsRenamed(o: Outcome) {
    o.Renamed?
  }

  datatype PassResult = PassResult(log: seq<Outcome>, state: State)

  /** The loop over the images, one outcome per image: the counter ends
      exactly the number of successes above where it started. */
  function Pass(st: State, files: seq<string>, newName: Namer, rename: Renamer): (r: PassResult)
    ensures |r.log| == |files|
    ensures r.state.counter == st.counter + Successes(r.log)
    decreases files
  {
    if files == [] then PassResult([], st)
    else
      var s := Step(st, files[0], newName, rename);
      var rest := Pass(s.state, files[1..], newName, rename);
      var log := [s.outcome] + rest.log;
      assert log[1..] == rest.log;
      PassResult(log, rest.state)
  }

  /** The images of a listing, in its order. */
  function Images(listing: seq<string>): seq<string> {
    FilterByExtension(listing, ImageExtensions)
  }

  /** What `os.listdir` gives: the names, in sorted order; a
      `FileNotFoundError`; or any other `OSError` (a permission error, a
      path that stopped being a directory, …). */
  datatype Listing = Names(names: seq<string>) | NotFound | ListError

  /** How a call ends: one of the two early returns, an error from listing
      that the function does not catch and that leaves it, or the finished
      loop with the total it reports (`counter - 1`). */
  datatype Report = NotADirectory | CannotList | Raised | Done(log: seq<Outcome>, dir: set<string>, renamed: nat)

  /** `rename_images_sequentially(keyword, folder_path)`. `isDirectory` is
      `os.path.isdir(folder_path)`, and `listing` is what listing the folder
      gives. Only `FileNotFoundError` is caught; every other listing error
      propagates to the caller. All of this comes before any rename;
      otherwise every image is attempted once, and the reported total is
      the number of successful renames. */
  function RenameImagesSequentially(keyword: string, isDirectory: bool, listing: Listing, rename: Renamer): (r: Report)
    requires listing.Names? ==> StrictlySorted(listing.names)
    ensures r == NotADirectory <==> !isDirectory
    ensures r == CannotList <==> isDirectory && listing == NotFound
    ensures r == Raised <==> isDirectory && listing == ListError
    ensures r.Done? <==> isDirectory && listing.Names?
    ensures r.Done? ==> r.renamed == Successes(r.log) && |r.log| == |Images(listing.names)|
  {
    if !isDirectory then NotADirectory
    else match listing
      case NotFound => CannotList
      case ListError => Raised
      case Names(names) =>
        var p := Pass(State(Listed(names), 1), Images(names), Naming(keyword), rename);
        Done(p.log, p.state.dir, p.state.counter - 1)
  }

  // ----- Properties ---------------------------------------------------------

  lemma PassCons(st: State, files: seq<string>, newName: Namer, rename: Renamer)
    requires files != []
    ensures var s := Step(st, files[0], newName, rename);
      var r := Pass(st, files, newName, rename);
      var rest := Pass(s.state, files[1..], newName, rename);
      r.log == [s.outcome] + rest.log && r.state == rest.state
  {
  }

  /** Entry `i` of a pass is what one step does from the state the first `i`
      images left behind. */
  lemma {:induction false} PassSplitsAt(st: State, files: seq<string>, newName: Namer, rename: Renamer, i: nat)
    requires i < |files|
    ensures var r := Pass(st, files, newName, rename);
      var before := Pass(st, files[..i], newName, rename);
      && before.log == r.log[..i]
      && r.log[i] == Step(before.state, files[i], newName, rename).outcome
    decreases i
  {
    var s := Step(st, files[0], newName, rename);
    var rest := Pass(s.state, files[1..], newName, rename);
    PassCons(st, files, newName, rename);
    if i == 0 {
      assert files[..0] == [];
    } else {
      PassSplitsAt(s.state, files[1..], newName, rename, i - 1);
      var prefix := files[..i];
      assert prefix[0] == files[0] && prefix[1..] == files[1..][..i - 1];
      PassCons(st, prefix, newName, rename);
      ConsPrefix(s.outcome, rest.log, i);
      assert files[i] == files[1..][i - 1];
    }
  }

  /** Image `i` is tried under the number `start + (successes before it)`,
      and it counts as renamed exactly when that rename succeeds: failures
      do not use up a number. */
  lemma PassNumbers(st: State, files: seq<string>, newName: Namer, rename: Renamer, i: nat)
    requires i < |files|
    ensures var r := Pass(st, files, newName, rename);
      && r.log[i].target == newName(st.counter + Successes(r.log[..i]), files[i])
      && (r.log[i].Renamed? <==> rename(files[i], r.log[i].target))
  {
    var r := Pass(st, files, newName, rename);
    PassSplitsAt(st, files, newName, rename, i);
    var before := Pass(st, files[..i], newName, rename);
    var counter := before.state.counter;
    assert counter == st.counter + Successes(before.log);
    StepTries(before.state, files[i], newName, rename);
  }

  /** A step tries the scheme's name for the current counter. */
  lemma StepTries(st: State, name: string, newName: Namer, rename: Renamer)
    ensures var o := Step(st, name, newName, rename).outcome;
      o.target == newName(st.counter, name) && (o.Renamed? <==> rename(name, o.target))
  {
  }

  /** The successful renames of a call receive 1, 2, 3, … in processing
      order: the `i`-th image, when renamed, gets one more than the number of
      images renamed before it. */
  lemma NumberedFromOne(keyword: string, names: seq<string>, rename: Renamer, i: nat)
    requires StrictlySorted(names)
    requires var r := RenameImagesSequentially(keyword, true, Names(names), rename);
      i < |r.log| && r.log[i].Renamed?
    ensures var r := RenameImagesSequentially(keyword, true, Names(names), rename);
      r.log[i].target == NewName(keyword, 1 + Successes(r.log[..i]), Images(names)[i])
  {
    PassNumbers(State(Listed(names), 1), Images(names), Naming(keyword), rename, i);
  }

  /** Which images are attempted, and in which order: exactly the names whose
      lower-cased form ends in an image extension, in sorted order. */
  lemma ImagesInSortedOrder(names: seq<string>)
    requires StrictlySorted(names)
    ensures StrictlySorted(Images(names))
    ensures forall n :: n in Images(names) <==> n in names && HasExtension(n, ImageExtensions)
  {
    FilterKeepsOrder(names, ImageExtensions);
  }

  /** The number and the extension can be read back from a new name: two new
      names with the same keyword coincide only for the same counter and
      the same extension. */
  lemma NewNameInjective(keyword: string, c1: nat, n1: string, c2: nat, n2: string)
    ensures NewName(keyword, c1, n1) == NewName(keyword, c2, n2) <==> c1 == c2 && SplitExt(n1) == SplitExt(n2)
  {
    if NewName(keyword, c1, n1) == NewName(keyword, c2, n2) {
      NumberThenExtension(keyword + "_", PadLeft(c1, 2), SplitExt(n1), PadLeft(c2, 2), SplitExt(n2));
      PadLeftInjective(c1, c2, 2);
    }
  }

  /** After a common prefix, a digit string followed by an extension (empty
      or starting with '.') splits in one way only. */
  lemma NumberThenExtension(p: string, d1: string, e1: string, d2: string, e2: string)
    requires AllDigits(d1) && AllDigits(d2)
    requires e1 == [] || e1[0] == '.'
    requires e2 == [] || e2[0] == '.'
    requires p + d1 + e1 == p + d2 + e2
    ensures d1 == d2 && e1 == e2
  {
    var x1, x2 := d1 + e1, d2 + e2;
    assert x1 == (p + d1 + e1)[|p|..];
    assert x2 == (p + d2 + e2)[|p|..];
    DigitRun(d1, e1);
    DigitRun(d2, e2);
    assert d1 == x1[..|d1|] && d2 == x2[..|d2|];
    assert e1 == x1[|d1|..] && e2 == x2[|d2|..];
  }

  /** Length of the longest run of digits at the start of `s`. */
  function LeadingDigits(s: string): (k: nat)
    ensures k <= |s|
  {
    if s == [] || !IsDigit(s[0]) then 0 else 1 + LeadingDigits(s[1..])
  }

  lemma {:induction false} DigitRun(d: string, e: string)
    requires AllDigits(d)
    requires e == [] || e[0] == '.'
    ensures LeadingDigits(d + e) == |d|
  {
    if d == [] {
      assert d + e == e;
    } else {
      assert (d + e)[1..] == d[1..] + e;
      DigitRun(d[1..], e);
    }
  }

  /** Different counters always give different names. */
  ghost predicate NumbersTellApart(newName: Namer) {
    forall c1: nat, c2: nat, n1: string, n2: string :: c1 != c2 ==> newName(c1, n1) != newName(c2, n2)
  }

  lemma NamingTellsApart(keyword: string)
    ensures NumbersTellApart(Naming(keyword))
  {
    forall c1: nat, c2: nat, n1: string, n2: string | c1 != c2
      ensures Naming(keyword)(c1, n1) != Naming(keyword)(c2, n2)
    {
      DistinctNumbersDistinctNames(keyword, c1, n1, c2, n2);
    }
  }

  lemma DistinctNumbersDistinctNames(keyword: string, c1: nat, n1: string, c2: nat, n2: string)
    requires c1 != c2
    ensures NewName(keyword, c1, n1) != NewName(keyword, c2, n2)
  {
    if NewName(keyword, c1, n1) == NewName(keyword, c2, n2) {
      NewNameInjective(keyword, c1, n1, c2, n2);
    }
  }

  /** No two successful renames of one pass use the same new name, for any
      scheme that tells counters apart. */
  lemma PassTargetsDistinct(st: State, files: seq<string>, newName: Namer, rename: Renamer, i: nat, j: nat)
    requires NumbersTellApart(newName)
    requires var r := Pass(st, files, newName, rename);
      i < j < |files| && r.log[i].Renamed? && r.log[j].Renamed?
    ensures var r := Pass(st, files, newName, rename);
      r.log[i].target != r.log[j].target
  {
    var r := Pass(st, files, newName, rename);
    PassNumbers(st, files, newName, rename, i);
    PassNumbers(st, files, newName, rename, j);
    CountGrow(r.log, IsRenamed, i, j);
  }

  /** In a call, no two images are renamed to the same name. */
  lemma TargetsDistinct(keyword: string, names: seq<string>, rename: Renamer, i: nat, j: nat)
    requires StrictlySorted(names)
    requires var r := RenameImagesSequentially(keyword, true, Names(names), rename);
      i < j < |r.log| && r.log[i].Renamed? && r.log[j].Renamed?
    ensures var r := RenameImagesSequentially(keyword, true, Names(names), rename);
      r.log[i].target != r.log[j].target
  {
    NamingTellsApart(keyword);
    PassTargetsDistinct(State(Listed(names), 1), Images(names), Naming(keyword), rename, i, j);
  }

  /** A pass only ever removes the names it processes: every other name of
      the directory is still there afterwards. */
  lemma {:induction false} PassKeepsOthers(st: State, files: seq<string>, newName: Namer, rename: Renamer, n: string)
    requires n in st.dir && n !in files
    ensures n in Pass(st, files, newName, rename).state.dir
    decreases files
  {
    if files != [] {
      var s := Step(st, files[0], newName, rename);
      assert n != files[0] && n !in files[1..];
      PassKeepsOthers(s.state, files[1..], newName, rename, n);
    }
  }

  /** Names that are not images are never renamed away. */
  lemma NonImagesStay(keyword: string, names: seq<string>, rename: Renamer, n: string)
    requires StrictlySorted(names)
    requires n in names && !HasExtension(n, ImageExtensions)
    ensures n in RenameImagesSequentially(keyword, true, Names(names), rename).dir
  {
    PassKeepsOthers(State(Listed(names), 1), Images(names), Naming(keyword), rename, n);
  }

  /** Without a collision check, a successful rename onto a name that
      already exists replaces that file: the folder has one name fewer. */
  lemma OverwriteLosesAName(st: State, keyword: string, name: string, rename: Renamer)
    requires name in st.dir
    requires var target := NewName(keyword, st.counter, name);
      rename(name, target) && target in st.dir && target != name
    ensures |Step(st, name, Naming(keyword), rename).state.dir| == |st.dir| - 1
  {
    var target := NewName(keyword, st.counter, name);
    assert st.dir - {name} + {target} == st.dir - {name};
  }

  /** The early returns and the escaping listing error happen before the rename oracle is consulted: the
      result is the same whatever `os.rename` would do. */
  lemma EarlyReturnsRenameNothing(keyword: string, isDirectory: bool, listing: Listing, r1: Renamer, r2: Renamer)
    requires listing.Names? ==> StrictlySorted(listing.names)
    requires !isDirectory || !listing.Names?
    ensures RenameImagesSequentially(keyword, isDirectory, listing, r1) == RenameImagesSequentially(keyword, isDirectory, listing, r2)
    ensures !RenameImagesSequentially(keyword, isDirectory, listing, r1).Done?
  {
  }
}
