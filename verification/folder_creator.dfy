/** `create_folders` and the argument checks of its `main`: numbered
    subfolders `prefix1 … prefixN`, or `prefixM.1 … prefixM.N` inside a
    directory called `moduleM`, each created only when absent. The base
    directory's name is an input; `os.makedirs` is an oracle. */
module FolderCreator {
  import opened Ascii
  import opened Decimal
  import opened FileNames

  /** The word a base directory's name must start with. */
  const ModuleWord: string := "module"

  /** `s.replace(pattern, "")`: occurrences removed in one left-to-right
      pass, without overlap. What the removal joins together is not looked
      at again ("momoduledule" gives "module"). */
  function RemoveAll(s: string, pattern: string): (r: string)
    requires pattern != []
    ensures |r| <= |s|
    decreases |s|
  {
    if s == [] then []
    else if StartsWith(s, pattern) then RemoveAll(s[|pattern|..], pattern)
    else [s[0]] + RemoveAll(s[1..], pattern)
  }

  /** Every occurrence of "module" is removed, wherever it stands: no
      occurrence can straddle the end of another text, because no proper
      prefix of the word is also a suffix of it (only its first letter is
      `m`). So removing from a text with the word inside is removing from
      the parts on either side. */
  lemma {:induction false} RemoveAllJoin(a: string, b: string)
    ensures RemoveAll(a + ModuleWord + b, ModuleWord) == RemoveAll(a, ModuleWord) + RemoveAll(b, ModuleWord)
    decreases |a|
  {
    var s := a + ModuleWord + b;
    if a == [] {
      assert s == ModuleWord + b;
      assert s[..|ModuleWord|] == ModuleWord && s[|ModuleWord|..] == b;
    } else if StartsWith(s, ModuleWord) {
      assert s[|a|] == 'm';
      assert |a| >= |ModuleWord|;
      assert a[..|ModuleWord|] == s[..|ModuleWord|];
      assert s[|ModuleWord|..] == a[|ModuleWord|..] + ModuleWord + b;
      RemoveAllJoin(a[|ModuleWord|..], b);
    } else {
      assert s[0] == a[0];
      assert s[1..] == a[1..] + ModuleWord + b;
      RemoveAllJoin(a[1..], b);
    }
  }

  /** `s.lstrip("0")`. */
  function StripZeros(s: string): (r: string)
    ensures r == [] || r[0] != '0'
    ensures |r| <= |s| && r == s[|s| - |r|..]
    ensures forall i :: 0 <= i < |s| - |r| ==> s[i] == '0'
  {
    if s != [] && s[0] == '0' then StripZeros(s[1..]) else s
  }

  /** `module_num`: empty unless the base name starts with "module"; then
      the name with every "module" removed and leading zeros stripped, or
      "0" when nothing is left. */
  function ModuleNumber(basename: string): (m: string)
    ensures m == [] <==> !StartsWith(basename, ModuleWord)
  {
    if StartsWith(basename, ModuleWord) then
      var stripped := StripZeros(RemoveAll(basename, ModuleWord));
      if stripped == [] then "0" else stripped
    else []
  }

  /** `f"{folder_prefix}{module_num}.{i}"`, or `f"{folder_prefix}{i}"` when
      there is no module number. */
  function FolderName(prefix: string, moduleNumber: string, i: nat): string {
    if moduleNumber != [] then prefix + moduleNumber + "." + ToDecimal(i) else prefix + ToDecimal(i)
  }

  /** Whether `os.makedirs` succeeds for the named folder. */
  type MakeDir = string -> bool

  /** The folder name of each number, for one prefix and module number. */
  type Numbering = nat -> string

  /** The names `FolderName` gives with a fixed prefix and module number. */
  function Naming(prefix: string, moduleNumber: string): Numbering {
    (i: nat) => FolderName(prefix, moduleNumber, i)
  }

  /** The state of the loop when it stops: the folders it created, the
      directory's names, and whether it stopped on an exception. */
  datatype Creation = Creation(created: seq<string>, dir: set<string>, failed: bool)

  /** The loop `for i in range(from, count + 1)`, with `dir` the names
      present when it reaches `from`. */
  function CreateFrom(names: Numbering, from: nat, count: int, dir: set<string>, mkdir: MakeDir): (r: Creation)
    ensures dir <= r.dir
    ensures |r.created| <= if count < from then 0 else count - from + 1
    decreases if count < from then 0 else count - from + 1
  {
    if count < from then Creation([], dir, false)
    else
      var name := names(from);
      if name in dir then CreateFrom(names, from + 1, count, dir, mkdir)
      else if !mkdir(name) then Creation([], dir, true)
      else
        var rest := CreateFrom(names, from + 1, count, dir + {name}, mkdir);
        Creation([name] + rest.created, rest.dir, rest.failed)
  }

  /** What `create_folders` leaves behind: the list it returns and the
      directory's names. */
  datatype FolderResult = FolderResult(returned: seq<string>, dir: set<string>)

  /** `create_folders(folder_prefix, num_folders, base_path)`, with
      `basename` the name of the base directory and `existing` the names in
      it. An exception makes it return `[]`, although the folders made
      before it stay. */
  function CreateFolders(prefix: string, count: int, basename: string, existing: set<string>, mkdir: MakeDir): (r: FolderResult)
    ensures existing <= r.dir
    ensures |r.returned| <= if count < 1 then 0 else count
  {
    var c := CreateFrom(Naming(prefix, ModuleNumber(basename)), 1, count, existing, mkdir);
    FolderResult(if c.failed then [] else c.created, c.dir)
  }

  /** Why `main` stops before creating anything. */
  datatype Rejection = NotPositive | NoSuchPath

  datatype MainResult = Rejected(reason: Rejection) | Ran(result: FolderResult)

  /** `main`: a count that is not positive is rejected first, then a base
      path that does not exist; only then are folders created. */
  function Main(prefix: string, count: int, pathExists: bool, basename: string, existing: set<string>, mkdir: MakeDir): (r: MainResult)
    ensures r == Rejected(NotPositive) <==> count <= 0
    ensures r == Rejected(NoSuchPath) <==> count > 0 && !pathExists
    ensures r.Ran? <==> count > 0 && pathExists
  {
    if count <= 0 then Rejected(NotPositive)
    else if !pathExists then Rejected(NoSuchPath)
    else Ran(CreateFolders(prefix, count, basename, existing, mkdir))
  }

  // ----- Module number ------------------------------------------------------

  /** Text without the pattern's first character is left alone. */
  lemma {:induction false} RemoveAllMissing(s: string, pattern: string)
    requires pattern != []
    requires forall i :: 0 <= i < |s| ==> s[i] != pattern[0]
    ensures RemoveAll(s, pattern) == s
    decreases |s|
  {
    if s != [] {
      if |pattern| <= |s| {
        assert s[..|pattern|][0] == s[0];
      }
      RemoveAllMissing(s[1..], pattern);
    }
  }

  /** Stripping zeros keeps the value of a digit string, and leaves either
      nothing (an all-zero string) or the canonical `str` of that value. */
  lemma StripZerosValue(s: string)
    requires AllDigits(s)
    ensures AllDigits(StripZeros(s))
    ensures Value(StripZeros(s)) == Value(s)
    ensures StripZeros(s) == [] || Canonical(StripZeros(s))
  {
    var r := StripZeros(s);
    var k := |s| - |r|;
    assert AllDigits(r) by {
      forall i | 0 <= i < |r| ensures IsDigit(r[i]) {
        assert r[i] == s[k + i];
      }
    }
    assert s[..k] == Zeros(k);
    assert s == s[..k] + r;
    ZerosDoNotCount(k, r);
  }

  /** A directory called "module" followed by digits gets the number those
      digits denote, written as `str` writes it: "module05" gives "5",
      "module" and "module00" give "0". */
  lemma ModuleNumberOfDigits(digits: string)
    requires AllDigits(digits)
    ensures ModuleNumber(ModuleWord + digits) == ToDecimal(Value(digits))
  {
    var name := ModuleWord + digits;
    assert name[..|ModuleWord|] == ModuleWord;
    assert name[|ModuleWord|..] == digits;
    assert StartsWith(name, ModuleWord);
    assert RemoveAll(name, ModuleWord) == RemoveAll(digits, ModuleWord);
    RemoveAllMissing(digits, ModuleWord);
    StripZerosValue(digits);
    var stripped := StripZeros(digits);
    if stripped == [] {
      assert Value(digits) == 0;
    } else {
      ToDecimalOfValue(stripped);
    }
  }

  /** The derivation named in the script's own comment: "module05" gives
      "5". */
  lemma ModuleFiveExample()
    ensures ModuleNumber("module05") == "5"
  {
    assert "module05" == ModuleWord + "05";
    assert AllDigits("05");
    assert "05"[..1] == "0";
    assert Value("05") == 5;
    ModuleNumberOfDigits("05");
  }

  /** The word is removed wherever it appears, not only at the start:
      "module5module" gives "5". */
  lemma ModuleWordTwiceExample()
    ensures ModuleNumber("module5module") == "5"
  {
    assert "module5module" == "module5" + ModuleWord + "";
    RemoveAllJoin("module5", "");
    assert "module5" == ModuleWord + "5";
    RemoveAllJoin("", "5");
    assert RemoveAll("5", ModuleWord) == "5";
    assert StartsWith("module5module", ModuleWord);
  }

  /** With no digits, or only zeros, after the word the number is "0". */
  lemma ModuleZeroExamples()
    ensures ModuleNumber("module") == "0"
    ensures ModuleNumber("module00") == "0"
  {
    assert "module" == ModuleWord + "";
    ModuleNumberOfDigits("");
    assert "module00" == ModuleWord + "00";
    assert "00" == Zeros(2);
    AllZerosWorthNothing(2);
    ModuleNumberOfDigits("00");
  }

  // ----- Folder names -------------------------------------------------------

  /** Different numbers give different folder names, with or without a
      module number. */
  lemma FolderNameInjective(prefix: string, moduleNumber: string, i: nat, j: nat)
    requires FolderName(prefix, moduleNumber, i) == FolderName(prefix, moduleNumber, j)
    ensures i == j
  {
    var p := if moduleNumber != [] then prefix + moduleNumber + "." else prefix;
    assert FolderName(prefix, moduleNumber, i) == p + ToDecimal(i);
    assert FolderName(prefix, moduleNumber, j) == p + ToDecimal(j);
    assert ToDecimal(i) == (p + ToDecimal(i))[|p|..];
    assert ToDecimal(j) == (p + ToDecimal(j))[|p|..];
    ToDecimalInjective(i, j);
  }

  // ----- The creation loop ----------------------------------------------------

  /** No two numbers share a name. */
  ghost predicate Injective(names: Numbering) {
    forall i, j :: names(i) == names(j) ==> i == j
  }

  lemma NamingInjective(prefix: string, moduleNumber: string)
    ensures Injective(Naming(prefix, moduleNumber))
  {
    forall i: nat, j: nat | Naming(prefix, moduleNumber)(i) == Naming(prefix, moduleNumber)(j)
      ensures i == j
    {
      FolderNameInjective(prefix, moduleNumber, i, j);
    }
  }

  /** The names the loop should create from `from` on: those of the numbers
      `from..count` not in `dir`, in increasing order of number. */
  function Missing(names: Numbering, from: nat, count: int, dir: set<string>): (w: seq<string>)
    ensures |w| <= if count < from then 0 else count - from + 1
    decreases if count < from then 0 else count - from + 1
  {
    if count < from then []
    else (if names(from) in dir then [] else [names(from)]) + Missing(names, from + 1, count, dir)
  }

  /** Exactly the absent names of the numbers `from..count` are missing. */
  lemma {:induction false} MissingMembers(names: Numbering, from: nat, count: int, dir: set<string>, x: string)
    ensures x in Missing(names, from, count, dir) <==>
      x !in dir && exists i: nat :: from <= i <= count && x == names(i)
    decreases if count < from then 0 else count - from + 1
  {
    if count >= from {
      MissingMembers(names, from + 1, count, dir, x);
      if x !in dir && x != names(from) && (exists i: nat :: from <= i <= count && x == names(i)) {
        var i: nat :| from <= i <= count && x == names(i);
        assert i != from;
      }
    }
  }

  /** Missing names come in increasing order of their numbers. */
  lemma {:induction false} MissingInOrder(names: Numbering, from: nat, count: int, dir: set<string>, k: nat, l: nat, i: nat, j: nat)
    requires Injective(names)
    requires var w := Missing(names, from, count, dir); k < l < |w| && w[k] == names(i) && w[l] == names(j)
    ensures i < j
    decreases if count < from then 0 else count - from + 1
  {
    var head := if names(from) in dir then [] else [names(from)];
    var rest := Missing(names, from + 1, count, dir);
    var w := Missing(names, from, count, dir);
    assert w == head + rest;
    if head == [] {
      MissingInOrder(names, from + 1, count, dir, k, l, i, j);
    } else if k == 0 {
      assert w[l] == rest[l - 1];
      MissingMembers(names, from + 1, count, dir, w[l]);
      var j': nat :| from + 1 <= j' <= count && w[l] == names(j');
    } else {
      assert w[k] == rest[k - 1] && w[l] == rest[l - 1];
      MissingInOrder(names, from + 1, count, dir, k - 1, l - 1, i, j);
    }
  }

  /** Creating the folder of an earlier number does not change which later
      names are missing. */
  lemma {:induction false} MissingIgnoresEarlier(names: Numbering, from: nat, count: int, dir: set<string>, j: nat)
    requires Injective(names) && j < from
    ensures Missing(names, from, count, dir + {names(j)}) == Missing(names, from, count, dir)
    decreases if count < from then 0 else count - from + 1
  {
    if count >= from {
      assert names(from) != names(j);
      MissingIgnoresEarlier(names, from + 1, count, dir, j);
    }
  }

  /** The directory gains exactly the folders the loop created. */
  lemma {:induction false} CreateFromDir(names: Numbering, from: nat, count: int, dir: set<string>, mkdir: MakeDir)
    ensures var r := CreateFrom(names, from, count, dir, mkdir);
      r.dir == dir + Listed(r.created)
    decreases if count < from then 0 else count - from + 1
  {
    if count >= from {
      var name := names(from);
      if name in dir {
        CreateFromDir(names, from + 1, count, dir, mkdir);
      } else if !mkdir(name) {
        assert Listed([]) == {};
      } else {
        var rest := CreateFrom(names, from + 1, count, dir + {name}, mkdir);
        CreateFromDir(names, from + 1, count, dir + {name}, mkdir);
        assert Listed([name] + rest.created) == {name} + Listed(rest.created);
      }
    } else {
      assert Listed([]) == {};
    }
  }

  /** What the loop does, against the list of missing names: it creates a
      prefix of them, in order, each one `os.makedirs` accepts. When it
      stops on an exception, the next missing name is one `os.makedirs`
      refuses; otherwise it has created them all. */
  lemma {:induction false} CreateFromSpec(names: Numbering, from: nat, count: int, dir: set<string>, mkdir: MakeDir)
    requires Injective(names)
    ensures var r := CreateFrom(names, from, count, dir, mkdir);
      var w := Missing(names, from, count, dir);
      && |r.created| <= |w| && r.created == w[..|r.created|]
      && (forall k :: 0 <= k < |r.created| ==> mkdir(r.created[k]))
      && (if r.failed then |r.created| < |w| && !mkdir(w[|r.created|]) else r.created == w)
    decreases if count < from then 0 else count - from + 1
  {
    if count >= from {
      var name := names(from);
      var w := Missing(names, from, count, dir);
      var w' := Missing(names, from + 1, count, dir);
      if name in dir {
        assert w == w';
        CreateFromSpec(names, from + 1, count, dir, mkdir);
      } else if !mkdir(name) {
        assert w[0] == name;
      } else {
        var r := CreateFrom(names, from, count, dir, mkdir);
        var rest := CreateFrom(names, from + 1, count, dir + {name}, mkdir);
        assert w == [name] + w';
        MissingIgnoresEarlier(names, from + 1, count, dir, from);
        CreateFromSpec(names, from + 1, count, dir + {name}, mkdir);
        assert r.created == [name] + rest.created;
        if r.failed {
          assert w[|r.created|] == w'[|rest.created|];
        }
      }
    }
  }

  /** `create_folders` on a base directory: without exceptions it returns
      exactly the missing folders in increasing order of number, and the
      directory gains exactly those; after an exception it returns `[]`,
      while the folders made before the failing one stay. */
  lemma CreateFoldersSpec(prefix: string, count: int, basename: string, existing: set<string>, mkdir: MakeDir)
    ensures var r := CreateFolders(prefix, count, basename, existing, mkdir);
      var w := Missing(Naming(prefix, ModuleNumber(basename)), 1, count, existing);
      if forall k :: 0 <= k < |w| ==> mkdir(w[k]) then
        r.returned == w && r.dir == existing + Listed(w)
      else
        && r.returned == []
        && exists n: nat ::
             n < |w| && (forall k :: 0 <= k < n ==> mkdir(w[k])) && !mkdir(w[n]) && r.dir == existing + Listed(w[..n])
  {
    var names := Naming(prefix, ModuleNumber(basename));
    var c := CreateFrom(names, 1, count, existing, mkdir);
    var w := Missing(names, 1, count, existing);
    NamingInjective(prefix, ModuleNumber(basename));
    CreateFromSpec(names, 1, count, existing, mkdir);
    CreateFromDir(names, 1, count, existing, mkdir);
    if c.failed {
      var n := |c.created|;
      assert forall k :: 0 <= k < n ==> w[k] == c.created[k];
      assert !mkdir(w[n]) && c.dir == existing + Listed(w[..n]);
    } else {
      forall k | 0 <= k < |w| ensures mkdir(w[k]) {
        assert w[k] == c.created[k];
      }
    }
  }

  /** A rejected call creates nothing: the outcome is the same whatever the
      directory holds and whatever `os.makedirs` would do. */
  lemma RejectionCreatesNothing(prefix: string, count: int, pathExists: bool, basename: string,
                                existing1: set<string>, existing2: set<string>, mkdir1: MakeDir, mkdir2: MakeDir)
    requires count <= 0 || !pathExists
    ensures Main(prefix, count, pathExists, basename, existing1, mkdir1).Rejected?
    ensures Main(prefix, count, pathExists, basename, existing1, mkdir1)
         == Main(prefix, count, pathExists, basename, existing2, mkdir2)
  {
  }
}
