/** File-name helpers shared by both renamers: the case-insensitive extension
    test `name.lower().endswith(extensions)`, `os.path.splitext(name)[1]`, and
    the code-point order Python's `sorted` puts a directory listing in. */
module FileNames {
  import opened Ascii

  /** Whether `os.rename(source, target)` succeeds. */
  type Renamer = (string, string) -> bool

  /** The names of a directory listing, as a set. */
  function Listed(listing: seq<string>): set<string> {
    set n | n in listing
  }

  /** `name.lower().endswith(tuple(extensions))`. */
  predicate HasExtension(name: string, extensions: seq<string>) {
    exists e :: e in extensions && EndsWith(Lower(name), e)
  }

  /** Index of the last '.' in `s`, or -1 when there is none. */
  function LastDot(s: string): (d: int)
    ensures -1 <= d < |s|
    ensures d >= 0 ==> s[d] == '.'
    ensures forall i :: d < i < |s| ==> s[i] != '.'
  {
    if s == [] then -1
    else if s[|s| - 1] == '.' then |s| - 1
    else LastDot(s[..|s| - 1])
  }

  /** `os.path.splitext(name)[1]` for a bare file name (a directory listing
      never contains separators): from the last '.' to the end, unless every
      character before that dot is itself a dot (so ".png" has no
      extension). */
  function SplitExt(name: string): (ext: string)
    ensures ext == [] || (ext[0] == '.' && EndsWith(name, ext))
    ensures forall i :: 1 <= i < |ext| ==> ext[i] != '.'
    ensures ext != [] <==> exists d, i :: 0 <= i < d < |name| && name[d] == '.' && name[i] != '.'
  {
    var d := LastDot(name);
    if d >= 0 && exists i :: 0 <= i < d && name[i] != '.' then name[d..] else []
  }

  /** Python's `<` on strings: lexicographic by code point, a proper prefix
      coming first. */
  predicate Less(a: string, b: string) {
    if a == [] then b != []
    else if b == [] then false
    else if a[0] != b[0] then a[0] < b[0]
    else Less(a[1..], b[1..])
  }

  /** The order `sorted(names)` produces for a listing without duplicates. */
  predicate StrictlySorted(names: seq<string>) {
    forall i, j :: 0 <= i < j < |names| ==> Less(names[i], names[j])
  }

  predicate Distinct(names: seq<string>) {
    forall i, j :: 0 <= i < j < |names| ==> names[i] != names[j]
  }

  lemma {:induction false} LessIrreflexive(a: string)
    ensures !Less(a, a)
  {
    if a != [] {
      LessIrreflexive(a[1..]);
    }
  }

  lemma SortedIsDistinct(names: seq<string>)
    requires StrictlySorted(names)
    ensures Distinct(names)
  {
    forall i, j | 0 <= i < j < |names|
      ensures names[i] != names[j]
    {
      LessIrreflexive(names[i]);
    }
  }

  /** `[f for f in names if f.lower().endswith(extensions)]`. */
  function FilterByExtension(names: seq<string>, extensions: seq<string>): (r: seq<string>)
    ensures |r| <= |names|
    ensures forall n :: n in r <==> n in names && HasExtension(n, extensions)
  {
    if names == [] then []
    else if HasExtension(names[0], extensions) then [names[0]] + FilterByExtension(names[1..], extensions)
    else FilterByExtension(names[1..], extensions)
  }

  /** Filtering a sorted listing keeps it sorted, so filtering before or after
      sorting gives the same snapshot. */
  lemma {:induction false} FilterKeepsOrder(names: seq<string>, extensions: seq<string>)
    requires StrictlySorted(names)
    ensures StrictlySorted(FilterByExtension(names, extensions))
  {
    if names != [] {
      var rest := names[1..];
      assert StrictlySorted(rest) by {
        forall i, j | 0 <= i < j < |rest|
          ensures Less(rest[i], rest[j])
        {
          assert rest[i] == names[i + 1] && rest[j] == names[j + 1];
        }
      }
      FilterKeepsOrder(rest, extensions);
      var r := FilterByExtension(rest, extensions);
      if HasExtension(names[0], extensions) {
        forall j | 0 <= j < |r|
          ensures Less(names[0], r[j])
        {
          assert r[j] in rest;
          var k :| 0 <= k < |rest| && rest[k] == r[j];
          assert names[k + 1] == r[j];
        }
        var out := [names[0]] + r;
        forall i, j | 0 <= i < j < |out|
          ensures Less(out[i], out[j])
        {
          if i > 0 {
            assert out[i] == r[i - 1] && out[j] == r[j - 1];
          } else {
            assert out[j] == r[j - 1];
          }
        }
      }
    }
  }
}
