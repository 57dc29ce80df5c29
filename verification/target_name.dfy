/** The target name of a screenshot, `f"{index:03d}_{clean}{ext}"`, and the
    collision loop that appends `_1`, `_2`, ... until the name is free. */
module TargetName {
  import opened Decimal
  import opened SequenceIndex

  /** `f"{index:03d}"`: at least three digits. */
  function IndexField(index: nat): string {
    PadLeft(index, 3)
  }

  /** What every candidate starts with: `f"{index:03d}_{clean}"`. */
  function Stem(index: nat, clean: string): string {
    IndexField(index) + "_" + clean
  }

  /** The k-th name the collision loop tries: the plain name for k = 0, then
      `stem + "_" + str(k) + ext`. */
  function Candidate(stem: string, ext: string, k: nat): string {
    if k == 0 then stem + ext else stem + "_" + ToDecimal(k) + ext
  }

  /** Different attempts try different names. */
  lemma CandidateInjective(stem: string, ext: string, j: nat, k: nat)
    requires Candidate(stem, ext, j) == Candidate(stem, ext, k)
    ensures j == k
  {
    if j != 0 && k != 0 {
      var dj, dk := ToDecimal(j), ToDecimal(k);
      var s := Candidate(stem, ext, j);
      var from := |stem| + 1;
      assert |dj| == |dk|;
      assert s[from..from + |dj|] == dj;
      assert Candidate(stem, ext, k)[from..from + |dk|] == dk;
      ToDecimalInjective(j, k);
    }
  }

  /** The names tried before attempt `n`. */
  function Tried(stem: string, ext: string, n: nat): set<string> {
    set j | 0 <= j < n :: Candidate(stem, ext, j)
  }

  lemma {:induction false} TriedSize(stem: string, ext: string, n: nat)
    ensures |Tried(stem, ext, n)| == n
  {
    if n > 0 {
      TriedSize(stem, ext, n - 1);
      assert Tried(stem, ext, n) == Tried(stem, ext, n - 1) + {Candidate(stem, ext, n - 1)};
      if Candidate(stem, ext, n - 1) in Tried(stem, ext, n - 1) {
        var j :| 0 <= j < n - 1 && Candidate(stem, ext, j) == Candidate(stem, ext, n - 1);
        CandidateInjective(stem, ext, j, n - 1);
      }
    }
  }

  /** A directory can block at most as many attempts as it has names, which
      is why the collision loop ends. */
  lemma TriedBound(dir: set<string>, stem: string, ext: string, n: nat)
    requires forall j :: 0 <= j < n ==> Candidate(stem, ext, j) in dir
    ensures n <= |dir|
  {
    TriedSize(stem, ext, n);
    SubsetSize(Tried(stem, ext, n), dir);
  }

  lemma {:induction false} SubsetSize<T>(a: set<T>, b: set<T>)
    requires a <= b
    ensures |a| <= |b|
    decreases a
  {
    if a != {} {
      var x :| x in a;
      SubsetSize(a - {x}, b - {x});
    }
  }

  /** The collision loop from attempt `k` on. */
  function FreeFrom(dir: set<string>, stem: string, ext: string, k: nat): (r: nat)
    requires forall j :: 0 <= j < k ==> Candidate(stem, ext, j) in dir
    ensures k <= r
    ensures Candidate(stem, ext, r) !in dir
    ensures forall j :: 0 <= j < r ==> Candidate(stem, ext, j) in dir
    decreases |dir| - k
  {
    if Candidate(stem, ext, k) !in dir then k
    else
      TriedBound(dir, stem, ext, k + 1);
      FreeFrom(dir, stem, ext, k + 1)
  }

  /** The attempt the collision loop stops at: the least `k` whose candidate
      is not in the directory. */
  function FreeAttempt(dir: set<string>, stem: string, ext: string): (k: nat)
    ensures Candidate(stem, ext, k) !in dir
    ensures forall j :: 0 <= j < k ==> Candidate(stem, ext, j) in dir
    ensures k <= |dir|
  {
    var k := FreeFrom(dir, stem, ext, 0);
    TriedBound(dir, stem, ext, k);
    k
  }

  /** The name the screenshot is renamed to: the first free candidate, which
      is never a name already in the directory. */
  function ChooseTarget(dir: set<string>, index: nat, clean: string, ext: string): (target: string)
    ensures target !in dir
    ensures target == Candidate(Stem(index, clean), ext, FreeAttempt(dir, Stem(index, clean), ext))
  {
    var stem := Stem(index, clean);
    Candidate(stem, ext, FreeAttempt(dir, stem, ext))
  }

  /** Whatever suffix is chosen, the target starts with the index field and
      '_': it is recognised as already renamed exactly while the index is at
      most 999, and it then carries that index. */
  lemma TargetCarriesIndex(index: nat, clean: string, ext: string, k: nat)
    ensures HasIndexPrefix(Candidate(Stem(index, clean), ext, k)) <==> index <= 999
    ensures index <= 999 ==> PrefixValue(Candidate(Stem(index, clean), ext, k)) == index
  {
    var rest := if k == 0 then clean + ext else clean + "_" + ToDecimal(k) + ext;
    assert Candidate(Stem(index, clean), ext, k) == IndexField(index) + "_" + rest;
    IndexFieldRecognised(index, rest);
  }
}
