/** Counting the entries of a log that pass a test: how both renamers keep
    their number of successful renames. */
module Tally {
  /** A log with one entry in front, cut at `i`, is that entry followed by
      the original log cut one earlier. */
  lemma ConsPrefix<T>(x: T, log: seq<T>, i: nat)
    requires 0 < i <= |log|
    ensures ([x] + log)[..i] == [x] + log[..i - 1]
    ensures ([x] + log)[i] == log[i - 1]
  {
  }

  /** Number of entries of `log` for which `hit` holds. */
  function Count<T>(log: seq<T>, hit: T -> bool): (n: nat)
    ensures n <= |log|
  {
    if log == [] then 0 else (if hit(log[0]) then 1 else 0) + Count(log[1..], hit)
  }

  lemma CountCons<T>(x: T, log: seq<T>, hit: T -> bool)
    ensures Count([x] + log, hit) == (if hit(x) then 1 else 0) + Count(log, hit)
  {
    assert ([x] + log)[1..] == log;
  }

  lemma {:induction false} CountAppend<T>(a: seq<T>, b: seq<T>, hit: T -> bool)
    ensures Count(a + b, hit) == Count(a, hit) + Count(b, hit)
  {
    if a == [] {
      assert a + b == b;
    } else {
      assert a + b == [a[0]] + (a[1..] + b);
      CountCons(a[0], a[1..] + b, hit);
      CountAppend(a[1..], b, hit);
      assert a == [a[0]] + a[1..];
      CountCons(a[0], a[1..], hit);
    }
  }

  /** A hit counts among the hits before any later entry. */
  lemma CountGrow<T>(log: seq<T>, hit: T -> bool, i: nat, j: nat)
    requires i < j <= |log| && hit(log[i])
    ensures Count(log[..i], hit) < Count(log[..j], hit)
  {
    assert log[..j] == log[..i] + ([log[i]] + log[i + 1..j]);
    CountAppend(log[..i], [log[i]] + log[i + 1..j], hit);
    CountCons(log[i], log[i + 1..j], hit);
  }
}
