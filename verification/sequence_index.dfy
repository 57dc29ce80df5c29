/** The sequence index: the three-digit prefix `^(\d{3})_` that marks a file
    as already renamed, and the next free index computed from a listing. */
module SequenceIndex {
  import opened Ascii
  import opened Decimal

  /** `re.match(r'^\d{3}_', name)`: exactly three ASCII digits, then '_'. */
  predicate HasIndexPrefix(name: string) {
    |name| >= 4 && IsDigit(name[0]) && IsDigit(name[1]) && IsDigit(name[2]) && name[3] == '_'
  }

  /** `int(match.group(1))`. */
  function PrefixValue(name: string): (v: nat)
    requires HasIndexPrefix(name)
    ensures v <= 999
  {
    ValueBelowPow(name[..3]);
    assert Pow10(3) == 1000 by {
      assert Pow10(1) == 10;
      assert Pow10(2) == 100;
    }
    Value(name[..3])
  }

  /** The largest prefix among matching names, scanning in listing order as
      the loop does; 0 when no name matches. */
  function MaxPrefix(names: seq<string>): (m: nat)
    ensures m <= 999
    ensures forall i :: 0 <= i < |names| && HasIndexPrefix(names[i]) ==> PrefixValue(names[i]) <= m
    ensures m == 0 || exists i :: 0 <= i < |names| && HasIndexPrefix(names[i]) && PrefixValue(names[i]) == m
  {
    if names == [] then 0
    else
      var m := MaxPrefix(names[..|names| - 1]);
      var last := names[|names| - 1];
      if HasIndexPrefix(last) && PrefixValue(last) > m then PrefixValue(last) else m
  }

  /** `get_next_index`: one more than the largest prefix in the whole listing
      (images or not), or 1 when nothing matches. */
  function NextIndex(listing: seq<string>): (next: nat)
    ensures 1 <= next <= 1000
    ensures forall i :: 0 <= i < |listing| && HasIndexPrefix(listing[i]) ==> PrefixValue(listing[i]) < next
    ensures next == 1 || exists i :: 0 <= i < |listing| && HasIndexPrefix(listing[i]) && PrefixValue(listing[i]) == next - 1
  {
    MaxPrefix(listing) + 1
  }

  /** The index depends on which names are listed, not on the order
      `os.listdir` returns them in. */
  lemma NextIndexIgnoresOrder(a: seq<string>, b: seq<string>)
    requires forall n :: n in a <==> n in b
    ensures NextIndex(a) == NextIndex(b)
  {
    var na, nb := NextIndex(a), NextIndex(b);
    if na > 1 {
      var i :| 0 <= i < |a| && HasIndexPrefix(a[i]) && PrefixValue(a[i]) == na - 1;
      assert a[i] in b;
    }
    if nb > 1 {
      var i :| 0 <= i < |b| && HasIndexPrefix(b[i]) && PrefixValue(b[i]) == nb - 1;
      assert b[i] in a;
    }
  }

  /** A name made of a digit run, '_' and anything counts exactly when the
      run has three digits: `12_a` and `1234_a` do not match. */
  lemma OnlyThreeDigitRuns(digits: string, rest: string)
    requires AllDigits(digits)
    ensures HasIndexPrefix(digits + "_" + rest) <==> |digits| == 3
  {
    var name := digits + "_" + rest;
    assert name[|digits|] == '_';
    if |digits| > 3 {
      assert name[3] == digits[3];
    }
  }

  /** The field `f"{idx:03d}_"` is recognised by the prefix pattern exactly
      while `idx <= 999`, and then it reads back as `idx`; from 1000 on the
      fourth character is a digit and the name no longer matches. */
  lemma IndexFieldRecognised(idx: nat, rest: string)
    ensures HasIndexPrefix(PadLeft(idx, 3) + "_" + rest) <==> idx <= 999
    ensures idx <= 999 ==> PrefixValue(PadLeft(idx, 3) + "_" + rest) == idx
  {
    var field := PadLeft(idx, 3);
    var name := field + "_" + rest;
    ThreeDigitField(idx);
    if idx <= 999 {
      assert name[..3] == field;
    } else {
      assert name[3] == field[3];
    }
  }
}
