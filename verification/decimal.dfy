/** Decimal text of natural numbers: Python's `str(n)`, the zero-padded
    `f"{n:0Wd}"` format, and `int(s)` on a string of ASCII digits. */
module Decimal {
  import opened Ascii

  function DigitChar(d: nat): (c: char)
    requires d < 10
    ensures IsDigit(c)
  {
    ('0' as int + d) as char
  }

  function DigitValue(c: char): (d: nat)
    requires IsDigit(c)
    ensures d < 10
  {
    c as int - '0' as int
  }

  predicate AllDigits(s: string) {
    forall i :: 0 <= i < |s| ==> IsDigit(s[i])
  }

  /** A digit string as `str(n)` writes it: non-empty, no leading zero
      unless it is "0" itself. */
  predicate Canonical(s: string) {
    AllDigits(s) && |s| >= 1 && (|s| > 1 ==> s[0] != '0')
  }

  /** `str(n)` for a natural number. */
  function ToDecimal(n: nat): (s: string)
    ensures Canonical(s)
  {
    if n < 10 then [DigitChar(n)] else ToDecimal(n / 10) + [DigitChar(n % 10)]
  }

  /** `int(s)` for a string of ASCII digits (0 for the empty string). */
  function Value(s: string): nat
    requires AllDigits(s)
  {
    if s == [] then 0 else Value(s[..|s| - 1]) * 10 + DigitValue(s[|s| - 1])
  }

  function Pow10(k: nat): (p: nat)
    ensures p >= 1
  {
    if k == 0 then 1 else 10 * Pow10(k - 1)
  }

  function Zeros(k: nat): (z: string)
    ensures |z| == k && AllDigits(z)
    ensures forall i :: 0 <= i < k ==> z[i] == '0'
  {
    seq(k, _ => '0')
  }

  /** `f"{n:0{width}d}"`: `str(n)` padded on the left with zeros to at least
      `width` characters; a wider number is never truncated. */
  function PadLeft(n: nat, width: nat): (s: string)
    ensures AllDigits(s)
    ensures |s| == if |ToDecimal(n)| >= width then |ToDecimal(n)| else width
    ensures Value(s) == n
  {
    var d := ToDecimal(n);
    ValueOfToDecimal(n);
    if |d| >= width then d
    else
      ZerosDoNotCount(width - |d|, d);
      Zeros(width - |d|) + d
  }

  /** Reading back what `str(n)` wrote gives `n`. */
  lemma {:induction false} ValueOfToDecimal(n: nat)
    ensures Value(ToDecimal(n)) == n
  {
    if n >= 10 {
      var s := ToDecimal(n);
      assert s[..|s| - 1] == ToDecimal(n / 10);
      ValueOfToDecimal(n / 10);
    }
  }

  /** A canonical digit string of two or more digits is worth at least 1. */
  lemma {:induction false} CanonicalPositive(s: string)
    requires Canonical(s) && s[0] != '0'
    ensures Value(s) >= 1
  {
    if |s| > 1 {
      var init := s[..|s| - 1];
      assert init[0] == s[0];
      CanonicalPositive(init);
    }
  }

  /** Writing back what `int(s)` read gives `s`, for canonical `s`. */
  lemma {:induction false} ToDecimalOfValue(s: string)
    requires Canonical(s)
    ensures ToDecimal(Value(s)) == s
  {
    if |s| > 1 {
      var init := s[..|s| - 1];
      assert init[0] == s[0];
      CanonicalPositive(init);
      ToDecimalOfValue(init);
      assert s == init + [s[|s| - 1]];
    }
  }

  lemma ToDecimalInjective(a: nat, b: nat)
    requires ToDecimal(a) == ToDecimal(b)
    ensures a == b
  {
    ValueOfToDecimal(a);
    ValueOfToDecimal(b);
  }

  lemma PadLeftInjective(a: nat, b: nat, width: nat)
    requires PadLeft(a, width) == PadLeft(b, width)
    ensures a == b
  {
  }

  /** Leading zeros do not change the value. */
  lemma {:induction false} ZerosDoNotCount(k: nat, s: string)
    requires AllDigits(s)
    ensures AllDigits(Zeros(k) + s)
    ensures Value(Zeros(k) + s) == Value(s)
  {
    var t := Zeros(k) + s;
    if s == [] {
      assert t == Zeros(k);
      AllZerosWorthNothing(k);
    } else {
      assert t[..|t| - 1] == Zeros(k) + s[..|s| - 1];
      ZerosDoNotCount(k, s[..|s| - 1]);
    }
  }

  lemma {:induction false} AllZerosWorthNothing(k: nat)
    ensures Value(Zeros(k)) == 0
  {
    if k > 0 {
      assert Zeros(k)[..k - 1] == Zeros(k - 1);
      AllZerosWorthNothing(k - 1);
    }
  }

  /** `str(n)` has at most `k` digits exactly when `n < 10^k`. */
  lemma {:induction false} DecimalLength(n: nat, k: nat)
    requires k >= 1
    ensures |ToDecimal(n)| <= k <==> n < Pow10(k)
  {
    if n >= 10 {
      if k == 1 {
        assert Pow10(1) == 10;
      } else {
        DecimalLength(n / 10, k - 1);
        assert n / 10 < Pow10(k - 1) <==> n < 10 * Pow10(k - 1);
      }
    } else {
      PowAtLeastTen(k);
    }
  }

  lemma {:induction false} PowAtLeastTen(k: nat)
    requires k >= 1
    ensures Pow10(k) >= 10
  {
    if k > 1 {
      PowAtLeastTen(k - 1);
    }
  }

  /** The value of a string of `k` digits stays below `10^k`. */
  lemma {:induction false} ValueBelowPow(s: string)
    requires AllDigits(s)
    ensures Value(s) < Pow10(|s|)
  {
    if s != [] {
      ValueBelowPow(s[..|s| - 1]);
    }
  }

  /** The three-digit field `f"{n:03d}"` is exactly three characters long
      precisely when `n <= 999`; from 1000 on it has four or more digits. */
  lemma ThreeDigitField(n: nat)
    ensures |PadLeft(n, 3)| == 3 <==> n <= 999
    ensures n > 999 ==> |PadLeft(n, 3)| >= 4
  {
    DecimalLength(n, 3);
    assert Pow10(3) == 1000 by {
      assert Pow10(1) == 10;
      assert Pow10(2) == 100;
    }
  }
}
