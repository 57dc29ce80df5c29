/** `sanitize_filename`: lower-case the name, replace every run of
    whitespace and hyphens by one '_', then delete everything that is not a
    word character. */
module Sanitizer {
  import opened Ascii

  /** A character of the class `[\s-]`. */
  predicate IsSeparator(c: char) {
    IsSpace(c) || c == '-'
  }

  /** What a sanitised name is made of: lower-case letters, digits, '_'. */
  predicate IsCleanChar(c: char) {
    IsLower(c) || IsDigit(c) || c == '_'
  }

  predicate AllClean(s: string) {
    forall i :: 0 <= i < |s| ==> IsCleanChar(s[i])
  }

  /** `re.sub(r'[\s-]+', '_', s)`, as the left-to-right scan the regex engine
      performs; `inRun` says the previous character was a separator already
      replaced. */
  function Collapse(s: string, inRun: bool): (r: string)
    ensures forall c :: c in r ==> c == '_' || (c in s && !IsSeparator(c))
  {
    if s == [] then []
    else if IsSeparator(s[0]) then
      if inRun then Collapse(s[1..], true) else "_" + Collapse(s[1..], true)
    else [s[0]] + Collapse(s[1..], false)
  }

  /** `re.sub(r'[^\w_]', '', s)`: keep the word characters, in order. */
  function KeepWordChars(s: string): (r: string)
    ensures |r| <= |s|
    ensures forall c :: c in r <==> c in s && IsWordChar(c)
  {
    if s == [] then []
    else if IsWordChar(s[0]) then [s[0]] + KeepWordChars(s[1..])
    else KeepWordChars(s[1..])
  }

  /** `sanitize_filename(name)`. The result holds only lower-case letters,
      digits and '_': no whitespace, hyphen, '/' or '\'. */
  function Sanitize(name: string): (clean: string)
    ensures AllClean(clean)
    ensures |clean| <= |name|
  {
    PipelineIsClean(name);
    KeepWordChars(Collapse(Lower(name), false))
  }

  lemma PipelineIsClean(name: string)
    ensures AllClean(KeepWordChars(Collapse(Lower(name), false)))
    ensures |KeepWordChars(Collapse(Lower(name), false))| <= |name|
  {
    var lowered := Lower(name);
    var collapsed := Collapse(lowered, false);
    CollapseNoLonger(lowered, false);
    var clean := KeepWordChars(collapsed);
    forall i | 0 <= i < |clean|
      ensures IsCleanChar(clean[i])
    {
      var c := clean[i];
      assert c in collapsed;
      if c != '_' {
        assert c in lowered;
        var k :| 0 <= k < |lowered| && lowered[k] == c;
      }
    }
  }

  lemma {:induction false} CollapseNoLonger(s: string, inRun: bool)
    ensures |Collapse(s, inRun)| <= |s|
  {
    if s != [] {
      CollapseNoLonger(s[1..], IsSeparator(s[0]));
    }
  }

  /** A name without separators passes the collapse step unchanged. */
  lemma {:induction false} CollapseWithoutSeparators(s: string, inRun: bool)
    requires forall i :: 0 <= i < |s| ==> !IsSeparator(s[i])
    ensures Collapse(s, inRun) == s
  {
    if s != [] {
      CollapseWithoutSeparators(s[1..], false);
    }
  }

  lemma {:induction false} KeepAllWordChars(s: string)
    requires forall i :: 0 <= i < |s| ==> IsWordChar(s[i])
    ensures KeepWordChars(s) == s
  {
    if s != [] {
      KeepAllWordChars(s[1..]);
    }
  }

  /** A name made only of clean characters is its own sanitisation. */
  lemma CleanIsFixedPoint(t: string)
    requires AllClean(t)
    ensures Sanitize(t) == t
  {
    assert Lower(t) == t;
    CollapseWithoutSeparators(t, false);
    KeepAllWordChars(t);
  }

  /** Sanitising is idempotent. */
  lemma SanitizeIdempotent(name: string)
    ensures Sanitize(Sanitize(name)) == Sanitize(name)
  {
    CleanIsFixedPoint(Sanitize(name));
  }

  /** A run of separators followed by anything is collapsed to at most one
      '_' (none when it continues a run already replaced). */
  lemma {:induction false} CollapseRun(run: string, rest: string, inRun: bool)
    requires |run| >= 1
    requires forall i :: 0 <= i < |run| ==> IsSeparator(run[i])
    ensures Collapse(run + rest, inRun) == (if inRun then "" else "_") + Collapse(rest, true)
  {
    assert (run + rest)[1..] == run[1..] + rest;
    if |run| > 1 {
      CollapseRun(run[1..], rest, true);
    } else {
      assert run[1..] + rest == rest;
    }
  }

  lemma LowerDistributes(a: string, b: string)
    ensures Lower(a + b) == Lower(a) + Lower(b)
  {
  }

  lemma {:induction false} KeepDistributes(a: string, b: string)
    ensures KeepWordChars(a + b) == KeepWordChars(a) + KeepWordChars(b)
  {
    if a != [] {
      assert (a + b)[1..] == a[1..] + b;
      KeepDistributes(a[1..], b);
    } else {
      assert a + b == b;
    }
  }

  /** Every maximal run of whitespace and hyphens, at the start, in the middle
      or at the end, becomes exactly one '_'. */
  lemma SanitizeSeparatorRun(run: string, rest: string)
    requires |run| >= 1
    requires forall i :: 0 <= i < |run| ==> IsSeparator(run[i])
    requires rest == [] || !IsSeparator(rest[0])
    ensures Sanitize(run + rest) == "_" + Sanitize(rest)
  {
    LowerDistributes(run, rest);
    var lr, lt := Lower(run), Lower(rest);
    assert forall i :: 0 <= i < |lr| ==> IsSeparator(lr[i]);
    CollapseRun(lr, lt, false);
    assert Collapse(lt, true) == Collapse(lt, false);
    KeepDistributes("_", Collapse(lt, false));
  }

  /** Any other character is lower-cased and kept when it is a word
      character, and dropped otherwise. */
  lemma SanitizeOtherChar(c: char, rest: string)
    requires !IsSeparator(c)
    ensures Sanitize([c] + rest) == (if IsWordChar(c) then [ToLower(c)] else []) + Sanitize(rest)
  {
    LowerDistributes([c], rest);
    var lt := Lower(rest);
    assert Lower([c]) == [ToLower(c)];
    assert ([ToLower(c)] + lt)[1..] == lt;
    KeepDistributes([ToLower(c)], Collapse(lt, false));
  }

  lemma {:induction false} CollapseKeepsWordChar(s: string, inRun: bool, i: nat)
    requires i < |s| && IsWordChar(s[i])
    ensures s[i] in Collapse(s, inRun)
  {
    if i > 0 {
      CollapseKeepsWordChar(s[1..], IsSeparator(s[0]), i - 1);
    }
  }

  lemma {:induction false} CollapseMarksSeparator(s: string, i: nat)
    requires i < |s| && IsSeparator(s[i])
    ensures '_' in Collapse(s, false)
  {
    if !IsSeparator(s[0]) {
      CollapseMarksSeparator(s[1..], i - 1);
    }
  }

  /** The sanitised name is empty exactly when the input has no word
      character and no whitespace or hyphen: all-punctuation gives "". */
  lemma SanitizeEmptyIff(name: string)
    ensures Sanitize(name) == [] <==> forall i :: 0 <= i < |name| ==> !IsWordChar(name[i]) && !IsSeparator(name[i])
  {
    var lowered := Lower(name);
    if forall i :: 0 <= i < |name| ==> !IsWordChar(name[i]) && !IsSeparator(name[i]) {
      assert lowered == name;
      CollapseWithoutSeparators(lowered, false);
      if Sanitize(name) != [] {
        assert Sanitize(name)[0] in name;
      }
    } else {
      var i :| 0 <= i < |name| && (IsWordChar(name[i]) || IsSeparator(name[i]));
      if IsWordChar(name[i]) {
        CollapseKeepsWordChar(lowered, false, i);
        assert lowered[i] in Sanitize(name);
      } else {
        CollapseMarksSeparator(lowered, i);
        assert '_' in Sanitize(name);
      }
    }
  }

  /** A stretch without separators contributes its lower-cased word
      characters and nothing else. */
  lemma SanitizeNoSeparators(w: string, rest: string)
    requires forall i :: 0 <= i < |w| ==> !IsSeparator(w[i])
    ensures Sanitize(w + rest) == KeepWordChars(Lower(w)) + Sanitize(rest)
  {
    LowerDistributes(w, rest);
    var lw := Lower(w);
    assert forall i :: 0 <= i < |lw| ==> !IsSeparator(lw[i]);
    CollapsePlainPrefix(lw, Lower(rest));
    KeepDistributes(lw, Collapse(Lower(rest), false));
  }

  /** Characters other than separators pass the collapse scan one by one. */
  lemma {:induction false} CollapsePlainPrefix(p: string, x: string)
    requires forall i :: 0 <= i < |p| ==> !IsSeparator(p[i])
    ensures Collapse(p + x, false) == p + Collapse(x, false)
  {
    if p == [] {
      assert p + x == x;
    } else {
      assert (p + x)[1..] == p[1..] + x;
      CollapsePlainPrefix(p[1..], x);
    }
  }

  /** Whether the collapse scan is inside a separator run after reading `a`. */
  function EndsInRun(a: string, inRun: bool): bool {
    if a == [] then inRun else IsSeparator(a[|a| - 1])
  }

  lemma {:induction false} CollapseAppend(a: string, b: string, inRun: bool)
    ensures Collapse(a + b, inRun) == Collapse(a, inRun) + Collapse(b, EndsInRun(a, inRun))
  {
    if a == [] {
      assert a + b == b;
    } else {
      assert (a + b)[1..] == a[1..] + b;
      CollapseAppend(a[1..], b, IsSeparator(a[0]));
      assert EndsInRun(a[1..], IsSeparator(a[0])) == EndsInRun(a, inRun);
    }
  }

  /** Sanitising works piecewise across a boundary that is not inside a run
      of separators. */
  lemma SanitizeAppend(a: string, b: string)
    requires a == [] || !IsSeparator(a[|a| - 1])
    ensures Sanitize(a + b) == Sanitize(a) + Sanitize(b)
  {
    LowerDistributes(a, b);
    var la, lb := Lower(a), Lower(b);
    CollapseAppend(la, lb, false);
    assert EndsInRun(la, false) == false;
    KeepDistributes(Collapse(la, false), Collapse(lb, false));
  }

  /** Leading and trailing whitespace are not trimmed: each surrounding run
      becomes one '_' ("  Login Error - Page 1!! " gives
      "_login_error_page_1_"). */
  lemma SurroundingRunsKept(lead: string, core: string, trail: string)
    requires |lead| >= 1 && forall i :: 0 <= i < |lead| ==> IsSeparator(lead[i])
    requires |trail| >= 1 && forall i :: 0 <= i < |trail| ==> IsSeparator(trail[i])
    requires |core| >= 1 && !IsSeparator(core[0]) && !IsSeparator(core[|core| - 1])
    ensures Sanitize(lead + core + trail) == "_" + Sanitize(core) + "_"
  {
    assert lead + core + trail == lead + (core + trail);
    SanitizeSeparatorRun(lead, core + trail);
    SanitizeAppend(core, trail);
    var empty: string := [];
    SanitizeSeparatorRun(trail, empty);
    assert trail + empty == trail;
    assert Sanitize(empty) == [];
  }
}
