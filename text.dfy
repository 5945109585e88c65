/**
 * The string operations of Ruby that the rewriter and the change computation use:
 * `gsub` with a plain pattern and with a pattern behind the look-behind `(?<!_)`,
 * `Array#join`, `String#strip` and ActiveSupport's `present?`.
 */
module Text {

  predicate StartsWith(s: string, prefix: string)
  {
    |prefix| <= |s| && s[..|prefix|] == prefix
  }

  /** `pat` stands in `s` at position `i`. */
  predicate OccursAt(s: string, pat: string, i: nat)
  {
    i + |pat| <= |s| && s[i..i + |pat|] == pat
  }

  predicate Occurs(s: string, pat: string)
  {
    exists i: nat :: i <= |s| && OccursAt(s, pat, i)
  }

  /** `c` appears nowhere in `s`. */
  predicate Lacks(s: string, c: char)
  {
    forall i :: 0 <= i < |s| ==> s[i] != c
  }

  lemma OccursInTail(s: string, pat: string, i: nat)
    requires |s| > 0 && OccursAt(s[1..], pat, i)
    ensures OccursAt(s, pat, i + 1)
  {
    assert s[1..][i..i + |pat|] == s[i + 1..i + 1 + |pat|];
  }

  /**
   * Ruby's `gsub` with a string pattern: every occurrence of `pat`, found left to
   * right and without overlap, is replaced by `rep`.
   */
  function Gsub(s: string, pat: string, rep: string): string
    requires pat != []
    decreases |s|
  {
    if |s| < |pat| then s
    else if s[..|pat|] == pat then rep + Gsub(s[|pat|..], pat, rep)
    else [s[0]] + Gsub(s[1..], pat, rep)
  }

  /**
   * Ruby's `gsub` with the regular expression `(?<!_)pat`, where `pat` holds no
   * character special to regular expressions: like `Gsub`, except that an
   * occurrence right after an underscore is skipped. `afterUnderscore` says whether
   * the character before `s` is an underscore (false at the start of the string).
   */
  function GsubUnlessAfterUnderscore(s: string, pat: string, rep: string, afterUnderscore: bool): string
    requires pat != []
    decreases |s|
  {
    if |s| < |pat| then s
    else if s[..|pat|] == pat && !afterUnderscore then
      rep + GsubUnlessAfterUnderscore(s[|pat|..], pat, rep, pat[|pat| - 1] == '_')
    else [s[0]] + GsubUnlessAfterUnderscore(s[1..], pat, rep, s[0] == '_')
  }

  /** Without an occurrence of the pattern, `gsub` returns the string unchanged. */
  lemma {:induction false} GsubWithoutOccurrence(s: string, pat: string, rep: string)
    requires pat != [] && !Occurs(s, pat)
    ensures Gsub(s, pat, rep) == s
    decreases |s|
  {
    if |s| >= |pat| {
      assert !OccursAt(s, pat, 0);
      assert !Occurs(s[1..], pat) by {
        if i: nat :| i <= |s[1..]| && OccursAt(s[1..], pat, i) { OccursInTail(s, pat, i); }
      }
      GsubWithoutOccurrence(s[1..], pat, rep);
      assert s == [s[0]] + s[1..];
    }
  }

  /** The same for the look-behind form, whatever precedes the string. */
  lemma {:induction false} GsubUnlessWithoutOccurrence(s: string, pat: string, rep: string, afterUnderscore: bool)
    requires pat != [] && !Occurs(s, pat)
    ensures GsubUnlessAfterUnderscore(s, pat, rep, afterUnderscore) == s
    decreases |s|
  {
    if |s| >= |pat| {
      assert !OccursAt(s, pat, 0);
      assert !Occurs(s[1..], pat) by {
        if i: nat :| i <= |s[1..]| && OccursAt(s[1..], pat, i) { OccursInTail(s, pat, i); }
      }
      GsubUnlessWithoutOccurrence(s[1..], pat, rep, s[0] == '_');
      assert s == [s[0]] + s[1..];
    }
  }

  lemma OccursAtPrefix(s: string, p: string, q: string, i: nat)
    requires OccursAt(s, p + q, i)
    ensures OccursAt(s, p, i)
  {
    assert s[i..i + |p|] == s[i..i + |p + q|][..|p|] == (p + q)[..|p|] == p;
  }

  /** A string without `p` holds nothing that begins with `p`. */
  lemma NoOccurrenceOfExtension(s: string, p: string, q: string)
    requires !Occurs(s, p)
    ensures !Occurs(s, p + q)
  {
    forall i: nat | i <= |s| ensures !OccursAt(s, p + q, i) {
      if OccursAt(s, p + q, i) { OccursAtPrefix(s, p, q, i); }
    }
  }

  /** A character of the pattern that the string lacks rules out every occurrence. */
  lemma LackedCharRulesOut(s: string, pat: string, j: nat)
    requires j < |pat| && Lacks(s, pat[j])
    ensures !Occurs(s, pat)
  {
    forall i: nat | i <= |s|
      ensures !OccursAt(s, pat, i)
    {
      if i + |pat| <= |s| { assert s[i..i + |pat|][j] == s[i + j]; }
    }
  }

  /**
   * In `u + "." + w`, where the dot is the only one, a pattern `v + "." + x` can only
   * stand with its dot on that dot, so `v` must end `u`.
   */
  lemma DotAligned(u: string, w: string, v: string, x: string, i: nat)
    requires Lacks(u, '.') && Lacks(w, '.') && Lacks(v, '.')
    requires OccursAt(u + "." + w, v + "." + x, i)
    ensures i + |v| == |u| && u[i..] == v
  {
    var s, p := u + "." + w, v + "." + x;
    forall k | 0 <= k < |s| && k != |u|
      ensures s[k] != '.'
    {
      if k < |u| { assert s[k] == u[k]; } else { assert s[k] == w[k - |u| - 1]; }
    }
    assert p[|v|] == '.';
    assert s[i..i + |p|][|v|] == s[i + |v|];
    assert u[i..] == s[i..i + |v|] == p[..|v|] == v;
  }

  /** `v` is a suffix of `u`. */
  predicate EndsWith(u: string, v: string)
  {
    |v| <= |u| && u[|u| - |v|..] == v
  }

  /** Where the pattern's stem does not end the string's stem, nothing is replaced. */
  lemma GsubMisaligned(u: string, w: string, v: string, x: string, rep: string, afterUnderscore: bool)
    requires Lacks(u, '.') && Lacks(w, '.') && Lacks(v, '.')
    requires !EndsWith(u, v)
    ensures Gsub(u + "." + w, v + "." + x, rep) == u + "." + w
    ensures GsubUnlessAfterUnderscore(u + "." + w, v + "." + x, rep, afterUnderscore) == u + "." + w
  {
    if i: nat :| i <= |u + "." + w| && OccursAt(u + "." + w, v + "." + x, i) {
      DotAligned(u, w, v, x, i);
    }
    GsubWithoutOccurrence(u + "." + w, v + "." + x, rep);
    GsubUnlessWithoutOccurrence(u + "." + w, v + "." + x, rep, afterUnderscore);
  }

  lemma AlignedOccurrenceStarts(v: string, w: string, x: string, i: nat)
    requires Lacks(w, '.') && Lacks(v, '.')
    requires OccursAt(v + "." + w, v + "." + x, i)
    ensures StartsWith(w, x)
  {
    var s, p := v + "." + w, v + "." + x;
    DotAligned(v, w, v, x, i);
    assert w[..|x|] == s[|v| + 1..|p|] == p[|v| + 1..] == x;
  }

  /**
   * Where the string's stem is exactly the pattern's stem, the pattern is replaced at
   * the front if `x` begins `w`, and nothing changes otherwise. Only a prefix of `w` has
   * to match: the pattern is not bounded on the right.
   */
  lemma GsubAligned(v: string, w: string, x: string, rep: string)
    requires Lacks(w, '.') && Lacks(v, '.') && Lacks(x, '.')
    ensures Gsub(v + "." + w, v + "." + x, rep)
         == if StartsWith(w, x) then rep + w[|x|..] else v + "." + w
    ensures GsubUnlessAfterUnderscore(v + "." + w, v + "." + x, rep, false)
         == if StartsWith(w, x) then rep + w[|x|..] else v + "." + w
  {
    var s, p := v + "." + w, v + "." + x;
    if StartsWith(w, x) {
      assert s[..|p|] == p;
      assert s[|p|..] == w[|x|..];
      LackedCharRulesOut(w[|x|..], p, |v|);
      GsubWithoutOccurrence(w[|x|..], p, rep);
      GsubUnlessWithoutOccurrence(w[|x|..], p, rep, p[|p| - 1] == '_');
    } else {
      forall i: nat | i <= |s| ensures !OccursAt(s, p, i) {
        if OccursAt(s, p, i) { AlignedOccurrenceStarts(v, w, x, i); }
      }
      GsubWithoutOccurrence(s, p, rep);
      GsubUnlessWithoutOccurrence(s, p, rep, false);
    }
  }

  /** Ruby's `Array#join(sep)`. */
  function Join(parts: seq<string>, sep: string): (r: string)
    ensures |parts| == 1 ==> r == parts[0]
  {
    if |parts| == 0 then ""
    else if |parts| == 1 then parts[0]
    else parts[0] + sep + Join(parts[1..], sep)
  }

  /** The characters Ruby's `String#strip` removes: NUL, tab, LF, VT, FF, CR, space. */
  predicate IsStripped(c: char)
  {
    c == '\0' || c == '\t' || c == '\n' || c == '\U{B}' || c == '\U{C}' || c == '\r' || c == ' '
  }

  /** The characters of the POSIX class `[[:space:]]` on Unicode strings. */
  predicate IsSpace(c: char)
  {
    c == '\t' || c == '\n' || c == '\U{B}' || c == '\U{C}' || c == '\r' || c == ' '
    || c == '\U{85}' || c == '\U{A0}' || c == '\U{1680}' || ('\U{2000}' <= c <= '\U{200A}')
    || c == '\U{2028}' || c == '\U{2029}' || c == '\U{202F}' || c == '\U{205F}' || c == '\U{3000}'
  }

  function StripLeft(s: string): (r: string)
    ensures |r| <= |s|
  {
    if s != [] && IsStripped(s[0]) then StripLeft(s[1..]) else s
  }

  function StripRight(s: string): (r: string)
    ensures |r| <= |s|
  {
    if s != [] && IsStripped(s[|s| - 1]) then StripRight(s[..|s| - 1]) else s
  }

  /** Ruby's `String#strip`. */
  function Strip(s: string): string
  {
    StripRight(StripLeft(s))
  }

  /** ActiveSupport's `String#present?`: not empty and not made of white space only. */
  predicate Present(s: string)
  {
    exists i :: 0 <= i < |s| && !IsSpace(s[i])
  }

  predicate AllStripped(w: string)
  {
    forall i :: 0 <= i < |w| ==> IsStripped(w[i])
  }

  lemma {:induction false} StripLeftPadded(w: string, a: string)
    requires AllStripped(w)
    ensures StripLeft(w + a) == StripLeft(a)
    decreases |w|
  {
    if w != [] {
      assert (w + a)[0] == w[0];
      assert (w + a)[1..] == w[1..] + a;
      StripLeftPadded(w[1..], a);
    } else {
      assert w + a == a;
    }
  }

  lemma {:induction false} StripRightPadded(a: string, w: string)
    requires AllStripped(w)
    ensures StripRight(a + w) == StripRight(a)
    decreases |w|
  {
    if w != [] {
      assert (a + w)[|a + w| - 1] == w[|w| - 1];
      assert (a + w)[..|a + w| - 1] == a + w[..|w| - 1];
      StripRightPadded(a, w[..|w| - 1]);
    } else {
      assert a + w == a;
    }
  }

  lemma {:induction false} StripLeftBeforePadding(a: string, w: string)
    requires AllStripped(w)
    ensures StripRight(StripLeft(a + w)) == StripRight(StripLeft(a))
    decreases |a|
  {
    if a == [] {
      assert a + w == w;
      StripLeftPadded(w, []);
      assert w + [] == w;
    } else if IsStripped(a[0]) {
      assert (a + w)[1..] == a[1..] + w;
      StripLeftBeforePadding(a[1..], w);
    } else {
      StripRightPadded(a, w);
    }
  }

  /** White space around a string does not survive `strip`. */
  lemma StripIgnoresPadding(w1: string, a: string, w2: string)
    requires AllStripped(w1) && AllStripped(w2)
    ensures Strip(w1 + a + w2) == Strip(a)
  {
    assert w1 + a + w2 == w1 + (a + w2);
    StripLeftPadded(w1, a + w2);
    StripLeftBeforePadding(a, w2);
  }
}
