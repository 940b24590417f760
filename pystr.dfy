/** The three Python `str` operations the basmala script relies on:
    `p in s`, `s.replace(p, '')` and `s.strip()`. */
module PyStr {

  /** Python's `str.isspace` for one character: the 29 code points with
      bidirectional class WS, B or S, or general category Zs. This is the
      set `str.strip()` with no argument removes. */
  predicate IsWhitespace(c: char) {
    c == '\t' || c == '\n' || c == '\U{0B}' || c == '\U{0C}' || c == '\r' ||
    ('\U{1C}' <= c <= '\U{1F}') || c == ' ' || c == '\U{85}' || c == '\U{A0}' ||
    c == '\U{1680}' || ('\U{2000}' <= c <= '\U{200A}') ||
    c == '\U{2028}' || c == '\U{2029}' || c == '\U{202F}' || c == '\U{205F}' ||
    c == '\U{3000}'
  }

  /** Every character of `s` at a position in `lo..hi-1` is whitespace. */
  predicate BlankBetween(s: string, lo: int, hi: int) {
    forall k :: lo <= k < hi && 0 <= k < |s| ==> IsWhitespace(s[k])
  }

  /** `s` has no leading and no trailing whitespace. */
  predicate Trimmed(s: string) {
    s == [] || (!IsWhitespace(s[0]) && !IsWhitespace(s[|s| - 1]))
  }

  /** Python's `p in s`: `p` occurs somewhere in `s` (the empty string
      occurs in every string). */
  predicate Contains(s: string, p: string)
    decreases |s|
  {
    if |s| < |p| then false else p <= s || Contains(s[1..], p)
  }

  /** Python's `s.replace(p, '')`: scanning left to right, every
      non-overlapping occurrence of `p` is deleted. An empty `p` leaves `s`
      as it is. */
  function RemoveAll(s: string, p: string): string
    decreases |s|
  {
    if p == [] || s == [] then s
    else if p <= s then RemoveAll(s[|p|..], p)
    else [s[0]] + RemoveAll(s[1..], p)
  }

  /** Python's `s.lstrip()`. */
  function StripLeft(s: string): string
    decreases |s|
  {
    if s != [] && IsWhitespace(s[0]) then StripLeft(s[1..]) else s
  }

  /** Python's `s.rstrip()`. */
  function StripRight(s: string): string
    decreases |s|
  {
    if s != [] && IsWhitespace(s[|s| - 1]) then StripRight(s[..|s| - 1]) else s
  }

  /** Python's `s.strip()`. */
  function Strip(s: string): string {
    StripRight(StripLeft(s))
  }

  // ---------------------------------------------------------------------
  // Occurrence

  /** `Contains` means what `in` means: `p` starts at some position of `s`. */
  lemma {:induction false} ContainsIff(s: string, p: string)
    ensures Contains(s, p) <==> exists k :: 0 <= k <= |s| && p <= s[k..]
  {
    if |s| < |p| {
      forall k | 0 <= k <= |s| ensures !(p <= s[k..]) { }
    } else if p <= s {
      assert s[0..] == s;
    } else {
      ContainsIff(s[1..], p);
      if exists k :: 0 <= k <= |s| && p <= s[k..] {
        var k :| 0 <= k <= |s| && p <= s[k..];
        assert k != 0 by { assert s[0..] == s; }
        assert s[1..][k - 1..] == s[k..];
      }
      forall k | 0 <= k <= |s[1..]| && p <= s[1..][k..] ensures p <= s[k + 1..] {
        assert s[1..][k..] == s[k + 1..];
      }
    }
  }

  /** An occurrence in a string is an occurrence in the string extended by
      one character on the right. */
  lemma {:induction false} ContainsExtendRight(s: string, c: char, p: string)
    requires Contains(s, p)
    ensures Contains(s + [c], p)
  {
    if !(p <= s) {
      assert (s + [c])[1..] == s[1..] + [c];
      ContainsExtendRight(s[1..], c, p);
    }
  }

  /** Stripping only takes characters away, so it cannot create an
      occurrence. */
  lemma {:induction false} StripKeepsAbsence(s: string, p: string)
    requires !Contains(s, p)
    ensures !Contains(Strip(s), p)
  {
    StripLeftKeepsAbsence(s, p);
    StripRightKeepsAbsence(StripLeft(s), p);
  }

  lemma {:induction false} StripLeftKeepsAbsence(s: string, p: string)
    requires !Contains(s, p)
    ensures !Contains(StripLeft(s), p)
  {
    if s != [] && IsWhitespace(s[0]) {
      assert !Contains(s[1..], p);
      StripLeftKeepsAbsence(s[1..], p);
    }
  }

  lemma {:induction false} StripRightKeepsAbsence(s: string, p: string)
    requires !Contains(s, p)
    ensures !Contains(StripRight(s), p)
  {
    if s != [] && IsWhitespace(s[|s| - 1]) {
      var init := s[..|s| - 1];
      assert init + [s[|s| - 1]] == s;
      if Contains(init, p) {
        ContainsExtendRight(init, s[|s| - 1], p);
      }
      StripRightKeepsAbsence(init, p);
    }
  }

  // ---------------------------------------------------------------------
  // replace(p, '')

  /** With no occurrence of `p`, `replace` returns the string unchanged. */
  lemma {:induction false} RemoveAllAbsent(s: string, p: string)
    requires !Contains(s, p)
    ensures RemoveAll(s, p) == s
  {
    if p != [] && s != [] {
      assert !(p <= s);
      assert !Contains(s[1..], p);
      RemoveAllAbsent(s[1..], p);
    }
  }

  /** `replace` never lengthens a string, and when a non-empty `p` occurs
      it shortens it by at least `|p|`. */
  lemma {:induction false} RemoveAllShrinks(s: string, p: string)
    ensures |RemoveAll(s, p)| <= |s|
    ensures p != [] && Contains(s, p) ==> |RemoveAll(s, p)| <= |s| - |p|
  {
    if p != [] && s != [] {
      if p <= s {
        RemoveAllShrinks(s[|p|..], p);
      } else {
        RemoveAllShrinks(s[1..], p);
      }
    }
  }

  /** A leading occurrence is deleted and the scan resumes right after it. */
  lemma RemoveAllLeading(p: string, t: string)
    requires p != []
    ensures RemoveAll(p + t, p) == RemoveAll(t, p)
  {
    assert p <= p + t;
    assert (p + t)[|p|..] == t;
  }

  /** Deleting a string from itself leaves nothing. */
  lemma RemoveAllSelf(p: string)
    requires p != []
    ensures RemoveAll(p, p) == []
  {
    assert p <= p;
    assert p[|p|..] == [];
  }

  /** Deletion can splice a new occurrence together: wrapping `p` in its own
      first character and the rest of it leaves exactly `p` behind, once
      its first two characters differ. */
  lemma RemoveAllSplice(p: string)
    requires |p| >= 2 && p[0] != p[1]
    ensures Contains(p[..1] + p + p[1..], p)
    ensures RemoveAll(p[..1] + p + p[1..], p) == p
  {
    var t := p[..1] + p + p[1..];
    var tail := p + p[1..];
    assert t == [p[0]] + tail;
    assert t[1..] == tail;
    assert p <= tail;
    assert Contains(tail, p);
    assert t[1] != p[1];
    RemoveAllLeading(p, p[1..]);
    RemoveAllAbsent(p[1..], p);
  }

  // ---------------------------------------------------------------------
  // strip()

  /** `strip` leaves a string without surrounding whitespace unchanged. */
  lemma StripOfTrimmed(s: string)
    requires Trimmed(s)
    ensures Strip(s) == s
  {
  }

  /** `lstrip` removes exactly the leading run of whitespace: what it
      returns is a suffix of `s`, everything before that suffix is
      whitespace, and the suffix does not start with whitespace. */
  lemma {:induction false} StripLeftSpec(s: string)
    ensures |StripLeft(s)| <= |s|
    ensures StripLeft(s) == s[|s| - |StripLeft(s)|..]
    ensures BlankBetween(s, 0, |s| - |StripLeft(s)|)
    ensures StripLeft(s) == [] || !IsWhitespace(StripLeft(s)[0])
    decreases |s|
  {
    if s != [] && IsWhitespace(s[0]) {
      StripLeftSpec(s[1..]);
      var n := |s| - |StripLeft(s)|;
      assert s[1..][n - 1..] == s[n..];
      forall k | 0 <= k < n ensures IsWhitespace(s[k]) {
        if k > 0 { assert s[k] == s[1..][k - 1]; }
      }
    }
  }

  /** `rstrip` removes exactly the trailing run of whitespace: what it
      returns is a prefix of `s`, everything after that prefix is
      whitespace, and the prefix does not end with whitespace. */
  lemma {:induction false} StripRightSpec(s: string)
    ensures |StripRight(s)| <= |s|
    ensures StripRight(s) == s[..|StripRight(s)|]
    ensures BlankBetween(s, |StripRight(s)|, |s|)
    ensures StripRight(s) == [] || !IsWhitespace(StripRight(s)[|StripRight(s)| - 1])
    decreases |s|
  {
    if s != [] && IsWhitespace(s[|s| - 1]) {
      var init := s[..|s| - 1];
      StripRightSpec(init);
      var n := |StripRight(s)|;
      assert init[..n] == s[..n];
      forall k | n <= k < |s| ensures IsWhitespace(s[k]) {
        if k < |s| - 1 { assert s[k] == init[k]; }
      }
    }
  }

  /** `strip` returns a string that neither starts nor ends with
      whitespace, and is no longer than its input. */
  lemma StripTrimmed(s: string)
    ensures Trimmed(Strip(s))
    ensures |Strip(s)| <= |s|
  {
    var l := StripLeft(s);
    StripLeftSpec(s);
    StripRightSpec(l);
    var r := StripRight(l);
    if r != [] {
      assert r[0] == l[0];
    }
  }

  /** `strip` returns the slice of `s` between its leading run of
      whitespace (of length `i`, what `lstrip` removes) and its trailing
      run. */
  lemma StripSlice(s: string)
    ensures |StripLeft(s)| <= |s|
    ensures var i := |s| - |StripLeft(s)|;
      i + |Strip(s)| <= |s| && Strip(s) == s[i..i + |Strip(s)|] &&
      BlankBetween(s, 0, i) && BlankBetween(s, i + |Strip(s)|, |s|)
  {
    var l := StripLeft(s);
    StripLeftSpec(s);
    StripRightSpec(l);
    var i, r := |s| - |l|, StripRight(l);
    assert r == s[i..i + |r|] by { assert l[..|r|] == s[i..i + |r|]; }
    forall k | i + |r| <= k < |s| ensures IsWhitespace(s[k]) {
      assert s[k] == l[k - i];
    }
  }
}
