/**
  The string primitives the voice generator relies on, stated over `seq<char>`:
  Python's substring test `sub in s`, ASCII lower-casing as done by `str.lower()`
  on ASCII text, and `str.replace(pat, rep)` (leftmost, non-overlapping, all
  occurrences).
 */
module Text {

  /** `p` is a prefix of `s`. */
  predicate StartsWith(s: string, p: string) {
    |p| <= |s| && s[..|p|] == p
  }

  /** `sub` occurs in `s` at index `i`. */
  predicate OccursAt(s: string, sub: string, i: int) {
    0 <= i && i + |sub| <= |s| && s[i..i + |sub|] == sub
  }

  /** Python's `sub in s`: some suffix of `s` starts with `sub`. */
  predicate Contains(s: string, sub: string)
    ensures Contains(s, sub) ==> |sub| <= |s|
    ensures |sub| == 0 ==> Contains(s, sub)
    decreases |s|
  {
    StartsWith(s, sub) || (|s| > 0 && Contains(s[1..], sub))
  }

  /** An occurrence at a known index makes `Contains` true. */
  lemma {:induction false} OccurrenceContains(s: string, sub: string, i: int)
    requires OccursAt(s, sub, i)
    ensures Contains(s, sub)
    decreases i
  {
    if i == 0 {
      assert s[..|sub|] == s[i..i + |sub|];
    } else {
      assert s[1..][i - 1..i - 1 + |sub|] == s[i..i + |sub|];
      OccurrenceContains(s[1..], sub, i - 1);
    }
  }

  /** A successful scan names an index where `sub` occurs. */
  lemma {:induction false} ContainsHasOccurrence(s: string, sub: string)
    ensures Contains(s, sub) ==> exists i :: OccursAt(s, sub, i)
    decreases |s|
  {
    if StartsWith(s, sub) {
      assert OccursAt(s, sub, 0);
    } else if |s| > 0 {
      ContainsHasOccurrence(s[1..], sub);
      if Contains(s[1..], sub) {
        var i :| OccursAt(s[1..], sub, i);
        assert s[i + 1..i + 1 + |sub|] == s[1..][i..i + |sub|];
        assert OccursAt(s, sub, i + 1);
      }
    }
  }

  /** The scanning definition of `Contains` agrees with "there is an index where `sub` occurs". */
  lemma ContainsIffOccurs(s: string, sub: string)
    ensures Contains(s, sub) <==> exists i :: OccursAt(s, sub, i)
  {
    ContainsHasOccurrence(s, sub);
    forall i | OccursAt(s, sub, i)
      ensures Contains(s, sub)
    {
      OccurrenceContains(s, sub, i);
    }
  }

  /** A string shorter than `sub` cannot contain it. */
  lemma ShortDoesNotContain(s: string, sub: string)
    requires |s| < |sub|
    ensures !Contains(s, sub)
  {
    ContainsIffOccurs(s, sub);
  }

  /** No position that leaves room for `sub` holds its first character, so `sub` does not occur. */
  lemma NoRoomForFirstChar(s: string, sub: string)
    requires |sub| > 0
    requires forall i :: 0 <= i && i + |sub| <= |s| ==> s[i] != sub[0]
    ensures !Contains(s, sub)
  {
    ContainsIffOccurs(s, sub);
    forall i | 0 <= i && i + |sub| <= |s|
      ensures !OccursAt(s, sub, i)
    {
      assert s[i..i + |sub|][0] == s[i];
    }
  }

  predicate IsAsciiUpper(c: char) {
    'A' <= c <= 'Z'
  }

  /** Lower-cases one ASCII capital letter; every other character is kept. */
  function LowerChar(c: char): (d: char)
    ensures IsAsciiUpper(c) ==> d as int == c as int + 32
    ensures !IsAsciiUpper(c) ==> d == c
    ensures !IsAsciiUpper(d)
  {
    if IsAsciiUpper(c) then (c as int + 32) as char else c
  }

  /** `str.lower()` restricted to ASCII letters. */
  function ToLower(s: string): (r: string)
    ensures |r| == |s|
    ensures forall i :: 0 <= i < |s| ==> r[i] == LowerChar(s[i])
    ensures forall i :: 0 <= i < |r| ==> !IsAsciiUpper(r[i])
  {
    seq(|s|, i requires 0 <= i < |s| => LowerChar(s[i]))
  }

  /** Lower-casing twice is lower-casing once. */
  lemma ToLowerIdempotent(s: string)
    ensures ToLower(ToLower(s)) == ToLower(s)
  {
    var once := ToLower(s);
    var twice := ToLower(once);
    forall i | 0 <= i < |s|
      ensures twice[i] == once[i]
    {
      assert !IsAsciiUpper(once[i]);
    }
  }

  /** Lower-casing keeps every occurrence: a piece of `s` shows up, lower-cased, in `ToLower(s)`. */
  lemma ContainsSurvivesLower(s: string, sub: string)
    ensures Contains(s, sub) ==> Contains(ToLower(s), ToLower(sub))
  {
    ContainsIffOccurs(s, sub);
    ContainsIffOccurs(ToLower(s), ToLower(sub));
    if Contains(s, sub) {
      var i :| OccursAt(s, sub, i);
      var ls, lsub := ToLower(s), ToLower(sub);
      assert ls[i..i + |sub|] == lsub by {
        forall j | 0 <= j < |sub|
          ensures ls[i..i + |sub|][j] == lsub[j]
        {
          assert s[i + j] == s[i..i + |sub|][j];
        }
      }
      assert OccursAt(ls, lsub, i);
    }
  }

  /**
    Python's `s.replace(pat, rep)`: scanning from the left, every occurrence of
    `pat` that does not overlap an earlier replaced one becomes `rep`.
   */
  function ReplaceAll(s: string, pat: string, rep: string): (r: string)
    requires |pat| > 0
    ensures !Contains(s, pat) ==> r == s
    decreases |s|
  {
    if StartsWith(s, pat) then rep + ReplaceAll(s[|pat|..], pat, rep)
    else if |s| == 0 then s
    else
      assert s == [s[0]] + s[1..];
      [s[0]] + ReplaceAll(s[1..], pat, rep)
  }

  /** A prefix without the pattern's first character is copied through unchanged. */
  lemma {:induction false} ReplaceCopiesPlainPrefix(a: string, x: string, pat: string, rep: string)
    requires |pat| > 0
    requires forall i :: 0 <= i < |a| ==> a[i] != pat[0]
    ensures ReplaceAll(a + x, pat, rep) == a + ReplaceAll(x, pat, rep)
    decreases |a|
  {
    if |a| > 0 {
      assert (a + x)[0] == a[0];
      assert (a + x)[1..] == a[1..] + x;
      ReplaceCopiesPlainPrefix(a[1..], x, pat, rep);
      assert a == [a[0]] + a[1..];
    } else {
      assert a + x == x;
    }
  }

  /** A leading occurrence of the pattern is replaced and scanning resumes right after it. */
  lemma ReplaceLeadingPattern(x: string, pat: string, rep: string)
    requires |pat| > 0
    ensures ReplaceAll(pat + x, pat, rep) == rep + ReplaceAll(x, pat, rep)
  {
    assert (pat + x)[..|pat|] == pat;
    assert (pat + x)[|pat|..] == x;
  }

  /** `q` and `rep` agree on their common length: one is a prefix of the other. */
  predicate Overlaps(q: string, rep: string) {
    StartsWith(rep, q) || StartsWith(q, rep)
  }

  /**
    Conditions under which replacing cannot rebuild the pattern: the pattern's
    first character is absent from `rep`, and no proper suffix of the pattern
    lines up with `rep`.
   */
  predicate Separated(pat: string, rep: string) {
    && |pat| > 0
    && (forall i :: 0 <= i < |rep| ==> rep[i] != pat[0])
    && (forall k :: 1 <= k < |pat| ==> !Overlaps(pat[k..], rep))
  }

  /** A string starting with `q` after the prefix `a` lines up with `a`. */
  lemma ConcatStartsWith(a: string, b: string, q: string)
    ensures StartsWith(a + b, q) ==> Overlaps(q, a)
  {
    if StartsWith(a + b, q) {
      if |q| <= |a| {
        assert a[..|q|] == (a + b)[..|q|];
      } else {
        assert q[..|a|] == (a + b)[..|a|];
      }
    }
  }

  /** Prefix test on a string with a known first character. */
  lemma ConsStartsWith(c: char, x: string, p: string)
    requires |p| > 0
    ensures StartsWith([c] + x, p) <==> c == p[0] && StartsWith(x, p[1..])
  {
    if StartsWith([c] + x, p) {
      assert x[..|p| - 1] == ([c] + x)[..|p|][1..];
    }
    if c == p[0] && StartsWith(x, p[1..]) {
      assert ([c] + x)[..|p|] == [c] + x[..|p| - 1];
    }
  }

  /** A proper suffix of the pattern at the front of the output was already at the front of the input. */
  lemma {:induction false} SuffixComesFromInput(t: string, pat: string, rep: string, k: nat)
    requires Separated(pat, rep)
    requires 1 <= k < |pat|
    ensures StartsWith(ReplaceAll(t, pat, rep), pat[k..]) ==> StartsWith(t, pat[k..])
    decreases |t|
  {
    var q := pat[k..];
    if StartsWith(t, pat) {
      ConcatStartsWith(rep, ReplaceAll(t[|pat|..], pat, rep), q);
    } else if |t| > 0 {
      var tail := ReplaceAll(t[1..], pat, rep);
      assert t == [t[0]] + t[1..];
      ConsStartsWith(t[0], tail, q);
      ConsStartsWith(t[0], t[1..], q);
      if k + 1 < |pat| {
        SuffixComesFromInput(t[1..], pat, rep, k + 1);
        assert pat[k + 1..] == q[1..];
      }
    }
  }

  /** The output never starts with the pattern. */
  lemma {:induction false} NoPatternAtFront(t: string, pat: string, rep: string)
    requires Separated(pat, rep)
    ensures !StartsWith(ReplaceAll(t, pat, rep), pat)
    decreases |t|
  {
    if StartsWith(t, pat) {
      var tail := ReplaceAll(t[|pat|..], pat, rep);
      if |rep| == 0 {
        NoPatternAtFront(t[|pat|..], pat, rep);
        assert rep + tail == tail;
      } else {
        assert (rep + tail)[0] == rep[0];
      }
    } else if |t| > 0 {
      var tail := ReplaceAll(t[1..], pat, rep);
      assert t == [t[0]] + t[1..];
      ConsStartsWith(t[0], tail, pat);
      ConsStartsWith(t[0], t[1..], pat);
      if |pat| > 1 {
        SuffixComesFromInput(t[1..], pat, rep, 1);
      }
    }
  }

  /** A prefix free of the pattern's first character cannot host the start of an occurrence. */
  lemma {:induction false} ContainsPastPrefix(a: string, b: string, pat: string)
    requires |pat| > 0
    requires forall i :: 0 <= i < |a| ==> a[i] != pat[0]
    ensures Contains(a + b, pat) ==> Contains(b, pat)
    decreases |a|
  {
    if |a| > 0 {
      ContainsPastPrefix(a[1..], b, pat);
      assert (a + b)[1..] == a[1..] + b;
      assert (a + b)[0] == a[0];
    } else {
      assert a + b == b;
    }
  }

  /** When `pat` and `rep` are separated, no occurrence of `pat` survives the replacement. */
  lemma {:induction false} ReplaceRemovesPattern(s: string, pat: string, rep: string)
    requires Separated(pat, rep)
    ensures !Contains(ReplaceAll(s, pat, rep), pat)
    decreases |s|
  {
    if StartsWith(s, pat) {
      ReplaceRemovesPattern(s[|pat|..], pat, rep);
      ContainsPastPrefix(rep, ReplaceAll(s[|pat|..], pat, rep), pat);
    } else if |s| > 0 {
      ReplaceRemovesPattern(s[1..], pat, rep);
      NoPatternAtFront(s, pat, rep);
      var out := [s[0]] + ReplaceAll(s[1..], pat, rep);
      assert out[1..] == ReplaceAll(s[1..], pat, rep);
    }
  }
}
