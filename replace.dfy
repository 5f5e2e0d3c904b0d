/**
 * Python's `re.sub(pattern, replacement, text)` for a pattern that matches
 * one fixed, non-empty string and has no `count` argument: the text is
 * scanned left to right and every leftmost non-overlapping occurrence is
 * replaced. The lemmas characterise the result (what is replaced, what is
 * kept) and give conditions under which the result holds no occurrence of
 * the pattern, or of some other string, at all.
 */
module Replace {
  import opened Text

  /** The text with every leftmost non-overlapping occurrence of `pat` replaced by `rep`. */
  function ReplaceAll(s: string, pat: string, rep: string): string
    requires pat != []
    decreases |s|
  {
    if |s| < |pat| then s
    else if s[..|pat|] == pat then rep + ReplaceAll(s[|pat|..], pat, rep)
    else [s[0]] + ReplaceAll(s[1..], pat, rep)
  }

  /** A text without the pattern is returned character for character. */
  lemma {:induction false} ReplaceAbsent(s: string, pat: string, rep: string)
    requires pat != [] && !Contains(s, pat)
    ensures ReplaceAll(s, pat, rep) == s
    decreases |s|
  {
    if |s| >= |pat| {
      assert !MatchAt(s, pat, 0);
      NotContainsSuffix(s, pat, 1);
      ReplaceAbsent(s[1..], pat, rep);
    }
  }

  /** Dropping the first character of `a` keeps `a` free of starting occurrences. */
  lemma SkipShift(a: string, b: string, pat: string)
    requires a != []
    requires forall i :: 0 <= i < |a| ==> !MatchAt(a + b, pat, i)
    ensures forall i :: 0 <= i < |a[1..]| ==> !MatchAt(a[1..] + b, pat, i)
  {
    var s := a + b;
    assert s[1..] == a[1..] + b;
    forall i | 0 <= i < |a[1..]| ensures !MatchAt(a[1..] + b, pat, i) {
      assert !MatchAt(s, pat, i + 1);
      if i + |pat| <= |a[1..] + b| {
        assert (a[1..] + b)[i..i + |pat|] == s[i + 1..i + 1 + |pat|];
      }
    }
  }

  /** A prefix `a` in which no occurrence of `pat` starts is copied unchanged. */
  lemma {:induction false} ReplaceSkip(a: string, b: string, pat: string, rep: string)
    requires pat != []
    requires forall i :: 0 <= i < |a| ==> !MatchAt(a + b, pat, i)
    ensures ReplaceAll(a + b, pat, rep) == a + ReplaceAll(b, pat, rep)
    decreases |a|
  {
    if a != [] {
      var s := a + b;
      if |s| >= |pat| {
        assert !MatchAt(s, pat, 0);
        assert s[1..] == a[1..] + b;
        SkipShift(a, b, pat);
        ReplaceSkip(a[1..], b, pat, rep);
        assert ReplaceAll(s, pat, rep) == [s[0]] + ReplaceAll(a[1..] + b, pat, rep);
        assert a == [s[0]] + a[1..];
      } else {
        assert ReplaceAll(b, pat, rep) == b;
      }
    } else {
      assert a + b == b;
    }
  }

  /**
   * The leftmost occurrence is replaced: text before it is copied and the
   * scan resumes right after it.
   */
  lemma ReplaceAtLeftmost(a: string, b: string, pat: string, rep: string)
    requires pat != []
    requires forall i :: 0 <= i < |a| ==> !MatchAt(a + pat + b, pat, i)
    ensures ReplaceAll(a + pat + b, pat, rep) == a + rep + ReplaceAll(b, pat, rep)
  {
    assert a + pat + b == a + (pat + b);
    ReplaceSkip(a, pat + b, pat, rep);
    assert (pat + b)[..|pat|] == pat && (pat + b)[|pat|..] == b;
  }

  /** Dropping `k` characters from the front keeps the seam free of occurrences. */
  lemma SeamShift(x: string, y: string, pat: string, k: int)
    requires 0 <= k <= |x|
    requires forall i :: |x| - |pat| < i < |x| ==> !MatchAt(x + y, pat, i)
    ensures forall i :: |x[k..]| - |pat| < i < |x[k..]| ==> !MatchAt(x[k..] + y, pat, i)
  {
    var s := x + y;
    assert s[k..] == x[k..] + y;
    forall i | |x[k..]| - |pat| < i < |x[k..]| ensures !MatchAt(x[k..] + y, pat, i) {
      assert !MatchAt(s, pat, i + k);
      if 0 <= i && i + |pat| <= |x[k..] + y| {
        assert (x[k..] + y)[i..i + |pat|] == s[i + k..i + k + |pat|];
      }
    }
  }

  /**
   * Replacement distributes over a concatenation when no occurrence of the
   * pattern straddles the seam.
   */
  lemma {:induction false} ReplaceSplit(x: string, y: string, pat: string, rep: string)
    requires pat != []
    requires forall i :: |x| - |pat| < i < |x| ==> !MatchAt(x + y, pat, i)
    ensures ReplaceAll(x + y, pat, rep) == ReplaceAll(x, pat, rep) + ReplaceAll(y, pat, rep)
    decreases |x|
  {
    var n := |pat|;
    var s := x + y;
    if |x| < n {
      ReplaceSkip(x, y, pat, rep);
      assert ReplaceAll(x, pat, rep) == x;
    } else {
      assert s[..n] == x[..n];
      assert s[0] == x[0];
      if x[..n] == pat {
        assert s[n..] == x[n..] + y;
        SeamShift(x, y, pat, n);
        ReplaceSplit(x[n..], y, pat, rep);
        assert ReplaceAll(s, pat, rep) == rep + ReplaceAll(x[n..] + y, pat, rep);
        assert ReplaceAll(x, pat, rep) == rep + ReplaceAll(x[n..], pat, rep);
      } else {
        assert s[1..] == x[1..] + y;
        SeamShift(x, y, pat, 1);
        ReplaceSplit(x[1..], y, pat, rep);
        assert ReplaceAll(s, pat, rep) == [x[0]] + ReplaceAll(x[1..] + y, pat, rep);
        assert ReplaceAll(x, pat, rep) == [x[0]] + ReplaceAll(x[1..], pat, rep);
      }
    }
  }

  /** A text that starts with the pattern yields a result that starts with the replacement. */
  lemma ReplacementFirst(t: string, pat: string, rep: string)
    requires pat != [] && rep != [] && |t| >= |pat| && t[..|pat|] == pat
    ensures ReplaceAll(t, pat, rep)[0] == rep[0]
  {
  }

  /**
   * Where the result shows no first character of `rep`, no replacement has
   * happened yet: that prefix of the result is a prefix of the input.
   */
  lemma {:induction false} ReplaceKeepsPrefix(t: string, pat: string, rep: string, k: int)
    requires pat != [] && rep != []
    requires 0 <= k <= |ReplaceAll(t, pat, rep)|
    requires forall m :: 0 <= m < k ==> ReplaceAll(t, pat, rep)[m] != rep[0]
    ensures k <= |t| && ReplaceAll(t, pat, rep)[..k] == t[..k]
    decreases |t|
  {
    var r := ReplaceAll(t, pat, rep);
    if |t| >= |pat| && k > 0 {
      if t[..|pat|] == pat {
        ReplacementFirst(t, pat, rep);
        assert false;
      } else {
        var r' := ReplaceAll(t[1..], pat, rep);
        assert r == [t[0]] + r';
        forall m | 0 <= m < k - 1 ensures r'[m] != rep[0] {
          assert r[m + 1] == r'[m];
        }
        ReplaceKeepsPrefix(t[1..], pat, rep, k - 1);
        assert r[..k] == [t[0]] + r'[..k - 1];
        assert t[..k] == [t[0]] + t[1..][..k - 1];
      }
    }
  }

  /**
   * The pattern and its replacement share their first character, which
   * occurs nowhere else in either, and the replacement does not start with
   * the pattern. The declaration insertion of the route rewriter has this
   * shape: pattern `) {\n  try {` and a replacement that keeps `) {\n` in front.
   */
  predicate Consuming(pat: string, rep: string) {
    && |pat| > 0
    && |rep| >= |pat|
    && rep[0] == pat[0]
    && pat[0] !in pat[1..]
    && pat[0] !in rep[1..]
    && rep[..|pat|] != pat
  }

  /** Putting a consuming replacement in front of a text free of the pattern keeps it free. */
  lemma NoMatchAfterReplacement(rep: string, rest: string, pat: string)
    requires Consuming(pat, rep) && !Contains(rest, pat)
    ensures !Contains(rep + rest, pat)
  {
    var n, out := |pat|, rep + rest;
    forall i | 0 <= i <= |out| - n ensures !MatchAt(out, pat, i) {
      if i == 0 {
        assert out[..n] == rep[..n];
      } else if i < |rep| {
        assert out[i] == rep[i] && rep[i] in rep[1..];
        assert out[i..i + n][0] == out[i];
      } else {
        assert out[i..i + n] == rest[i - |rep|..i - |rep| + n];
        assert !MatchAt(rest, pat, i - |rep|);
      }
    }
  }

  /**
   * Copying a character that does not start an occurrence in front of the
   * result of a consuming replacement keeps the result free of the pattern.
   */
  lemma NoMatchAfterCopy(s: string, pat: string, rep: string)
    requires Consuming(pat, rep) && |s| >= |pat| && s[..|pat|] != pat
    requires !Contains(ReplaceAll(s[1..], pat, rep), pat)
    ensures !Contains([s[0]] + ReplaceAll(s[1..], pat, rep), pat)
  {
    var n, t := |pat|, s[1..];
    var rest := ReplaceAll(t, pat, rep);
    var out := [s[0]] + rest;
    forall i | 0 <= i <= |out| - n ensures !MatchAt(out, pat, i) {
      if i == 0 {
        if m :| 0 <= m < n - 1 && rest[m] == rep[0] {
          assert out[..n][m + 1] == pat[0];
          assert pat[m + 1] in pat[1..];
        } else {
          ReplaceKeepsPrefix(t, pat, rep, n - 1);
          assert out[..n] == [s[0]] + rest[..n - 1];
          assert s[..n] == [s[0]] + t[..n - 1];
        }
      } else {
        assert out[i..i + n] == rest[i - 1..i - 1 + n];
        assert !MatchAt(rest, pat, i - 1);
      }
    }
  }

  /** A consuming replacement leaves no occurrence of its pattern behind. */
  lemma {:induction false} ReplaceLeavesNoMatch(s: string, pat: string, rep: string)
    requires Consuming(pat, rep)
    ensures !Contains(ReplaceAll(s, pat, rep), pat)
    decreases |s|
  {
    var n := |pat|;
    if |s| >= n {
      if s[..n] == pat {
        ReplaceLeavesNoMatch(s[n..], pat, rep);
        NoMatchAfterReplacement(rep, ReplaceAll(s[n..], pat, rep), pat);
      } else {
        ReplaceLeavesNoMatch(s[1..], pat, rep);
        NoMatchAfterCopy(s, pat, rep);
      }
    }
  }

  /**
   * Replacing cannot create an occurrence of a string `q` that shares no
   * character with the replacement text.
   */
  lemma {:induction false} ReplaceCreatesNone(s: string, pat: string, rep: string, q: string)
    requires pat != [] && rep != [] && q != []
    requires forall j :: 0 <= j < |rep| ==> rep[j] !in q
    requires !Contains(s, q)
    ensures !Contains(ReplaceAll(s, pat, rep), q)
    decreases |s|
  {
    var n, l := |pat|, |q|;
    var out := ReplaceAll(s, pat, rep);
    if |s| >= n {
      if s[..n] == pat {
        var rest := ReplaceAll(s[n..], pat, rep);
        NotContainsSuffix(s, q, n);
        ReplaceCreatesNone(s[n..], pat, rep, q);
        assert out == rep + rest;
        forall i | 0 <= i <= |out| - l ensures !MatchAt(out, q, i) {
          if i < |rep| {
            assert out[i..i + l][0] == rep[i];
          } else {
            assert out[i..i + l] == rest[i - |rep|..i - |rep| + l];
            assert !MatchAt(rest, q, i - |rep|);
          }
        }
      } else {
        var t := s[1..];
        var rest := ReplaceAll(t, pat, rep);
        NotContainsSuffix(s, q, 1);
        ReplaceCreatesNone(t, pat, rep, q);
        assert out == [s[0]] + rest;
        forall i | 0 <= i <= |out| - l ensures !MatchAt(out, q, i) {
          if i == 0 {
            if m :| 0 <= m < l - 1 && rest[m] == rep[0] {
              assert out[..l][m + 1] == rep[0];
              assert rep[0] !in q;
              assert q[m + 1] != rep[0];
              assert out[..l] != q;
            } else {
              ReplaceKeepsPrefix(t, pat, rep, l - 1);
              assert out[..l] == [s[0]] + rest[..l - 1];
              assert s[..l] == [s[0]] + t[..l - 1];
              assert !MatchAt(s, q, 0);
            }
          } else {
            assert out[i..i + l] == rest[i - 1..i - 1 + l];
            assert !MatchAt(rest, q, i - 1);
          }
        }
      }
    }
  }

  /** No occurrence straddles a seam whose right side starts with a character absent from the pattern's tail. */
  lemma NoStraddleBefore(x: string, y: string, pat: string)
    requires pat != [] && y != [] && y[0] !in pat[1..]
    ensures forall i :: |x| - |pat| < i < |x| ==> !MatchAt(x + y, pat, i)
  {
    forall i | |x| - |pat| < i < |x| ensures !MatchAt(x + y, pat, i) {
      if 0 <= i && i + |pat| <= |x + y| {
        assert (x + y)[i..i + |pat|][|x| - i] == y[0];
        assert pat[|x| - i] in pat[1..];
      }
    }
  }

  /** No occurrence straddles a seam whose left side ends without the pattern's first character. */
  lemma NoStraddleAfter(x: string, y: string, pat: string)
    requires pat != []
    requires forall i :: |x| - |pat| < i < |x| && 0 <= i ==> x[i] != pat[0]
    ensures forall i :: |x| - |pat| < i < |x| ==> !MatchAt(x + y, pat, i)
  {
    forall i | |x| - |pat| < i < |x| ensures !MatchAt(x + y, pat, i) {
      if 0 <= i && i + |pat| <= |x + y| {
        assert (x + y)[i..i + |pat|][0] == x[i];
      }
    }
  }

  /**
   * Splitting at the leftmost occurrence: the replacement stands where the
   * occurrence stood, so the result contains the replacement text.
   */
  lemma ReplaceFirstOccurrence(s: string, pat: string, rep: string) returns (before: string, after: string)
    requires pat != [] && Contains(s, pat)
    ensures s == before + pat + after
    ensures forall i :: 0 <= i < |before| ==> !MatchAt(s, pat, i)
    ensures ReplaceAll(s, pat, rep) == before + rep + ReplaceAll(after, pat, rep)
    ensures Contains(ReplaceAll(s, pat, rep), rep)
  {
    var i := LeftmostMatch(s, pat);
    before, after := s[..i], s[i + |pat|..];
    assert s == before + pat + after;
    ReplaceAtLeftmost(before, after, pat, rep);
    assert MatchAt(rep, rep, 0);
    ContainsInfix(before, rep, ReplaceAll(after, pat, rep), rep);
  }

  /**
   * A block `w` that does not contain the pattern and cannot be straddled
   * (its first character is not in the pattern's tail, its last
   * `|pat| - 1` characters lack the pattern's first character) passes
   * through the replacement unchanged.
   */
  lemma ReplaceKeepsBlock(x: string, w: string, y: string, pat: string, rep: string)
    requires pat != [] && |w| >= |pat| && w[0] !in pat[1..]
    requires pat[0] !in w[|w| - |pat| + 1..]
    requires !Contains(w, pat)
    ensures ReplaceAll(x + w + y, pat, rep) == ReplaceAll(x, pat, rep) + w + ReplaceAll(y, pat, rep)
  {
    NoStraddleBefore(x, w + y, pat);
    assert x + (w + y) == x + w + y;
    ReplaceSplit(x, w + y, pat, rep);
    forall i | |w| - |pat| < i < |w| && 0 <= i ensures w[i] != pat[0] {
      assert w[i] == w[|w| - |pat| + 1..][i - (|w| - |pat| + 1)];
    }
    NoStraddleAfter(w, y, pat);
    ReplaceSplit(w, y, pat, rep);
    ReplaceAbsent(w, pat, rep);
  }
}
