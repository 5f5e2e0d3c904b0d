/**
 * String primitives shared by the model: substring search as used by
 * Python's `p in s` and JavaScript's `includes`/`startsWith`, and ASCII case
 * mapping as used by `toUpperCase`/`toLowerCase` on the characters that
 * matter here.
 */
module Text {

  /** `p` occurs in `s` starting at index `i`. */
  predicate MatchAt(s: string, p: string, i: int) {
    0 <= i && i + |p| <= |s| && s[i..i + |p|] == p
  }

  /** `p` occurs somewhere in `s` (Python `p in s`, JavaScript `s.includes(p)`). */
  predicate Contains(s: string, p: string) {
    exists i | 0 <= i <= |s| - |p| :: MatchAt(s, p, i)
  }

  /** JavaScript `s.startsWith(p)`. */
  predicate StartsWith(s: string, p: string) {
    |p| <= |s| && s[..|p|] == p
  }

  /** A string without some character of `p` cannot contain `p`. */
  lemma MissingCharNoMatch(s: string, p: string, c: char)
    requires c in p && c !in s
    ensures !Contains(s, p)
  {
    var k :| 0 <= k < |p| && p[k] == c;
    forall i | 0 <= i <= |s| - |p| ensures !MatchAt(s, p, i) {
      assert s[i..i + |p|][k] == s[i + k] && s[i + k] in s;
    }
  }

  /** If `s` does not contain `p`, neither does any suffix of `s`. */
  lemma NotContainsSuffix(s: string, p: string, k: int)
    requires 0 <= k <= |s| && !Contains(s, p)
    ensures !Contains(s[k..], p)
  {
    forall i | 0 <= i <= |s[k..]| - |p| ensures !MatchAt(s[k..], p, i) {
      assert s[k..][i..i + |p|] == s[k + i..k + i + |p|];
      assert !MatchAt(s, p, k + i);
    }
  }

  /** A match in `y` is a match in `x + y + z`. */
  lemma ContainsInfix(x: string, y: string, z: string, p: string)
    requires Contains(y, p)
    ensures Contains(x + y + z, p)
  {
    var i :| 0 <= i <= |y| - |p| && MatchAt(y, p, i);
    var s := x + y + z;
    assert s[|x| + i..|x| + i + |p|] == y[i..i + |p|];
    assert MatchAt(s, p, |x| + i);
  }

  /** No occurrence of `p` starts inside a prefix that lacks the first character of `p`. */
  lemma NoMatchStartsIn(a: string, b: string, p: string)
    requires p != [] && p[0] !in a
    ensures forall i :: 0 <= i < |a| ==> !MatchAt(a + b, p, i)
  {
    forall i | 0 <= i < |a| ensures !MatchAt(a + b, p, i) {
      if i + |p| <= |a + b| {
        assert (a + b)[i..i + |p|][0] == a[i];
      }
    }
  }

  /** Containment is transitive. */
  lemma ContainsTransitive(s: string, t: string, p: string)
    requires Contains(s, t) && Contains(t, p)
    ensures Contains(s, p)
  {
    var i :| 0 <= i <= |s| - |t| && MatchAt(s, t, i);
    var j :| 0 <= j <= |t| - |p| && MatchAt(t, p, j);
    forall k | 0 <= k < |p| ensures s[i + j + k] == p[k] {
      assert s[i..i + |t|][j + k] == s[i + j + k];
      assert t[j..j + |p|][k] == t[j + k];
    }
    assert s[i + j..i + j + |p|] == p;
    assert MatchAt(s, p, i + j);
  }

  /** The leftmost occurrence of `p` in `s`. */
  lemma LeftmostMatch(s: string, p: string) returns (i: int)
    requires Contains(s, p)
    ensures MatchAt(s, p, i)
    ensures forall j :: 0 <= j < i ==> !MatchAt(s, p, j)
    decreases |s|
  {
    if MatchAt(s, p, 0) {
      i := 0;
    } else {
      var k :| 0 <= k <= |s| - |p| && MatchAt(s, p, k);
      assert k > 0;
      assert s[1..][k - 1..k - 1 + |p|] == s[k..k + |p|];
      assert MatchAt(s[1..], p, k - 1);
      var i' := LeftmostMatch(s[1..], p);
      i := i' + 1;
      assert s[i..i + |p|] == s[1..][i'..i' + |p|];
      forall j | 0 <= j < i ensures !MatchAt(s, p, j) {
        if j > 0 && MatchAt(s, p, j) {
          assert s[1..][j - 1..j - 1 + |p|] == s[j..j + |p|];
          assert MatchAt(s[1..], p, j - 1);
        }
      }
    }
  }

  /** ASCII upper-casing of one character; every other character is kept. */
  function UpperChar(c: char): (r: char)
    ensures 'a' <= c <= 'z' ==> 'A' <= r <= 'Z' && r as int == c as int - 32
    ensures !('a' <= c <= 'z') ==> r == c
  {
    if 'a' <= c <= 'z' then (c as int - 32) as char else c
  }

  /** ASCII lower-casing of one character; every other character is kept. */
  function LowerChar(c: char): (r: char)
    ensures 'A' <= c <= 'Z' ==> 'a' <= r <= 'z' && r as int == c as int + 32
    ensures !('A' <= c <= 'Z') ==> r == c
  {
    if 'A' <= c <= 'Z' then (c as int + 32) as char else c
  }

  /** `s.toUpperCase()` restricted to ASCII letters. */
  function ToUpper(s: string): (r: string)
    ensures |r| == |s|
    ensures forall i :: 0 <= i < |s| ==> r[i] == UpperChar(s[i])
  {
    seq(|s|, i requires 0 <= i < |s| => UpperChar(s[i]))
  }

  /** `s.toLowerCase()` restricted to ASCII letters. */
  function ToLower(s: string): (r: string)
    ensures |r| == |s|
    ensures forall i :: 0 <= i < |s| ==> r[i] == LowerChar(s[i])
  {
    seq(|s|, i requires 0 <= i < |s| => LowerChar(s[i]))
  }
}
