/** Strings as the heuristic and the key normaliser see them: ASCII lower-casing
    (standing in for Python's `str.lower`) and the substring test `p in s`. */
module Text {

  /** Lower-cases one ASCII letter; every other character is left alone. */
  function LowerChar(c: char): (d: char)
    ensures 'A' <= c <= 'Z' ==> 'a' <= d <= 'z' && d as int - c as int == 32
    ensures !('A' <= c <= 'Z') ==> d == c
  {
    if 'A' <= c <= 'Z' then (c as int + 32) as char else c
  }

  /** Upper-cases one ASCII letter (used only to state case-insensitivity). */
  function UpperChar(c: char): (d: char)
    ensures 'a' <= c <= 'z' ==> 'A' <= d <= 'Z' && LowerChar(d) == c
    ensures !('a' <= c <= 'z') ==> d == c
  {
    if 'a' <= c <= 'z' then (c as int - 32) as char else c
  }

  /** `s.lower()` restricted to ASCII: same length, each character lower-cased in place. */
  function Lower(s: string): (r: string)
    ensures |r| == |s|
    ensures forall i :: 0 <= i < |s| ==> r[i] == LowerChar(s[i])
  {
    if s == [] then [] else [LowerChar(s[0])] + Lower(s[1..])
  }

  /** `s.upper()` restricted to ASCII. */
  function Upper(s: string): (r: string)
    ensures |r| == |s|
    ensures forall i :: 0 <= i < |s| ==> r[i] == UpperChar(s[i])
  {
    if s == [] then [] else [UpperChar(s[0])] + Upper(s[1..])
  }

  /** Lower-casing forgets whether a letter was written upper-case. */
  lemma LowerOfUpper(s: string)
    ensures Lower(Upper(s)) == Lower(s)
  {
  }

  /** `p` occurs in `s` at offset `i`. */
  ghost predicate OccursAt(s: string, p: string, i: int)
  {
    0 <= i && i + |p| <= |s| && s[i..i + |p|] == p
  }

  /** `s` lower-cases to `p` when it does so character by character. */
  lemma LowerIs(s: string, p: string)
    requires |s| == |p|
    requires forall k :: 0 <= k < |p| ==> LowerChar(s[k]) == p[k]
    ensures Lower(s) == p
  {
    var w := Lower(s);
    forall k | 0 <= k < |p| ensures w[k] == p[k] {
    }
  }

  /** `p` occurs in the lower-cased `s` at offset `i` when each of its characters is the
      lower-cased character of `s` at the matching position. */
  lemma LowerOccursAt(s: string, p: string, i: nat)
    requires i + |p| <= |s|
    requires forall k :: 0 <= k < |p| ==> LowerChar(s[i + k]) == p[k]
    ensures OccursAt(Lower(s), p, i)
  {
    var w := Lower(s)[i..i + |p|];
    forall k | 0 <= k < |p| ensures w[k] == p[k] {
      assert w[k] == Lower(s)[i + k];
    }
  }

  predicate StartsWith(s: string, p: string)
  {
    |p| <= |s| && s[..|p|] == p
  }

  /** Python's `p in s`, computed by scanning `s` from the left. */
  predicate Contains(s: string, p: string)
    ensures Contains(s, p) ==> |p| <= |s|
    ensures StartsWith(s, p) ==> Contains(s, p)
    decreases |s|
  {
    StartsWith(s, p) || (|s| > 0 && Contains(s[1..], p))
  }

  /** The scan finds `p` exactly when `p` occurs somewhere in `s`. */
  lemma {:induction false} ContainsIff(s: string, p: string)
    ensures Contains(s, p) <==> exists i :: OccursAt(s, p, i)
    decreases |s|
  {
    if StartsWith(s, p) {
      assert OccursAt(s, p, 0);
    } else if |s| > 0 {
      ContainsIff(s[1..], p);
      if Contains(s[1..], p) {
        var i :| OccursAt(s[1..], p, i);
        assert s[i + 1..i + 1 + |p|] == s[1..][i..i + |p|];
        assert OccursAt(s, p, i + 1);
      } else {
        forall i | OccursAt(s, p, i) && i > 0 ensures OccursAt(s[1..], p, i - 1) {
          assert s[1..][i - 1..i - 1 + |p|] == s[i..i + |p|];
        }
      }
    }
  }
}
