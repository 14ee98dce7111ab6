/**
 Text operations the detector relies on: lower-casing of a cell's text and
 the substring test `word in text`. Lower-casing is modelled for the ASCII
 letters only; every other character is left as it is.
 */
module Text {

  /** True for the upper-case ASCII letters, the only characters `LowerChar` changes. */
  predicate IsUpperChar(c: char) {
    'A' <= c <= 'Z'
  }

  /** A text with no upper-case ASCII letter in it. */
  predicate IsLower(s: string) {
    forall k :: 0 <= k < |s| ==> !IsUpperChar(s[k])
  }

  /** Lower-cases one character. */
  function LowerChar(c: char): (d: char)
    ensures !IsUpperChar(d)
    ensures IsUpperChar(c) || d == c
  {
    if IsUpperChar(c) then (c as int - 'A' as int + 'a' as int) as char else c
  }

  /** Lower-cases a text character by character, as `str.lower()` does for ASCII. */
  function Lower(s: string): (r: string)
    ensures |r| == |s|
    ensures forall k :: 0 <= k < |s| ==> r[k] == LowerChar(s[k])
    ensures IsLower(r)
  {
    if s == [] then [] else [LowerChar(s[0])] + Lower(s[1..])
  }

  /** A text that is already lower-case is left unchanged by `Lower`. */
  lemma LowerOfLower(s: string)
    requires IsLower(s)
    ensures Lower(s) == s
  {
  }

  /** Lower-casing twice is lower-casing once. */
  lemma LowerIdempotent(s: string)
    ensures Lower(Lower(s)) == Lower(s)
  {
    LowerOfLower(Lower(s));
  }

  /** `w` is a prefix of `t`. */
  predicate IsPrefix(w: string, t: string) {
    |w| <= |t| && t[..|w|] == w
  }

  /** Python's `w in t` on strings: `w` starts at some position of `t`. */
  predicate Contains(t: string, w: string)
    decreases |t|
  {
    IsPrefix(w, t) || (|t| > 0 && Contains(t[1..], w))
  }

  /** `w` occurs in `t` starting at index `k`. */
  ghost predicate OccursAt(t: string, w: string, k: int) {
    0 <= k && k + |w| <= |t| && t[k..k + |w|] == w
  }

  /** `Contains` agrees with the positional definition of a substring. */
  lemma {:induction false} ContainsIffOccurs(t: string, w: string)
    ensures Contains(t, w) <==> exists k :: OccursAt(t, w, k)
    decreases |t|
  {
    if IsPrefix(w, t) {
      assert OccursAt(t, w, 0);
    } else if |t| > 0 {
      ContainsIffOccurs(t[1..], w);
      if Contains(t[1..], w) {
        var k :| OccursAt(t[1..], w, k);
        assert t[1..][k..k + |w|] == t[k + 1..k + 1 + |w|];
        assert OccursAt(t, w, k + 1);
      }
      if k :| OccursAt(t, w, k) {
        assert k != 0;
        assert t[1..][k - 1..k - 1 + |w|] == t[k..k + |w|];
        assert OccursAt(t[1..], w, k - 1);
      }
    }
  }

  /** The empty word is contained in every text. */
  lemma EmptyContained(t: string)
    ensures Contains(t, "")
  {
    assert IsPrefix("", t);
  }

  /** Every text contains itself. */
  lemma ContainsSelf(t: string)
    ensures Contains(t, t)
  {
    assert IsPrefix(t, t);
  }

  /** A word inside `b`, where `b` sits inside `a`, is inside `a`. */
  lemma ContainsTransitive(a: string, b: string, w: string)
    requires Contains(a, b) && Contains(b, w)
    ensures Contains(a, w)
  {
    ContainsIffOccurs(a, b);
    ContainsIffOccurs(b, w);
    var i :| OccursAt(a, b, i);
    var j :| OccursAt(b, w, j);
    forall m | 0 <= m < |w|
      ensures a[i + j + m] == w[m]
    {
      assert w[m] == b[j + m];
      assert b[j + m] == a[i..i + |b|][j + m];
    }
    assert OccursAt(a, w, i + j);
    ContainsIffOccurs(a, w);
  }

  /**
   Searches `t` for `w` from the left, as the substring test does; reports
   whether `w` occurs and, if so, the first position where it starts.
   */
  method Find(t: string, w: string) returns (found: bool, at: nat)
    ensures found <==> Contains(t, w)
    ensures found ==> OccursAt(t, w, at)
    ensures found ==> forall j :: 0 <= j < at ==> !OccursAt(t, w, j)
  {
    ContainsIffOccurs(t, w);
    if |w| > |t| {
      return false, 0;
    }
    var k := 0;
    while k <= |t| - |w|
      invariant 0 <= k <= |t| - |w| + 1
      invariant forall j :: 0 <= j < k ==> !OccursAt(t, w, j)
    {
      if t[k..k + |w|] == w {
        assert OccursAt(t, w, k);
        return true, k;
      }
      k := k + 1;
    }
    return false, 0;
  }
}
