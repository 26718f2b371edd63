/** Comparison callbacks in the style of `int (*cmp)(const void *, const void *, void *)`. */
module Ordering {
  predicate Le<T>(cmp: (T, T) -> int, x: T, y: T) {
    cmp(x, y) <= 0
  }

  /** The sign is antisymmetric and `<= 0` is transitive, at one triple. */
  ghost predicate Consistent<T>(cmp: (T, T) -> int, x: T, y: T, z: T) {
    && (cmp(x, y) < 0 <==> cmp(y, x) > 0)
    && (cmp(x, y) <= 0 && cmp(y, z) <= 0 ==> cmp(x, z) <= 0)
  }

  ghost predicate TotalPreorder<T(!new)>(cmp: (T, T) -> int) {
    forall x, y, z :: Consistent(cmp, x, y, z)
  }

  lemma LeTrans<T(!new)>(cmp: (T, T) -> int, x: T, y: T, z: T)
    requires TotalPreorder(cmp)
    requires Le(cmp, x, y) && Le(cmp, y, z)
    ensures Le(cmp, x, z)
  {
    assert Consistent(cmp, x, y, z);
  }

  lemma LeTotal<T(!new)>(cmp: (T, T) -> int, x: T, y: T)
    requires TotalPreorder(cmp)
    ensures Le(cmp, y, x) <==> !(cmp(x, y) < 0)
    ensures Le(cmp, x, y) || Le(cmp, y, x)
    ensures Le(cmp, x, x)
  {
    assert Consistent(cmp, x, y, x);
    assert Consistent(cmp, y, x, y);
    assert Consistent(cmp, x, x, x);
  }

  ghost predicate Sorted<T>(cmp: (T, T) -> int, s: seq<T>) {
    forall i, j :: 0 <= i < j < |s| ==> Le(cmp, s[i], s[j])
  }

  /** `t` rearranges `s` inside [lo, hi) and agrees with it everywhere else. */
  ghost predicate PermutedWithin<T>(s: seq<T>, t: seq<T>, lo: int, hi: int)
    requires 0 <= lo <= hi <= |s|
  {
    && |t| == |s|
    && (forall k :: 0 <= k < |s| && !(lo <= k < hi) ==> t[k] == s[k])
    && multiset(t) == multiset(s)
  }

  function Swapped<T>(s: seq<T>, i: int, j: int): (t: seq<T>)
    requires 0 <= i < |s| && 0 <= j < |s|
    ensures |t| == |s|
  {
    s[i := s[j]][j := s[i]]
  }

  lemma SwapPermutes<T>(s: seq<T>, i: int, j: int, lo: int, hi: int)
    requires 0 <= lo <= i < hi <= |s| && lo <= j < hi
    ensures PermutedWithin(s, Swapped(s, i, j), lo, hi)
  {
  }

  lemma PermutedTrans<T>(s: seq<T>, t: seq<T>, u: seq<T>, lo: int, hi: int)
    requires 0 <= lo <= hi <= |s|
    requires PermutedWithin(s, t, lo, hi) && PermutedWithin(t, u, lo, hi)
    ensures PermutedWithin(s, u, lo, hi)
  {
  }

  lemma MultisetParts<T>(s: seq<T>, lo: int, hi: int)
    requires 0 <= lo <= hi <= |s|
    ensures multiset(s) == multiset(s[..lo]) + multiset(s[lo..hi]) + multiset(s[hi..])
  {
    assert s == s[..lo] + s[lo..];
    assert s[lo..] == s[lo..hi] + s[hi..];
  }

  lemma MultisetCancel<T(!new)>(p: multiset<T>, x: multiset<T>, y: multiset<T>, r: multiset<T>)
    requires p + x + r == p + y + r
    ensures x == y
  {
    forall e
      ensures x[e] == y[e]
    {
      assert (p + x + r)[e] == p[e] + x[e] + r[e];
      assert (p + y + r)[e] == p[e] + y[e] + r[e];
    }
  }

  lemma PermutedSlice<T(!new)>(s: seq<T>, t: seq<T>, lo: int, hi: int)
    requires 0 <= lo <= hi <= |s|
    requires PermutedWithin(s, t, lo, hi)
    ensures multiset(s[lo..hi]) == multiset(t[lo..hi])
  {
    MultisetParts(s, lo, hi);
    MultisetParts(t, lo, hi);
    assert s[..lo] == t[..lo] && s[hi..] == t[hi..];
    MultisetCancel(multiset(s[..lo]), multiset(s[lo..hi]), multiset(t[lo..hi]), multiset(s[hi..]));
  }

  /** Every element of the rearranged part comes from the same part. */
  lemma PermutedOrigin<T(!new)>(s: seq<T>, t: seq<T>, lo: int, hi: int, k: int) returns (j: int)
    requires 0 <= lo <= hi <= |s|
    requires PermutedWithin(s, t, lo, hi)
    requires 0 <= k < |s|
    ensures 0 <= j < |s| && s[j] == t[k]
    ensures lo <= k < hi ==> lo <= j < hi
    ensures !(lo <= k < hi) ==> j == k
  {
    if lo <= k < hi {
      PermutedSlice(s, t, lo, hi);
      assert t[lo..hi][k - lo] == t[k];
      assert t[k] in multiset(s[lo..hi]);
      var m :| 0 <= m < hi - lo && s[lo..hi][m] == t[k];
      j := lo + m;
    } else {
      j := k;
    }
  }
}
