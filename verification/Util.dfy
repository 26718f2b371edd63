/** Small definitions shared by the component models. */
module Util {
  datatype Option<+T> = None | Some(value: T)

  type Byte = b: int | 0 <= b < 256

  const UINT32_MAX: int := 0xFFFF_FFFF
  const INT32_MAX: int := 0x7FFF_FFFF
  const SIZE_MAX: int := 0xFFFF_FFFF_FFFF_FFFF

  function Pow2(k: nat): (p: nat)
    ensures p >= 1
  {
    if k == 0 then 1 else 2 * Pow2(k - 1)
  }

  lemma {:induction false} Pow2Monotone(j: nat, k: nat)
    requires j <= k
    ensures Pow2(j) <= Pow2(k)
  {
    if j < k {
      Pow2Monotone(j, k - 1);
    }
  }

  lemma {:induction false} Pow2Sum(j: nat, k: nat)
    ensures Pow2(j + k) == Pow2(j) * Pow2(k)
  {
    if k > 0 {
      Pow2Sum(j, k - 1);
      assert Pow2(j + k) == 2 * Pow2(j + (k - 1));
    }
  }

  function Below(n: nat): (s: set<nat>)
    ensures |s| == n && forall i: nat :: i in s <==> i < n
  {
    if n == 0 then {} else Below(n - 1) + {n - 1}
  }

  ghost predicate Distinct<T>(s: seq<T>) {
    forall i, j :: 0 <= i < j < |s| ==> s[i] != s[j]
  }

  lemma {:induction false} DistinctElements<T>(s: seq<T>)
    requires Distinct(s)
    ensures |set x | x in s| == |s|
  {
    if s != [] {
      var init, last := s[..|s| - 1], s[|s| - 1];
      DistinctElements(init);
      assert (set x | x in s) == (set x | x in init) + {last};
    }
  }

  lemma {:induction false} SubsetSize<T>(x: set<T>, y: set<T>)
    requires x <= y
    ensures |x| <= |y|
  {
    if x != {} {
      var e :| e in x;
      SubsetSize(x - {e}, y - {e});
    }
  }

  /** Pigeonhole: distinct numbers below `n`, all but those in `missing`. */
  lemma DistinctFits(s: seq<nat>, n: nat, missing: set<nat>)
    requires Distinct(s)
    requires forall i :: 0 <= i < |s| ==> s[i] < n && s[i] !in missing
    requires forall m :: m in missing ==> m < n
    ensures |s| + |missing| <= n
  {
    DistinctElements(s);
    var used := set x | x in s;
    SubsetSize(used + missing, Below(n));
    assert used !! missing;
  }

  lemma DivModUnique(v: int, d: nat, q: int, r: int)
    requires d > 0 && v == q * d + r && 0 <= r < d
    ensures v / d == q && v % d == r
  {
    var q', r' := v / d, v % d;
    assert v == q' * d + r';
    assert (q' - q) * d == r - r';
    if q' - q <= -1 {
      MulBound(q' - q, -1, d);
    } else if q' - q >= 1 {
      MulBound(1, q' - q, d);
    }
  }

  lemma MulBound(x: int, y: int, d: nat)
    requires x <= y
    ensures x * d <= y * d
  {
  }
}
