/**
 * st_permutation: the swap-based recursive enumerator.
 *
 * The callback is a function of the array's contents: it reads the array and
 * returns a status, and does not write to it. `calls` logs what each invocation saw.
 */
module Permutation {
  import opened Util
  import opened Ordering

  /** What st_allrange shows to a callback that never fails, in order. */
  function Arrangements<T>(s: seq<T>, i: nat): seq<seq<T>>
    requires i <= |s|
    decreases |s| - i, |s| + 1
  {
    if i + 1 == |s| then [s] else ArrangementsFrom(s, i, i)
  }

  function ArrangementsFrom<T>(s: seq<T>, i: nat, k: nat): seq<seq<T>>
    requires i <= k <= |s|
    decreases |s| - i, |s| - k
  {
    if k == |s| then []
    else Arrangements(Swapped(s, i, k), i + 1) + ArrangementsFrom(s, i, k + 1)
  }

  /** Index of the first call the callback rejects, or the length if there is none. */
  function FirstFailure<T>(calls: seq<seq<T>>, callback: seq<T> -> int): (f: nat)
    ensures f <= |calls|
    ensures forall j :: 0 <= j < f ==> callback(calls[j]) >= 0
    ensures f < |calls| ==> callback(calls[f]) < 0
  {
    if calls == [] || callback(calls[0]) < 0 then 0
    else 1 + FirstFailure(calls[1..], callback)
  }

  lemma FirstFailureIs<T>(calls: seq<seq<T>>, callback: seq<T> -> int, f: nat)
    requires f <= |calls|
    requires forall j :: 0 <= j < f ==> callback(calls[j]) >= 0
    requires f < |calls| ==> callback(calls[f]) < 0
    ensures FirstFailure(calls, callback) == f
  {
    var g := FirstFailure(calls, callback);
    assert !(g < f) && !(f < g);
  }

  /** The outcome of enumerating `full` from `before`: either all of it, or up to the first failure. */
  ghost predicate Enumerated<T>(full: seq<seq<T>>, callback: seq<T> -> int, before: seq<T>, after: seq<T>,
      calls: seq<seq<T>>, ret: int) {
    var f := FirstFailure(full, callback);
    if f == |full| then calls == full && after == before && ret >= 0
    else calls == full[..f + 1] && after == full[f] && ret < 0
  }

  lemma EnumeratedOne<T>(s: seq<T>, callback: seq<T> -> int)
    ensures Enumerated([s], callback, s, s, [s], callback(s))
  {
    FirstFailureIs([s], callback, if callback(s) < 0 then 0 else 1);
  }

  lemma EnumeratedNone<T>(s: seq<T>, callback: seq<T> -> int)
    ensures Enumerated([], callback, s, s, [], 0)
  {
  }

  /** One more successful stretch. */
  lemma EnumeratedAppend<T>(x: seq<seq<T>>, y: seq<seq<T>>, callback: seq<T> -> int, s: seq<T>, u: seq<T>,
      calls: seq<seq<T>>, seen: seq<seq<T>>, r: int)
    requires Enumerated(x, callback, s, s, calls, 0)
    requires Enumerated(y, callback, u, u, seen, r) && r >= 0
    ensures Enumerated(x + y, callback, s, s, calls + seen, 0)
  {
    FirstFailureIs(x + y, callback, |x + y|);
  }

  /** A failure inside `y` is the failure of the whole, whatever was still to come. */
  lemma EnumeratedStopped<T>(x: seq<seq<T>>, y: seq<seq<T>>, z: seq<seq<T>>, callback: seq<T> -> int, s: seq<T>,
      u: seq<T>, after: seq<T>, calls: seq<seq<T>>, seen: seq<seq<T>>, r: int)
    requires Enumerated(x, callback, s, s, calls, 0)
    requires Enumerated(y, callback, u, after, seen, r) && r < 0
    ensures Enumerated(x + (y + z), callback, s, after, calls + seen, -1)
  {
    var f := FirstFailure(y, callback);
    var all := x + (y + z);
    assert all[|x| + f] == y[f];
    FirstFailureIs(all, callback, |x| + f);
    assert all[..|x| + f + 1] == x + y[..f + 1];
  }

  /** A successful stretch leaves its array as it was. */
  lemma EnumeratedRestores<T>(y: seq<seq<T>>, callback: seq<T> -> int, u: seq<T>, after: seq<T>, seen: seq<seq<T>>,
      r: int)
    requires Enumerated(y, callback, u, after, seen, r) && r >= 0
    ensures after == u
  {
  }

  lemma SwapTwice<T>(s: seq<T>, i: nat, k: nat)
    requires i < |s| && k < |s|
    ensures Swapped(Swapped(s, i, k), i, k) == s
  {
  }

  method SwapAt<T>(a: array<T>, i: nat, k: nat)
    requires i < a.Length && k < a.Length
    modifies a
    ensures a[..] == Swapped(old(a[..]), i, k)
  {
    a[i], a[k] := a[k], a[i];
  }

  lemma ArrangementsOpen<T>(s: seq<T>, i: nat)
    requires i <= |s|
    ensures Arrangements(s, i) == if i + 1 == |s| then [s] else [] + ArrangementsFrom(s, i, i)
  {
  }

  lemma OneStretchMore<T>(s: seq<T>, i: nat, k: nat, done: seq<seq<T>>)
    requires i <= k < |s|
    ensures var next, rest := Arrangements(Swapped(s, i, k), i + 1), ArrangementsFrom(s, i, k + 1);
            var all := done + ArrangementsFrom(s, i, k);
            all == (done + next) + rest && all == done + (next + rest)
  {
    hide Arrangements;
  }

  lemma NoStretchLeft<T>(s: seq<T>, i: nat, done: seq<seq<T>>)
    requires i <= |s|
    ensures done + ArrangementsFrom(s, i, |s|) == done
  {
  }

  method AllRange<T>(a: array<T>, i: nat, callback: seq<T> -> int) returns (ret: int, calls: seq<seq<T>>)
    requires i <= a.Length && (i == a.Length ==> i == 0)
    modifies a
    ensures Enumerated(Arrangements(old(a[..]), i), callback, old(a[..]), a[..], calls, ret)
    ensures if i + 1 == a.Length then ret == callback(old(a[..])) else ret == 0 || ret == -1
    decreases a.Length - i
  {
    hide Enumerated, Arrangements, ArrangementsFrom, Swapped;
    ghost var s := a[..];
    ArrangementsOpen(s, i);
    if i + 1 == a.Length {
      EnumeratedOne(s, callback);
      return callback(a[..]), [a[..]];
    }
    calls := [];
    ghost var done: seq<seq<T>> := [];
    EnumeratedNone(s, callback);
    var k := i;
    while k < a.Length
      invariant i <= k <= a.Length && a[..] == s
      invariant Arrangements(s, i) == done + ArrangementsFrom(s, i, k)
      invariant Enumerated(done, callback, s, s, calls, 0)
    {
      ghost var u := Swapped(s, i, k);
      ghost var next, rest := Arrangements(u, i + 1), ArrangementsFrom(s, i, k + 1);
      SwapAt(a, i, k);
      var r, seen := AllRange(a, i + 1, callback);
      if r < 0 {
        OneStretchMore(s, i, k, done);
        EnumeratedStopped(done, next, rest, callback, s, u, a[..], calls, seen, r);
        return -1, calls + seen;
      }
      EnumeratedRestores(next, callback, u, a[..], seen, r);
      EnumeratedAppend(done, next, callback, s, u, calls, seen, r);
      SwapTwice(s, i, k);
      SwapAt(a, i, k);
      OneStretchMore(s, i, k, done);
      calls := calls + seen;
      done := done + next;
      k := k + 1;
    }
    NoStretchLeft(s, i, done);
    ret := 0;
  }

  /** st_permutation: the calls are a prefix of the enumeration; without a failure all of it, array restored. */
  method Permute<T>(a: array<T>, callback: seq<T> -> int) returns (ret: int, calls: seq<seq<T>>)
    modifies a
    ensures Enumerated(Arrangements(old(a[..]), 0), callback, old(a[..]), a[..], calls, ret)
    ensures if a.Length == 1 then ret == callback(old(a[..])) else ret == 0 || ret == -1
  {
    ret, calls := AllRange(a, 0, callback);
  }

  // ---- What the enumeration consists of ----

  function Factorial(n: nat): nat {
    if n == 0 then 1 else n * Factorial(n - 1)
  }

  /** `t` keeps the first `i` elements of `s` and rearranges the rest. */
  ghost predicate Rearranges<T>(s: seq<T>, t: seq<T>, i: nat)
    requires i <= |s|
  {
    |t| == |s| && t[..i] == s[..i] && multiset(t) == multiset(s)
  }

  lemma SwappedMultiset<T>(s: seq<T>, i: nat, k: nat)
    requires i <= k < |s|
    ensures multiset(Swapped(s, i, k)) == multiset(s)
    ensures Swapped(s, i, k)[..i] == s[..i]
  {
  }

  /** Exactly the rearrangements are enumerated. */
  lemma {:induction false} ArrangementsMember<T(!new)>(s: seq<T>, i: nat, t: seq<T>)
    requires i < |s|
    ensures t in Arrangements(s, i) <==> Rearranges(s, t, i)
    decreases |s| - i, |s| + 1
  {
    if i + 1 == |s| {
      if Rearranges(s, t, i) {
        var k := SomeSource(s, t, i);
        assert t == t[..i] + [t[i]] && s == s[..i] + [s[i]];
      }
    } else {
      FromMember(s, i, i, t);
      if Rearranges(s, t, i) {
        var k := SomeSource(s, t, i);
      }
    }
  }

  /** The element of a rearrangement at `i` stands in `s` at `i` or later. */
  lemma SomeSource<T(!new)>(s: seq<T>, t: seq<T>, i: nat) returns (k: nat)
    requires i < |s| && Rearranges(s, t, i)
    ensures i <= k < |s| && s[k] == t[i]
  {
    MultisetParts(s, i, |s|);
    MultisetParts(t, i, |t|);
    MultisetCancel(multiset(s[..i]), multiset(s[i..|s|]), multiset(t[i..|t|]), multiset(s[|s|..]));
    assert t[i..|t|][0] == t[i];
    assert t[i] in multiset(s[i..|s|]);
    var m :| 0 <= m < |s| - i && s[i..|s|][m] == t[i];
    k := i + m;
  }

  lemma {:induction false} FromMember<T(!new)>(s: seq<T>, i: nat, k: nat, t: seq<T>)
    requires i + 1 < |s| && i <= k <= |s|
    ensures t in ArrangementsFrom(s, i, k) <==> Rearranges(s, t, i) && exists j :: k <= j < |s| && s[j] == t[i]
    decreases |s| - i, |s| - k
  {
    hide Swapped, Rearranges, Arrangements, ArrangementsFrom;
    FromUnfolds(s, i, k);
    if k < |s| {
      SwappedRearranges(s, i, k, t);
      ArrangementsMember(Swapped(s, i, k), i + 1, t);
      FromMember(s, i, k + 1, t);
    }
  }

  /** Fixing place i after the swap is choosing the element from place k. */
  lemma SwappedRearranges<T>(s: seq<T>, i: nat, k: nat, t: seq<T>)
    requires i <= k < |s|
    ensures |Swapped(s, i, k)| == |s|
    ensures Rearranges(Swapped(s, i, k), t, i + 1) <==> Rearranges(s, t, i) && t[i] == s[k]
    ensures Rearranges(s, t, i) ==> |t| == |s|
  {
    var u := Swapped(s, i, k);
    SwappedMultiset(s, i, k);
    assert u[..i + 1] == s[..i] + [s[k]];
    if |t| == |s| {
      assert t[..i + 1] == t[..i] + [t[i]];
    }
  }

  /** No arrangement of distinct elements comes up twice. */
  lemma {:induction false} ArrangementsDistinct<T(!new)>(s: seq<T>, i: nat)
    requires i < |s| && Distinct(s)
    ensures Distinct(Arrangements(s, i))
    decreases |s| - i, |s| + 1
  {
    if i + 1 < |s| {
      FromDistinct(s, i, i);
    }
  }

  lemma {:induction false} FromDistinct<T(!new)>(s: seq<T>, i: nat, k: nat)
    requires i + 1 < |s| && i <= k <= |s| && Distinct(s)
    ensures Distinct(ArrangementsFrom(s, i, k))
    decreases |s| - i, |s| - k
  {
    hide Arrangements, ArrangementsFrom, Distinct, Swapped, Rearranges;
    FromUnfolds(s, i, k);
    if k == |s| {
      DistinctNone<seq<T>>();
    } else {
      var u := Swapped(s, i, k);
      SwappedDistinct(s, i, k);
      var x, y := Arrangements(u, i + 1), ArrangementsFrom(s, i, k + 1);
      ArrangementsDistinct(u, i + 1);
      FromDistinct(s, i, k + 1);
      forall t | t in x
        ensures t !in y
      {
        ArrangementsMember(u, i + 1, t);
        FromMember(s, i, k + 1, t);
        SwappedRearranges(s, i, k, t);
        OnlyOnce(s, k);
      }
      DistinctJoin(x, y);
    }
  }

  lemma FromUnfolds<T>(s: seq<T>, i: nat, k: nat)
    requires i <= k <= |s|
    ensures ArrangementsFrom(s, i, k) ==
            if k == |s| then [] else Arrangements(Swapped(s, i, k), i + 1) + ArrangementsFrom(s, i, k + 1)
  {
  }

  lemma SwappedDistinct<T>(s: seq<T>, i: nat, k: nat)
    requires i <= k < |s| && Distinct(s)
    ensures Distinct(Swapped(s, i, k)) && |Swapped(s, i, k)| == |s|
  {
  }

  lemma OnlyOnce<T>(s: seq<T>, k: nat)
    requires k < |s| && Distinct(s)
    ensures forall j :: k < j < |s| ==> s[j] != s[k]
  {
  }

  lemma DistinctNone<T>()
    ensures Distinct<T>([])
  {
  }

  lemma DistinctJoin<T>(x: seq<T>, y: seq<T>)
    requires Distinct(x) && Distinct(y) && forall t :: t in x ==> t !in y
    ensures Distinct(x + y)
  {
    forall i, j | 0 <= i < j < |x + y|
      ensures (x + y)[i] != (x + y)[j]
    {
      if i < |x| <= j {
        assert x[i] in x && y[j - |x|] in y;
      }
    }
  }

  lemma {:induction false} ArrangementsCount<T>(s: seq<T>, i: nat)
    requires i < |s|
    ensures |Arrangements(s, i)| == Factorial(|s| - i)
    decreases |s| - i, |s| + 1
  {
    if i + 1 < |s| {
      FromCount(s, i, i);
    } else {
      assert Factorial(1) == 1 * Factorial(0);
    }
  }

  lemma {:induction false} FromCount<T>(s: seq<T>, i: nat, k: nat)
    requires i + 1 < |s| && i <= k <= |s|
    ensures |ArrangementsFrom(s, i, k)| == (|s| - k) * Factorial(|s| - i - 1)
    decreases |s| - i, |s| - k
  {
    if k < |s| {
      ArrangementsCount(Swapped(s, i, k), i + 1);
      FromCount(s, i, k + 1);
      var f := Factorial(|s| - i - 1);
      assert f + (|s| - k - 1) * f == (|s| - k) * f;
    }
  }

  // ---- Positions ----

  function Positions(n: nat): (p: seq<nat>)
    ensures |p| == n && forall j :: 0 <= j < n ==> p[j] == j
  {
    seq(n, j => j)
  }

  /** The arrangement of `s` that puts at place j the element from position p[j]. */
  function Place<T>(s: seq<T>, p: seq<nat>): (t: seq<T>)
    requires forall j :: 0 <= j < |p| ==> p[j] < |s|
    ensures |t| == |p| && forall j :: 0 <= j < |p| ==> t[j] == s[p[j]]
  {
    seq(|p|, j requires 0 <= j < |p| => s[p[j]])
  }

  ghost predicate PlacedBy<T>(s: seq<T>, ps: seq<seq<nat>>, ts: seq<seq<T>>) {
    && |ts| == |ps|
    && forall m :: 0 <= m < |ps| ==> (forall j :: 0 <= j < |ps[m]| ==> ps[m][j] < |s|) && ts[m] == Place(s, ps[m])
  }

  lemma PlacedByAppend<T>(s: seq<T>, ps: seq<seq<nat>>, ts: seq<seq<T>>, ps': seq<seq<nat>>, ts': seq<seq<T>>)
    requires PlacedBy(s, ps, ts) && PlacedBy(s, ps', ts')
    ensures PlacedBy(s, ps + ps', ts + ts')
  {
  }

  /** Whatever the elements are, the enumeration moves positions in the same way. */
  lemma {:induction false} ArrangementsOfPositions<T>(s: seq<T>, p: seq<nat>, i: nat)
    requires |p| == |s| && i <= |p|
    requires forall j :: 0 <= j < |p| ==> p[j] < |s|
    ensures PlacedBy(s, Arrangements(p, i), Arrangements(Place(s, p), i))
    decreases |s| - i, |s| + 1
  {
    if i + 1 != |s| {
      FromOfPositions(s, p, i, i);
    }
  }

  lemma {:induction false} FromOfPositions<T>(s: seq<T>, p: seq<nat>, i: nat, k: nat)
    requires |p| == |s| && i <= k <= |p|
    requires forall j :: 0 <= j < |p| ==> p[j] < |s|
    ensures PlacedBy(s, ArrangementsFrom(p, i, k), ArrangementsFrom(Place(s, p), i, k))
    decreases |s| - i, |s| - k
  {
    if k < |s| {
      hide PlacedBy;
      assert Place(s, Swapped(p, i, k)) == Swapped(Place(s, p), i, k);
      ArrangementsOfPositions(s, Swapped(p, i, k), i + 1);
      FromOfPositions(s, p, i, k + 1);
      PlacedByAppend(s, Arrangements(Swapped(p, i, k), i + 1), Arrangements(Place(s, Swapped(p, i, k)), i + 1),
                     ArrangementsFrom(p, i, k + 1), ArrangementsFrom(Place(s, p), i, k + 1));
    }
  }

  /**
   * For n >= 1 the calls are the placements of the old contents by position lists `ps`,
   * and `ps` holds every permutation of 0..n-1 exactly once, n! in all.
   */
  lemma EveryArrangementOnce<T>(s: seq<T>) returns (ps: seq<seq<nat>>)
    requires |s| >= 1
    ensures PlacedBy(s, ps, Arrangements(s, 0))
    ensures Distinct(ps) && |ps| == Factorial(|s|)
    ensures forall q: seq<nat> :: q in ps <==> multiset(q) == multiset(Positions(|s|))
  {
    var p := Positions(|s|);
    ps := Arrangements(p, 0);
    assert Place(s, p) == s;
    ArrangementsOfPositions(s, p, 0);
    ArrangementsDistinct(p, 0);
    ArrangementsCount(p, 0);
    forall q: seq<nat>
      ensures q in ps <==> multiset(q) == multiset(p)
    {
      ArrangementsMember(p, 0, q);
      assert |multiset(q)| == |q| && |multiset(p)| == |p|;
      if multiset(q) == multiset(p) {
        assert q[..0] == p[..0];
      }
    }
  }
}
