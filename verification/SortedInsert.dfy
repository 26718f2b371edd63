/** st_insert: putting an element into a sorted array once, and arrays built by it. */
module SortedInsert {
  import opened Util

  /** st_cmp_ret_t. */
  datatype Cmp = Error | Less | Equal | Greater

  /** Where the scan ends: at the first element not reported less than `x`. */
  function Place<T>(s: seq<T>, x: T, cmp: (T, T) -> Cmp): (i: nat)
    ensures i <= |s|
    ensures forall k :: 0 <= k < i ==> cmp(s[k], x) == Less
    ensures i < |s| ==> cmp(s[i], x) != Less
  {
    if s == [] || cmp(s[0], x) != Less then 0 else 1 + Place(s[1..], x, cmp)
  }

  lemma PlaceIs<T>(s: seq<T>, x: T, cmp: (T, T) -> Cmp, i: nat)
    requires i <= |s| && forall k :: 0 <= k < i ==> cmp(s[k], x) == Less
    requires i < |s| ==> cmp(s[i], x) != Less
    ensures Place(s, x, cmp) == i
  {
    var j := Place(s, x, cmp);
    assert !(i < j) && !(j < i);
  }

  /** The list after st_insert and its result; None for -1. */
  function Inserted<T>(s: seq<T>, cap: nat, x: T, cmp: (T, T) -> Cmp): (r: (seq<T>, Option<nat>)) {
    var i := Place(s, x, cmp);
    if cap == 0 then (s, None)
    else if i < |s| && cmp(s[i], x) == Error then (s, None)
    else if i < |s| && cmp(s[i], x) == Equal then (s, Some(i))
    else if |s| + 1 > cap then (s, None)
    else (s[..i] + [x] + s[i..], Some(i))
  }

  /** st_insert; `num` is the number of elements in use, `pos` the position on success. */
  method Insert<T>(base: array<T>, cap: nat, num: nat, x: T, cmp: (T, T) -> Cmp) returns (num': nat, pos: Option<nat>)
    requires num <= base.Length && cap <= base.Length
    modifies base
    ensures num' <= base.Length && (num <= cap ==> num' <= cap)
    ensures (base[..num'], pos) == Inserted(old(base[..num]), cap, x, cmp)
    ensures forall k :: num' <= k < base.Length ==> base[k] == old(base[k])
  {
    ghost var s := base[..num];
    if cap == 0 {
      return num, None;
    }
    var i: nat := 0;
    while i < num && cmp(base[i], x) == Less
      invariant i <= num && forall k :: 0 <= k < i ==> cmp(base[k], x) == Less
    {
      i := i + 1;
    }
    PlaceIs(s, x, cmp, i);
    if i < num && cmp(base[i], x) == Error {
      return num, None;
    }
    if i < num && cmp(base[i], x) == Equal {
      return num, Some(i);
    }
    if num + 1 > cap {
      return num, None;
    }
    assert base[..i] == s[..i] && base[i..num] == s[i..];
    MakeRoom(base, num, i, x);
    assert base[..num + 1] == s[..i] + [x] + s[i..];
    return num + 1, Some(i);
  }

  /** memmove of the tail, then memcpy of the element. */
  method MakeRoom<T>(base: array<T>, num: nat, i: nat, x: T)
    requires i <= num < base.Length
    modifies base
    ensures base[..num + 1] == old(base[..i] + [x] + base[i..num])
    ensures forall k :: num < k < base.Length ==> base[k] == old(base[k])
  {
    forall k | i < k <= num {
      base[k] := base[k - 1];
    }
    base[i] := x;
  }

  /**
   * With any comparison: the array is left alone, or gains exactly the new element and keeps every old one in its
   * order. All before the position compare less; the one at it is equal and stays, or is greater and moves up.
   */
  lemma InsertedOutcomes<T>(s: seq<T>, cap: nat, x: T, cmp: (T, T) -> Cmp)
    ensures var (t, pos) := Inserted(s, cap, x, cmp);
            if pos.None? then
              t == s && (cap == 0 || exists p: nat :: RefusedAt(s, cap, x, cmp, p))
            else
              && LessBefore(s, x, cmp, pos.value)
              && (if pos.value < |s| && cmp(s[pos.value], x) == Equal then t == s
                  else
                    && |t| == |s| + 1 <= cap && t[pos.value] == x
                    && t[..pos.value] == s[..pos.value] && t[pos.value + 1..] == s[pos.value..]
                    && (pos.value < |s| ==> cmp(s[pos.value], x) == Greater))
  {
    assert LessBefore(s, x, cmp, Place(s, x, cmp));
    assert Inserted(s, cap, x, cmp).1.None? && cap > 0 ==> RefusedAt(s, cap, x, cmp, Place(s, x, cmp));
  }

  /** The scan ends at a comparison error, or where the element would go but finds no room. */
  ghost predicate RefusedAt<T>(s: seq<T>, cap: nat, x: T, cmp: (T, T) -> Cmp, p: nat) {
    && LessBefore(s, x, cmp, p)
    && if p < |s| && cmp(s[p], x) != Greater then cmp(s[p], x) == Error else |s| + 1 > cap
  }

  ghost predicate LessBefore<T>(s: seq<T>, x: T, cmp: (T, T) -> Cmp, p: nat) {
    p <= |s| && forall k :: 0 <= k < p ==> cmp(s[k], x) == Less
  }

  // ---- With a comparison that orders ----

  /** Never fails, tells equal elements only from themselves, and is a strict order. */
  ghost predicate Orders<T(!new)>(cmp: (T, T) -> Cmp) {
    forall x, y, z :: OrdersAt(cmp, x, y, z)
  }

  ghost predicate OrdersAt<T>(cmp: (T, T) -> Cmp, x: T, y: T, z: T) {
    && cmp(x, y) != Error
    && (cmp(x, y) == Equal <==> x == y)
    && (cmp(x, y) == Less <==> cmp(y, x) == Greater)
    && (cmp(x, y) == Less && cmp(y, z) == Less ==> cmp(x, z) == Less)
  }

  ghost predicate Ascending<T>(s: seq<T>, cmp: (T, T) -> Cmp) {
    forall i, j :: 0 <= i < j < |s| ==> cmp(s[i], s[j]) == Less
  }

  /** The scan splits an ascending list into what is less than `x` and the rest, which `x` is less than or begins. */
  lemma PlaceSplits<T(!new)>(s: seq<T>, x: T, cmp: (T, T) -> Cmp)
    requires Orders(cmp) && Ascending(s, cmp)
    ensures var i := Place(s, x, cmp);
            && (x in s <==> i < |s| && s[i] == x)
            && (x !in s ==> forall k :: i <= k < |s| ==> cmp(x, s[k]) == Less)
  {
    var i := Place(s, x, cmp);
    hide Place;
    assert OrdersAt(cmp, x, x, x);
    if i < |s| {
      assert OrdersAt(cmp, s[i], x, x);
      forall k | i < k < |s|
        ensures s[i] == x || cmp(x, s[i]) == Less
        ensures cmp(x, s[k]) == Less
      {
        assert OrdersAt(cmp, x, s[i], s[k]);
      }
      assert OrdersAt(cmp, x, s[i], x);
      if x in s {
        var k :| 0 <= k < |s| && s[k] == x;
      }
    }
  }

  lemma JoinedAscending<T>(s: seq<T>, i: nat, x: T, cmp: (T, T) -> Cmp)
    requires Ascending(s, cmp) && i <= |s|
    requires forall k :: 0 <= k < i ==> cmp(s[k], x) == Less
    requires forall k :: i <= k < |s| ==> cmp(x, s[k]) == Less
    ensures Ascending(s[..i] + [x] + s[i..], cmp)
  {
  }

  lemma JoinedMember<T>(s: seq<T>, i: nat, x: T, y: T)
    requires i <= |s|
    ensures y in s[..i] + [x] + s[i..] <==> y in s || y == x
  {
    assert s == s[..i] + s[i..];
  }

  /** The array stays ascending and gains exactly the element, at the reported position; only room is ever lacking. */
  lemma InsertedKeeps<T(!new)>(s: seq<T>, cap: nat, x: T, cmp: (T, T) -> Cmp)
    requires Orders(cmp) && Ascending(s, cmp)
    ensures var (t, pos) := Inserted(s, cap, x, cmp);
            && Ascending(t, cmp)
            && (pos.None? <==> cap == 0 || (x !in s && |s| + 1 > cap))
            && (pos.Some? ==> pos.value < |t| && t[pos.value] == x && forall y :: y in t <==> y in s || y == x)
            && (pos.None? ==> t == s)
  {
    PlaceSplits(s, x, cmp);
    var i := Place(s, x, cmp);
    hide Place;
    if i < |s| {
      assert OrdersAt(cmp, s[i], x, x);
    }
    hide Orders;
    if x !in s {
      JoinedAscending(s, i, x, cmp);
      hide Ascending;
      forall y
        ensures y in s[..i] + [x] + s[i..] <==> y in s || y == x
      {
        JoinedMember(s, i, x, y);
      }
    }
  }

  /** An ascending array is determined by its elements. */
  lemma {:induction false} AscendingUnique<T(!new)>(s: seq<T>, t: seq<T>, cmp: (T, T) -> Cmp)
    requires Orders(cmp) && Ascending(s, cmp) && Ascending(t, cmp)
    requires forall y :: y in s <==> y in t
    ensures s == t
  {
    if s == [] {
      EmptyOrMember(t);
    } else {
      assert s[0] in t;
      LeastFirst(s, t, cmp);
      LeastFirst(t, s, cmp);
      assert OrdersAt(cmp, s[0], t[0], s[0]) && OrdersAt(cmp, t[0], s[0], s[0]);
      forall y
        ensures y in s[1..] <==> y in t[1..]
      {
        InTail(s, y, cmp);
        InTail(t, y, cmp);
      }
      AscendingUnique(s[1..], t[1..], cmp);
      assert s == [s[0]] + s[1..] && t == [t[0]] + t[1..];
    }
  }

  lemma EmptyOrMember<T>(t: seq<T>)
    ensures t == [] || t[0] in t
  {
  }

  lemma LeastFirst<T(!new)>(s: seq<T>, t: seq<T>, cmp: (T, T) -> Cmp)
    requires Orders(cmp) && Ascending(s, cmp) && s != [] && t != []
    requires t[0] in s
    ensures s[0] == t[0] || cmp(s[0], t[0]) == Less
  {
    var k :| 0 <= k < |s| && s[k] == t[0];
  }

  lemma InTail<T(!new)>(s: seq<T>, y: T, cmp: (T, T) -> Cmp)
    requires Orders(cmp) && Ascending(s, cmp) && s != []
    ensures y in s[1..] <==> y in s && y != s[0]
  {
    assert s == [s[0]] + s[1..];
    if y in s[1..] {
      var k :| 0 <= k < |s[1..]| && s[1..][k] == y;
      assert cmp(s[0], s[k + 1]) == Less;
      assert OrdersAt(cmp, s[0], y, y);
    }
  }

  // ---- Runs ----

  function InsertEach<T>(s: seq<T>, cap: nat, xs: seq<T>, cmp: (T, T) -> Cmp): seq<T>
    decreases |xs|
  {
    if xs == [] then s else InsertEach(Inserted(s, cap, xs[0], cmp).0, cap, xs[1..], cmp)
  }

  /** The distinct elements of two lists. */
  ghost function Elements<T>(s: seq<T>, xs: seq<T>): set<T> {
    (set y | y in s) + (set y | y in xs)
  }

  lemma AscendingDistinct<T(!new)>(s: seq<T>, cmp: (T, T) -> Cmp)
    requires Orders(cmp) && Ascending(s, cmp)
    ensures |set y | y in s| == |s|
  {
    forall i, j | 0 <= i < j < |s|
      ensures s[i] != s[j]
    {
      assert OrdersAt(cmp, s[i], s[j], s[j]);
    }
    DistinctElements(s);
  }

  /** A run keeps the array ascending and within its capacity, loses nothing and adds only what was inserted. */
  lemma {:induction false} InsertEachKeeps<T(!new)>(s: seq<T>, cap: nat, xs: seq<T>, cmp: (T, T) -> Cmp)
    requires Orders(cmp) && Ascending(s, cmp) && |s| <= cap
    ensures var t := InsertEach(s, cap, xs, cmp);
            && Ascending(t, cmp) && |t| <= cap
            && (forall y :: y in s ==> y in t)
            && (forall y :: y in t ==> y in s || y in xs)
    decreases |xs|
  {
    if xs != [] {
      InsertedKeeps(s, cap, xs[0], cmp);
      InsertEachKeeps(Inserted(s, cap, xs[0], cmp).0, cap, xs[1..], cmp);
    }
  }

  lemma {:induction false} InsertEachHasAll<T(!new)>(s: seq<T>, cap: nat, xs: seq<T>, cmp: (T, T) -> Cmp)
    requires Orders(cmp) && Ascending(s, cmp) && |Elements(s, xs)| <= cap
    ensures forall y :: y in s || y in xs ==> y in InsertEach(s, cap, xs, cmp)
    decreases |xs|
  {
    if xs == [] {
    } else {
      var x := xs[0];
      var t := Inserted(s, cap, x, cmp).0;
      InsertedKeeps(s, cap, x, cmp);
      FirstFits(s, cap, xs, cmp);
      hide Inserted, Orders, Ascending;
      assert Elements(t, xs[1..]) == Elements(s, xs) by {
        assert xs == [x] + xs[1..];
      }
      InsertEachHasAll(t, cap, xs[1..], cmp);
      InsertedKeeps(s, cap, x, cmp);
      InRest(xs);
      InsertEachKeeps(t, cap, xs[1..], cmp);
    }
  }

  lemma InRest<T(!new)>(xs: seq<T>)
    requires xs != []
    ensures forall y :: y in xs <==> y == xs[0] || y in xs[1..]
  {
    assert xs == [xs[0]] + xs[1..];
  }

  /** While the distinct elements fit, so does the next one. */
  lemma FirstFits<T(!new)>(s: seq<T>, cap: nat, xs: seq<T>, cmp: (T, T) -> Cmp)
    requires Orders(cmp) && Ascending(s, cmp) && |Elements(s, xs)| <= cap && xs != []
    ensures cap > 0 && |s| <= cap && (xs[0] !in s ==> |s| + 1 <= cap)
  {
    AscendingDistinct(s, cmp);
    var have := set y | y in s;
    SubsetSize(have + {xs[0]}, Elements(s, xs));
    SubsetSize(have, Elements(s, xs));
  }

  /** The array ends up holding exactly what was there or was inserted if and only if the distinct elements fit. */
  lemma InsertEachHoldsIff<T(!new)>(s: seq<T>, cap: nat, xs: seq<T>, cmp: (T, T) -> Cmp)
    requires Orders(cmp) && Ascending(s, cmp) && |s| <= cap
    ensures |Elements(s, xs)| <= cap <==> forall y :: y in InsertEach(s, cap, xs, cmp) <==> y in s || y in xs
    ensures Ascending(InsertEach(s, cap, xs, cmp), cmp)
  {
    var t := InsertEach(s, cap, xs, cmp);
    InsertEachKeeps(s, cap, xs, cmp);
    if |Elements(s, xs)| <= cap {
      InsertEachHasAll(s, cap, xs, cmp);
    }
    hide InsertEach, Orders, Ascending;
    if forall y :: y in t <==> y in s || y in xs {
      assert (set y | y in t) == Elements(s, xs);
      AscendingDistinct(t, cmp);
    }
  }

  /** While they fit, the order and the repetitions of the insertions do not matter. */
  lemma InsertionOrderIrrelevant<T(!new)>(s: seq<T>, cap: nat, xs: seq<T>, ys: seq<T>, cmp: (T, T) -> Cmp)
    requires Orders(cmp) && Ascending(s, cmp) && |Elements(s, xs)| <= cap
    requires forall y :: y in xs <==> y in ys
    ensures InsertEach(s, cap, xs, cmp) == InsertEach(s, cap, ys, cmp)
  {
    assert Elements(s, ys) == Elements(s, xs);
    AscendingDistinct(s, cmp);
    SubsetSize((set y | y in s), Elements(s, xs));
    InsertEachHoldsIff(s, cap, xs, cmp);
    InsertEachHoldsIff(s, cap, ys, cmp);
    AscendingUnique(InsertEach(s, cap, xs, cmp), InsertEach(s, cap, ys, cmp), cmp);
  }

  /** st_int_cmp. */
  function IntCmp(f: int, s: int): Cmp {
    if f > s then Greater else if f < s then Less else Equal
  }

  lemma IntCmpOrders()
    ensures Orders(IntCmp)
  {
    forall x, y, z
      ensures OrdersAt(IntCmp, x, y, z)
    {
    }
  }
}
