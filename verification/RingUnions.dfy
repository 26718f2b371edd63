/** What st_int_seg_union leaves behind, and what the order of its input may change. */
module RingUnions {
  import opened SegmentLists
  import opened Segments

  /** A successful union covers exactly the old points and the ring points. */
  lemma UnionPoints(l: seq<Seg>, cap: int, rs: seq<RingSeg>, size: int, x: int)
    requires Canonical(l) && size > 0 && forall i :: 0 <= i < |rs| ==> RingSegOk(rs[i], size)
    requires InsertAll(l, cap, AllParts(rs, size)).0
    ensures Canonical(InsertAll(l, cap, AllParts(rs, size)).1)
    ensures Covers(InsertAll(l, cap, AllParts(rs, size)).1, x) <==>
            Covers(l, x) || exists i :: 0 <= i < |rs| && OnRing(rs[i], size, x)
  {
    AllPartsCover(rs, size, x);
    InsertAllCanonical(l, cap, AllParts(rs, size));
    InsertAllCovers(l, cap, AllParts(rs, size), x);
  }

  /** Any two orders of the input that succeed leave the identical array. */
  lemma OrderIrrelevant(l: seq<Seg>, cap: int, rs: seq<RingSeg>, rs': seq<RingSeg>, size: int)
    requires Canonical(l) && size > 0 && forall i :: 0 <= i < |rs| ==> RingSegOk(rs[i], size)
    requires multiset(rs) == multiset(rs')
    requires InsertAll(l, cap, AllParts(rs, size)).0 && InsertAll(l, cap, AllParts(rs', size)).0
    ensures InsertAll(l, cap, AllParts(rs, size)) == InsertAll(l, cap, AllParts(rs', size))
  {
    hide Insert, InsertAll, Canonical, Covers, AllParts;
    SameMembers(rs, rs');
    forall i | 0 <= i < |rs'|
      ensures RingSegOk(rs'[i], size)
    {
      assert rs'[i] in rs;
    }
    var p, q := InsertAll(l, cap, AllParts(rs, size)).1, InsertAll(l, cap, AllParts(rs', size)).1;
    forall x
      ensures Covers(p, x) <==> Covers(q, x)
    {
      UnionPoints(l, cap, rs, size, x);
      UnionPoints(l, cap, rs', size, x);
      SameRingPoints(rs, rs', size, x);
      SameRingPoints(rs', rs, size, x);
    }
    UnionPoints(l, cap, rs, size, 0);
    UnionPoints(l, cap, rs', size, 0);
    CanonicalUnique(p, q);
  }

  lemma SameMembers(rs: seq<RingSeg>, rs': seq<RingSeg>)
    requires multiset(rs) == multiset(rs')
    ensures forall r :: r in rs <==> r in rs'
  {
    forall r
      ensures r in rs <==> r in rs'
    {
      assert r in rs <==> r in multiset(rs);
      assert r in rs' <==> r in multiset(rs');
    }
  }

  lemma SameRingPoints(rs: seq<RingSeg>, rs': seq<RingSeg>, size: int, x: int)
    requires size > 0 && forall r :: r in rs <==> r in rs'
    ensures (exists i :: 0 <= i < |rs| && OnRing(rs[i], size, x)) ==>
              exists i :: 0 <= i < |rs'| && OnRing(rs'[i], size, x)
  {
    if i :| 0 <= i < |rs| && OnRing(rs[i], size, x) {
      assert rs[i] in rs';
      var j :| 0 <= j < |rs'| && rs'[j] == rs[i];
    }
  }

  /** A slot for every straight part is enough for this order, whatever merges on the way. */
  lemma EnoughCapacity(l: seq<Seg>, cap: int, rs: seq<RingSeg>, size: int)
    requires Canonical(l) && size > 0 && forall i :: 0 <= i < |rs| ==> RingSegOk(rs[i], size)
    requires |l| + |AllParts(rs, size)| <= cap
    ensures InsertAll(l, cap, AllParts(rs, size)).0
  {
    AllPartsCover(rs, size, 0);
    InsertAllFits(l, cap, AllParts(rs, size));
  }

  // ---- When the order cannot matter ----

  predicate Wraps(r: RingSeg, size: int) {
    r.s + r.n > size
  }

  /** Part of the input, in any order: some of the segments, each no more often than given. */
  ghost predicate Among(sub: seq<RingSeg>, rs: seq<RingSeg>) {
    multiset(sub) <= multiset(rs)
  }

  ghost predicate IsOrderOf(rs': seq<RingSeg>, rs: seq<RingSeg>) {
    multiset(rs') == multiset(rs)
  }

  ghost predicate EveryOrderSucceeds(l: seq<Seg>, cap: int, rs: seq<RingSeg>, size: int) {
    forall rs' :: IsOrderOf(rs', rs) ==> InsertAll(l, cap, AllParts(rs', size)).0
  }

  /** The old list joined with some of the input fits ... */
  ghost predicate JoinFits(l: seq<Seg>, cap: int, sub: seq<RingSeg>, size: int) {
    |Free(l, AllParts(sub, size))| <= cap
  }

  /** ... and with the part up to the seam of one more segment that wraps. */
  ghost predicate SeamFits(l: seq<Seg>, cap: int, sub: seq<RingSeg>, r: RingSeg, size: int) {
    |Free(l, AllParts(sub, size) + [Parts(r, size)[0]])| <= cap
  }

  ghost predicate EverySubsetFits(l: seq<Seg>, cap: int, rs: seq<RingSeg>, size: int) {
    && (forall sub :: Among(sub, rs) ==> JoinFits(l, cap, sub, size))
    && (forall sub, r :: Among(sub + [r], rs) && Wraps(r, size) ==> SeamFits(l, cap, sub, r, size))
  }

  /** The lists counted there are the canonical lists of the points, however they are put together. */
  lemma {:induction false} FreeIsUnion(l: seq<Seg>, parts: seq<Seg>, x: int)
    requires Canonical(l) && PartsOk(parts)
    ensures Canonical(Free(l, parts))
    ensures Covers(Free(l, parts), x) <==> Covers(l, x) || Covers(parts, x)
  {
    InsertAllFits(l, |l| + |parts|, parts);
    InsertAllIff(l, |l| + |parts|, parts);
    InsertAllCanonical(l, |l| + |parts|, parts);
    InsertAllCovers(l, |l| + |parts|, parts, x);
  }

  lemma {:induction false} AllPartsAppend(x: seq<RingSeg>, y: seq<RingSeg>, size: int)
    ensures AllParts(x + y, size) == AllParts(x, size) + AllParts(y, size)
  {
    hide Parts;
    if x == [] {
      assert x + y == y;
    } else {
      assert (x + y)[1..] == x[1..] + y;
      AllPartsAppend(x[1..], y, size);
    }
  }

  lemma PartsOne(r: RingSeg, size: int)
    ensures AllParts([r], size) == Parts(r, size)
    ensures |Parts(r, size)| == if Wraps(r, size) then 2 else 1
  {
    assert [r][1..] == [];
    assert AllParts([r], size) == Parts(r, size) + AllParts([], size);
  }

  /** A union stopped anywhere has taken in whole segments, or whole segments and one up to the seam. */
  lemma {:induction false} PrefixForm(rs: seq<RingSeg>, size: int, k: nat) returns (j: nat)
    requires k <= |AllParts(rs, size)|
    ensures j <= |rs|
    ensures AllParts(rs, size)[..k] == AllParts(rs[..j], size) || (j < |rs| && Wraps(rs[j], size)
              && AllParts(rs, size)[..k] == AllParts(rs[..j], size) + [Parts(rs[j], size)[0]])
  {
    if k == 0 {
      j := 0;
    } else {
      var p, q := Parts(rs[0], size), AllParts(rs[1..], size);
      PartsOne(rs[0], size);
      if k < |p| {
        j := 0;
        assert (p + q)[..k] == AllParts(rs[..0], size) + [p[0]];
      } else {
        hide AllParts, Parts, Wraps;
        j := PrefixForm(rs[1..], size, k - |p|);
        PrefixAhead(p, q, k);
        PrefixAhead([rs[0]], rs[1..], j + 1);
        assert [rs[0]] + rs[1..] == rs;
        AllPartsAppend([rs[0]], rs[1..][..j], size);
        j := j + 1;
      }
    }
  }

  lemma PrefixAhead<T>(p: seq<T>, q: seq<T>, k: nat)
    requires |p| <= k <= |p + q|
    ensures (p + q)[..k] == p + q[..k - |p|]
  {
  }

  lemma {:induction false} Listing<T>(m: multiset<T>) returns (s: seq<T>)
    ensures multiset(s) == m
    decreases |m|
  {
    if m == multiset{} {
      s := [];
    } else {
      var e :| e in m;
      var t := Listing(m - multiset{e});
      s := t + [e];
    }
  }

  /** Some of the input can come first. */
  lemma StartWith(sub: seq<RingSeg>, rs: seq<RingSeg>) returns (rest: seq<RingSeg>)
    requires Among(sub, rs)
    ensures IsOrderOf(sub + rest, rs)
  {
    rest := Listing(multiset(rs) - multiset(sub));
  }

  lemma FrontIsAmong(rs': seq<RingSeg>, rs: seq<RingSeg>, j: nat)
    requires IsOrderOf(rs', rs) && j <= |rs'|
    ensures Among(rs'[..j], rs)
    ensures j < |rs'| ==> Among(rs'[..j] + [rs'[j]], rs)
  {
    assert rs' == rs'[..j] + rs'[j..];
    if j < |rs'| {
      assert rs' == rs'[..j] + [rs'[j]] + rs'[j + 1..];
    }
  }

  lemma SubsetsMakeOrders(l: seq<Seg>, cap: int, rs: seq<RingSeg>, rs': seq<RingSeg>, size: int)
    requires |l| <= cap && EverySubsetFits(l, cap, rs, size) && IsOrderOf(rs', rs)
    ensures InsertAll(l, cap, AllParts(rs', size)).0
  {
    hide Free, AllParts, Parts, Among, IsOrderOf;
    var parts := AllParts(rs', size);
    forall k | 0 <= k <= |parts|
      ensures |Free(l, parts[..k])| <= cap
    {
      var j := PrefixForm(rs', size, k);
      FrontIsAmong(rs', rs, j);
      assert JoinFits(l, cap, rs'[..j], size);
      if parts[..k] != AllParts(rs'[..j], size) {
        assert SeamFits(l, cap, rs'[..j], rs'[j], size);
      }
    }
    InsertAllIff(l, cap, parts);
  }

  /** What an order that succeeds has passed through. */
  lemma OrderPasses(l: seq<Seg>, cap: int, x: seq<Seg>, y: seq<Seg>)
    requires |l| <= cap && InsertAll(l, cap, x + y).0
    ensures |Free(l, x)| <= cap
  {
    hide Free;
    InsertAllIff(l, cap, x + y);
    assert (x + y)[..|x|] == x;
  }

  /**
   * Every order of the input succeeds exactly when the old list joined with any part of the input,
   * and with any further segment up to the seam, has at most `cap` segments.
   */
  lemma EveryOrderSucceedsIff(l: seq<Seg>, cap: int, rs: seq<RingSeg>, size: int)
    requires |l| <= cap
    ensures EveryOrderSucceeds(l, cap, rs, size) <==> EverySubsetFits(l, cap, rs, size)
  {
    hide Free, AllParts, Parts, Among, IsOrderOf, InsertAll;
    if EverySubsetFits(l, cap, rs, size) {
      forall rs' | IsOrderOf(rs', rs)
        ensures InsertAll(l, cap, AllParts(rs', size)).0
      {
        SubsetsMakeOrders(l, cap, rs, rs', size);
      }
    }
    if EveryOrderSucceeds(l, cap, rs, size) {
      forall sub | Among(sub, rs)
        ensures JoinFits(l, cap, sub, size)
      {
        var rest := StartWith(sub, rs);
        AllPartsAppend(sub, rest, size);
        OrderPasses(l, cap, AllParts(sub, size), AllParts(rest, size));
      }
      forall sub, r | Among(sub + [r], rs) && Wraps(r, size)
        ensures SeamFits(l, cap, sub, r, size)
      {
        var rest := StartWith(sub + [r], rs);
        SeamFirst(sub, r, rest, size);
        var p := Parts(r, size);
        OrderPasses(l, cap, AllParts(sub, size) + [p[0]], p[1..] + AllParts(rest, size));
      }
    }
  }

  lemma SeamFirst(sub: seq<RingSeg>, r: RingSeg, rest: seq<RingSeg>, size: int)
    ensures var p := Parts(r, size);
            AllParts(sub + [r] + rest, size) == (AllParts(sub, size) + [p[0]]) + (p[1..] + AllParts(rest, size))
  {
    hide AllParts, Parts;
    var p := Parts(r, size);
    AllPartsAppend(sub + [r], rest, size);
    AllPartsAppend(sub, [r], size);
    PartsOne(r, size);
    assert p == [p[0]] + p[1..];
  }

  /** Then, and only then, every order leaves one and the same array: the canonical list of all the points. */
  lemma OneResultIff(l: seq<Seg>, cap: int, rs: seq<RingSeg>, size: int)
    requires Canonical(l) && |l| <= cap && size > 0 && forall i :: 0 <= i < |rs| ==> RingSegOk(rs[i], size)
    ensures EverySubsetFits(l, cap, rs, size) <==>
            forall rs' :: IsOrderOf(rs', rs) ==>
              InsertAll(l, cap, AllParts(rs', size)) == (true, Free(l, AllParts(rs, size)))
  {
    hide Free, AllParts, InsertAll, EverySubsetFits;
    EveryOrderSucceedsIff(l, cap, rs, size);
    if EveryOrderSucceeds(l, cap, rs, size) {
      assert IsOrderOf(rs, rs);
      InsertAllIff(l, cap, AllParts(rs, size));
      forall rs' | IsOrderOf(rs', rs)
        ensures InsertAll(l, cap, AllParts(rs', size)) == (true, Free(l, AllParts(rs, size)))
      {
        OrderIrrelevant(l, cap, rs, rs', size);
      }
    }
  }

  /** Without the capacity the order can decide: here the bridging segment comes last and is never reached. */
  lemma OrderCanMatterWhenTight()
    ensures InsertAll([], 1, AllParts([RingSeg(0, 1), RingSeg(1, 1), RingSeg(2, 1)], 9)) == (true, [Seg(0, 3)])
    ensures InsertAll([], 1, AllParts([RingSeg(0, 1), RingSeg(2, 1), RingSeg(1, 1)], 9)) == (false, [Seg(0, 1)])
  {
    AllThree(RingSeg(0, 1), RingSeg(1, 1), RingSeg(2, 1), 9);
    AllThree(RingSeg(0, 1), RingSeg(2, 1), RingSeg(1, 1), 9);
    assert Insert([], 0, 1) == [Seg(0, 1)];
    assert Insert([Seg(0, 1)], 1, 2) == [Seg(0, 2)];
    assert Insert([Seg(0, 2)], 2, 3) == [Seg(0, 3)];
    assert |Insert([Seg(0, 1)], 2, 3)| == 2;
    InsertTwo([Seg(0, 1)], 1, Seg(1, 2), Seg(2, 3));
    InsertTwo([Seg(0, 1)], 1, Seg(2, 3), Seg(1, 2));
  }

  lemma AllThree(x: RingSeg, y: RingSeg, z: RingSeg, size: int)
    requires x.s + x.n <= size && y.s + y.n <= size && z.s + z.n <= size
    ensures AllParts([x, y, z], size) == [Seg(x.s, x.s + x.n), Seg(y.s, y.s + y.n), Seg(z.s, z.s + z.n)]
    ensures [Seg(x.s, x.s + x.n), Seg(y.s, y.s + y.n), Seg(z.s, z.s + z.n)][1..]
            == [Seg(y.s, y.s + y.n), Seg(z.s, z.s + z.n)]
  {
    assert [x, y, z][1..] == [y, z] && [y, z][1..] == [z] && [z][1..] == [];
    assert AllParts([z], size) == Parts(z, size);
    assert AllParts([y, z], size) == Parts(y, size) + Parts(z, size);
  }
}
