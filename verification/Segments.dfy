/** st_int_seg_union: merging segments in place, and segments on a ring. */
module Segments {
  import opened Util
  import opened SegmentLists

  /** memmove within the array. */
  method Move(segs: array<Seg>, dst: int, src: int, count: int)
    requires 0 <= dst && 0 <= src && 0 <= count && dst + count <= segs.Length && src + count <= segs.Length
    modifies segs
    ensures segs[dst..dst + count] == old(segs[src..src + count])
    ensures forall k :: 0 <= k < segs.Length && !(dst <= k < dst + count) ==> segs[k] == old(segs[k])
  {
    forall k | dst <= k < dst + count {
      segs[k] := segs[k - dst + src];
    }
  }

  /** Shifts the tail up and stores the segment at `i`. */
  method InsertAt(segs: array<Seg>, n: int, i: int, s: int, e: int)
    requires 0 <= i <= n < segs.Length
    modifies segs
    ensures segs[..n + 1] == old(segs[..i] + [Seg(s, e)] + segs[i..n])
  {
    Move(segs, i + 1, i, n - i);
    segs[i] := Seg(s, e);
    assert segs[..n + 1] == segs[..i] + [segs[i]] + segs[i + 1..i + 1 + (n - i)];
  }

  /** Stores the merged segment at `i` and closes the gap up to `j`. */
  method MergeAt(segs: array<Seg>, n: int, i: int, j: int, m: Seg) returns (n': int)
    requires 0 <= i < j <= n <= segs.Length
    modifies segs
    ensures n' == n - (j - i - 1) && 0 <= n' <= segs.Length
    ensures segs[..n'] == old(segs[..i] + [m] + segs[j..n])
  {
    ghost var rest := segs[j..n];
    segs[i] := m;
    assert segs[j..n] == rest;
    if j < n {
      Move(segs, i + 1, j, n - j);
    }
    n' := n - (j - i - 1);
    assert segs[i + 1..i + 1 + (n - j)] == rest;
    assert segs[..n'] == segs[..i] + [segs[i]] + segs[i + 1..i + 1 + (n - j)];
  }

  /** The skip loop: the first segment the new one reaches. */
  method FirstReached(segs: array<Seg>, n: int, s: int) returns (i: int)
    requires 0 <= n <= segs.Length
    ensures 0 <= i <= n
    ensures forall k :: 0 <= k < i ==> segs[k].e < s
    ensures i < n ==> s <= segs[i].e
  {
    i := 0;
    while i < n
      invariant 0 <= i <= n
      invariant forall k :: 0 <= k < i ==> segs[k].e < s
    {
      if s <= segs[i].e {
        break;
      }
      i := i + 1;
    }
  }

  /** The extend loop: the first later segment that starts at or after `e`. */
  method FirstAtOrAfter(segs: array<Seg>, n: int, i: int, e: int) returns (j: int)
    requires 0 <= i < n <= segs.Length && segs[i].s <= e
    ensures i < j <= n
    ensures segs[j - 1].s <= e
    ensures j < n ==> e <= segs[j].s
  {
    j := i + 1;
    while j < n
      invariant i < j <= n && segs[j - 1].s <= e
    {
      if e <= segs[j].s {
        break;
      }
      j := j + 1;
    }
  }

  /** The branches that add a segment before the i-th, or report an overflow. */
  method Place(segs: array<Seg>, cap: int, n: int, i: int, s: int, e: int) returns (ok: bool, n': int)
    requires 0 <= i <= n <= cap <= segs.Length && Canonical(segs[..n]) && s < e
    requires forall k :: 0 <= k < i ==> segs[k].e < s
    requires i < n ==> e < segs[i].s
    modifies segs
    ensures ok <==> |Insert(old(segs[..n]), s, e)| <= cap
    ensures ok ==> 0 <= n' <= cap && segs[..n'] == Insert(old(segs[..n]), s, e)
    ensures !ok ==> n' == n && segs[..] == old(segs[..])
  {
    ghost var l := segs[..n];
    InsertedBetween(l, s, e, i);
    hide Canonical, Insert;
    assert l[..i] + [Seg(s, e)] + l[i..] == segs[..i] + [Seg(s, e)] + segs[i..n];
    if n >= cap {
      return false, n;
    }
    InsertAt(segs, n, i, s, e);
    return true, n + 1;
  }

  /** The branches that extend the i-th segment over the ones before `j`. */
  method Absorb(segs: array<Seg>, ghost cap: int, n: int, i: int, j: int, s: int, e: int) returns (n': int)
    requires 0 <= i < j <= n <= cap <= segs.Length && Canonical(segs[..n]) && s < e
    requires forall k :: 0 <= k < i ==> segs[k].e < s
    requires s <= segs[i].e && segs[j - 1].s <= e
    requires j < n ==> e < segs[j].s
    modifies segs
    ensures 0 <= n' <= cap && segs[..n'] == Insert(old(segs[..n]), s, e)
  {
    ghost var l := segs[..n];
    MergedRange(l, s, e, i, j);
    hide Canonical, Insert;
    assert l[j..] == segs[j..n] && l[..i] == segs[..i];
    n' := MergeAt(segs, n, i, j, Seg(Min(s, segs[i].s), Max(e, segs[j - 1].e)));
  }

  /**
   * st_int_seg_union_insert: the list becomes Insert's; it is left alone exactly when
   * the arguments are bad or Insert's list does not fit.
   */
  method UnionInsert(segs: array<Seg>, cap: int, n: int, s: int, e: int) returns (ok: bool, n': int)
    requires 0 <= n <= cap <= segs.Length && Canonical(segs[..n])
    modifies segs
    ensures ok <==> 0 <= s < e && |Insert(old(segs[..n]), s, e)| <= cap
    ensures ok ==> 0 <= n' <= cap && segs[..n'] == Insert(old(segs[..n]), s, e)
    ensures !ok ==> n' == n && segs[..] == old(segs[..])
  {
    hide Canonical, Insert;
    if s < 0 || e < 0 || s >= e {
      return false, n;
    }
    ListFacts(segs[..n]);
    assert forall k :: 0 <= k < n ==> segs[..n][k] == segs[k];
    if n > 0 {
      if e < segs[0].s {
        ok, n' := Place(segs, cap, n, 0, s, e);
        return;
      } else if e == segs[0].s {
        n' := Absorb(segs, cap, n, 0, 1, s, e);  // segs[0].s = s
        return true, n';
      }
    }
    var i := FirstReached(segs, n, s);
    if i == n || e < segs[i].s {
      ok, n' := Place(segs, cap, n, i, s, e);
      return;
    }
    var j := FirstAtOrAfter(segs, n, i, e);
    if j < n && e == segs[j].s {
      j := j + 1;
    }
    n' := Absorb(segs, cap, n, i, j, s, e);
    ok := true;
  }

  /** What the branches need from canonical form. */
  lemma ListFacts(l: seq<Seg>)
    requires Canonical(l)
    ensures forall k :: 0 <= k < |l| ==> l[k].s < l[k].e
    ensures forall k :: 0 < k < |l| ==> l[k - 1].e < l[k].s
  {
  }

  // ---- Segments on a ring ----

  /** An input segment: start and length (the second reading of st_int_seg_t's union). */
  datatype RingSeg = RingSeg(s: int, n: int)

  ghost predicate RingSegOk(r: RingSeg, size: int) {
    0 <= r.s < size && 0 < r.n <= size
  }

  /** The k-th point of a ring segment. */
  function RingPoint(r: RingSeg, size: int, k: int): int
    requires size > 0
  {
    (r.s + k) % size
  }

  ghost predicate OnRing(r: RingSeg, size: int, x: int)
    requires size > 0
  {
    exists k :: 0 <= k < r.n && RingPoint(r, size, k) == x
  }

  /** The one or two straight segments a ring segment is cut into. */
  function Parts(r: RingSeg, size: int): (p: seq<Seg>)
    ensures 1 <= |p| <= 2
  {
    if r.s + r.n > size then [Seg(r.s, size), Seg(0, r.n - (size - r.s))] else [Seg(r.s, r.s + r.n)]
  }

  function AllParts(rs: seq<RingSeg>, size: int): (p: seq<Seg>)
    ensures |p| <= 2 * |rs|
  {
    if rs == [] then [] else Parts(rs[0], size) + AllParts(rs[1..], size)
  }

  /** Inserting straight segments one after another, up to the first list that does not fit. */
  function InsertAll(l: seq<Seg>, cap: int, parts: seq<Seg>): (r: (bool, seq<Seg>))
    decreases |parts|
  {
    if parts == [] then (true, l)
    else
      var l' := Insert(l, parts[0].s, parts[0].e);
      if |l'| <= cap then InsertAll(l', cap, parts[1..]) else (false, l)
  }

  /** The same without a capacity: the canonical list of all the points. */
  function Free(l: seq<Seg>, parts: seq<Seg>): seq<Seg>
    decreases |parts|
  {
    if parts == [] then l else Free(Insert(l, parts[0].s, parts[0].e), parts[1..])
  }

  /** Every list on the way fits. */
  ghost predicate PrefixesFit(l: seq<Seg>, cap: int, parts: seq<Seg>) {
    forall k :: 0 <= k <= |parts| ==> |Free(l, parts[..k])| <= cap
  }

  ghost predicate PartsOk(parts: seq<Seg>) {
    forall i :: 0 <= i < |parts| ==> 0 <= parts[i].s < parts[i].e
  }

  lemma {:induction false} InsertAllAppend(l: seq<Seg>, cap: int, p: seq<Seg>, q: seq<Seg>)
    ensures InsertAll(l, cap, p + q) ==
            var (ok, l') := InsertAll(l, cap, p);
            if ok then InsertAll(l', cap, q) else (false, l')
    decreases |p|
  {
    if p == [] {
      assert p + q == q;
    } else {
      assert (p + q)[1..] == p[1..] + q;
      InsertAllAppend(Insert(l, p[0].s, p[0].e), cap, p[1..], q);
    }
  }

  lemma {:induction false} InsertAllCanonical(l: seq<Seg>, cap: int, parts: seq<Seg>)
    requires Canonical(l) && PartsOk(parts)
    ensures Canonical(InsertAll(l, cap, parts).1)
    ensures |l| <= cap ==> |InsertAll(l, cap, parts).1| <= cap
    decreases |parts|
  {
    if parts != [] {
      InsertIsCanonical(l, parts[0].s, parts[0].e);
      InsertAllCanonical(Insert(l, parts[0].s, parts[0].e), cap, parts[1..]);
    }
  }

  lemma {:induction false} InsertAllCovers(l: seq<Seg>, cap: int, parts: seq<Seg>, x: int)
    requires Canonical(l) && PartsOk(parts)
    requires InsertAll(l, cap, parts).0
    ensures Covers(InsertAll(l, cap, parts).1, x) <==> Covers(l, x) || Covers(parts, x)
    decreases |parts|
  {
    if parts != [] {
      var l' := Insert(l, parts[0].s, parts[0].e);
      InsertIsCanonical(l, parts[0].s, parts[0].e);
      InsertCovers(l, parts[0].s, parts[0].e, x);
      InsertAllCovers(l', cap, parts[1..], x);
      assert parts == [parts[0]] + parts[1..];
      CoversCons(parts[0], parts[1..], x);
    }
  }

  /** Insertion succeeds exactly when every list on the way fits, and then leaves the uncapped list. */
  lemma {:induction false} InsertAllIff(l: seq<Seg>, cap: int, parts: seq<Seg>)
    requires |l| <= cap
    ensures InsertAll(l, cap, parts).0 <==> PrefixesFit(l, cap, parts)
    ensures InsertAll(l, cap, parts).0 ==> InsertAll(l, cap, parts).1 == Free(l, parts)
    decreases |parts|
  {
    hide Insert;
    if parts == [] {
      assert parts[..0] == [];
    } else {
      var l' := Insert(l, parts[0].s, parts[0].e);
      forall k | 0 < k <= |parts|
        ensures Free(l, parts[..k]) == Free(l', parts[1..][..k - 1])
      {
        assert parts[..k][1..] == parts[1..][..k - 1];
      }
      assert Free(l, parts[..1]) == l' by {
        assert parts[1..][..0] == [];
      }
      if |l'| <= cap {
        InsertAllIff(l', cap, parts[1..]);
        assert parts[..0] == [];
        assert forall k :: 0 <= k <= |parts[1..]| ==> Free(l', parts[1..][..k]) == Free(l, parts[..k + 1]);
      }
    }
  }

  /** One slot for every straight segment is always enough. */
  lemma {:induction false} InsertAllFits(l: seq<Seg>, cap: int, parts: seq<Seg>)
    requires Canonical(l) && PartsOk(parts)
    requires |l| + |parts| <= cap
    ensures InsertAll(l, cap, parts).0
    decreases |parts|
  {
    if parts != [] {
      InsertIsCanonical(l, parts[0].s, parts[0].e);
      InsertAllFits(Insert(l, parts[0].s, parts[0].e), cap, parts[1..]);
    }
  }

  /** Cutting a ring segment keeps its points. */
  lemma PartsCover(r: RingSeg, size: int, x: int)
    requires RingSegOk(r, size)
    ensures PartsOk(Parts(r, size))
    ensures Covers(Parts(r, size), x) <==> OnRing(r, size, x)
  {
    var p := Parts(r, size);
    if OnRing(r, size, x) {
      var k :| 0 <= k < r.n && RingPoint(r, size, k) == x;
      RingPosition(r, size, k);
      assert p[0].s <= x < p[0].e || (|p| == 2 && p[1].s <= x < p[1].e);
    }
    if Covers(p, x) {
      var k := if r.s <= x < r.s + r.n then x - r.s else x - r.s + size;
      RingPosition(r, size, k);
      assert RingPoint(r, size, k) == x;
    }
  }

  lemma RingPosition(r: RingSeg, size: int, k: int)
    requires RingSegOk(r, size) && 0 <= k < r.n
    ensures RingPoint(r, size, k) == if r.s + k < size then r.s + k else r.s + k - size
  {
    var t := r.s + k;
    if t < size {
      DivModUnique(t, size, 0, t);
    } else {
      DivModUnique(t, size, 1, t - size);
    }
  }

  lemma {:induction false} AllPartsCover(rs: seq<RingSeg>, size: int, x: int)
    requires size > 0 && forall i :: 0 <= i < |rs| ==> RingSegOk(rs[i], size)
    ensures PartsOk(AllParts(rs, size))
    ensures Covers(AllParts(rs, size), x) <==> exists i :: 0 <= i < |rs| && OnRing(rs[i], size, x)
  {
    if rs != [] {
      var p, q := Parts(rs[0], size), AllParts(rs[1..], size);
      PartsCover(rs[0], size, x);
      AllPartsCover(rs[1..], size, x);
      CoversAppend(p, q, x);
      if i :| 0 <= i < |rs| && OnRing(rs[i], size, x) {
        if i > 0 {
          assert rs[1..][i - 1] == rs[i];
        }
      }
      if i :| 0 <= i < |rs[1..]| && OnRing(rs[1..][i], size, x) {
        assert rs[i + 1] == rs[1..][i];
      }
    }
  }

  lemma CoversAppend(p: seq<Seg>, q: seq<Seg>, x: int)
    ensures Covers(p + q, x) <==> Covers(p, x) || Covers(q, x)
  {
    var l := p + q;
    if i :| 0 <= i < |p| && p[i].s <= x < p[i].e {
      assert l[i] == p[i];
    }
    if i :| 0 <= i < |q| && q[i].s <= x < q[i].e {
      assert l[|p| + i] == q[i];
    }
    if i :| 0 <= i < |l| && l[i].s <= x < l[i].e {
      assert if i < |p| then p[i] == l[i] else q[i - |p|] == l[i];
    }
  }

  /** st_int_seg_union: the parts in order, stopping at the first overflow with what was merged so far. */
  method RingUnion(segs: array<Seg>, cap: int, n: int, rs: seq<RingSeg>, size: int) returns (ok: bool, n': int)
    requires 0 <= n <= cap <= segs.Length && Canonical(segs[..n])
    requires size > 0 && forall i :: 0 <= i < |rs| ==> RingSegOk(rs[i], size) && rs[i].s + rs[i].n <= INT32_MAX
    modifies segs
    ensures 0 <= n' <= cap
    ensures (ok, segs[..n']) == InsertAll(old(segs[..n]), cap, AllParts(rs, size))
    ensures ok <==> PrefixesFit(old(segs[..n]), cap, AllParts(rs, size))
    ensures ok ==> segs[..n'] == Free(old(segs[..n]), AllParts(rs, size))
  {
    hide Canonical, Insert, PrefixesFit;
    ghost var l := segs[..n];
    InsertAllIff(l, cap, AllParts(rs, size));
    n' := n;
    for i := 0 to |rs|
      invariant 0 <= n' <= cap && Canonical(segs[..n'])
      invariant InsertAll(l, cap, AllParts(rs, size)) == InsertAll(segs[..n'], cap, AllParts(rs[i..], size))
    {
      ghost var before, rest := segs[..n'], AllParts(rs[i + 1..], size);
      assert rs[i..][0] == rs[i] && rs[i..][1..] == rs[i + 1..];
      PartsCover(rs[i], size, 0);
      InsertAllAppend(before, cap, Parts(rs[i], size), rest);
      InsertAllCanonical(before, cap, Parts(rs[i], size));
      ok, n' := RingInsert(segs, cap, n', rs[i], size);
      if !ok {
        return;
      }
    }
    ok := true;
  }

  /** One round: one or two insertions. */
  method RingInsert(segs: array<Seg>, cap: int, n: int, r: RingSeg, size: int) returns (ok: bool, n': int)
    requires 0 <= n <= cap <= segs.Length && Canonical(segs[..n]) && RingSegOk(r, size)
    modifies segs
    ensures 0 <= n' <= cap
    ensures (ok, segs[..n']) == InsertAll(old(segs[..n]), cap, Parts(r, size))
  {
    hide Canonical, Insert;
    ghost var l := segs[..n];
    if r.s + r.n > size {
      InsertIsCanonical(l, r.s, size);
      InsertTwo(l, cap, Seg(r.s, size), Seg(0, r.n - (size - r.s)));
      ok, n' := UnionInsert(segs, cap, n, r.s, size);
      if !ok {
        return;
      }
      ok, n' := UnionInsert(segs, cap, n', 0, r.n - (size - r.s));
    } else {
      InsertOne(l, cap, Seg(r.s, r.s + r.n));
      ok, n' := UnionInsert(segs, cap, n, r.s, r.s + r.n);
    }
  }

  lemma InsertOne(l: seq<Seg>, cap: int, p: Seg)
    ensures InsertAll(l, cap, [p]) ==
            var l1 := Insert(l, p.s, p.e);
            if |l1| <= cap then (true, l1) else (false, l)
  {
  }

  lemma InsertTwo(l: seq<Seg>, cap: int, p: Seg, q: Seg)
    ensures InsertAll(l, cap, [p, q]) ==
            var l1 := Insert(l, p.s, p.e);
            var l2 := Insert(l1, q.s, q.e);
            if |l1| > cap then (false, l) else if |l2| > cap then (false, l1) else (true, l2)
  {
    assert [p, q][1..] == [q];
    InsertOne(Insert(l, p.s, p.e), cap, q);
  }
}
