/** Lists of half-open segments: canonical form, covered points, and a reference insertion. */
module SegmentLists {
  datatype Seg = Seg(s: int, e: int)

  ghost predicate Covers(l: seq<Seg>, x: int) {
    exists i :: 0 <= i < |l| && l[i].s <= x < l[i].e
  }

  /** Non-empty segments in order, with a gap between any two. */
  ghost predicate Canonical(l: seq<Seg>) {
    && (forall i :: 0 <= i < |l| ==> l[i].s < l[i].e)
    && (forall i, j :: 0 <= i < j < |l| ==> l[i].e < l[j].s)
  }

  function Min(x: int, y: int): int {
    if x < y then x else y
  }

  function Max(x: int, y: int): int {
    if x < y then y else x
  }

  /** The textbook insertion: skip, stop, or absorb the next segment and go on. */
  function Insert(l: seq<Seg>, s: int, e: int): seq<Seg>
    decreases |l|
  {
    if l == [] then [Seg(s, e)]
    else if e < l[0].s then [Seg(s, e)] + l
    else if l[0].e < s then [l[0]] + Insert(l[1..], s, e)
    else Insert(l[1..], Min(s, l[0].s), Max(e, l[0].e))
  }

  lemma CoversCons(h: Seg, t: seq<Seg>, x: int)
    ensures Covers([h] + t, x) <==> h.s <= x < h.e || Covers(t, x)
  {
    var l := [h] + t;
    if Covers(t, x) {
      var i :| 0 <= i < |t| && t[i].s <= x < t[i].e;
      assert l[i + 1] == t[i];
    }
    if Covers(l, x) {
      var i :| 0 <= i < |l| && l[i].s <= x < l[i].e;
      if i > 0 {
        assert t[i - 1] == l[i];
      }
    }
    if h.s <= x < h.e {
      assert l[0] == h;
    }
  }

  lemma {:induction false} InsertCovers(l: seq<Seg>, s: int, e: int, x: int)
    requires Canonical(l) && s < e
    ensures Covers(Insert(l, s, e), x) <==> Covers(l, x) || s <= x < e
    decreases |l|
  {
    if l == [] {
      CoversCons(Seg(s, e), [], x);
      assert [Seg(s, e)] + [] == [Seg(s, e)];
    } else {
      assert l == [l[0]] + l[1..];
      CoversCons(l[0], l[1..], x);
      if e < l[0].s {
        CoversCons(Seg(s, e), l, x);
      } else if l[0].e < s {
        InsertCovers(l[1..], s, e, x);
        CoversCons(l[0], Insert(l[1..], s, e), x);
      } else {
        InsertCovers(l[1..], Min(s, l[0].s), Max(e, l[0].e), x);
      }
    }
  }

  /** `lo` stays a lower bound with a gap: what the head of a canonical list needs from its tail. */
  lemma {:induction false} InsertCanonical(l: seq<Seg>, s: int, e: int, lo: int)
    requires Canonical(l) && s < e && lo < s
    requires forall i :: 0 <= i < |l| ==> lo < l[i].s
    ensures Canonical(Insert(l, s, e)) && |Insert(l, s, e)| <= |l| + 1
    ensures forall i :: 0 <= i < |Insert(l, s, e)| ==> lo < Insert(l, s, e)[i].s
    decreases |l|
  {
    if l != [] {
      if e < l[0].s {
      } else if l[0].e < s {
        InsertCanonical(l[1..], s, e, l[0].e);
      } else {
        InsertCanonical(l[1..], Min(s, l[0].s), Max(e, l[0].e), lo);
      }
    }
  }

  /** A point set has one canonical list. */
  lemma {:induction false} CanonicalUnique(p: seq<Seg>, q: seq<Seg>)
    requires Canonical(p) && Canonical(q)
    requires forall x :: Covers(p, x) <==> Covers(q, x)
    ensures p == q
    decreases |p|
  {
    if p == [] || q == [] {
      if p != [] {
        assert Covers(p, p[0].s);
      }
      if q != [] {
        assert Covers(q, q[0].s);
      }
    } else {
      SameHead(p, q);
      SameHead(q, p);
      forall x
        ensures Covers(p[1..], x) <==> Covers(q[1..], x)
      {
        TailCovers(p, x);
        TailCovers(q, x);
      }
      CanonicalUnique(p[1..], q[1..]);
      assert p == [p[0]] + p[1..] && q == [q[0]] + q[1..];
    }
  }

  lemma TailCovers(p: seq<Seg>, x: int)
    requires Canonical(p) && p != []
    ensures Covers(p[1..], x) <==> Covers(p, x) && !(p[0].s <= x < p[0].e)
  {
    assert p == [p[0]] + p[1..];
    CoversCons(p[0], p[1..], x);
  }

  lemma HeadCovers(p: seq<Seg>, x: int)
    requires p != []
    ensures p[0].s <= x < p[0].e ==> Covers(p, x)
  {
  }

  lemma SameHead(p: seq<Seg>, q: seq<Seg>)
    requires Canonical(p) && Canonical(q) && p != [] && q != []
    requires forall x :: Covers(p, x) <==> Covers(q, x)
    ensures q[0].s <= p[0].s
    ensures p[0].s == q[0].s ==> q[0].e <= p[0].e
  {
    assert p[0].s <= p[0].s < p[0].e;
    assert Covers(p, p[0].s);
    assert Covers(q, p[0].s);
    assert !Covers(p, p[0].e);
    HeadCovers(q, p[0].e);
  }

  // ---- The two shapes the in-place code produces ----

  /** A segment with a gap on both sides goes in between. */
  lemma InsertedBetween(l: seq<Seg>, s: int, e: int, i: int)
    requires Canonical(l) && s < e && 0 <= i <= |l|
    requires forall k :: 0 <= k < i ==> l[k].e < s
    requires i < |l| ==> e < l[i].s
    ensures Insert(l, s, e) == l[..i] + [Seg(s, e)] + l[i..]
  {
    var r := l[..i] + [Seg(s, e)] + l[i..];
    forall x
      ensures Covers(r, x) <==> Covers(l, x) || s <= x < e
    {
      CoversSplit(l, i, i, Seg(s, e), x);
    }
    EqualsInsert(l, s, e, r);
  }

  /** Segments [i, j) touch or overlap the new one and become one segment. */
  lemma MergedRange(l: seq<Seg>, s: int, e: int, i: int, j: int)
    requires Canonical(l) && s < e && 0 <= i < j <= |l|
    requires forall k :: 0 <= k < i ==> l[k].e < s
    requires s <= l[i].e && l[j - 1].s <= e
    requires j < |l| ==> e < l[j].s
    ensures Insert(l, s, e) == l[..i] + [Seg(Min(s, l[i].s), Max(e, l[j - 1].e))] + l[j..]
  {
    var m := Seg(Min(s, l[i].s), Max(e, l[j - 1].e));
    var r := l[..i] + [m] + l[j..];
    forall x
      ensures Covers(r, x) <==> Covers(l, x) || s <= x < e
    {
      CoversSplit(l, i, j, m, x);
      MergedPoints(l, s, e, i, j, x);
    }
    MergedCanonical(l, s, e, i, j);
    EqualsInsert(l, s, e, r);
  }

  lemma MergedCanonical(l: seq<Seg>, s: int, e: int, i: int, j: int)
    requires Canonical(l) && s < e && 0 <= i < j <= |l|
    requires forall k :: 0 <= k < i ==> l[k].e < s
    requires j < |l| ==> e < l[j].s
    ensures Canonical(l[..i] + [Seg(Min(s, l[i].s), Max(e, l[j - 1].e))] + l[j..])
  {
  }

  /** Which points the replaced part contributes. */
  lemma CoversSplit(l: seq<Seg>, i: int, j: int, m: Seg, x: int)
    requires 0 <= i <= j <= |l|
    ensures Covers(l[..i] + [m] + l[j..], x) <==>
            m.s <= x < m.e || exists k :: 0 <= k < |l| && !(i <= k < j) && l[k].s <= x < l[k].e
  {
    var r := l[..i] + [m] + l[j..];
    assert r[i] == m;
    if k :| 0 <= k < |l| && !(i <= k < j) && l[k].s <= x < l[k].e {
      assert r[if k < i then k else k - j + i + 1] == l[k];
    }
    if Covers(r, x) && !(m.s <= x < m.e) {
      var k' :| 0 <= k' < |r| && r[k'].s <= x < r[k'].e;
      assert r[k'] == l[if k' < i then k' else k' - i - 1 + j];
    }
  }

  lemma MergedPoints(l: seq<Seg>, s: int, e: int, i: int, j: int, x: int)
    requires Canonical(l) && s < e && 0 <= i < j <= |l|
    requires s <= l[i].e && l[j - 1].s <= e
    ensures Min(s, l[i].s) <= x < Max(e, l[j - 1].e) ==>
      s <= x < e || l[i].s <= x < l[i].e || l[j - 1].s <= x < l[j - 1].e
    ensures forall k :: i <= k < j && l[k].s <= x < l[k].e ==> Min(s, l[i].s) <= x < Max(e, l[j - 1].e)
  {
  }

  lemma EqualsInsert(l: seq<Seg>, s: int, e: int, r: seq<Seg>)
    requires Canonical(l) && s < e && Canonical(r)
    requires forall x :: Covers(r, x) <==> Covers(l, x) || s <= x < e
    ensures r == Insert(l, s, e)
  {
    InsertIsCanonical(l, s, e);
    forall x
      ensures Covers(r, x) <==> Covers(Insert(l, s, e), x)
    {
      InsertCovers(l, s, e, x);
    }
    CanonicalUnique(r, Insert(l, s, e));
  }

  lemma InsertIsCanonical(l: seq<Seg>, s: int, e: int)
    requires Canonical(l) && s < e
    ensures Canonical(Insert(l, s, e)) && |Insert(l, s, e)| <= |l| + 1
  {
    InsertCanonical(l, s, e, if l == [] then s - 1 else Min(s, l[0].s) - 1);
  }
}
