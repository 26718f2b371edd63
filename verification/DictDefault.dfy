/** What the default hash makes of keys (i, 0) that are smaller than the table: a head of its own for each. */
module DictDefault {
  import opened Util
  import opened Masks
  import opened DictModel
  import opened DictLinks
  import opened DictVisit
  import opened Dict

  /** Entries under different keys (i, 0) with 0 < i < n. */
  ghost predicate SmallKeys(es: seq<Entry>, n: nat) {
    && (forall i :: 0 <= i < |es| ==> 0 < es[i].key.sign1 < n && es[i].key.sign2 == 0)
    && forall i, j :: 0 <= i < j < |es| ==> es[i].key != es[j].key
  }

  lemma SmallHash(mask: nat, k: Key, bits: nat)
    requires mask + 1 == Pow2(bits) && k.sign2 == 0 && k.sign1 <= mask
    ensures HashOf(None, mask, k) == k.sign1
  {
    AndIsRemainder(k.sign1, mask, bits);
    DivModUnique(k.sign1, mask + 1, 0, k.sign1);
  }

  /** Every entry alone in the bucket of its number, and nothing else. */
  ghost predicate Spread(bs: seq<Bucket>, es: seq<Entry>) {
    forall h :: 0 <= h < |bs| ==> Alone(bs[h], es, h)
  }

  ghost predicate Alone(b: Bucket, es: seq<Entry>, h: nat) {
    |b| <= 1 && forall e :: e in b <==> e in es && e.key.sign1 == h
  }

  lemma SpreadMore(bs: seq<Bucket>, es: seq<Entry>, e: Entry, n: nat)
    requires Spread(bs, es) && SmallKeys(es + [e], n) && e.key.sign1 < |bs|
    ensures bs[e.key.sign1] == [] && Spread(bs[e.key.sign1 := Insert([], e)], es + [e])
  {
    var more := es + [e];
    assert more[|es|] == e;
    forall f | f in es
      ensures f.key != e.key && f.key.sign2 == 0
    {
      var i :| 0 <= i < |es| && es[i] == f;
      assert more[i] == f;
    }
    assert Alone(bs[e.key.sign1], es, e.key.sign1);
    EmptyOrFirst(bs[e.key.sign1]);
    var bs' := bs[e.key.sign1 := Insert([], e)];
    forall h | 0 <= h < |bs'|
      ensures Alone(bs'[h], more, h)
    {
      assert Alone(bs[h], es, h);
      assert h == e.key.sign1 ==> bs'[h] == [e];
    }
  }

  lemma EmptyOrFirst(b: Bucket)
    ensures b == [] || b[0] in b
  {
  }

  ghost predicate AscendingFrom(es: seq<Entry>, k: nat) {
    && (forall i :: 0 <= i < |es| ==> es[i].key.sign1 >= k)
    && forall i, j :: 0 <= i < j < |es| ==> es[i].key.sign1 < es[j].key.sign1
  }

  /** From head `k` on, the walk meets the entries with numbers from `k` on, in ascending order. */
  lemma {:induction false} WalkAscends(bs: seq<Bucket>, es: seq<Entry>, k: nat)
    requires Spread(bs, es) && k <= |bs|
    ensures var shown := Entries(AllItems(bs, EveryHead(|bs|)[k..]));
            AscendingFrom(shown, k) && forall e :: e in shown <==> e in es && k <= e.key.sign1 < |bs|
    decreases |bs| - k
  {
    var list := EveryHead(|bs|);
    if k < |bs| {
      WalkAscends(bs, es, k + 1);
      AllItemsNext(bs, list, k);
      hide AllItems, Items;
      var here, later := Items(BucketAt(bs, k)), AllItems(bs, list[k + 1..]);
      EntriesJoin(here, later);
      EntriesOfBucket(bs[k]);
      assert Alone(bs[k], es, k);
      FirstThenAscending(bs[k], Entries(later), k);
    } else {
      assert list[k..] == [];
    }
  }

  lemma EntriesJoin(x: seq<Item>, y: seq<Item>)
    ensures Entries(x + y) == Entries(x) + Entries(y)
  {
  }

  lemma EntriesOfBucket(b: Bucket)
    ensures Entries(Items(b)) == b
  {
  }

  lemma FirstThenAscending(b: Bucket, later: seq<Entry>, k: nat)
    requires |b| <= 1 && AscendingFrom(later, k + 1) && forall e :: e in b ==> e.key.sign1 == k
    ensures AscendingFrom(b + later, k)
  {
    assert b != [] ==> b[0] in b;
  }

  /** A walk over buckets of one entry at the most, with the asserts on and no callback, shows everything. */
  lemma AllShown(bs: seq<Bucket>, es: seq<Entry>)
    requires Spread(bs, es) && forall i :: 0 <= i < |es| ==> es[i].key.sign1 < |bs|
    ensures !AnyTrips(bs) && AcceptsAll(_ => true)
    ensures var (r, shown) := Visit(AllItems(bs, EveryHead(|bs|)), true, _ => true);
            r == Completed && AscendingFrom(shown, 0) && forall e :: e in shown <==> e in es
  {
    var list := EveryHead(|bs|);
    var items := AllItems(bs, list);
    forall h | 0 <= h < |bs|
      ensures |bs[h]| <= 1 && h in list
    {
      assert Alone(bs[h], es, h) && list[h] == h;
    }
    VisitAccepting(bs, list, true, _ => true);
    VisitMeans(items, true, _ => true);
    WalkAscends(bs, es, 0);
    assert list[0..] == list;
    assert Entries(items)[..|items|] == Entries(items);
  }

  /** A small key is its own hash value. */
  ghost predicate NumbersHash(d: Dictionary)
    reads d
  {
    forall k: Key :: k.sign2 == 0 && k.sign1 < d.heads.Length ==> d.hash(k) == k.sign1
  }

  /** Adding one more entry takes the empty head of its number. */
  method AddSmall(d: Dictionary, e: Entry, ghost es: seq<Entry>) returns (ok: bool)
    requires d.Valid() && NumbersHash(d) && Spread(d.buckets, es) && SmallKeys(es + [e], d.heads.Length)
    modifies d, d.heads, d.pool, d.clearNodes
    ensures d.Valid() && ok && d.cur == old(d.cur) && Spread(d.buckets, es + [e])
    ensures d.SameParts(old(d.heads), d.pool, old(d.clearNodes), old(d.reallocNum))
    ensures d.pool == old(d.pool) || fresh(d.pool)
  {
    hide StateOk, Insert, Spread;
    assert (es + [e])[|es|] == e;
    SpreadMore(d.buckets, es, e, d.heads.Length);
    NothingThere(SameKey(e.key));
    KeyIsThere(e.key);
    var overrun;
    ok, overrun := d.Add(e.key, e.val, SameKey(e.key));
  }

  lemma KeyIsThere(k: Key)
    ensures k.sign1 > 0 ==> k != NO_KEY
  {
  }

  /** All of them, into an empty dictionary. */
  method Fill(d: Dictionary, es: seq<Entry>)
    requires d.Valid() && NumbersHash(d) && d.buckets == NoBuckets(d.heads.Length) && SmallKeys(es, d.heads.Length)
    modifies d, d.heads, d.pool, d.clearNodes
    ensures d.Valid() && d.cur == old(d.cur) && Spread(d.buckets, es)
    ensures d.SameParts(old(d.heads), d.pool, old(d.clearNodes), old(d.reallocNum))
    ensures d.pool == old(d.pool) || fresh(d.pool)
  {
    hide StateOk, Spread, SmallKeys;
    NothingSpread(d.heads.Length);
    assert es[..0] == [];
    for i := 0 to |es|
      invariant d.Valid() && NumbersHash(d) && d.cur == old(d.cur) && Spread(d.buckets, es[..i])
      invariant d.SameParts(old(d.heads), d.pool, old(d.clearNodes), old(d.reallocNum))
      invariant d.pool == old(d.pool) || fresh(d.pool)
    {
      assert es[..i] + [es[i]] == es[..i + 1];
      SmallSoFar(es, i + 1, d.heads.Length);
      var ok := AddSmall(d, es[i], es[..i]);
    }
    assert es[..|es|] == es;
  }

  /**
   * A dictionary with the default hash, filled with such entries: no overflow node is taken, traverse shows the
   * entries in ascending order, and a clear with the asserts on completes.
   */
  method FillAndClear(hashNum: uint32, realloc: uint32, es: seq<Entry>)
    returns (d: Dictionary, taken: nat, walked: Outcome, shown: seq<Entry>, cleared: Outcome)
    requires hashNum != BAD && realloc != BAD
    requires SmallKeys(es, HighestBitMask(hashNum as bv32, false) as nat + 1)
    ensures d.heads.Length == HighestBitMask(hashNum as bv32, false) as nat + 1 && taken == 0
    ensures walked == Completed && AscendingFrom(shown, 0) && forall e :: e in shown <==> e in es
    ensures cleared == Completed && d.Valid() && d.buckets == NoBuckets(d.heads.Length)
  {
    hide StateOk, HighestBitMask, Spread, SmallKeys, Visit, AllItems, AscendingFrom;
    d := Create(hashNum, realloc, None, true);
    HashIsNumber(hashNum, d);
    Fill(d, es);
    taken := d.cur;
    SmallSoFar(es, |es|, d.heads.Length);
    AllShown(d.buckets, es);
    walked, shown := d.Traverse(true, _ => true);
    var visited;
    cleared, visited := d.Clear(true, _ => true);
  }

  lemma NothingSpread(n: nat)
    ensures Spread(NoBuckets(n), [])
  {
  }

  lemma NothingThere(eq: Entry -> bool)
    ensures FirstMatch([], eq) == None
  {
  }

  lemma SmallSoFar(es: seq<Entry>, i: nat, n: nat)
    requires SmallKeys(es, n) && i <= |es|
    ensures SmallKeys(es[..i], n)
    ensures forall j :: 0 <= j < i ==> 0 < es[j].key.sign1 < n && es[j].key.sign2 == 0
  {
  }

  lemma HashIsNumber(hashNum: uint32, d: Dictionary)
    requires d.heads.Length == HighestBitMask(hashNum as bv32, false) as nat + 1
    requires HashFrom(d.hash, None, d.heads.Length)
    ensures NumbersHash(d)
  {
    hide HighestBitMask, HashOf;
    HighestBitMaskOnes(hashNum as bv32);
    var bits := MaskBits(HighestBitMask(hashNum as bv32, false));
    forall k: Key | k.sign2 == 0 && k.sign1 < d.heads.Length
      ensures d.hash(k) == k.sign1
    {
      SmallHash(d.heads.Length - 1, k, bits);
    }
  }
}
