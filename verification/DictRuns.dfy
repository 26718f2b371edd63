/** Whole runs of a dictionary with the default equality, against a finite map. */
module DictRuns {
  import opened Util
  import opened DictModel
  import opened DictLinks
  import opened DictVisit
  import opened Dict
  import opened DictOrder

  /** What links buckets, clear list and nodes taken to a map and to the age of its keys. */
  ghost predicate StandsFor(bs: seq<Bucket>, hash: Key -> nat, list: Option<seq<nat>>, cur: nat, s: Live) {
    && Represents(bs, hash, s.m)
    && Ordered(bs, hash, s.order)
    && SameKeys(s.m, s.order)
    && cur == s.used
    && (list.Some? ==> list.value == HeadsOf(s.order, hash))
  }

  ghost predicate Stands(d: Dictionary, s: Live)
    requires d.Valid()
    reads d, d.heads, d.pool, d.clearNodes
  {
    StandsFor(d.buckets, d.hash, d.ClearList(), d.cur, s)
  }

  /** The dictionary's side of a setup. */
  ghost predicate SetUpAs(d: Dictionary, e: Setup)
    reads d
  {
    && d.pool.Length <= BAD
    && e.hash == d.hash && e.heads == d.heads.Length
    && e.clearable == (d.clearNodes != null)
    && e.limit == PoolLimit(d.pool.Length, d.reallocNum)
  }

  // ---- One call ----

  /** What a seek for the key, its bucket and its class say about one another. */
  lemma KeyFacts(bs: seq<Bucket>, hash: Key -> nat, list: Option<seq<nat>>, cur: nat, s: Live, k: Key)
    requires StandsFor(bs, hash, list, cur, s)
    ensures hash(k) < |bs| && NO_KEY !in s.m
    ensures FirstMatch(bs[hash(k)], SameKey(k)) == if k in s.m then Some(s.m[k]) else None
    ensures k in s.m <==> k in s.order
    ensures bs[hash(k)] != [] <==> Class(s.order, hash, hash(k)) != []
    ensures bs[hash(k)] != [] <==> hash(k) in HeadsOf(s.order, hash)
  {
    hide Class, HeadsOf;
    assert Agrees(bs, hash, s.m, k);
    assert InOrder(bs[hash(k)], Class(s.order, hash, hash(k)));
    HeadsMember(s.order, hash, hash(k));
  }

  ghost predicate Puts(op: Op, k: Key, v: uint32) {
    op == Op.Add(k, v) || op == Op.Update(k, v)
  }

  /** A new key. */
  lemma PutStands(bs: seq<Bucket>, list: Option<seq<nat>>, cur: nat, e: Setup, s: Live, op: Op, k: Key, v: uint32)
    requires StandsFor(bs, e.hash, list, cur, s) && Puts(op, k, v) && k != NO_KEY && k !in s.m
    ensures e.hash(k) < |bs|
    ensures var h := e.hash(k);
            var crowded := bs[h] != [];
            StandsFor(bs[h := Insert(bs[h], Entry(k, v))], e.hash, if crowded then list else Noted(list, h),
                      cur + (if crowded then 1 else 0), StepLive(e, s, op))
  {
    hide Represents, Ordered, HeadsOf, Class, Insert;
    KeyFacts(bs, e.hash, list, cur, s, k);
    HeadsSnoc(s.order, e.hash, k);
    PutRepresents(bs, e.hash, s.m, k, v);
    RepresentsHash(bs, e.hash, s.m);
    PutOrdered(bs, e.hash, s.order, k, v);
  }

  lemma RepresentsHash(bs: seq<Bucket>, hash: Key -> nat, m: map<Key, uint32>)
    requires Represents(bs, hash, m)
    ensures HashOk(hash, |bs|)
  {
  }

  /** An update of a key that is there. */
  lemma ChangeStands(bs: seq<Bucket>, list: Option<seq<nat>>, cur: nat, e: Setup, s: Live, k: Key, v: uint32)
    requires StandsFor(bs, e.hash, list, cur, s) && k in s.m
    ensures e.hash(k) < |bs|
    ensures StandsFor(bs[e.hash(k) := UpdateFirst(bs[e.hash(k)], SameKey(k), x => e.upd(x, v).0)], e.hash, list, cur,
                      StepLive(e, s, Op.Update(k, v)))
  {
    hide Represents, Ordered, HeadsOf, Class, UpdateFirst;
    KeyFacts(bs, e.hash, list, cur, s, k);
    ChangeRepresents(bs, e.hash, s.m, k, x => e.upd(x, v).0);
    RepresentsHash(bs, e.hash, s.m);
    ChangeOrdered(bs, e.hash, s.order, k, x => e.upd(x, v).0);
  }

  /** What a clear shows, read off the dictionary and read off the live keys. */
  lemma ShowsSame(bs: seq<Bucket>, list: seq<nat>, cur: nat, e: Setup, s: Live, trav: Entry -> bool)
    requires StandsFor(bs, e.hash, Some(list), cur, s) && |bs| == e.heads
    ensures Visit(AllItems(bs, list), e.checked, trav) == Show(s.m, s.order, e.hash, e.heads, e.checked, trav)
  {
    hide Represents, Ordered, HeadsOf, LiveBuckets, AllItems, Visit;
    BucketsAre(bs, e.hash, s.m, s.order);
  }

  /** A clear that completes. */
  lemma ClearStands(n: nat, cur: nat, e: Setup, s: Live, trav: Entry -> bool)
    requires cur == s.used && e.clearable && HashOk(e.hash, n) && !Rejects(s.m, trav)
    ensures StandsFor(NoBuckets(n), e.hash, Some([]), cur, StepLive(e, s, Op.Clear(trav)))
  {
    StartRepresents(n, e.hash);
    NoneOrdered(n, e.hash);
  }

  lemma LimitKept(d: Dictionary)
    requires d.Valid()
    ensures d.cur <= d.pool.Length <= BAD
    ensures d.pool.Length + d.reallocNum <= BAD ==>
              PoolLimit(d.pool.Length + d.reallocNum, d.reallocNum) == PoolLimit(d.pool.Length, d.reallocNum)
  {
    hide StateOk;
    StateBounds(d.heads[..], d.pool[..], d.cur, d.num, d.ClearList(), d.hash, d.chains, d.buckets);
    if d.pool.Length + d.reallocNum <= BAD {
      LimitStays(d.pool.Length, d.reallocNum);
    }
  }

  method ApplyAdd(d: Dictionary, k: Key, v: uint32, e: Setup, ghost s: Live) returns (r: Resp, cut: Option<Cut>)
    requires d.Valid() && Stands(d, s) && SetUpAs(d, e)
    modifies d, d.heads, d.pool, d.clearNodes
    ensures cut == CutOf(e, s, Op.Add(k, v))
    ensures d.SameParts(old(d.heads), d.pool, old(d.clearNodes), old(d.reallocNum))
    ensures d.pool == old(d.pool) || fresh(d.pool)
    ensures cut.None? ==> d.Valid() && Stands(d, StepLive(e, s, Op.Add(k, v))) && SetUpAs(d, e)
    ensures cut.None? ==> r == StepMap(s.m, e.upd, e.clearable, Op.Add(k, v)).1
  {
    hide StateOk, StandsFor, HeadsOf, Class, FirstMatch, Insert, PoolLimit;
    LimitKept(d);
    KeyFacts(d.buckets, d.hash, d.ClearList(), d.cur, s, k);
    UsesNodes(d.buckets, d.hash, d.ClearList(), d.cur, s);
    if k != NO_KEY && k !in s.m {
      PutStands(d.buckets, d.ClearList(), d.cur, e, s, Op.Add(k, v), k, v);
    }
    var ok, overrun := d.Add(k, v, SameKey(k));
    cut := if overrun then Some(ByOverrun) else None;
    r := if ok then Done else Failed;
  }

  lemma UsesNodes(bs: seq<Bucket>, hash: Key -> nat, list: Option<seq<nat>>, cur: nat, s: Live)
    requires StandsFor(bs, hash, list, cur, s)
    ensures cur == s.used
  {
  }

  method ApplyUpdate(d: Dictionary, k: Key, v: uint32, e: Setup, ghost s: Live) returns (r: Resp, cut: Option<Cut>)
    requires d.Valid() && Stands(d, s) && SetUpAs(d, e)
    modifies d, d.heads, d.pool, d.clearNodes
    ensures cut == CutOf(e, s, Op.Update(k, v))
    ensures d.SameParts(old(d.heads), d.pool, old(d.clearNodes), old(d.reallocNum))
    ensures d.pool == old(d.pool) || fresh(d.pool)
    ensures cut.None? ==> d.Valid() && Stands(d, StepLive(e, s, Op.Update(k, v))) && SetUpAs(d, e)
    ensures cut.None? ==> r == StepMap(s.m, e.upd, e.clearable, Op.Update(k, v)).1
  {
    hide StateOk, StandsFor, HeadsOf, Class, FirstMatch, Insert, UpdateFirst, PoolLimit;
    LimitKept(d);
    KeyFacts(d.buckets, d.hash, d.ClearList(), d.cur, s, k);
    UsesNodes(d.buckets, d.hash, d.ClearList(), d.cur, s);
    if k != NO_KEY {
      if k in s.m {
        ChangeStands(d.buckets, d.ClearList(), d.cur, e, s, k, v);
      } else {
        PutStands(d.buckets, d.ClearList(), d.cur, e, s, Op.Update(k, v), k, v);
      }
    }
    var ok, overrun := d.Update(k, v, SameKey(k), e.upd);
    cut := if overrun then Some(ByOverrun) else None;
    r := if ok then Done else Failed;
  }

  method ApplyClear(d: Dictionary, trav: Entry -> bool, e: Setup, ghost s: Live) returns (r: Resp, cut: Option<Cut>)
    requires d.Valid() && Stands(d, s) && SetUpAs(d, e)
    modifies d, d.heads, d.pool, d.clearNodes
    ensures cut == CutOf(e, s, Op.Clear(trav))
    ensures d.SameParts(old(d.heads), old(d.pool), old(d.clearNodes), old(d.reallocNum))
    ensures cut.None? ==> d.Valid() && Stands(d, StepLive(e, s, Op.Clear(trav))) && SetUpAs(d, e)
    ensures cut.None? ==> r == StepMap(s.m, e.upd, e.clearable, Op.Clear(trav)).1
  {
    hide StateOk, StandsFor, HeadsOf, Show, Visit, AllItems, Rejects, AnyTrips, AcceptsAll;
    ghost var n := |d.buckets|;
    StandsFacts(d.buckets, d.hash, d.ClearList(), d.cur, s);
    if d.clearNodes != null {
      ShowsSame(d.buckets, d.ClearList().value, d.cur, e, s, trav);
      ShowMeans(s.m, s.order, e.hash, e.heads, e.checked, trav);
      if !Rejects(s.m, trav) {
        ClearStands(n, d.cur, e, s, trav);
      }
    }
    var outcome, visited := d.Clear(e.checked, trav);
    cut := if outcome == Aborted then Some(ByAssert)
           else if outcome == Stopped && |visited| > 1 then Some(ByCallback) else None;
    r := if outcome == Completed then Done else Failed;
  }

  lemma StandsFacts(bs: seq<Bucket>, hash: Key -> nat, list: Option<seq<nat>>, cur: nat, s: Live)
    requires StandsFor(bs, hash, list, cur, s)
    ensures cur == s.used && SameKeys(s.m, s.order) && HashOk(hash, |bs|)
  {
  }

  /** One call on the real dictionary: as on the map, or cut short exactly as the live keys say. */
  method Apply(d: Dictionary, op: Op, e: Setup, ghost s: Live) returns (r: Resp, cut: Option<Cut>)
    requires d.Valid() && Stands(d, s) && SetUpAs(d, e)
    modifies d, d.heads, d.pool, d.clearNodes
    ensures cut == CutOf(e, s, op)
    ensures d.SameParts(old(d.heads), d.pool, old(d.clearNodes), old(d.reallocNum))
    ensures d.pool == old(d.pool) || fresh(d.pool)
    ensures cut.None? ==> d.Valid() && Stands(d, StepLive(e, s, op)) && SetUpAs(d, e)
    ensures cut.None? ==> r == StepMap(s.m, e.upd, e.clearable, op).1
  {
    match op
    case Add(k, v) => r, cut := ApplyAdd(d, k, v, e, s);
    case Update(k, v) => r, cut := ApplyUpdate(d, k, v, e, s);
    case Clear(trav) => r, cut := ApplyClear(d, trav, e, s);
    case Seek(k) =>
      hide StateOk, StandsFor, FirstMatch;
      KeyFacts(d.buckets, d.hash, d.ClearList(), d.cur, s, k);
      assert StepLive(e, s, op) == s;
      var found := d.Seek(k, SameKey(k));
      cut := None;
      r := if found.Some? then Found(found.value) else Failed;
  }

  // ---- Runs ----

  /**
   * Every run answers as the map does and ends standing for the map; node_num is the number of keys. It is
   * cut short exactly at the first call that the live keys mark: a clear that trips an assert, a clear whose
   * callback leaves the dictionary broken, or a write past a pool that cannot grow.
   */
  method Execute(d: Dictionary, ops: seq<Op>, e: Setup, ghost s: Live) returns (rs: seq<Resp>, cut: Option<Cut>)
    requires d.Valid() && Stands(d, s) && SetUpAs(d, e)
    modifies d, d.heads, d.pool, d.clearNodes
    ensures d.SameParts(old(d.heads), d.pool, old(d.clearNodes), old(d.reallocNum))
    ensures CutShort(e, s, ops, |rs|, cut)
    ensures rs == RunMap(s.m, e.upd, e.clearable, ops[..|rs|]).1
    ensures cut.None? ==>
      && d.Valid() && Stands(d, RunLive(e, s, ops))
      && RunLive(e, s, ops).m == RunMap(s.m, e.upd, e.clearable, ops).0
      && d.num == |RunMap(s.m, e.upd, e.clearable, ops).0|
  {
    hide StateOk, StandsFor, RunMap, StepMap, StepLive, RunLive, CutOf;
    ghost var now := s;
    rs := [];
    RunStart(e, s);
    assert ops[..0] == [];
    for i := 0 to |ops|
      invariant d.SameParts(old(d.heads), d.pool, old(d.clearNodes), old(d.reallocNum))
      invariant d.Valid() && (d.pool == old(d.pool) || fresh(d.pool))
      invariant |rs| == i && now == RunLive(e, s, ops[..i]) && Stands(d, now) && SetUpAs(d, e)
      invariant (now.m, rs) == RunMap(s.m, e.upd, e.clearable, ops[..i])
      invariant NoCutBefore(e, s, ops, i)
    {
      UsedGrows(e, s, ops, i + 1);
      RunLiveNext(e, s, ops, i);
      RunMapSnoc(s.m, e.upd, e.clearable, ops[..i], ops[i]);
      assert ops[..i + 1] == ops[..i] + [ops[i]];
      var r;
      r, cut := Apply(d, ops[i], e, now);
      if cut.Some? {
        return;
      }
      StepLiveMap(e, now, ops[i]);
      now := StepLive(e, now, ops[i]);
      rs := rs + [r];
    }
    assert ops[..|ops|] == ops;
    CountsKeys(d, now);
    cut := None;
  }

  lemma StepLiveMap(e: Setup, s: Live, op: Op)
    ensures StepLive(e, s, op).m == StepMap(s.m, e.upd, e.clearable, op).0
  {
  }

  lemma RunStart(e: Setup, s: Live)
    ensures RunMap(s.m, e.upd, e.clearable, []) == (s.m, []) && RunLive(e, s, []) == s
  {
  }

  lemma CountsKeys(d: Dictionary, s: Live)
    requires d.Valid() && Stands(d, s)
    ensures d.num == |s.m|
  {
  }

  const NOTHING := Live(map[], [], 0)

  lemma StartStands(d: Dictionary)
    requires d.Valid() && d.buckets == NoBuckets(d.heads.Length) && d.cur == 0
    requires d.clearNodes != null ==> d.ClearList() == Some([])
    ensures Stands(d, NOTHING)
  {
    StartRepresents(d.heads.Length, d.hash);
    NoneOrdered(d.heads.Length, d.hash);
  }

  /**
   * A created dictionary starts as the empty map, so every run from creation is covered. With keys that
   * have no zero half no assert goes off; with callbacks that accept everything no clear breaks anything;
   * then it is cut short exactly when more keys come into occupied hash classes than the pool can give nodes.
   */
  method CreateAndExecute(hashNum: uint32, realloc: uint32, hashFunc: Option<(nat, Key) -> nat>, needClear: bool,
      upd: Updater, ops: seq<Op>, checked: bool)
    returns (d: Dictionary?, rs: seq<Resp>, cut: Option<Cut>, ghost e: Setup)
    requires hashFunc.Some? ==> forall m, k :: hashFunc.value(m, k) <= m
    ensures d == null <==> hashNum == BAD || realloc == BAD
    ensures d != null ==>
      && |rs| <= |ops| && rs == RunMap(map[], upd, needClear, ops[..|rs|]).1
      && e.upd == upd && e.clearable == needClear && e.checked == checked && e.hash == d.hash
      && e.heads == d.heads.Length && e.heads <= BAD && e.limit == PoolLimit(e.heads, realloc)
      && CutShort(e, NOTHING, ops, |rs|, cut)
      && ((forall i :: 0 <= i < |ops| ==> FullKey(ops[i])) ==> cut != Some(ByAssert))
      && ((forall i :: 0 <= i < |ops| ==> Harmless(ops[i])) ==> cut != Some(ByCallback))
      && (realloc > 0 && |ops| + realloc <= BAD ==> cut != Some(ByOverrun))
      && ((forall i :: 0 <= i < |ops| ==> FullKey(ops[i]) && Harmless(ops[i])) ==>
            (cut.Some? <==> RunLive(e, NOTHING, ops).used > e.limit))
    ensures d != null ==> HashFrom(e.hash, hashFunc, e.heads)
    ensures d != null && cut.None? ==>
      && d.Valid() && Stands(d, RunLive(e, NOTHING, ops))
      && RunLive(e, NOTHING, ops).m == RunMap(map[], upd, needClear, ops).0
      && d.num == |RunMap(map[], upd, needClear, ops).0|
  {
    hide StateOk, StandsFor, RunMap, HighestBitMask, FullKey, Harmless, RunLive, NoCutBefore, CutAt, PoolLimit,
      HashFrom;
    d := Create(hashNum, realloc, hashFunc, needClear);
    rs, cut := [], None;
    if d == null {
      e := Setup(k => 0, 0, upd, needClear, checked, 0);
      return;
    }
    StateBounds(d.heads[..], d.pool[..], d.cur, d.num, d.ClearList(), d.hash, d.chains, d.buckets);
    var limit := PoolLimit(d.pool.Length, realloc);
    var setup := Setup(d.hash, d.heads.Length, upd, needClear, checked, limit);
    e := setup;
    StartStands(d);
    UsedBounds(e, NOTHING, ops);
    rs, cut := Execute(d, ops, setup, NOTHING);
    WhenCut(e, NOTHING, ops, |rs|, cut);
  }

  // ---- Runs that are cut short ----

  /** `create(1, ...)` makes one head and one pool node; every key hashes to that head. */
  method CreateSmall(realloc: uint32) returns (d: Dictionary)
    requires realloc < BAD
    ensures fresh(d) && d.Valid() && fresh(d.heads) && fresh(d.pool) && d.clearNodes != null && fresh(d.clearNodes)
    ensures d.heads.Length == d.pool.Length == 1 && d.cur == 0 && d.reallocNum == realloc
    ensures d.buckets == NoBuckets(1) && d.ClearList() == Some([]) && Stands(d, NOTHING)
    ensures forall k :: d.hash(k) == 0
  {
    hide StateOk, StandsFor;
    assert HighestBitMask(1, false) == 0;
    OneAsBits();
    d := Create(1, realloc, None, true);
    StartStands(d);
  }

  lemma OneAsBits()
    ensures (1 as uint32) as bv32 == 1 && (0 as bv32) as nat == 0
  {
  }

  /** The same after adding two keys: the first lies in the head, the second in the only pool node. */
  method CreateTwo(realloc: uint32, x: Entry, y: Entry) returns (d: Dictionary)
    requires realloc < BAD && x.key != NO_KEY && y.key != NO_KEY && x.key != y.key
    ensures fresh(d) && d.Valid() && fresh(d.heads) && fresh(d.pool) && d.clearNodes != null && fresh(d.clearNodes)
    ensures d.heads.Length == d.clearNodes.Length == d.pool.Length == 1 && d.cur == 1 && d.reallocNum == realloc
    ensures d.buckets == [[x, y]] && d.ClearList() == Some([0])
    ensures forall k :: d.hash(k) == 0
  {
    hide StateOk, StandsFor, Insert;
    d := CreateSmall(realloc);
    FirstOfTwo(x, y);
    assert d.hash(x.key) == 0 && d.hash(y.key) == 0;
    var ok, overrun := d.Add(x.key, x.val, SameKey(x.key));
    assert d.buckets == [[x]] && d.ClearList() == Some([] + [0]) && [] + [0] == [0];
    ok, overrun := d.Add(y.key, y.val, SameKey(y.key));
  }

  lemma FirstOfTwo(x: Entry, y: Entry)
    requires x.key != y.key
    ensures NoBuckets(1)[0] == [] && FirstMatch([], SameKey(x.key)) == None
    ensures NoBuckets(1)[0 := Insert(NoBuckets(1)[0], x)] == [[x]]
    ensures FirstMatch([x], SameKey(y.key)) == None
    ensures [[x]][0 := Insert([[x]][0], y)] == [[x, y]]
  {
    assert Insert([x], y) == [x, y];
  }

  /** With growth step 0 three adds are enough: the second takes the only node, the third writes past the pool. */
  method OverrunExample() returns (overrun: bool)
    ensures overrun
  {
    hide StateOk;
    var d := CreateTwo(0, Entry(Key(1, 1), 7), Entry(Key(2, 2), 8));
    var key := Key(3, 3);
    FirstMatchAt(d.buckets[0], SameKey(key), 2);
    assert d.hash(key) == 0;
    var ok;
    ok, overrun := d.Add(key, 9, SameKey(key));
  }

  /** Two adds and a clear are enough for an assert: the second key, (2, 0), is an overflow node. */
  method AssertsCanTrip() returns (r: Outcome, visited: seq<Entry>)
    ensures r == Aborted && visited == [Entry(Key(1, 1), 7)]
  {
    hide StateOk;
    var x, y := Entry(Key(1, 1), 7), Entry(Key(2, 0), 8);
    var d := CreateTwo(1, x, y);
    TwoShown(x, y, true, _ => true);
    r, visited := d.Clear(true, _ => true);
  }

  lemma TwoShown(x: Entry, y: Entry, checked: bool, trav: Entry -> bool)
    ensures Visit(AllItems([[x, y]], [0]), checked, trav) ==
            if !trav(x) then (Stopped, [x])
            else if checked && HalfZero(y.key) then (Aborted, [x])
            else if !trav(y) then (Stopped, [x, y])
            else (Completed, [x, y])
  {
    var bs: seq<Bucket>, list: seq<nat> := [[x, y]], [0];
    assert list[1..] == [] && BucketAt(bs, list[0]) == [x, y];
    var items := [Item(x, false), Item(y, true)];
    assert AllItems(bs, list) == Items([x, y]) + AllItems(bs, []) == items;
    assert items[1..] == [Item(y, true)] && items[1..][1..] == [];
    assert Visit(items[1..][1..], checked, trav) == (Completed, []);
    assert Visit(items[1..], checked, trav) ==
      if checked && HalfZero(y.key) then (Aborted, [])
      else if !trav(y) then (Stopped, [y])
      else (Completed, [y] + []);
    assert !Trips(items[0]);
    assert [x] + [] == [x] && [y] + [] == [y] && [x] + [y] == [x, y];
    assert items[0].entry == x;
    assert Visit(items, checked, trav) ==
      if !trav(x) then (Stopped, [x])
      else (Visit(items[1..], checked, trav).0, [x] + Visit(items[1..], checked, trav).1);
  }

  /**
   * A clear whose callback rejects the second entry shown. The head is vacant now, but leads to a live node,
   * and is still on the clear list: a seek for the key of that node fails, an update of it succeeds, and
   * adding any key to the head writes past the clear list.
   */
  method BrokenClear(key: Key) returns (r: Outcome, found: Option<uint32>, updated: Option<bool>, overrun: bool)
    requires key != NO_KEY
    ensures r == Stopped && found == None && updated == Some(true) && overrun
  {
    hide StateOk, ChainReads, Zeroed, ListsOccupied;
    var x, y := Entry(Key(1, 1), 7), Entry(Key(2, 2), 8);
    var d := CreateTwo(1, x, y);
    StateReads(d.heads[..], d.pool[..], d.cur, d.num, d.ClearList(), d.hash, d.chains, d.buckets, 0);
    d.HeadVacant(0);
    ghost var head, ps, c := d.heads[..][0], d.pool[..], d.chains[0];
    ChainAt(ps, d.cur, c, [x, y], 0);
    ZeroedNone(ps, c);
    var trav := (e: Entry) => e.key == Key(1, 1);
    TwoShown(x, y, false, trav);
    var visited;
    r, visited := d.Clear(false, trav);
    assert d.pool[..] == ps && d.heads[..][0] == Node(0, 0, 0, head.next);
    StillReads(head, ps, d.cur, c, x, y);
    found, updated, overrun := CallsOnBroken(d, key, y, c);
  }

  /** The calls on a dictionary whose only head has been vacated, but leads to `y` and is on a full clear list. */
  method CallsOnBroken(d: Dictionary, key: Key, y: Entry, ghost c: Chain)
    returns (found: Option<uint32>, updated: Option<bool>, overrun: bool)
    requires d.heads != d.pool && d.heads.Length == 1 && d.cur <= d.pool.Length <= BAD && Vacant(d.heads[0])
    requires Reads(d.heads[0], d.pool[..], d.cur, c, [Entry(NO_KEY, 0), y])
    requires FirstMatch([Entry(NO_KEY, 0), y], SameKey(y.key)) == Some(y.val)
    requires d.clearNodes != null && d.clearNum == d.clearNodes.Length
    modifies d, d.heads, d.pool, d.clearNodes
    ensures found == None && updated == Some(true) && overrun
  {
    hide Reads;
    found := d.SeekAt(0, SameKey(y.key), [], []);
    ghost var b, i := [Entry(NO_KEY, 0), y], 0;
    updated, i := d.TryUpdate(0, 9, SameKey(y.key), (o, v) => (v, true), c, b);
    overrun := d.OccupyHead(0, Node(key.sign1, key.sign2, 0, BAD));
  }

  /** The vacated head still leads to the second entry. */
  lemma StillReads(head: Node, pool: seq<Node>, cur: nat, c: Chain, x: Entry, y: Entry)
    requires cur <= |pool| && Reads(head, pool, cur, c, [x, y]) && y.key != NO_KEY
    ensures Reads(Node(0, 0, 0, head.next), pool, cur, c, [Entry(NO_KEY, 0), y])
    ensures FirstMatch([Entry(NO_KEY, 0), y], SameKey(y.key)) == Some(y.val)
  {
    FirstMatchAt([Entry(NO_KEY, 0), y], SameKey(y.key), 1);
  }
}
