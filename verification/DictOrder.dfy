/** The order in which live keys came in, and what it says about clears and about the overflow pool. */
module DictOrder {
  import opened Util
  import opened DictModel
  import opened DictVisit

  /** The live keys, oldest first: an add or update of a new key appends, a clear that succeeds empties. */
  ghost function StepOrder(order: seq<Key>, m: map<Key, uint32>, clearable: bool, op: Op): seq<Key> {
    match op
    case Clear(trav) => if clearable && !Rejects(m, trav) then [] else order
    case Seek(_) => order
    case Add(k, _) => if k == NO_KEY || k in order then order else order + [k]
    case Update(k, _) => if k == NO_KEY || k in order then order else order + [k]
  }

  /** The keys with hash value `h`, oldest first. */
  function Class(order: seq<Key>, hash: Key -> nat, h: nat): seq<Key> {
    if order == [] then []
    else
      var last := order[|order| - 1];
      Class(order[..|order| - 1], hash, h) + if hash(last) == h then [last] else []
  }

  /** A bucket holds its class: the oldest key in the head slot, then the others from the newest back. */
  ghost predicate InOrder(b: Bucket, c: seq<Key>) {
    && |b| == |c|
    && (|c| > 0 ==> b[0].key == c[0])
    && forall i :: 1 <= i < |c| ==> b[i].key == c[|c| - i]
  }

  ghost predicate Ordered(bs: seq<Bucket>, hash: Key -> nat, order: seq<Key>) {
    forall h :: 0 <= h < |bs| ==> InOrder(bs[h], Class(order, hash, h))
  }

  ghost predicate SameKeys(m: map<Key, uint32>, order: seq<Key>) {
    forall k :: k in m <==> k in order
  }

  lemma ClassSnoc(order: seq<Key>, hash: Key -> nat, h: nat, k: Key)
    ensures Class(order + [k], hash, h) == Class(order, hash, h) + if hash(k) == h then [k] else []
  {
    assert (order + [k])[..|order|] == order;
  }

  lemma InsertInOrder(b: Bucket, c: seq<Key>, e: Entry)
    requires InOrder(b, c)
    ensures InOrder(Insert(b, e), c + [e.key])
  {
  }

  lemma {:induction false} UpdateKeepsKeys(b: Bucket, eq: Entry -> bool, f: uint32 -> uint32)
    ensures forall i :: 0 <= i < |b| ==> UpdateFirst(b, eq, f)[i].key == b[i].key
  {
    if b != [] && !eq(b[0]) {
      UpdateKeepsKeys(b[1..], eq, f);
    }
  }

  lemma PutOrdered(bs: seq<Bucket>, hash: Key -> nat, order: seq<Key>, k: Key, v: uint32)
    requires HashOk(hash, |bs|) && Ordered(bs, hash, order)
    ensures Ordered(bs[hash(k) := Insert(bs[hash(k)], Entry(k, v))], hash, order + [k])
  {
    hide Insert, InOrder;
    var bs' := bs[hash(k) := Insert(bs[hash(k)], Entry(k, v))];
    forall h | 0 <= h < |bs|
      ensures InOrder(bs'[h], Class(order + [k], hash, h))
    {
      ClassSnoc(order, hash, h, k);
      if h == hash(k) {
        InsertInOrder(bs[h], Class(order, hash, h), Entry(k, v));
      } else {
        assert Class(order, hash, h) + [] == Class(order, hash, h);
      }
    }
  }

  lemma ChangeOrdered(bs: seq<Bucket>, hash: Key -> nat, order: seq<Key>, k: Key, f: uint32 -> uint32)
    requires HashOk(hash, |bs|) && Ordered(bs, hash, order)
    ensures Ordered(bs[hash(k) := UpdateFirst(bs[hash(k)], SameKey(k), f)], hash, order)
  {
    UpdateKeepsKeys(bs[hash(k)], SameKey(k), f);
  }

  lemma NoneOrdered(n: nat, hash: Key -> nat)
    ensures Ordered(NoBuckets(n), hash, [])
  {
  }

  /** One operation keeps buckets, map and order together. */
  lemma StepOrdered(bs: seq<Bucket>, hash: Key -> nat, upd: Updater, clearable: bool, m: map<Key, uint32>,
      order: seq<Key>, op: Op)
    requires Represents(bs, hash, m) && Ordered(bs, hash, order) && SameKeys(m, order)
    ensures Ordered(StepBuckets(bs, hash, upd, clearable, op).0, hash, StepOrder(order, m, clearable, op))
    ensures SameKeys(StepMap(m, upd, clearable, op).0, StepOrder(order, m, clearable, op))
  {
    hide Ordered, Insert, UpdateFirst, NoBuckets, Rejects, RejectsIn;
    match op
    case Clear(trav) =>
      RejectsSame(bs, hash, m, trav);
      NoneOrdered(|bs|, hash);
    case Seek(_) =>
    case Add(k, v) =>
      assert Agrees(bs, hash, m, k);
      PutOrdered(bs, hash, order, k, v);
    case Update(k, v) =>
      assert Agrees(bs, hash, m, k);
      PutOrdered(bs, hash, order, k, v);
      ChangeOrdered(bs, hash, order, k, x => upd(x, v).0);
  }

  // ---- The clear list and what a clear shows ----

  /** The hash values of the live keys, in the order of their oldest keys: the clear list. */
  function HeadsOf(order: seq<Key>, hash: Key -> nat): seq<nat> {
    if order == [] then []
    else
      var heads, h := HeadsOf(order[..|order| - 1], hash), hash(order[|order| - 1]);
      if h in heads then heads else heads + [h]
  }

  lemma HeadsSnoc(order: seq<Key>, hash: Key -> nat, k: Key)
    ensures HeadsOf(order + [k], hash) ==
            if hash(k) in HeadsOf(order, hash) then HeadsOf(order, hash) else HeadsOf(order, hash) + [hash(k)]
  {
    assert (order + [k])[..|order|] == order;
  }

  lemma {:induction false} HeadsMember(order: seq<Key>, hash: Key -> nat, h: nat)
    ensures h in HeadsOf(order, hash) <==> Class(order, hash, h) != []
  {
    if order != [] {
      HeadsMember(order[..|order| - 1], hash, h);
    }
  }

  /** The first listed head is that of the oldest live key. */
  lemma {:induction false} OldestListedFirst(order: seq<Key>, hash: Key -> nat)
    requires order != []
    ensures HeadsOf(order, hash) != [] && HeadsOf(order, hash)[0] == hash(order[0])
    ensures Class(order, hash, hash(order[0])) != [] && Class(order, hash, hash(order[0]))[0] == order[0]
  {
    var init := order[..|order| - 1];
    if init == [] {
      assert order == [] + [order[0]];
      HeadsSnoc([], hash, order[0]);
      ClassSnoc([], hash, hash(order[0]), order[0]);
    } else {
      OldestListedFirst(init, hash);
    }
  }

  /** The bucket that a class of keys makes, with the map's values. */
  function BucketOfClass(c: seq<Key>, m: map<Key, uint32>): (b: Bucket)
    ensures |b| == |c|
  {
    seq(|c|, i requires 0 <= i < |c| =>
      var k := if i == 0 then c[0] else c[|c| - i];
      Entry(k, if k in m then m[k] else 0))
  }

  function LiveBuckets(m: map<Key, uint32>, order: seq<Key>, hash: Key -> nat, n: nat): (bs: seq<Bucket>)
    ensures |bs| == n
  {
    seq(n, h requires 0 <= h < n => BucketOfClass(Class(order, hash, h), m))
  }

  /** Map and order determine the buckets. */
  lemma BucketsAre(bs: seq<Bucket>, hash: Key -> nat, m: map<Key, uint32>, order: seq<Key>)
    requires Represents(bs, hash, m) && Ordered(bs, hash, order)
    ensures bs == LiveBuckets(m, order, hash, |bs|)
  {
    forall h | 0 <= h < |bs|
      ensures bs[h] == LiveBuckets(m, order, hash, |bs|)[h]
    {
      assert Holds(bs[h], h, hash, m) && InOrder(bs[h], Class(order, hash, h));
    }
  }

  /** What a clear makes of a dictionary with these live keys: its outcome, and the entries its callback is shown. */
  function Show(m: map<Key, uint32>, order: seq<Key>, hash: Key -> nat, n: nat, checked: bool, trav: Entry -> bool)
    : (r: (Outcome, seq<Entry>))
  {
    Visit(AllItems(LiveBuckets(m, order, hash, n), HeadsOf(order, hash)), checked, trav)
  }

  /** Whatever is shown is a binding of the map ... */
  lemma ShownLive(m: map<Key, uint32>, order: seq<Key>, hash: Key -> nat, n: nat, it: Item)
    requires SameKeys(m, order) && it in AllItems(LiveBuckets(m, order, hash, n), HeadsOf(order, hash))
    ensures it.entry.key in m && it.entry == Entry(it.entry.key, m[it.entry.key])
  {
    var bs, list := LiveBuckets(m, order, hash, n), HeadsOf(order, hash);
    AllItemsMember(bs, list, it);
    var i :| 0 <= i < |list| && it in Items(BucketAt(bs, list[i]));
    ClassKeys(order, hash, list[i]);
  }

  lemma {:induction false} ClassKeys(order: seq<Key>, hash: Key -> nat, h: nat)
    ensures forall i :: 0 <= i < |Class(order, hash, h)| ==>
              Class(order, hash, h)[i] in order && hash(Class(order, hash, h)[i]) == h
    ensures forall k :: k in order && hash(k) == h ==> k in Class(order, hash, h)
  {
    if order != [] {
      ClassKeys(order[..|order| - 1], hash, h);
      assert order == order[..|order| - 1] + [order[|order| - 1]];
    }
  }

  /** ... and, while every hash value has its head, every binding has its turn. */
  lemma LiveShown(m: map<Key, uint32>, order: seq<Key>, hash: Key -> nat, n: nat, k: Key) returns (it: Item)
    requires SameKeys(m, order) && k in m && HashOk(hash, n)
    ensures it.entry == Entry(k, m[k]) && it in AllItems(LiveBuckets(m, order, hash, n), HeadsOf(order, hash))
  {
    var h, bs, list := hash(k), LiveBuckets(m, order, hash, n), HeadsOf(order, hash);
    ClassKeys(order, hash, h);
    HeadsMember(order, hash, h);
    var c := Class(order, hash, h);
    it := ClassItem(c, m, k);
    var j :| 0 <= j < |list| && list[j] == h;
    hide Class, HeadsOf, Items, BucketOfClass;
    assert BucketAt(bs, list[j]) == BucketOfClass(c, m);
    AllItemsMember(bs, list, it);
  }

  lemma ClassItem(c: seq<Key>, m: map<Key, uint32>, k: Key) returns (it: Item)
    requires k in c && k in m
    ensures it.entry == Entry(k, m[k]) && it in Items(BucketOfClass(c, m))
  {
    var p :| 0 <= p < |c| && c[p] == k;
    it := Items(BucketOfClass(c, m))[if p == 0 then 0 else |c| - p];
  }

  /** The oldest live key is the first one shown. */
  lemma OldestShownFirst(m: map<Key, uint32>, order: seq<Key>, hash: Key -> nat, n: nat)
    requires SameKeys(m, order) && order != [] && HashOk(hash, n)
    ensures order[0] in m
    ensures var items := AllItems(LiveBuckets(m, order, hash, n), HeadsOf(order, hash));
            items != [] && items[0] == Item(Entry(order[0], m[order[0]]), false)
  {
    OldestListedFirst(order, hash);
    var bs, list := LiveBuckets(m, order, hash, n), HeadsOf(order, hash);
    assert BucketAt(bs, list[0]) == BucketOfClass(Class(order, hash, list[0]), m);
    assert AllItems(bs, list)[0] == Items(BucketAt(bs, list[0]))[0];
  }

  /** A clear that completes has met no rejection, one that stops has met one, and at the oldest key exactly at once. */
  lemma ShowMeans(m: map<Key, uint32>, order: seq<Key>, hash: Key -> nat, n: nat, checked: bool, trav: Entry -> bool)
    requires SameKeys(m, order) && HashOk(hash, n)
    ensures var (r, v) := Show(m, order, hash, n, checked, trav);
            && (r == Completed ==> !Rejects(m, trav))
            && (r == Stopped ==> Rejects(m, trav) && order != [] && order[0] in m)
            && (r == Stopped ==> (|v| == 1 <==> !trav(Entry(order[0], m[order[0]]))))
            && (r == Aborted ==> checked)
  {
    hide LiveBuckets, AllItems, HeadsOf;
    var items := AllItems(LiveBuckets(m, order, hash, n), HeadsOf(order, hash));
    VisitMeans(items, checked, trav);
    var bad := FirstBad(items, checked, trav);
    if bad == |items| {
      forall k | k in m
        ensures trav(Entry(k, m[k]))
      {
        var it := LiveShown(m, order, hash, n, k);
        var i :| 0 <= i < |items| && items[i] == it;
        assert Passes(items[i], checked, trav);
      }
    } else {
      ShownLive(m, order, hash, n, items[bad]);
      var k := items[bad].entry.key;
      assert k in order;
      OldestShownFirst(m, order, hash, n);
    }
  }

  /** Without asserts: a clear breaks the dictionary exactly when an entry is rejected, but not the oldest key's. */
  lemma BreaksIff(m: map<Key, uint32>, order: seq<Key>, hash: Key -> nat, n: nat, trav: Entry -> bool)
    requires SameKeys(m, order) && HashOk(hash, n)
    ensures var (r, v) := Show(m, order, hash, n, false, trav);
            r == Stopped && |v| > 1 <==>
            Rejects(m, trav) && order != [] && order[0] in m && trav(Entry(order[0], m[order[0]]))
  {
    hide LiveBuckets, AllItems, HeadsOf, Rejects;
    ShowMeans(m, order, hash, n, false, trav);
  }

  // ---- The asserts ----

  /** Some live key with a zero half is not the oldest of its hash class. */
  ghost predicate LateHalfZero(order: seq<Key>, hash: Key -> nat) {
    exists i, j :: 0 <= i < j < |order| && hash(order[i]) == hash(order[j]) && HalfZero(order[j])
  }

  ghost predicate LateIn(order: seq<Key>, hash: Key -> nat, h: nat) {
    exists i, j :: 0 <= i < j < |order| && hash(order[i]) == hash(order[j]) == h && HalfZero(order[j])
  }

  ghost predicate Meets(order: seq<Key>, hash: Key -> nat, h: nat) {
    exists i :: 0 <= i < |order| && hash(order[i]) == h
  }

  ghost predicate LateInClass(c: seq<Key>) {
    exists p :: 1 <= p < |c| && HalfZero(c[p])
  }

  lemma MeetsSnoc(order: seq<Key>, hash: Key -> nat, h: nat, k: Key)
    ensures Meets(order + [k], hash, h) <==> Meets(order, hash, h) || hash(k) == h
  {
    var all := order + [k];
    assert all[|order|] == k;
    if i :| 0 <= i < |order| && hash(order[i]) == h {
      assert all[i] == order[i];
    }
  }

  lemma LateSnoc(order: seq<Key>, hash: Key -> nat, h: nat, k: Key)
    ensures LateIn(order + [k], hash, h) <==>
            LateIn(order, hash, h) || (Meets(order, hash, h) && hash(k) == h && HalfZero(k))
  {
    var all := order + [k];
    assert all[|order|] == k;
    if i, j :| 0 <= i < j < |order| && hash(order[i]) == hash(order[j]) == h && HalfZero(order[j]) {
      assert all[i] == order[i] && all[j] == order[j];
    }
    if i :| 0 <= i < |order| && hash(order[i]) == h {
      assert all[i] == order[i];
    }
  }

  lemma LateInClassSnoc(c: seq<Key>, k: Key)
    ensures LateInClass(c + [k]) <==> LateInClass(c) || (|c| > 0 && HalfZero(k))
  {
    var all := c + [k];
    assert all[|c|] == k;
    if p :| 1 <= p < |c| && HalfZero(c[p]) {
      assert all[p] == c[p];
    }
  }

  lemma {:induction false} ClassLate(order: seq<Key>, hash: Key -> nat, h: nat)
    ensures |Class(order, hash, h)| > 0 <==> Meets(order, hash, h)
    ensures LateInClass(Class(order, hash, h)) <==> LateIn(order, hash, h)
  {
    if order != [] {
      var init, last := order[..|order| - 1], order[|order| - 1];
      ClassLate(init, hash, h);
      assert order == init + [last];
      ClassSnoc(init, hash, h, last);
      hide Class, Meets, LateIn, LateInClass;
      MeetsSnoc(init, hash, h, last);
      LateSnoc(init, hash, h, last);
      LateInClassSnoc(Class(init, hash, h), last);
      assert Class(init, hash, h) + [] == Class(init, hash, h);
    }
  }

  /** The asserts of clear and traverse go off exactly on a live half-zero key that is not the oldest of its class. */
  lemma AnyTripsIff(bs: seq<Bucket>, hash: Key -> nat, order: seq<Key>)
    requires HashOk(hash, |bs|) && Ordered(bs, hash, order)
    ensures AnyTrips(bs) <==> LateHalfZero(order, hash)
  {
    hide HashOk;
    if h :| 0 <= h < |bs| && TripsAssert(bs[h]) {
      ClassTrips(bs[h], Class(order, hash, h));
      ClassLate(order, hash, h);
    }
    if i, j :| 0 <= i < j < |order| && hash(order[i]) == hash(order[j]) && HalfZero(order[j]) {
      var h := hash(order[j]);
      HashBelow(hash, |bs|, order[j]);
      ClassTrips(bs[h], Class(order, hash, h));
      ClassLate(order, hash, h);
    }
  }

  lemma HashBelow(hash: Key -> nat, n: nat, k: Key)
    requires HashOk(hash, n)
    ensures hash(k) < n
  {
  }

  lemma ClassTrips(b: Bucket, c: seq<Key>)
    requires InOrder(b, c)
    ensures TripsAssert(b) <==> LateInClass(c)
  {
    if i :| 1 <= i < |b| && HalfZero(b[i].key) {
      assert HalfZero(c[|c| - i]);
    }
    if p :| 1 <= p < |c| && HalfZero(c[p]) {
      assert HalfZero(b[|c| - p].key);
    }
  }

  // ---- Overflow nodes ----

  /** The size a pool of `n` nodes can grow to by whole steps, while its size fits 32 bits. */
  function PoolLimit(n: nat, step: nat): (r: nat)
    requires n <= UINT32_MAX
    ensures n <= r <= UINT32_MAX && (r == n <==> step == 0 || n + step > UINT32_MAX)
    ensures step > 0 ==> UINT32_MAX < r + step
  {
    if step == 0 then n
    else
      RemainderBounds(UINT32_MAX - n, step);
      UINT32_MAX - (UINT32_MAX - n) % step
  }

  lemma RemainderBounds(m: nat, step: nat)
    requires step > 0
    ensures 0 <= m % step <= m && m % step < step && (m % step == m <==> m < step)
  {
    if m < step {
      DivModUnique(m, step, 0, m);
    }
  }

  /** Growing does not change what it can grow to. */
  lemma LimitStays(n: nat, step: nat)
    requires n + step <= UINT32_MAX
    ensures PoolLimit(n + step, step) == PoolLimit(n, step)
  {
    if step > 0 {
      var m := UINT32_MAX - n;
      DivModUnique(m - step, step, m / step - 1, m % step);
    }
  }

  /** A new key whose hash class is not empty takes an overflow node. */
  predicate Takes(order: seq<Key>, hash: Key -> nat, op: Op) {
    match op
    case Add(k, _) => k != NO_KEY && k !in order && Class(order, hash, hash(k)) != []
    case Update(k, _) => k != NO_KEY && k !in order && Class(order, hash, hash(k)) != []
    case _ => false
  }

  // ---- Runs ----

  /** What the user of a dictionary may know: its map, the age of its keys, and the overflow nodes ever taken. */
  datatype Live = Live(m: map<Key, uint32>, order: seq<Key>, used: nat)

  /** How a dictionary is set up; `limit` is the size its pool can grow to. */
  datatype Setup = Setup(hash: Key -> nat, heads: nat, upd: Updater, clearable: bool, checked: bool, limit: nat)

  /** A run is cut short by a failed assert, by a clear that leaves a broken dictionary, or by a write past the pool. */
  datatype Cut = ByAssert | ByCallback | ByOverrun

  ghost function CutOf(e: Setup, s: Live, op: Op): Option<Cut> {
    match op
    case Seek(_) => None
    case Clear(trav) =>
      if !e.clearable then None
      else
        var (r, v) := Show(s.m, s.order, e.hash, e.heads, e.checked, trav);
        if r == Aborted then Some(ByAssert) else if r == Stopped && |v| > 1 then Some(ByCallback) else None
    case _ => if Takes(s.order, e.hash, op) && s.used == e.limit then Some(ByOverrun) else None
  }

  ghost function StepLive(e: Setup, s: Live, op: Op): Live {
    Live(StepMap(s.m, e.upd, e.clearable, op).0, StepOrder(s.order, s.m, e.clearable, op),
         s.used + if Takes(s.order, e.hash, op) then 1 else 0)
  }

  ghost function RunLive(e: Setup, s: Live, ops: seq<Op>): Live {
    if ops == [] then s else StepLive(e, RunLive(e, s, ops[..|ops| - 1]), ops[|ops| - 1])
  }

  lemma RunLiveNext(e: Setup, s: Live, ops: seq<Op>, i: nat)
    requires i < |ops|
    ensures RunLive(e, s, ops[..i + 1]) == StepLive(e, RunLive(e, s, ops[..i]), ops[i])
  {
    assert ops[..i + 1][..i] == ops[..i];
  }

  ghost predicate CutAt(e: Setup, s: Live, ops: seq<Op>, i: nat, cut: Cut) {
    i < |ops| && CutOf(e, RunLive(e, s, ops[..i]), ops[i]) == Some(cut)
  }

  ghost predicate NoCutBefore(e: Setup, s: Live, ops: seq<Op>, n: nat) {
    forall i: nat, cut :: i < n ==> !CutAt(e, s, ops, i, cut)
  }

  lemma StepUsed(e: Setup, s: Live, op: Op)
    ensures s.used <= StepLive(e, s, op).used <= s.used + 1
  {
  }

  lemma {:induction false} UsedBounds(e: Setup, s: Live, ops: seq<Op>)
    ensures s.used <= RunLive(e, s, ops).used <= s.used + |ops|
  {
    hide StepLive;
    if ops != [] {
      UsedBounds(e, s, ops[..|ops| - 1]);
      StepUsed(e, RunLive(e, s, ops[..|ops| - 1]), ops[|ops| - 1]);
    }
  }

  lemma {:induction false} UsedGrows(e: Setup, s: Live, ops: seq<Op>, i: nat)
    requires i <= |ops|
    ensures s.used <= RunLive(e, s, ops[..i]).used <= RunLive(e, s, ops).used
    decreases |ops|
  {
    hide StepLive;
    UsedBounds(e, s, ops[..i]);
    if i == |ops| {
      assert ops[..i] == ops;
    } else {
      var init := ops[..|ops| - 1];
      UsedGrows(e, s, init, i);
      assert init[..i] == ops[..i];
      StepUsed(e, RunLive(e, s, init), ops[|ops| - 1]);
    }
  }

  /**
   * The pool is overrun exactly when the keys that come into an occupied hash class outnumber the nodes it can
   * still give; clears give none back.
   */
  lemma {:induction false} OverrunIff(e: Setup, s: Live, ops: seq<Op>)
    requires s.used <= e.limit
    ensures (exists i: nat :: CutAt(e, s, ops, i, ByOverrun)) <==> RunLive(e, s, ops).used > e.limit
  {
    hide CutOf, RunLive;
    if i: nat :| CutAt(e, s, ops, i, ByOverrun) {
      OverrunTakes(e, RunLive(e, s, ops[..i]), ops[i]);
      RunLiveNext(e, s, ops, i);
      UsedGrows(e, s, ops, i + 1);
    }
    if RunLive(e, s, ops).used > e.limit {
      var i := Crossing(e, s, ops);
      assert CutAt(e, s, ops, i, ByOverrun);
    }
  }

  lemma OverrunTakes(e: Setup, s: Live, op: Op)
    ensures CutOf(e, s, op) == Some(ByOverrun) <==> StepLive(e, s, op).used > s.used == e.limit
  {
    hide Class, Show;
  }

  lemma {:induction false} Crossing(e: Setup, s: Live, ops: seq<Op>) returns (i: nat)
    requires s.used <= e.limit < RunLive(e, s, ops).used
    ensures i < |ops| && CutOf(e, RunLive(e, s, ops[..i]), ops[i]) == Some(ByOverrun)
    decreases |ops|
  {
    hide CutOf;
    var init := ops[..|ops| - 1];
    if RunLive(e, s, init).used > e.limit {
      i := Crossing(e, s, init);
      assert init[..i] == ops[..i];
    } else {
      i := |ops| - 1;
      OverrunTakes(e, RunLive(e, s, init), ops[i]);
    }
  }

  predicate NoHalfZero(order: seq<Key>) {
    forall j :: 0 <= j < |order| ==> !HalfZero(order[j])
  }

  predicate FullKey(op: Op) {
    match op
    case Add(k, _) => !HalfZero(k)
    case Update(k, _) => !HalfZero(k)
    case _ => true
  }

  lemma {:induction false} OrderStaysFull(e: Setup, s: Live, ops: seq<Op>)
    requires NoHalfZero(s.order) && forall i :: 0 <= i < |ops| ==> FullKey(ops[i])
    ensures NoHalfZero(RunLive(e, s, ops).order)
  {
    if ops != [] {
      OrderStaysFull(e, s, ops[..|ops| - 1]);
      assert FullKey(ops[|ops| - 1]);
    }
  }

  /** Keys without a zero half never trip an assert: not in one clear ... */
  lemma FullShowNeverAborts(m: map<Key, uint32>, order: seq<Key>, hash: Key -> nat, n: nat, checked: bool,
      trav: Entry -> bool)
    requires SameKeys(m, order) && NoHalfZero(order)
    ensures Show(m, order, hash, n, checked, trav).0 != Aborted
  {
    var items := AllItems(LiveBuckets(m, order, hash, n), HeadsOf(order, hash));
    VisitMeans(items, checked, trav);
    var bad := FirstBad(items, checked, trav);
    if bad < |items| {
      ShownLive(m, order, hash, n, items[bad]);
      assert items[bad].entry.key in order;
    }
  }

  lemma SameKeysNext(e: Setup, s: Live, op: Op)
    requires SameKeys(s.m, s.order) && NO_KEY !in s.m
    ensures SameKeys(StepLive(e, s, op).m, StepLive(e, s, op).order) && NO_KEY !in StepLive(e, s, op).m
  {
    hide Rejects, Takes;
  }

  lemma {:induction false} SameKeysStay(e: Setup, s: Live, ops: seq<Op>)
    requires SameKeys(s.m, s.order) && NO_KEY !in s.m
    ensures SameKeys(RunLive(e, s, ops).m, RunLive(e, s, ops).order) && NO_KEY !in RunLive(e, s, ops).m
  {
    hide Rejects, Takes, StepLive;
    if ops != [] {
      SameKeysStay(e, s, ops[..|ops| - 1]);
      SameKeysNext(e, RunLive(e, s, ops[..|ops| - 1]), ops[|ops| - 1]);
    }
  }

  /** ... and, whatever the hash and the callbacks, in no run that adds and updates only such keys. */
  lemma FullKeysNeverTrip(e: Setup, s: Live, ops: seq<Op>)
    requires SameKeys(s.m, s.order) && NO_KEY !in s.m
    requires NoHalfZero(s.order) && forall i :: 0 <= i < |ops| ==> FullKey(ops[i])
    ensures forall i: nat :: !CutAt(e, s, ops, i, ByAssert)
  {
    forall i: nat | i < |ops|
      ensures !CutAt(e, s, ops, i, ByAssert)
    {
      var t := RunLive(e, s, ops[..i]);
      SameKeysStay(e, s, ops[..i]);
      OrderStaysFull(e, s, ops[..i]);
      hide RunLive, Show;
      if ops[i].Clear? {
        FullShowNeverAborts(t.m, t.order, e.hash, e.heads, e.checked, ops[i].trav);
      }
    }
  }

  /** Not a clear, or one whose callback accepts everything, as NULL does. */
  ghost predicate Harmless(op: Op) {
    op.Clear? ==> AcceptsAll(op.trav)
  }

  lemma HarmlessNeverBreak(e: Setup, s: Live, ops: seq<Op>)
    requires forall i :: 0 <= i < |ops| ==> Harmless(ops[i])
    ensures forall i: nat :: !CutAt(e, s, ops, i, ByCallback)
  {
    hide RunLive, LiveBuckets, AllItems, HeadsOf;
    forall i: nat | i < |ops|
      ensures !CutAt(e, s, ops, i, ByCallback)
    {
      assert Harmless(ops[i]);
      if ops[i].Clear? {
        var t := RunLive(e, s, ops[..i]);
        var items := AllItems(LiveBuckets(t.m, t.order, e.hash, e.heads), HeadsOf(t.order, e.hash));
        VisitMeans(items, e.checked, ops[i].trav);
      }
    }
  }

  /** A run has answered `n` calls and was cut short at the next one, or was not. */
  ghost predicate CutShort(e: Setup, s: Live, ops: seq<Op>, n: nat, cut: Option<Cut>) {
    && n <= |ops| && NoCutBefore(e, s, ops, n)
    && if cut.Some? then CutAt(e, s, ops, n, cut.value) else n == |ops|
  }

  /** What does not cut a run short; with full keys and harmless callbacks just what overruns the pool does. */
  lemma WhenCut(e: Setup, s: Live, ops: seq<Op>, n: nat, cut: Option<Cut>)
    requires CutShort(e, s, ops, n, cut)
    requires SameKeys(s.m, s.order) && NO_KEY !in s.m && NoHalfZero(s.order) && s.used <= e.limit
    ensures (forall i :: 0 <= i < |ops| ==> FullKey(ops[i])) ==> cut != Some(ByAssert)
    ensures (forall i :: 0 <= i < |ops| ==> Harmless(ops[i])) ==> cut != Some(ByCallback)
    ensures RunLive(e, s, ops).used <= e.limit ==> cut != Some(ByOverrun)
    ensures (forall i :: 0 <= i < |ops| ==> FullKey(ops[i]) && Harmless(ops[i])) ==>
              (cut.Some? <==> RunLive(e, s, ops).used > e.limit)
  {
    hide SameKeys, FullKey, Harmless, CutOf, RunLive, NoHalfZero;
    if forall i :: 0 <= i < |ops| ==> FullKey(ops[i]) {
      FullKeysNeverTrip(e, s, ops);
    }
    if forall i :: 0 <= i < |ops| ==> Harmless(ops[i]) {
      HarmlessNeverBreak(e, s, ops);
    }
    OverrunIff(e, s, ops);
    match cut
    case Some(ByOverrun) => assert CutAt(e, s, ops, n, ByOverrun);
    case Some(ByAssert) =>
    case Some(ByCallback) =>
    case None =>
      if i: nat :| CutAt(e, s, ops, i, ByOverrun) {
        assert false;
      }
  }
}
