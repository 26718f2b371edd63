/**
 * The storage of an st_dict: head slots, an overflow pool linked by
 * indices, and a list of the occupied heads for clearing.
 */
module DictLinks {
  import opened Util
  import opened DictModel

  /** ST_DICT_BAD_NODE. */
  const BAD: int := UINT32_MAX

  datatype Node = Node(sign1: uint32, sign2: uint32, val: uint32, next: uint32)

  predicate Vacant(n: Node) {
    n.sign1 == 0 && n.sign2 == 0
  }

  function KeyOf(n: Node): Key {
    Key(n.sign1, n.sign2)
  }

  function EntryOf(n: Node): Entry {
    Entry(KeyOf(n), n.val)
  }

  /** The overflow chain of one head: pool indices from the head outwards. */
  type Chain = seq<nat>

  function Link(c: Chain, i: nat): int {
    if i < |c| then c[i] else BAD
  }

  /** A chain's nodes are in use, hash to `h`, lie below `cur`, link to one another and descend. */
  ghost predicate ChainOk(pool: seq<Node>, cur: nat, hash: Key -> nat, h: nat, c: Chain)
    requires cur <= |pool|
  {
    && (forall i :: 0 <= i < |c| ==>
          && c[i] < cur
          && !Vacant(pool[c[i]])
          && hash(KeyOf(pool[c[i]])) == h
          && pool[c[i]].next == Link(c, i + 1))
    && (forall i, j :: 0 <= i < j < |c| ==> c[j] < c[i])
  }

  /** A vacant head keeps a stale link after a clear; it leads to one vacant node without a successor. */
  predicate StaleOk(pool: seq<Node>, cur: nat, next: int)
    requires cur <= |pool|
  {
    next != BAD ==> 0 <= next < cur && Vacant(pool[next]) && pool[next].next == BAD
  }

  ghost predicate HeadOk(head: Node, pool: seq<Node>, cur: nat, hash: Key -> nat, h: nat, c: Chain)
    requires cur <= |pool|
  {
    if Vacant(head) then c == [] && StaleOk(pool, cur, head.next)
    else hash(KeyOf(head)) == h && head.next == Link(c, 0) && ChainOk(pool, cur, hash, h, c)
  }

  ghost predicate WellLinked(heads: seq<Node>, pool: seq<Node>, cur: nat, hash: Key -> nat, chains: seq<Chain>) {
    && cur <= |pool| <= BAD
    && |chains| == |heads|
    && forall h :: 0 <= h < |heads| ==> HeadOk(heads[h], pool, cur, hash, h, chains[h])
  }

  /** The clear list names each occupied head exactly once. */
  ghost predicate ListsOccupied(list: seq<nat>, heads: seq<Node>) {
    && Distinct(list)
    && (forall i :: 0 <= i < |list| ==> list[i] < |heads| && !Vacant(heads[list[i]]))
    && (forall h :: 0 <= h < |heads| && !Vacant(heads[h]) ==> h in list)
  }

  ghost function BucketOf(head: Node, pool: seq<Node>, c: Chain): (b: Bucket)
    requires forall i :: 0 <= i < |c| ==> c[i] < |pool|
    ensures |b| == if Vacant(head) then 0 else 1 + |c|
  {
    if Vacant(head) then []
    else [EntryOf(head)] + seq(|c|, i requires 0 <= i < |c| => EntryOf(pool[c[i]]))
  }

  ghost function BucketsOf(heads: seq<Node>, pool: seq<Node>, cur: nat, hash: Key -> nat,
      chains: seq<Chain>): (bs: seq<Bucket>)
    requires WellLinked(heads, pool, cur, hash, chains)
    ensures |bs| == |heads|
  {
    seq(|heads|, h requires 0 <= h < |heads| => BucketOf(heads[h], pool, chains[h]))
  }

  // ---- Structure lemmas ----

  /** How a walk reads bucket `b` off the chain of its head ... */
  ghost predicate ChainReads(pool: seq<Node>, cur: nat, c: Chain, b: Bucket)
    requires cur <= |pool|
  {
    && |b| == |c| + 1
    && forall i :: 0 <= i < |c| ==>
         c[i] < cur && b[i + 1] == EntryOf(pool[c[i]]) && pool[c[i]].next == Link(c, i + 1)
  }

  /** ... and off the head itself. */
  ghost predicate Reads(head: Node, pool: seq<Node>, cur: nat, c: Chain, b: Bucket)
    requires cur <= |pool|
  {
    ChainReads(pool, cur, c, b) && b[0] == EntryOf(head) && head.next == Link(c, 0)
  }

  /** One stop of such a walk: BAD only at the end of the chain. */
  lemma ChainAt(pool: seq<Node>, cur: nat, c: Chain, b: Bucket, i: nat)
    requires cur <= |pool| <= BAD && ChainReads(pool, cur, c, b) && i <= |c|
    ensures |b| == |c| + 1
    ensures if i == |c| then Link(c, i) == BAD
            else Link(c, i) == c[i] < cur && b[i + 1] == EntryOf(pool[c[i]]) && pool[c[i]].next == Link(c, i + 1)
  {
  }

  /** An equality callback accepts only nodes with the sought key; both callbacks of the library compare signs first. */
  ghost predicate ComparesKeys(eq: Entry -> bool, key: Key) {
    forall e :: eq(e) ==> e.key == key
  }

  /** What a walk from a vacant head follows ... */
  function StaleChain(head: Node): Chain {
    if head.next == BAD then [] else [head.next]
  }

  /** ... and what it meets. */
  function StaleEntries(head: Node, pool: seq<Node>): Bucket
    requires head.next != BAD ==> head.next < |pool|
  {
    if head.next == BAD then [EntryOf(head)] else [EntryOf(head), EntryOf(pool[head.next])]
  }

  /** From a head emptied by a clear, a walk follows the stale link if there is one, no other, and finds nothing. */
  lemma StaleReads(head: Node, pool: seq<Node>, cur: nat, key: Key, eq: Entry -> bool)
    requires cur <= |pool| && Vacant(head) && StaleOk(pool, cur, head.next)
    requires key != NO_KEY && ComparesKeys(eq, key)
    ensures Reads(head, pool, cur, StaleChain(head), StaleEntries(head, pool))
    ensures |StaleChain(head)| == if head.next == BAD then 0 else 1
    ensures forall j :: 0 <= j < |StaleEntries(head, pool)| ==> !eq(StaleEntries(head, pool)[j])
    ensures FirstMatch(StaleEntries(head, pool), eq) == None
  {
    FirstMatchAt(StaleEntries(head, pool), eq, |StaleEntries(head, pool)|);
  }

  /** Live chains share no pool node: a node's key says which chain it is on. */
  lemma ChainsDisjoint(heads: seq<Node>, pool: seq<Node>, cur: nat, hash: Key -> nat, chains: seq<Chain>, g: nat,
      h: nat, i: nat, j: nat)
    requires WellLinked(heads, pool, cur, hash, chains)
    requires g < |heads| && h < |heads| && i < |chains[g]| && j < |chains[h]|
    requires chains[g][i] == chains[h][j]
    ensures g == h && i == j
  {
    assert HeadOk(heads[g], pool, cur, hash, g, chains[g]) && HeadOk(heads[h], pool, cur, hash, h, chains[h]);
  }

  /** Storing a node at `cur` disturbs no chain and no stale link. */
  lemma AppendKeepsHead(head: Node, pool: seq<Node>, pool': seq<Node>, cur: nat, hash: Key -> nat, h: nat, c: Chain)
    requires cur < |pool'| && cur <= |pool|
    requires forall j :: 0 <= j < cur ==> pool'[j] == pool[j]
    requires HeadOk(head, pool, cur, hash, h, c)
    ensures HeadOk(head, pool', cur + 1, hash, h, c)
    ensures BucketOf(head, pool', c) == BucketOf(head, pool, c)
  {
  }

  lemma OccupyHead(heads: seq<Node>, pool: seq<Node>, cur: nat, hash: Key -> nat, chains: seq<Chain>, h: nat, n: Node)
    requires WellLinked(heads, pool, cur, hash, chains)
    requires h < |heads| && Vacant(heads[h]) && !Vacant(n) && n.next == BAD && hash(KeyOf(n)) == h
    ensures WellLinked(heads[h := n], pool, cur, hash, chains)
    ensures var bs := BucketsOf(heads, pool, cur, hash, chains);
            BucketsOf(heads[h := n], pool, cur, hash, chains) == bs[h := Insert(bs[h], EntryOf(n))]
  {
    assert HeadOk(heads[h], pool, cur, hash, h, chains[h]);
    assert HeadOk(n, pool, cur, hash, h, chains[h]);
    assert BucketOf(n, pool, []) == [EntryOf(n)];
  }

  lemma LongerChainOk(pool: seq<Node>, pool': seq<Node>, cur: nat, hash: Key -> nat, h: nat, c: Chain, n: Node)
    requires cur < |pool'| && cur <= |pool|
    requires forall j :: 0 <= j < cur ==> pool'[j] == pool[j]
    requires ChainOk(pool, cur, hash, h, c)
    requires !Vacant(n) && hash(KeyOf(n)) == h && n.next == Link(c, 0) && pool'[cur] == n
    ensures ChainOk(pool', cur + 1, hash, h, [cur] + c)
  {
    var c' := [cur] + c;
    forall i | 0 <= i < |c'|
      ensures c'[i] < cur + 1 && !Vacant(pool'[c'[i]]) && hash(KeyOf(pool'[c'[i]])) == h
        && pool'[c'[i]].next == Link(c', i + 1)
    {
      if i > 0 {
        assert c'[i] == c[i - 1];
      }
    }
  }

  lemma LongerChainBucket(head: Node, head': Node, pool: seq<Node>, pool': seq<Node>, cur: nat, c: Chain, n: Node)
    requires !Vacant(head) && head' == head.(next := head'.next)
    requires cur < |pool'| && cur <= |pool|
    requires forall i :: 0 <= i < |c| ==> c[i] < cur
    requires forall j :: 0 <= j < cur ==> pool'[j] == pool[j]
    requires pool'[cur] == n
    ensures BucketOf(head', pool', [cur] + c) == Insert(BucketOf(head, pool, c), EntryOf(n))
  {
    var b, b' := BucketOf(head, pool, c), BucketOf(head', pool', [cur] + c);
    forall i | 2 <= i < |b'|
      ensures b'[i] == b[i - 1]
    {
      assert ([cur] + c)[i - 1] == c[i - 2];
    }
    assert b' == [b[0], EntryOf(n)] + b[1..];
  }

  lemma LinkedHeadOk(head: Node, head': Node, pool: seq<Node>, pool': seq<Node>, cur: nat, hash: Key -> nat, h: nat,
      c: Chain, n: Node)
    requires cur < |pool'| && cur <= |pool|
    requires forall j :: 0 <= j < cur ==> pool'[j] == pool[j]
    requires !Vacant(head) && HeadOk(head, pool, cur, hash, h, c)
    requires !Vacant(n) && hash(KeyOf(n)) == h && n.next == head.next && pool'[cur] == n
    requires head'.next == cur && head' == head.(next := head'.next)
    ensures HeadOk(head', pool', cur + 1, hash, h, [cur] + c)
  {
    LongerChainOk(pool, pool', cur, hash, h, c, n);
  }

  lemma LinkNodeBuckets(heads: seq<Node>, heads': seq<Node>, pool: seq<Node>, pool': seq<Node>, cur: nat,
      hash: Key -> nat, chains: seq<Chain>, chains': seq<Chain>, h: nat, n: Node)
    requires WellLinked(heads, pool, cur, hash, chains)
    requires cur < |pool'| && cur <= |pool| && h < |heads|
    requires forall j :: 0 <= j < cur ==> pool'[j] == pool[j]
    requires !Vacant(heads[h]) && pool'[cur] == n
    requires |heads'| == |heads| && heads' == heads[h := heads'[h]] && heads'[h] == heads[h].(next := heads'[h].next)
    requires chains' == chains[h := [cur] + chains[h]]
    requires WellLinked(heads', pool', cur + 1, hash, chains')
    ensures var bs := BucketsOf(heads, pool, cur, hash, chains);
            BucketsOf(heads', pool', cur + 1, hash, chains') == bs[h := Insert(bs[h], EntryOf(n))]
  {
    hide BucketOf, StaleOk;
    forall g | 0 <= g < |heads| && g != h
      ensures BucketOf(heads'[g], pool', chains[g]) == BucketOf(heads[g], pool, chains[g])
    {
      assert HeadOk(heads[g], pool, cur, hash, g, chains[g]);
      AppendKeepsHead(heads[g], pool, pool', cur, hash, g, chains[g]);
    }
    assert HeadOk(heads[h], pool, cur, hash, h, chains[h]);
    LongerChainBucket(heads[h], heads'[h], pool, pool', cur, chains[h], n);
  }

  /** The new overflow node goes between the head and the rest of its chain. */
  lemma LinkNode(heads: seq<Node>, heads': seq<Node>, pool: seq<Node>, pool': seq<Node>, cur: nat, hash: Key -> nat,
      chains: seq<Chain>, chains': seq<Chain>, h: nat, n: Node)
    requires WellLinked(heads, pool, cur, hash, chains)
    requires cur < |pool'| <= BAD && cur <= |pool| && h < |heads|
    requires forall j :: 0 <= j < cur ==> pool'[j] == pool[j]
    requires !Vacant(heads[h])
    requires !Vacant(n) && hash(KeyOf(n)) == h && n.next == heads[h].next && pool'[cur] == n
    requires |heads'| == |heads| && heads' == heads[h := heads'[h]]
      && heads'[h] == heads[h].(next := heads'[h].next) && heads'[h].next == cur
    requires chains' == chains[h := [cur] + chains[h]]
    ensures WellLinked(heads', pool', cur + 1, hash, chains')
    ensures var bs := BucketsOf(heads, pool, cur, hash, chains);
            BucketsOf(heads', pool', cur + 1, hash, chains') == bs[h := Insert(bs[h], EntryOf(n))]
  {
    hide HeadOk;
    forall g | 0 <= g < |heads|
      ensures HeadOk(heads'[g], pool', cur + 1, hash, g, chains'[g])
    {
      assert HeadOk(heads[g], pool, cur, hash, g, chains[g]);
      if g == h {
        LinkedHeadOk(heads[h], heads'[h], pool, pool', cur, hash, h, chains[h], n);
      } else {
        AppendKeepsHead(heads[g], pool, pool', cur, hash, g, chains[g]);
      }
    }
    LinkNodeBuckets(heads, heads', pool, pool', cur, hash, chains, chains', h, n);
  }

  /** The update callback may change the value of a head entry. */
  lemma SetHead(heads: seq<Node>, heads': seq<Node>, pool: seq<Node>, cur: nat, hash: Key -> nat, chains: seq<Chain>,
      h: nat, v: uint32)
    requires WellLinked(heads, pool, cur, hash, chains)
    requires h < |heads| && !Vacant(heads[h]) && heads' == heads[h := heads[h].(val := v)]
    ensures WellLinked(heads', pool, cur, hash, chains)
    ensures var bs := BucketsOf(heads, pool, cur, hash, chains);
            BucketsOf(heads', pool, cur, hash, chains) == bs[h := bs[h][0 := bs[h][0].(val := v)]]
  {
    assert HeadOk(heads[h], pool, cur, hash, h, chains[h]);
    assert HeadOk(heads'[h], pool, cur, hash, h, chains[h]);
    var b := BucketOf(heads[h], pool, chains[h]);
    assert BucketOf(heads'[h], pool, chains[h]) == b[0 := b[0].(val := v)];
  }

  lemma SetNodeHead(head: Node, pool: seq<Node>, pool': seq<Node>, cur: nat, hash: Key -> nat, g: nat, c: Chain,
      x: nat, v: uint32)
    requires cur <= |pool| && x < cur && !Vacant(pool[x])
    requires pool' == pool[x := pool[x].(val := v)]
    requires HeadOk(head, pool, cur, hash, g, c)
    ensures HeadOk(head, pool', cur, hash, g, c)
    ensures x !in c ==> BucketOf(head, pool', c) == BucketOf(head, pool, c)
  {
  }

  lemma SetNodeBucket(head: Node, pool: seq<Node>, pool': seq<Node>, c: Chain, i: nat, v: uint32)
    requires !Vacant(head) && i < |c|
    requires forall j :: 0 <= j < |c| ==> c[j] < |pool|
    requires forall j, k :: 0 <= j < k < |c| ==> c[k] < c[j]
    requires pool' == pool[c[i] := pool[c[i]].(val := v)]
    ensures var b := BucketOf(head, pool, c);
            BucketOf(head, pool', c) == b[i + 1 := b[i + 1].(val := v)]
  {
    var b, b' := BucketOf(head, pool, c), BucketOf(head, pool', c);
    forall m | 0 <= m < |b|
      ensures b'[m] == b[i + 1 := b[i + 1].(val := v)][m]
    {
      if 0 < m != i + 1 {
        assert c[m - 1] != c[i];
      }
    }
  }

  /** ... or of an overflow entry. */
  lemma SetNode(heads: seq<Node>, pool: seq<Node>, pool': seq<Node>, cur: nat, hash: Key -> nat, chains: seq<Chain>,
      h: nat, i: nat, v: uint32)
    requires WellLinked(heads, pool, cur, hash, chains)
    requires h < |heads| && i < |chains[h]| && chains[h][i] < |pool|
    requires pool' == pool[chains[h][i] := pool[chains[h][i]].(val := v)]
    ensures WellLinked(heads, pool', cur, hash, chains)
    ensures var bs := BucketsOf(heads, pool, cur, hash, chains);
            |bs[h]| > i + 1 &&
            BucketsOf(heads, pool', cur, hash, chains) == bs[h := bs[h][i + 1 := bs[h][i + 1].(val := v)]]
  {
    hide BucketOf, StaleOk;
    var x := chains[h][i];
    assert HeadOk(heads[h], pool, cur, hash, h, chains[h]);
    forall g | 0 <= g < |heads|
      ensures HeadOk(heads[g], pool', cur, hash, g, chains[g])
      ensures g != h ==> BucketOf(heads[g], pool', chains[g]) == BucketOf(heads[g], pool, chains[g])
    {
      SetNodeHead(heads[g], pool, pool', cur, hash, g, chains[g], x, v);
    }
    SetNodeBucket(heads[h], pool, pool', chains[h], i, v);
  }

  const ZERO := Node(0, 0, 0, BAD)

  lemma ClearedHead(head: Node, pool: seq<Node>, pool': seq<Node>, cur: nat, hash: Key -> nat, g: nat, c: Chain,
      gone: Chain)
    requires cur <= |pool| == |pool'|
    requires forall j :: 0 <= j < |gone| ==> gone[j] < |pool| && !Vacant(pool[gone[j]])
    requires forall j :: 0 <= j < |pool| ==> pool'[j] == if j in gone then ZERO else pool[j]
    requires HeadOk(head, pool, cur, hash, g, c)
    requires forall j :: 0 <= j < |c| ==> c[j] !in gone
    ensures HeadOk(head, pool', cur, hash, g, c)
    ensures BucketOf(head, pool', c) == BucketOf(head, pool, c)
  {
  }

  /** Emptying one bucket leaves a stale link to a zeroed node and touches no other bucket. */
  lemma ClearBucket(heads: seq<Node>, heads': seq<Node>, pool: seq<Node>, pool': seq<Node>, cur: nat,
      hash: Key -> nat, chains: seq<Chain>, chains': seq<Chain>, h: nat)
    requires WellLinked(heads, pool, cur, hash, chains)
    requires h < |heads| && !Vacant(heads[h]) && heads' == heads[h := Node(0, 0, 0, heads[h].next)]
    requires |pool'| == |pool| && forall j :: 0 <= j < |pool| ==> pool'[j] == if j in chains[h] then ZERO else pool[j]
    requires chains' == chains[h := []]
    ensures WellLinked(heads', pool', cur, hash, chains')
    ensures BucketsOf(heads', pool', cur, hash, chains') == BucketsOf(heads, pool, cur, hash, chains)[h := []]
  {
    assert HeadOk(heads[h], pool, cur, hash, h, chains[h]);
    assert HeadOk(heads'[h], pool', cur, hash, h, []);
    forall g | 0 <= g < |heads| && g != h
      ensures HeadOk(heads'[g], pool', cur, hash, g, chains'[g])
      ensures BucketOf(heads'[g], pool', chains'[g]) == BucketOf(heads[g], pool, chains[g])
    {
      assert HeadOk(heads[g], pool, cur, hash, g, chains[g]);
      ClearedHead(heads[g], pool, pool', cur, hash, g, chains[g], chains[h]);
    }
  }

  // ---- Whole states ----

  /** Everything a dictionary keeps between calls; `list` is the clear list, if there is one. */
  ghost predicate StateOk(heads: seq<Node>, pool: seq<Node>, cur: nat, num: nat, list: Option<seq<nat>>,
      hash: Key -> nat, chains: seq<Chain>, bs: seq<Bucket>) {
    && |heads| > 0
    && HashOk(hash, |heads|)
    && WellLinked(heads, pool, cur, hash, chains)
    && bs == BucketsOf(heads, pool, cur, hash, chains)
    && num == Total(bs)
    && (list.Some? ==> ListsOccupied(list.value, heads))
  }

  lemma StateBounds(heads: seq<Node>, pool: seq<Node>, cur: nat, num: nat, list: Option<seq<nat>>, hash: Key -> nat,
      chains: seq<Chain>, bs: seq<Bucket>)
    requires StateOk(heads, pool, cur, num, list, hash, chains, bs)
    ensures cur <= |pool| <= BAD && |chains| == |bs| == |heads|
  {
  }

  /** How a walk over bucket `h` reads its entries and links. */
  lemma StateReads(heads: seq<Node>, pool: seq<Node>, cur: nat, num: nat, list: Option<seq<nat>>, hash: Key -> nat,
      chains: seq<Chain>, bs: seq<Bucket>, h: nat)
    requires StateOk(heads, pool, cur, num, list, hash, chains, bs) && h < |heads|
    ensures cur <= |pool| <= BAD && |chains| == |bs| == |heads|
    ensures if Vacant(heads[h]) then bs[h] == [] && chains[h] == [] && StaleOk(pool, cur, heads[h].next)
            else Reads(heads[h], pool, cur, chains[h], bs[h])
  {
    assert HeadOk(heads[h], pool, cur, hash, h, chains[h]);
  }

  lemma OccupiedHasRoom(list: seq<nat>, heads: seq<Node>, h: nat)
    requires ListsOccupied(list, heads) && h < |heads| && Vacant(heads[h])
    ensures |list| < |heads|
  {
    DistinctFits(list, |heads|, {h});
  }

  lemma ListMore(list: seq<nat>, heads: seq<Node>, h: nat, n: Node)
    requires ListsOccupied(list, heads) && h < |heads| && Vacant(heads[h]) && !Vacant(n)
    ensures ListsOccupied(list + [h], heads[h := n])
  {
    var list' := list + [h];
    assert list'[|list|] == h;
    forall g | 0 <= g < |heads| && !Vacant(heads[h := n][g])
      ensures g in list'
    {
      if g != h {
        assert g in list;
      }
    }
  }

  lemma ListSame(list: seq<nat>, heads: seq<Node>, heads': seq<Node>)
    requires ListsOccupied(list, heads) && |heads'| == |heads|
    requires forall h :: 0 <= h < |heads| ==> (Vacant(heads'[h]) <==> Vacant(heads[h]))
    ensures ListsOccupied(list, heads')
  {
  }

  lemma HeadStep(heads: seq<Node>, pool: seq<Node>, cur: nat, num: nat, list: Option<seq<nat>>,
      list': Option<seq<nat>>, hash: Key -> nat, chains: seq<Chain>, bs: seq<Bucket>, h: nat, n: Node)
    requires StateOk(heads, pool, cur, num, list, hash, chains, bs)
    requires h < |heads| && Vacant(heads[h]) && !Vacant(n) && n.next == BAD && hash(KeyOf(n)) == h
    requires list' == if list.Some? then Some(list.value + [h]) else None
    ensures |bs| == |heads| && (list.Some? ==> |list.value| < |heads|)
    ensures StateOk(heads[h := n], pool, cur, num + 1, list', hash, chains, bs[h := Insert(bs[h], EntryOf(n))])
  {
    hide WellLinked;
    OccupyHead(heads, pool, cur, hash, chains, h, n);
    TotalUpdate(bs, h, Insert(bs[h], EntryOf(n)));
    if list.Some? {
      OccupiedHasRoom(list.value, heads, h);
      ListMore(list.value, heads, h, n);
    }
  }

  lemma PoolStep(heads: seq<Node>, heads': seq<Node>, pool: seq<Node>, pool': seq<Node>, cur: nat, num: nat,
      list: Option<seq<nat>>, hash: Key -> nat, chains: seq<Chain>, chains': seq<Chain>, bs: seq<Bucket>, h: nat,
      n: Node)
    requires StateOk(heads, pool, cur, num, list, hash, chains, bs)
    requires cur < |pool'| <= BAD && h < |heads| && !Vacant(heads[h])
    requires forall j :: 0 <= j < cur ==> pool'[j] == pool[j]
    requires !Vacant(n) && hash(KeyOf(n)) == h && n.next == heads[h].next && pool'[cur] == n
    requires |heads'| == |heads| && heads' == heads[h := heads'[h]]
      && heads'[h] == heads[h].(next := heads'[h].next) && heads'[h].next == cur
    requires |chains| == |heads| && chains' == chains[h := [cur] + chains[h]]
    ensures |bs| == |heads|
    ensures StateOk(heads', pool', cur + 1, num + 1, list, hash, chains', bs[h := Insert(bs[h], EntryOf(n))])
  {
    hide HeadOk, ListsOccupied, BucketOf;
    LinkNode(heads, heads', pool, pool', cur, hash, chains, chains', h, n);
    TotalUpdate(bs, h, Insert(bs[h], EntryOf(n)));
    if list.Some? {
      ListSame(list.value, heads, heads');
    }
  }

  lemma ValueStep(heads: seq<Node>, heads': seq<Node>, pool: seq<Node>, cur: nat, num: nat, list: Option<seq<nat>>,
      hash: Key -> nat, chains: seq<Chain>, bs: seq<Bucket>, h: nat, v: uint32)
    requires StateOk(heads, pool, cur, num, list, hash, chains, bs)
    requires h < |heads| && !Vacant(heads[h]) && heads' == heads[h := heads[h].(val := v)]
    ensures |bs| == |heads| && |bs[h]| > 0
    ensures StateOk(heads', pool, cur, num, list, hash, chains, bs[h := bs[h][0 := bs[h][0].(val := v)]])
  {
    hide HeadOk, ListsOccupied;
    SetHead(heads, heads', pool, cur, hash, chains, h, v);
    TotalUpdate(bs, h, bs[h][0 := bs[h][0].(val := v)]);
    if list.Some? {
      ListSame(list.value, heads, heads');
    }
  }

  lemma PoolValueStep(heads: seq<Node>, pool: seq<Node>, pool': seq<Node>, cur: nat, num: nat,
      list: Option<seq<nat>>, hash: Key -> nat, chains: seq<Chain>, bs: seq<Bucket>, h: nat, i: nat, v: uint32)
    requires StateOk(heads, pool, cur, num, list, hash, chains, bs)
    requires h < |heads| == |chains| && i < |chains[h]| && chains[h][i] < |pool|
    requires pool' == pool[chains[h][i] := pool[chains[h][i]].(val := v)]
    ensures |bs| == |heads| && |bs[h]| > i + 1
    ensures StateOk(heads, pool', cur, num, list, hash, chains, bs[h := bs[h][i + 1 := bs[h][i + 1].(val := v)]])
  {
    hide HeadOk, ListsOccupied;
    SetNode(heads, pool, pool', cur, hash, chains, h, i, v);
    TotalUpdate(bs, h, bs[h][i + 1 := bs[h][i + 1].(val := v)]);
  }

  /** Emptying the first listed bucket; the list then names the heads still occupied. */
  lemma ClearStep(heads: seq<Node>, heads': seq<Node>, pool: seq<Node>, pool': seq<Node>, cur: nat, num: nat,
      list: seq<nat>, hash: Key -> nat, chains: seq<Chain>, chains': seq<Chain>, bs: seq<Bucket>)
    requires StateOk(heads, pool, cur, num, Some(list), hash, chains, bs)
    requires |list| > 0 && list[0] < |heads| && heads' == heads[list[0] := Node(0, 0, 0, heads[list[0]].next)]
    requires |chains| == |heads| && chains' == chains[list[0] := []]
    requires |pool'| == |pool| && forall j :: 0 <= j < |pool| ==>
      pool'[j] == if j in chains[list[0]] then ZERO else pool[j]
    ensures |bs| == |heads| && num >= |bs[list[0]]|
    ensures StateOk(heads', pool', cur, num - |bs[list[0]]|, Some(list[1..]), hash, chains', bs[list[0] := []])
  {
    hide HeadOk;
    var h := list[0];
    ClearBucket(heads, heads', pool, pool', cur, hash, chains, chains', h);
    TotalUpdate(bs, h, []);
    forall g | 0 <= g < |heads| && !Vacant(heads'[g])
      ensures g in list[1..]
    {
      assert g in list && g != h;
    }
  }

  /** With nothing left to clear, nothing is left. */
  lemma AllCleared(heads: seq<Node>, pool: seq<Node>, cur: nat, num: nat, hash: Key -> nat, chains: seq<Chain>,
      bs: seq<Bucket>)
    requires StateOk(heads, pool, cur, num, Some([]), hash, chains, bs)
    ensures bs == NoBuckets(|heads|) && num == 0
  {
    forall h | 0 <= h < |heads|
      ensures bs[h] == []
    {
      assert HeadOk(heads[h], pool, cur, hash, h, chains[h]);
    }
    TotalEmpty(bs);
  }

  lemma StartOk(n: nat, cur: nat, hash: Key -> nat, needClear: bool)
    requires 0 < n <= BAD && HashOk(hash, n) && cur == 0
    ensures StateOk(seq(n, _ => ZERO), seq(n, _ => ZERO), cur, 0,
                    if needClear then Some([]) else None, hash, seq(n, _ => []), NoBuckets(n))
  {
    TotalEmpty(NoBuckets(n));
  }

  lemma ClearReads(heads: seq<Node>, pool: seq<Node>, cur: nat, num: nat, list: seq<nat>, hash: Key -> nat,
      chains: seq<Chain>, bs: seq<Bucket>)
    requires StateOk(heads, pool, cur, num, Some(list), hash, chains, bs)
    requires |list| > 0 && list[0] < |heads|
    ensures cur <= |pool| <= BAD && |chains| == |bs| == |heads|
    ensures !Vacant(heads[list[0]]) && num >= |chains[list[0]]| + 1
    ensures Reads(heads[list[0]], pool, cur, chains[list[0]], bs[list[0]])
    ensures Distinct(chains[list[0]])
  {
    var h := list[0];
    assert HeadOk(heads[h], pool, cur, hash, h, chains[h]);
    TotalUpdate(bs, h, []);
  }
}
