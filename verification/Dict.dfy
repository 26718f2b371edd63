/** st_dict: the two-level hash dictionary as it is updated in place. */
module Dict {
  import opened Util
  import opened Masks
  import opened DictModel
  import opened DictLinks
  import opened DictVisit

  /** All bits from the highest set bit downwards, of num or of num / 2. */
  function HighestBitMask(num: bv32, overflow: bool): bv32 {
    var m0 := if overflow then num else num >> 1;
    var m1 := m0 | (m0 >> 1);
    var m2 := m1 | (m1 >> 2);
    var m3 := m2 | (m2 >> 4);
    var m4 := m3 | (m3 >> 8);
    m4 | (m4 >> 16)
  }

  /** Without overflow, mask + 1 is a power of two ... */
  lemma HighestBitMaskOnes(num: bv32)
    ensures var m := HighestBitMask(num, false); m & (m + 1) == 0 && m != 0xFFFF_FFFF
  {
  }

  /** ... and the largest one not above num. */
  lemma HighestBitMaskBelow(num: bv32)
    ensures var m := HighestBitMask(num, false);
            if num == 0 then m == 0 else m < num && num - 1 - m <= m
  {
  }

  /** With overflow, the mask is the least all-ones value that covers num. */
  lemma HighestBitMaskAbove(num: bv32)
    ensures var m := HighestBitMask(num, true);
            m & (m + 1) == 0 && num <= m && (num != 0 ==> m - num < num)
  {
  }

  /** `& addr_mask`, the mask being all ones. */
  function Masked(x: nat, mask: nat): (r: nat)
    ensures r <= mask
  {
    x % (mask + 1)
  }

  function HashSimple(mask: nat, k: Key): (r: nat)
    ensures r <= mask
  {
    Masked((k.sign1 + k.sign2) % 0x1_0000_0000, mask)
  }

  function HashSign1(mask: nat, k: Key): (r: nat)
    ensures r <= mask
  {
    Masked(k.sign1, mask)
  }

  /** As the C code has them: `(sign1 + sign2) & mask` on 32 bits, and `sign1 & mask`. */
  lemma HashesAre(mask: nat, k: Key, bits: nat)
    requires mask + 1 == Pow2(bits)
    ensures HashSimple(mask, k) == And((k.sign1 + k.sign2) % 0x1_0000_0000, mask)
    ensures HashSign1(mask, k) == And(k.sign1, mask)
  {
    AndIsRemainder((k.sign1 + k.sign2) % 0x1_0000_0000, mask, bits);
    AndIsRemainder(k.sign1, mask, bits);
  }

  lemma AllItemsNext(bs: seq<Bucket>, list: seq<nat>, n: nat)
    requires n < |list|
    ensures AllItems(bs, list[n..]) == Items(BucketAt(bs, list[n])) + AllItems(bs, list[n + 1..])
  {
    assert list[n..][0] == list[n] && list[n..][1..] == list[n + 1..];
  }

  /** Walking on over the first bucket of those left. */
  lemma VisitBuckets(bs: seq<Bucket>, list: seq<nat>, n: nat, checked: bool, trav: Entry -> bool)
    requires n < |list|
    ensures var (r, v) := Visit(Items(BucketAt(bs, list[n])), checked, trav);
            var (r', v') := Visit(AllItems(bs, list[n + 1..]), checked, trav);
            Visit(AllItems(bs, list[n..]), checked, trav) == if r == Completed then (r', v + v') else (r, v)
  {
    AllItemsNext(bs, list, n);
    VisitAppend(Items(BucketAt(bs, list[n])), AllItems(bs, list[n + 1..]), checked, trav);
  }

  /** The walk over `list` has come to its n-th bucket. */
  ghost predicate WalkedTo(bs: seq<Bucket>, list: seq<nat>, n: nat, visited: seq<Entry>, checked: bool,
      trav: Entry -> bool)
  {
    && n <= |list|
    && var (r, v) := Visit(AllItems(bs, list[n..]), checked, trav);
       Visit(AllItems(bs, list), checked, trav) == (r, visited + v)
  }

  lemma WalkedStart(bs: seq<Bucket>, list: seq<nat>, checked: bool, trav: Entry -> bool)
    ensures WalkedTo(bs, list, 0, [], checked, trav)
  {
    assert list[0..] == list;
    var v := Visit(AllItems(bs, list), checked, trav).1;
    assert [] + v == v;
  }

  lemma WalkedStep(bs: seq<Bucket>, list: seq<nat>, n: nat, visited: seq<Entry>, checked: bool, trav: Entry -> bool)
    requires n < |list| && WalkedTo(bs, list, n, visited, checked, trav)
    ensures var (r, v) := Visit(Items(BucketAt(bs, list[n])), checked, trav);
            if r == Completed then WalkedTo(bs, list, n + 1, visited + v, checked, trav)
            else Visit(AllItems(bs, list), checked, trav) == (r, visited + v)
  {
    hide Visit, AllItems, Items;
    VisitBuckets(bs, list, n, checked, trav);
    var first := Visit(Items(BucketAt(bs, list[n])), checked, trav);
    var later := Visit(AllItems(bs, list[n + 1..]), checked, trav);
    Reassociate(visited, first.1, later.1);
  }

  /** The order of traverse. */
  function EveryHead(n: nat): (list: seq<nat>)
    ensures |list| == n && forall h: nat :: h < n ==> list[h] == h
  {
    seq(n, i => i)
  }

  lemma Reassociate(x: seq<Entry>, y: seq<Entry>, z: seq<Entry>)
    ensures x + (y + z) == (x + y) + z
  {
  }

  lemma WalkedAll(bs: seq<Bucket>, list: seq<nat>, visited: seq<Entry>, checked: bool, trav: Entry -> bool)
    requires WalkedTo(bs, list, |list|, visited, checked, trav)
    ensures Visit(AllItems(bs, list), checked, trav) == (Completed, visited)
  {
    assert list[|list|..] == [] && visited + [] == visited;
  }

  /** The pool after the first `i` nodes of a chain have been zeroed. */
  ghost function Zeroed(pool: seq<Node>, c: Chain, i: nat): (r: seq<Node>)
    requires i <= |c|
    ensures |r| == |pool|
  {
    seq(|pool|, j requires 0 <= j < |pool| => if j in c[..i] then ZERO else pool[j])
  }

  lemma ZeroedNone(pool: seq<Node>, c: Chain)
    ensures Zeroed(pool, c, 0) == pool
  {
  }

  lemma ZeroedStep(pool: seq<Node>, c: Chain, i: nat)
    requires i < |c| && Distinct(c) && c[i] < |pool|
    ensures Zeroed(pool, c, i)[c[i]] == pool[c[i]]
    ensures Zeroed(pool, c, i + 1) == Zeroed(pool, c, i)[c[i] := ZERO]
  {
    assert c[..i + 1] == c[..i] + [c[i]];
  }

  lemma ZeroedAll(pool: seq<Node>, c: Chain)
    ensures forall j :: 0 <= j < |pool| ==> Zeroed(pool, c, |c|)[j] == if j in c then ZERO else pool[j]
  {
    assert c[..|c|] == c;
  }

  /** The clear list, if there is one, with one more head. */
  function Noted(list: Option<seq<nat>>, h: nat): Option<seq<nat>> {
    if list.Some? then Some(list.value + [h]) else None
  }

  class Dictionary {
    var heads: array<Node>        // first_level_node
    var pool: array<Node>         // node_pool, max_pool_num long
    var cur: nat                  // cur_index
    var num: nat                  // node_num
    var clearNodes: array?<nat>   // clear_nodes, absent without need_clear
    var clearNum: nat             // clear_node_num
    var reallocNum: uint32        // realloc_node_num
    const hash: Key -> nat        // hash_func under this dictionary's mask
    ghost var chains: seq<Chain>
    ghost var buckets: seq<Bucket>

    ghost function ClearList(): Option<seq<nat>>
      requires clearNodes != null ==> clearNum <= clearNodes.Length
      reads this, clearNodes
    {
      if clearNodes == null then None else Some(clearNodes[..clearNum])
    }

    ghost predicate Valid()
      reads this, heads, pool, clearNodes
    {
      && heads != pool
      && (clearNodes != null ==> clearNum <= clearNodes.Length == heads.Length)
      && StateOk(heads[..], pool[..], cur, num, ClearList(), hash, chains, buckets)
      && |buckets| == heads.Length && forall k :: hash(k) < heads.Length
    }

    /** Which storage the dictionary still uses. */
    predicate SameParts(heads0: array<Node>, pool0: array<Node>, clearNodes0: array?<nat>, realloc0: uint32)
      reads this
    {
      heads == heads0 && pool == pool0 && clearNodes == clearNodes0 && reallocNum == realloc0
    }

    /** A key whose bucket is occupied: storing it takes an overflow node. */
    ghost predicate Crowded(key: Key)
      requires Valid()
      reads this, heads, pool, clearNodes
    {
      key != NO_KEY && buckets[hash(key)] != []
    }

    /** A new key in an occupied bucket takes an overflow node; nothing else does. */
    ghost predicate NeedsNode(key: Key, eq: Entry -> bool)
      requires Valid()
      reads this, heads, pool, clearNodes
    {
      Crowded(key) && FirstMatch(buckets[hash(key)], eq).None?
    }

    /** The pool is full and does not grow: the step is 0, or the 32-bit size would wrap. */
    predicate Exhausted()
      reads this
    {
      cur == pool.Length && (reallocNum == 0 || pool.Length + reallocNum > BAD)
    }

    /** The pool after a call that found `cur0` of `length0` nodes taken and did or did not take one. */
    predicate Took(node: bool, cur0: nat, length0: nat)
      reads this
    {
      && cur == cur0 + (if node then 1 else 0)
      && pool.Length == if node && cur0 == length0 then length0 + reallocNum else length0
    }

    /** The loop of st_dict_seek, past a head that did not match; `b` is the bucket, `c` its chain. */
    method SeekChain(head: Node, eq: Entry -> bool, ghost c: Chain, ghost b: Bucket) returns (r: Option<uint32>)
      requires cur <= pool.Length <= BAD && Reads(head, pool[..], cur, c, b)
      requires !eq(b[0])
      ensures r == FirstMatch(b, eq)
    {
      hide ChainReads, Link;
      ghost var ps := pool[..];
      ChainAt(ps, cur, c, b, 0);
      var work := head;
      ghost var i := 0;
      while work.next != BAD
        invariant i <= |c| && work.next == Link(c, i)
        invariant |b| == |c| + 1 && forall j :: 0 <= j < i + 1 ==> !eq(b[j])
        decreases |c| - i
      {
        ChainAt(ps, cur, c, b, i);
        if work.next >= cur {
          assert false;  // "illegal next"
        }
        work := pool[work.next];
        if eq(EntryOf(work)) {
          FirstMatchAt(b, eq, i + 1);
          return Some(work.val);
        }
        i := i + 1;
      }
      ChainAt(ps, cur, c, b, i);
      FirstMatchAt(b, eq, |b|);
      return None;
    }

    /** st_dict_seek past its first check, on any head whose chain can be read; nothing is read behind a vacant head. */
    method SeekAt(h: nat, eq: Entry -> bool, ghost c: Chain, ghost b: Bucket) returns (r: Option<uint32>)
      requires h < heads.Length && cur <= pool.Length <= BAD
      requires !Vacant(heads[h]) ==> Reads(heads[h], pool[..], cur, c, b)
      ensures r == if Vacant(heads[h]) then None else FirstMatch(b, eq)
    {
      if Vacant(heads[h]) {
        return None;
      }
      if eq(EntryOf(heads[h])) {
        return Some(heads[h].val);
      }
      r := SeekChain(heads[h], eq, c, b);
    }

    /** st_dict_seek. */
    method Seek(key: Key, eq: Entry -> bool) returns (r: Option<uint32>)
      requires Valid()
      ensures r == if key == NO_KEY then None else FirstMatch(buckets[hash(key)], eq)
    {
      if key == NO_KEY {
        return None;
      }
      hide StateOk;
      var h := hash(key);
      StateReads(heads[..], pool[..], cur, num, ClearList(), hash, chains, buckets, h);
      r := SeekAt(h, eq, chains[h], buckets[h]);
    }

    /**
     * st_dict_add_in: takes the next pool node, growing the pool when it is full. Its new size is an unsigned
     * int: when that is no larger, the new part or the node is written past the pool, and the model stops there.
     */
    method AddIn(n: Node) returns (id: nat, overrun: bool)
      requires cur <= pool.Length <= BAD
      modifies this`pool, this`cur, pool
      ensures overrun <==> old(Exhausted())
      ensures id == old(cur) && (pool == old(pool) || fresh(pool))
      ensures !overrun ==> pool.Length == old(if cur == pool.Length then pool.Length + reallocNum else pool.Length)
      ensures !overrun ==> cur == old(cur) + 1 <= pool.Length <= BAD && pool[id] == n.(next := BAD)
      ensures !overrun ==> forall j :: 0 <= j < old(cur) ==> pool[j] == old(pool[j])
    {
      if cur >= pool.Length {
        var size := (pool.Length + reallocNum) % 0x1_0000_0000;
        if size <= cur {
          return cur, true;
        }
        var bigger := new Node[size](_ => Node(0, 0, 0, 0));
        forall j | 0 <= j < pool.Length {
          bigger[j] := pool[j];
        }
        pool := bigger;
      }
      id := cur;
      pool[cur] := n.(next := BAD);
      cur := cur + 1;
      overrun := false;
    }

    /**
     * Filling a vacant head slot. The head goes to the end of the clear list, past its array when that is
     * full; the model stops there.
     */
    method OccupyHead(h: nat, n: Node) returns (overrun: bool)
      requires h < heads.Length && (clearNodes != null ==> clearNum <= clearNodes.Length)
      modifies this`num, this`clearNum, heads, clearNodes
      ensures overrun <==> clearNodes != null && old(clearNum) == clearNodes.Length
      ensures heads[..] == old(heads[..])[h := n]
      ensures !overrun ==> num == old(num) + 1 && (clearNodes != null ==> clearNum <= clearNodes.Length)
      ensures !overrun ==> ClearList() == Noted(old(ClearList()), h)
    {
      heads[h] := n;
      if clearNodes != null {
        if clearNum == clearNodes.Length {
          return true;
        }
        clearNodes[clearNum] := h;
        clearNum := clearNum + 1;
        assert clearNodes[..clearNum] == old(clearNodes[..clearNum]) + [h];
      }
      num := num + 1;
      return false;
    }

    /** Storing into a vacant head slot of a dictionary in order: the clear list always has room. */
    method StoreInHead(key: Key, val: uint32)
      requires Valid() && key != NO_KEY && Vacant(heads[hash(key)])
      modifies this, heads, clearNodes
      ensures Valid() && SameParts(old(heads), old(pool), old(clearNodes), old(reallocNum)) && cur == old(cur)
      ensures ClearList() == Noted(old(ClearList()), hash(key))
      ensures buckets == old(buckets)[hash(key) := Insert(old(buckets)[hash(key)], Entry(key, val))]
    {
      hide StateOk;
      var h := hash(key);
      var n := Node(key.sign1, key.sign2, val, BAD);
      ghost var hs, ps, list := heads[..], pool[..], ClearList();
      HeadStep(hs, ps, cur, num, list, Noted(list, h), hash, chains, buckets, h, n);
      var _ := OccupyHead(h, n);
      buckets := buckets[h := Insert(buckets[h], Entry(key, val))];
      assert heads[..] == hs[h := n] && pool[..] == ps;
    }

    /** The new node takes over the head's link, then the head links to it. */
    method LinkIn(h: nat, n: Node) returns (overrun: bool)
      requires h < heads.Length && heads != pool
      requires cur <= pool.Length <= BAD
      modifies this`pool, this`cur, heads, pool
      ensures overrun <==> old(Exhausted())
      ensures pool == old(pool) || fresh(pool)
      ensures !overrun ==>
        && cur <= pool.Length <= BAD && Took(true, old(cur), old(pool.Length)) && heads != pool
        && (forall j :: 0 <= j < old(cur) ==> pool[..][j] == old(pool[..])[j])
        && pool[..][old(cur)] == n.(next := old(heads[h].next))
        && old(cur) < BAD && heads[..] == old(heads[..])[h := old(heads[h]).(next := old(cur))]
    {
      var id;
      id, overrun := AddIn(n);
      if overrun {
        return;
      }
      pool[id] := pool[id].(next := heads[h].next);
      heads[h] := heads[h].(next := id);
    }

    /** Storing behind an occupied head slot. */
    method StoreInPool(key: Key, val: uint32) returns (overrun: bool)
      requires Valid() && key != NO_KEY && !Vacant(heads[hash(key)])
      modifies this, heads, pool
      ensures overrun <==> old(Exhausted())
      ensures SameParts(old(heads), pool, old(clearNodes), old(reallocNum)) && (pool == old(pool) || fresh(pool))
      ensures !overrun ==> Valid() && Took(true, old(cur), old(pool.Length)) && ClearList() == old(ClearList())
      ensures !overrun ==> buckets == old(buckets)[hash(key) := Insert(old(buckets)[hash(key)], Entry(key, val))]
    {
      hide StateOk;
      var h := hash(key);
      var n := Node(key.sign1, key.sign2, val, BAD);
      ghost var hs, ps, c0, chains0 := heads[..], pool[..], cur, chains;
      StateBounds(hs, ps, cur, num, ClearList(), hash, chains, buckets);
      overrun := LinkIn(h, n);
      if overrun {
        return;
      }
      chains := chains[h := [c0] + chains[h]];
      PoolStep(hs, heads[..], ps, pool[..], c0, num, ClearList(), hash, chains0, chains, buckets, h,
        n.(next := hs[h].next));
      buckets := buckets[h := Insert(buckets[h], Entry(key, val))];
      num := num + 1;
    }

    lemma HeadVacant(h: nat)
      requires Valid() && h < heads.Length
      ensures Vacant(heads[h]) <==> buckets[h] == []
    {
      hide StateOk;
      StateReads(heads[..], pool[..], cur, num, ClearList(), hash, chains, buckets, h);
    }

    /** The common tail of add, add_no_seek and update: head slot if vacant, else a new overflow node. */
    method Store(key: Key, val: uint32) returns (overrun: bool)
      requires Valid() && key != NO_KEY
      modifies this, heads, pool, clearNodes
      ensures overrun <==> old(Crowded(key) && Exhausted())
      ensures SameParts(old(heads), pool, old(clearNodes), old(reallocNum)) && (pool == old(pool) || fresh(pool))
      ensures !overrun ==>
        && Valid() && Took(old(Crowded(key)), old(cur), old(pool.Length))
        && ClearList() == (if old(Crowded(key)) then old(ClearList()) else Noted(old(ClearList()), hash(key)))
        && buckets == old(buckets)[hash(key) := Insert(old(buckets)[hash(key)], Entry(key, val))]
    {
      HeadVacant(hash(key));
      if Vacant(heads[hash(key)]) {
        StoreInHead(key, val);
        overrun := false;
      } else {
        overrun := StoreInPool(key, val);
      }
    }

    /** st_dict_add_no_seek. */
    method AddNoSeek(key: Key, val: uint32) returns (ok: bool, overrun: bool)
      requires Valid()
      modifies this, heads, pool, clearNodes
      ensures overrun <==> old(Crowded(key) && Exhausted())
      ensures SameParts(old(heads), pool, old(clearNodes), old(reallocNum)) && (pool == old(pool) || fresh(pool))
      ensures !overrun ==>
        && Valid() && ok == (key != NO_KEY) && Took(old(Crowded(key)), old(cur), old(pool.Length))
        && ClearList() == (if !ok || old(Crowded(key)) then old(ClearList()) else Noted(old(ClearList()), hash(key)))
        && (!ok ==> buckets == old(buckets))
        && (ok ==> buckets == old(buckets)[hash(key) := Insert(old(buckets)[hash(key)], Entry(key, val))])
    {
      if key == NO_KEY {
        return false, false;
      }
      overrun := Store(key, val);
      ok := true;
    }

    /** st_dict_add. */
    method Add(key: Key, val: uint32, eq: Entry -> bool) returns (ok: bool, overrun: bool)
      requires Valid()
      modifies this, heads, pool, clearNodes
      ensures overrun <==> old(NeedsNode(key, eq) && Exhausted())
      ensures SameParts(old(heads), pool, old(clearNodes), old(reallocNum)) && (pool == old(pool) || fresh(pool))
      ensures !overrun ==>
        && Valid() && ok == (key != NO_KEY && FirstMatch(old(buckets)[hash(key)], eq).None?)
        && Took(old(NeedsNode(key, eq)), old(cur), old(pool.Length))
        && ClearList() == (if !ok || old(Crowded(key)) then old(ClearList()) else Noted(old(ClearList()), hash(key)))
        && (!ok ==> buckets == old(buckets))
        && (ok ==> buckets == old(buckets)[hash(key) := Insert(old(buckets)[hash(key)], Entry(key, val))])
    {
      if key == NO_KEY {
        return false, false;
      }
      var found := Seek(key, eq);
      if found.Some? {
        return false, false;
      }
      overrun := Store(key, val);
      ok := true;
    }

    /**
     * The walk of st_dict_update, on any head whose chain can be read, vacant or not: -1 for the head, else
     * a pool index. `links` counts the links followed, and so is the position of what was found.
     */
    method Walk(h: nat, eq: Entry -> bool, ghost c: Chain, ghost b: Bucket) returns (at: Option<int>, links: nat)
      requires h < heads.Length && cur <= pool.Length <= BAD && Reads(heads[h], pool[..], cur, c, b)
      ensures |b| == |c| + 1 && links <= |c| && (forall j :: 0 <= j < links ==> !eq(b[j]))
      ensures if at.None? then links == |c| && !eq(b[links]) else eq(b[links])
      ensures at.Some? ==> if links == 0 then at.value == -1 && b[0] == EntryOf(heads[h])
                           else at.value == c[links - 1] < pool.Length && b[links] == EntryOf(pool[at.value])
    {
      hide ChainReads, Link;
      ghost var ps := pool[..];
      ChainAt(ps, cur, c, b, 0);
      links := 0;
      if eq(EntryOf(heads[h])) {
        return Some(-1), links;
      }
      var next := heads[h].next;
      while next != BAD
        invariant links <= |c| && next == Link(c, links)
        invariant forall j :: 0 <= j <= links ==> !eq(b[j])
        decreases |c| - links
      {
        ChainAt(ps, cur, c, b, links);
        if next >= cur {
          assert false;  // "illegal next"
        }
        links := links + 1;
        var at := next;
        if eq(EntryOf(pool[at])) {
          return Some(at), links;
        }
        next := pool[at].next;
      }
      ChainAt(ps, cur, c, b, links);
      return None, links;
    }

    /** st_dict_update up to the end of its walk: what is found gets the callback's value, and that is all. */
    method TryUpdate(h: nat, val: uint32, eq: Entry -> bool, upd: Updater, ghost c: Chain, ghost b: Bucket)
      returns (done: Option<bool>, ghost i: nat)
      requires heads != pool
      requires h < heads.Length && cur <= pool.Length <= BAD && Reads(heads[h], pool[..], cur, c, b)
      modifies heads, pool
      ensures done.None? ==> FirstMatch(b, eq) == None && heads[..] == old(heads[..]) && pool[..] == old(pool[..])
      ensures done.Some? ==>
        && |b| == |c| + 1 && i < |b| && eq(b[i]) && (forall j :: 0 <= j < i ==> !eq(b[j]))
        && FirstMatch(b, eq) == Some(b[i].val) && done == Some(upd(b[i].val, val).1)
        && (i == 0 ==> heads[..] == old(heads[..])[h := old(heads[h]).(val := upd(b[i].val, val).0)])
        && (i == 0 ==> pool[..] == old(pool[..]))
        && (i > 0 ==> c[i - 1] < pool.Length && heads[..] == old(heads[..]))
        && (i > 0 ==> pool[..] == old(pool[..])[c[i - 1] := old(pool[..])[c[i - 1]].(val := upd(b[i].val, val).0)])
    {
      hide Reads;
      var at;
      at, i := Walk(h, eq, c, b);
      FirstMatchAt(b, eq, if at.None? then |b| else i);
      if at.None? {
        return None, i;
      }
      var o := if at.value < 0 then heads[h].val else pool[at.value].val;
      var (v, good) := upd(o, val);
      if at.value < 0 {
        heads[h] := heads[h].(val := v);
      } else {
        pool[at.value] := pool[at.value].(val := v);
      }
      return Some(good), i;
    }

    /** st_dict_update. */
    method Update(key: Key, val: uint32, eq: Entry -> bool, upd: Updater) returns (ok: bool, overrun: bool)
      requires Valid() && ComparesKeys(eq, key)
      modifies this, heads, pool, clearNodes
      ensures overrun <==> old(NeedsNode(key, eq) && Exhausted())
      ensures SameParts(old(heads), pool, old(clearNodes), old(reallocNum)) && (pool == old(pool) || fresh(pool))
      ensures !overrun ==> Valid() && Took(old(NeedsNode(key, eq)), old(cur), old(pool.Length))
      ensures key == NO_KEY ==> !ok && buckets == old(buckets) && ClearList() == old(ClearList())
      ensures !overrun && key != NO_KEY ==>
        var h := hash(key);
        var b := old(buckets)[h];
        match FirstMatch(b, eq)
        case Some(o) =>
          && buckets == old(buckets)[h := UpdateFirst(b, eq, x => upd(x, val).0)] && ok == upd(o, val).1
          && ClearList() == old(ClearList())
        case None =>
          && buckets == old(buckets)[h := Insert(b, Entry(key, val))] && ok
          && ClearList() == (if old(Crowded(key)) then old(ClearList()) else Noted(old(ClearList()), h))
    {
      hide StateOk, Reads, StaleChain, StaleEntries, UpdateFirst, Insert;
      if key == NO_KEY {
        return false, false;
      }
      var h := hash(key);
      ghost var hs, ps, list := heads[..], pool[..], ClearList();
      StateReads(hs, ps, cur, num, list, hash, chains, buckets, h);
      ghost var c, b := chains[h], buckets[h];
      if Vacant(heads[h]) {
        StaleReads(heads[h], ps, cur, key, eq);
        c, b := StaleChain(heads[h]), StaleEntries(heads[h], ps);
      }
      var done, i := TryUpdate(h, val, eq, upd, c, b);
      if done.Some? {
        ghost var v := upd(b[i].val, val).0;
        UpdateFirstAt(b, eq, x => upd(x, val).0, i);
        if i == 0 {
          ValueStep(hs, heads[..], ps, cur, num, list, hash, chains, buckets, h, v);
        } else {
          PoolValueStep(hs, ps, pool[..], cur, num, list, hash, chains, buckets, h, i - 1, v);
        }
        buckets := buckets[h := b[i := b[i].(val := v)]];
        return done.value, false;
      }
      overrun := Store(key, val);
      ok := true;
    }

    /** Empties the overflow chain of one listed head, node by node; `b` is the bucket being emptied. */
    method EmptyChain(h: nat, checked: bool, trav: Entry -> bool, ghost b: Bucket)
      returns (r: Outcome, visited: seq<Entry>)
      requires heads != pool && h < heads.Length == |chains| && cur <= pool.Length <= BAD
      requires heads[h].next == Link(chains[h], 0) && ChainReads(pool[..], cur, chains[h], b)
      requires num >= |chains[h]| && Distinct(chains[h])
      modifies this`num, pool
      ensures |b| == |chains[h]| + 1 && (r, visited) == Visit(Items(b)[1..], checked, trav)
      ensures r == Completed || r == Stopped || r == Aborted
      ensures r == Completed ==> |visited| == |chains[h]| && Emptied(|visited|, old(num), old(pool[..]), chains[h])
      ensures r == Stopped ==>
        1 <= |visited| <= |chains[h]| && Emptied(|visited| - 1, old(num), old(pool[..]), chains[h])
    {
      hide Zeroed, ChainReads, Link, HalfZero, Visit, VisitedTo;
      ghost var c, ps := chains[h], pool[..];
      ChainAt(ps, cur, c, b, 0);
      ghost var items := Items(b)[1..];
      ZeroedNone(ps, c);
      VisitStart(items, checked, trav);
      visited := [];
      var did := heads[h].next;
      while did != BAD
        invariant |visited| <= |c| && did == Link(c, |visited|) && (|visited| == |c| <==> did == BAD)
        invariant Emptied(|visited|, old(num), ps, c)
        invariant VisitedTo(items, |visited|, visited, checked, trav)
        decreases |c| - |visited|
      {
        ghost var i := |visited|;
        ChainAt(ps, cur, c, b, i);
        ChainAt(ps, cur, c, b, i + 1);
        if did >= cur {
          assert false;  // "illegal next"
        }
        var work := did;
        ZeroedStep(ps, c, i);
        VisitStep(items, i, visited, checked, trav);
        assert items[i] == Item(b[i + 1], true);
        assert pool[..][work] == ps[c[i]];
        did := pool[work].next;
        if checked && HalfZero(KeyOf(pool[work])) {
          return Aborted, visited;
        }
        visited := visited + [EntryOf(pool[work])];
        if !trav(EntryOf(pool[work])) {
          return Stopped, visited;
        }
        num := num - 1;
        pool[work] := ZERO;
      }
      VisitEnd(items, visited, checked, trav);
      return Completed, visited;
    }

    /** The first `n` nodes of the chain have been zeroed and counted out. */
    ghost predicate Emptied(n: nat, num0: nat, pool0: seq<Node>, c: Chain)
      requires n <= |c|
      reads this, pool
    {
      num + n == num0 && pool[..] == Zeroed(pool0, c, n)
    }

    /** One round of st_dict_clear: the first head still on the list. */
    method EmptyBucket(checked: bool, trav: Entry -> bool, ghost list: seq<nat>, h: nat)
      returns (r: Outcome, visited: seq<Entry>)
      requires heads != pool && |list| > 0 && list[0] == h < heads.Length == |buckets|
      requires StateOk(heads[..], pool[..], cur, num, Some(list), hash, chains, buckets)
      modifies this`num, this`chains, this`buckets, heads, pool
      ensures (r, visited) == Visit(Items(old(buckets)[h]), checked, trav)
      ensures r == Completed || r == Stopped || r == Aborted
      ensures forall g :: 0 <= g < heads.Length && g != h ==> heads[g] == old(heads[g])
      ensures r == Completed ==>
        && |visited| == |old(buckets)[h]| >= 1 && num + |visited| == old(num)
        && buckets == old(buckets)[h := []] && Vacant(heads[h])
        && StateOk(heads[..], pool[..], cur, num, Some(list[1..]), hash, chains, buckets)
      ensures r == Stopped ==>
        && 1 <= |visited| <= |old(buckets)[h]| && num + |visited| - 1 == old(num)
        && (|visited| == 1 ==>
              && heads[..] == old(heads[..]) && pool[..] == old(pool[..])
              && chains == old(chains) && buckets == old(buckets))
        && (|visited| > 1 ==> CutOff(h, |visited| - 2, old(heads[..]), old(pool[..]), old(chains)))
    {
      hide StateOk, Zeroed, Link, Visit, Items, ChainReads;
      ghost var hs, ps, n0, c, b := heads[..], pool[..], num, chains, buckets[h];
      ClearReads(hs, ps, cur, num, list, hash, chains, buckets);
      if Vacant(heads[h]) {
        assert false;  // assert(work->sign1 != 0 || work->sign2 != 0)
      }
      ChainAt(ps, cur, c[h], b, 0);
      BucketVisit(b, checked, trav);
      visited := [EntryOf(heads[h])];
      if !trav(EntryOf(heads[h])) {
        return Stopped, visited;
      }
      num := num - 1;
      heads[h] := Node(0, 0, 0, heads[h].next);
      assert pool[..] == ps;
      var rest;
      r, rest := EmptyChain(h, checked, trav, b);
      visited := visited + rest;
      assert heads[..] == hs[h := Node(0, 0, 0, hs[h].next)];
      if r == Stopped {
        return;
      }
      if r == Aborted {
        return;
      }
      ZeroedAll(ps, chains[h]);
      chains := chains[h := []];
      ClearStep(hs, heads[..], ps, pool[..], cur, n0, list, hash, c, chains, buckets);
      buckets := buckets[h := []];
    }

    /** A clear that stops behind the head of bucket `h` leaves a vacant head, `n` zeroed nodes, and the others live. */
    ghost predicate CutOff(h: nat, n: nat, heads0: seq<Node>, pool0: seq<Node>, chains0: seq<Chain>)
      reads this, heads, pool
    {
      && h < |heads0| && h < |chains0| && n < |chains0[h]|
      && heads[..] == heads0[h := Node(0, 0, 0, heads0[h].next)]
      && pool[..] == Zeroed(pool0, chains0[h], n)
    }

    /** The loop of st_dict_clear over the listed heads. */
    method EmptyListed(checked: bool, trav: Entry -> bool, ghost list: seq<nat>)
      returns (r: Outcome, visited: seq<Entry>)
      requires heads != pool && |buckets| == heads.Length
      requires clearNodes != null && clearNum == |list| <= clearNodes.Length && clearNodes[..clearNum] == list
      requires Distinct(list) && forall i :: 0 <= i < |list| ==> list[i] < |buckets|
      requires StateOk(heads[..], pool[..], cur, num, Some(list), hash, chains, buckets)
      modifies this`num, this`chains, this`buckets, heads, pool
      ensures (r, visited) == Visit(AllItems(old(buckets), list), checked, trav)
      ensures r == Completed || r == Stopped || r == Aborted
      ensures r == Completed ==>
        |buckets| == heads.Length && StateOk(heads[..], pool[..], cur, num, Some([]), hash, chains, buckets)
      ensures r == Stopped ==> num + |visited| - 1 == old(num)
      ensures r == Stopped ==>
        StoppedAfter(|visited|, Some(list), old(heads[..]), old(pool[..]), old(chains), old(buckets))
    {
      hide StateOk, Visit, Items, AllItems, WalkedTo, CutOff, Vacant, ListsOccupied;
      ghost var bs := buckets;
      assert list[0..] == list;
      WalkedStart(bs, list, checked, trav);
      visited := [];
      var id := 0;
      while id < clearNum
        invariant 0 <= id <= |list| && |buckets| == heads.Length
        invariant StateOk(heads[..], pool[..], cur, num, Some(list[id..]), hash, chains, buckets)
        invariant WalkedTo(bs, list, id, visited, checked, trav)
        invariant num + |visited| == old(num)
        invariant forall i :: id <= i < |list| ==> buckets[list[i]] == bs[list[i]]
        invariant id == 0 ==> visited == []
        invariant id == 0 ==>
          heads[..] == old(heads[..]) && pool[..] == old(pool[..]) && chains == old(chains) && buckets == old(buckets)
        invariant id > 0 ==> Vacant(heads[list[0]]) && |visited| >= |bs[list[0]]| && |visited| >= 1
      {
        assert list[id..][0] == list[id] && list[id..][1..] == list[id + 1..];
        assert clearNodes[id] == list[id];
        WalkedStep(bs, list, id, visited, checked, trav);
        var more;
        r, more := EmptyBucket(checked, trav, list[id..], clearNodes[id]);
        if r == Stopped {
          if id == 0 {
            assert visited + more == more;
            HeadOfCutOff(list[0], |more|, old(heads[..]), old(pool[..]), old(chains));
          }
          VacantListed(heads[..], list);
          return Stopped, visited + more;
        }
        visited := visited + more;
        if r == Aborted {
          return;
        }
        id := id + 1;
      }
      assert list[id..] == [];
      WalkedAll(bs, list, visited, checked, trav);
      return Completed, visited;
    }

    lemma HeadOfCutOff(h: nat, n: nat, heads0: seq<Node>, pool0: seq<Node>, chains0: seq<Chain>)
      ensures h < heads.Length && n > 1 && CutOff(h, n - 2, heads0, pool0, chains0) ==> Vacant(heads[h])
    {
      assert h < heads.Length ==> heads[..][h] == heads[h];
    }

    /**
     * A clear over `list` has failed at the n-th entry shown. At the first one nothing has changed; after it the
     * list names a vacant head, whatever chains and buckets one tries to read off the storage.
     */
    ghost predicate StoppedAfter(n: nat, list: Option<seq<nat>>, heads0: seq<Node>, pool0: seq<Node>,
        chains0: seq<Chain>, bs0: seq<Bucket>)
      reads this, heads, pool, clearNodes
    {
      && n >= 1 && list.Some? && list.value != [] && list.value[0] < |bs0|
      && (clearNodes != null ==> clearNum <= clearNodes.Length) && ClearList() == list
      && (n == 1 ==> buckets == bs0 && chains == chains0 && heads[..] == heads0 && pool[..] == pool0)
      && (n > 1 ==> !ListsOccupied(list.value, heads[..]))
      && (1 < n <= |bs0[list.value[0]]| ==> CutOff(list.value[0], n - 2, heads0, pool0, chains0))
    }

    /**
     * st_dict_clear; `visited` is what the callback is shown. When it rejects an entry the call fails, and the
     * dictionary is still in order if and only if that entry is the very first one shown.
     */
    method Clear(checked: bool, trav: Entry -> bool) returns (r: Outcome, visited: seq<Entry>)
      requires Valid()
      modifies this`num, this`chains, this`buckets, this`clearNum, heads, pool
      ensures r == Refused <==> clearNodes == null
      ensures r == Refused ==> Valid() && buckets == old(buckets) && num == old(num) && clearNum == old(clearNum)
      ensures clearNodes != null ==>
        (r, visited) == Visit(AllItems(old(buckets), old(ClearList()).value), checked, trav)
      ensures AcceptsAll(trav) ==>
        r != Stopped && (r == Aborted <==> clearNodes != null && checked && AnyTrips(old(buckets)))
      ensures r == Completed ==>
        Valid() && buckets == NoBuckets(heads.Length) && num == 0 && ClearList() == Some([])
      ensures r == Stopped ==> num + |visited| - 1 == old(num) && (Valid() <==> |visited| == 1)
      ensures r == Stopped ==>
        StoppedAfter(|visited|, old(ClearList()), old(heads[..]), old(pool[..]), old(chains), old(buckets))
    {
      if clearNodes == null {
        return Refused, [];
      }
      hide StateOk, AnyTrips, Visit, AllItems, CutOff, AcceptsAll, ListsOccupied;
      ghost var list := clearNodes[..clearNum];
      ListFacts(heads[..], pool[..], cur, num, list, hash, chains, buckets);
      VisitAccepting(buckets, list, checked, trav);
      r, visited := EmptyListed(checked, trav, list);
      if r == Stopped {
        OutOfOrder(heads[..], pool[..], cur, num, list, hash, chains, buckets);
        return;
      }
      if r == Aborted {
        return;
      }
      ResetList();
    }

    /** The end of a clear that has emptied every listed bucket. */
    method ResetList()
      requires heads != pool && clearNodes != null && clearNodes.Length == heads.Length == |buckets|
      requires forall k :: hash(k) < heads.Length
      requires StateOk(heads[..], pool[..], cur, num, Some([]), hash, chains, buckets)
      modifies this`clearNum
      ensures Valid() && buckets == NoBuckets(heads.Length) && num == 0 && ClearList() == Some([])
    {
      hide StateOk;
      AllCleared(heads[..], pool[..], cur, num, hash, chains, buckets);
      clearNum := 0;
      assert clearNodes[..0] == [];
    }

    /** st_dict_traverse. */
    method Traverse(checked: bool, trav: Entry -> bool) returns (r: Outcome, visited: seq<Entry>)
      requires Valid()
      ensures (r, visited) == Visit(AllItems(buckets, EveryHead(heads.Length)), checked, trav)
      ensures AcceptsAll(trav) ==> r != Stopped && (r == Aborted <==> checked && AnyTrips(buckets))
    {
      hide StateOk, Visit, Items, AllItems, WalkedTo, AcceptsAll, AnyTrips;
      ghost var all := EveryHead(heads.Length);
      forall h: nat | h < heads.Length
        ensures h in all
      {
        assert all[h] == h;
      }
      VisitAccepting(buckets, all, checked, trav);
      WalkedStart(buckets, all, checked, trav);
      visited := [];
      var id := 0;
      while id < heads.Length
        invariant 0 <= id <= heads.Length
        invariant WalkedTo(buckets, all, id, visited, checked, trav)
      {
        WalkedStep(buckets, all, id, visited, checked, trav);
        var more;
        r, more := VisitBucket(id, checked, trav);
        visited := visited + more;
        if r != Completed {
          return;
        }
        id := id + 1;
      }
      WalkedAll(buckets, all, visited, checked, trav);
      return Completed, visited;
    }

    /** One head and its chain. */
    method VisitBucket(h: nat, checked: bool, trav: Entry -> bool) returns (r: Outcome, visited: seq<Entry>)
      requires Valid() && h < heads.Length
      ensures (r, visited) == Visit(Items(buckets[h]), checked, trav)
    {
      hide StateOk, ChainReads, Link, Visit, VisitedTo, HalfZero;
      StateReads(heads[..], pool[..], cur, num, ClearList(), hash, chains, buckets, h);
      ghost var ps, b, c := pool[..], buckets[h], chains[h];
      ghost var items := Items(b);
      VisitStart(items, checked, trav);
      if Vacant(heads[h]) {
        VisitEnd(items, [], checked, trav);
        return Completed, [];
      }
      ChainAt(ps, cur, c, b, 0);
      VisitStep(items, 0, [], checked, trav);
      visited := [EntryOf(heads[h])];
      assert [] + visited == visited;
      if !trav(EntryOf(heads[h])) {
        return Stopped, visited;
      }
      var did := heads[h].next;
      while did != BAD
        invariant 1 <= |visited| <= |c| + 1 && did == Link(c, |visited| - 1)
        invariant VisitedTo(items, |visited|, visited, checked, trav)
        decreases |c| + 1 - |visited|
      {
        ghost var i := |visited|;
        ChainAt(ps, cur, c, b, i - 1);
        if did >= cur {
          assert false;  // "illegal next"
        }
        var work := pool[did];
        did := work.next;
        VisitStep(items, i, visited, checked, trav);
        if checked && HalfZero(KeyOf(work)) {
          return Aborted, visited;
        }
        visited := visited + [EntryOf(work)];
        if !trav(EntryOf(work)) {
          return Stopped, visited;
        }
      }
      ChainAt(ps, cur, c, b, |visited| - 1);
      VisitEnd(items, visited, checked, trav);
      return Completed, visited;
    }

    /** Called by Create with mask + 1 slots. */
    constructor (n: nat, realloc: uint32, hash: Key -> nat, needClear: bool)
      requires 0 < n <= BAD && HashOk(hash, n)
      ensures Valid() && fresh(heads) && fresh(pool) && (clearNodes != null ==> fresh(clearNodes))
      ensures heads.Length == pool.Length == n && cur == 0 && reallocNum == realloc && this.hash == hash
      ensures (clearNodes != null) == needClear && (needClear ==> ClearList() == Some([]))
      ensures buckets == NoBuckets(n)
    {
      this.hash := hash;
      reallocNum := realloc;
      heads := new Node[n](_ => ZERO);
      pool := new Node[n](_ => ZERO);
      cur, num, clearNum := 0, 0, 0;
      clearNodes := null;
      chains := seq(n, _ => []);
      buckets := NoBuckets(n);
      new;
      if needClear {
        clearNodes := new nat[n];
      }
      StartOk(n, 0, hash, needClear);
      assert heads[..] == seq(n, _ => ZERO) && pool[..] == seq(n, _ => ZERO);
    }
  }

  /** A bucket's visit is that of its head and then of its chain. */
  lemma BucketVisit(b: Bucket, checked: bool, trav: Entry -> bool)
    requires b != []
    ensures |Items(b)| == |b|
    ensures Visit(Items(b), checked, trav) ==
            if !trav(b[0]) then (Stopped, [b[0]])
            else (Visit(Items(b)[1..], checked, trav).0, [b[0]] + Visit(Items(b)[1..], checked, trav).1)
  {
  }

  lemma VacantListed(heads: seq<Node>, list: seq<nat>)
    ensures |list| > 0 && list[0] < |heads| && Vacant(heads[list[0]]) ==> !ListsOccupied(list, heads)
  {
  }

  /** A clear list that does not name the occupied heads belongs to no dictionary in order. */
  lemma OutOfOrder(heads: seq<Node>, pool: seq<Node>, cur: nat, num: nat, list: seq<nat>, hash: Key -> nat,
      chains: seq<Chain>, bs: seq<Bucket>)
    ensures !ListsOccupied(list, heads) ==> !StateOk(heads, pool, cur, num, Some(list), hash, chains, bs)
  {
  }

  lemma ListFacts(heads: seq<Node>, pool: seq<Node>, cur: nat, num: nat, list: seq<nat>, hash: Key -> nat,
      chains: seq<Chain>, bs: seq<Bucket>)
    requires StateOk(heads, pool, cur, num, Some(list), hash, chains, bs)
    ensures |bs| == |heads| && Distinct(list)
    ensures forall i :: 0 <= i < |list| ==> list[i] < |heads|
    ensures forall h :: 0 <= h < |heads| && h !in list ==> bs[h] == []
  {
    forall h | 0 <= h < |heads| && h !in list
      ensures bs[h] == []
    {
      assert HeadOk(heads[h], pool, cur, hash, h, chains[h]);
    }
  }

  /** What create makes of its hash callback: for NULL, `(sign1 + sign2) & mask` on 32 bits. */
  function HashOf(hashFunc: Option<(nat, Key) -> nat>, mask: nat, k: Key): nat {
    if hashFunc.Some? then hashFunc.value(mask, k) else And((k.sign1 + k.sign2) % 0x1_0000_0000, mask)
  }

  /** A dictionary of `n` heads hashes by its callback, which sees the mask n - 1. */
  ghost predicate HashFrom(hash: Key -> nat, hashFunc: Option<(nat, Key) -> nat>, n: nat) {
    n > 0 && forall k :: hash(k) == HashOf(hashFunc, n - 1, k)
  }

  /**
   * st_dict_create. The hash callback sees the mask; any callback whose result stays
   * within the mask will do, and NULL selects st_dict_hash_simple.
   */
  method Create(hashNum: uint32, realloc: uint32, hashFunc: Option<(nat, Key) -> nat>,
      needClear: bool) returns (d: Dictionary?)
    requires hashFunc.Some? ==> forall m, k :: hashFunc.value(m, k) <= m
    ensures d == null <==> hashNum == BAD || realloc == BAD
    ensures d != null ==>
      && fresh(d) && d.Valid() && fresh(d.heads) && fresh(d.pool) && (d.clearNodes != null ==> fresh(d.clearNodes))
      && d.heads.Length == d.pool.Length == HighestBitMask(hashNum as bv32, false) as nat + 1
      && d.cur == 0 && d.reallocNum == realloc && (d.clearNodes != null) == needClear
      && d.buckets == NoBuckets(d.heads.Length) && (needClear ==> d.ClearList() == Some([]))
      && HashFrom(d.hash, hashFunc, d.heads.Length)
  {
    if hashNum == BAD || realloc == BAD {
      return null;
    }
    var mask := HighestBitMask(hashNum as bv32, false);
    HighestBitMaskOnes(hashNum as bv32);
    NotAllOnes(mask);
    hide HighestBitMask, HashOf, HashSimple, StateOk;
    var m := mask as nat;
    DefaultHash(mask, m);
    var f: (nat, Key) -> nat := if hashFunc.Some? then hashFunc.value else HashSimple;
    assert forall k :: f(m, k) <= m;
    var hash := k => f(m, k);
    HashIs(hashFunc, m, f, hash);
    hide HashFrom;
    d := new Dictionary(m + 1, realloc, hash, needClear);
  }

  lemma HashIs(hashFunc: Option<(nat, Key) -> nat>, m: nat, f: (nat, Key) -> nat, hash: Key -> nat)
    requires forall k :: hash(k) == f(m, k)
    requires f == if hashFunc.Some? then hashFunc.value else HashSimple
    requires forall k :: HashSimple(m, k) == HashOf(None, m, k)
    ensures HashFrom(hash, hashFunc, m + 1)
  {
    hide And, Masked;
  }

  lemma DefaultHash(mask: bv32, m: nat)
    requires IsMask(mask) && m == mask as nat
    ensures forall k :: HashSimple(m, k) == HashOf(None, m, k)
  {
    var bits := MaskBits(mask);
    forall k
      ensures HashSimple(m, k) == HashOf(None, m, k)
    {
      HashesAre(m, k, bits);
    }
  }

  lemma NotAllOnes(m: bv32)
    requires m != 0xFFFF_FFFF
    ensures m as nat != 0xFFFF_FFFF && m as nat < 0x1_0000_0000
  {
    assert (m as nat) as bv32 == m;
  }
}
