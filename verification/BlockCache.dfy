/** st_block_cache: a growing allocator of fixed-size blocks with reference counts. */
module BlockCache {
  import opened Util
  import opened CacheModel

  /** A block's address: the pool it lies in and the offset within it. */
  datatype Address = Address(pool: array<bv8>, offset: nat)

  class Cache32 {
    const blockSize: nat
    const count: nat              // blocks in one pool
    var data: seq<array<bv8>>     // the pools; num_pools is its length
    var refCounts: array<nat>
    var freeBlocks: array<nat>
    var numFree: nat

    ghost function View(): Cache
      requires numFree <= freeBlocks.Length
      reads this, refCounts, freeBlocks
    {
      Cache(refCounts[..], freeBlocks[..numFree])
    }

    /** st_block_cache_capacity. */
    function Capacity(): nat
      reads this
    {
      |data| * count
    }

    ghost predicate PoolsOk()
      reads this
    {
      && Distinct(data)
      && forall p :: 0 <= p < |data| ==> data[p].Length == blockSize * count
    }

    /** Enough for fetch to stay within its arrays. */
    ghost predicate Shaped()
      reads this, refCounts, freeBlocks
    {
      && blockSize > 0 && count > 0
      && refCounts != freeBlocks
      && refCounts.Length == freeBlocks.Length == Capacity() <= INT32_MAX
      && numFree <= freeBlocks.Length
      && Ranged(View())
      && PoolsOk()
    }

    ghost predicate Valid()
      reads this, refCounts, freeBlocks
    {
      Shaped() && Consistent(View())
    }

    /** Where block `id` lies: st_bcache_get_block. */
    ghost function BlockAt(id: nat): Address
      requires count > 0 && id / count < |data|
      reads this
    {
      Address(data[id / count], blockSize * (id % count))
    }

    /** st_block_cache_create. */
    constructor (blockSize: nat, count: nat)
      requires blockSize > 0 && 0 < count <= INT32_MAX
      ensures Valid() && View() == Cleared(count)
      ensures this.blockSize == blockSize && this.count == count && |data| == 1
      ensures fresh(refCounts) && fresh(freeBlocks) && fresh(data[0])
    {
      this.blockSize, this.count := blockSize, count;
      var pool := new bv8[blockSize * count];
      data := [pool];
      refCounts := new nat[count](_ => 0);
      freeBlocks := new nat[count](i => i);
      numFree := count;
      new;
      ClearedConsistent(count);
      assert refCounts[..] == Zeros(count) && freeBlocks[..numFree] == Numbers(0, count);
    }

    /** st_block_cache_size. */
    function Size(): int
      reads this
    {
      Capacity() - numFree
    }

    /** In a cache in order that is the number of blocks in use. */
    lemma SizeIsInUse()
      requires Valid()
      ensures Size() == |InUse(View())|
    {
      InUseCount(View());
    }

    /** st_block_cache_clear. */
    method Clear()
      requires Shaped()
      modifies this`numFree, refCounts, freeBlocks
      ensures Valid() && View() == Cleared(Capacity())
    {
      var capacity := Capacity();
      for i := 0 to capacity
        invariant forall j :: 0 <= j < i ==> refCounts[j] == 0
      {
        refCounts[i] := 0;
      }
      for i := 0 to capacity
        invariant forall j :: 0 <= j < i ==> freeBlocks[j] == j
        invariant forall j :: 0 <= j < capacity ==> refCounts[j] == 0
      {
        freeBlocks[i] := i;
      }
      numFree := capacity;
      ClearedConsistent(capacity);
      assert refCounts[..] == Zeros(capacity) && freeBlocks[..numFree] == Numbers(0, capacity);
    }

    /** The growing half of st_bcache_get_free_block; old pools, and so the addresses of old blocks, stay. */
    method Grow()
      requires Shaped() && (numFree == 0 ==> Capacity() + count <= INT32_MAX)
      modifies this`data, this`refCounts, this`freeBlocks, this`numFree
      ensures Shaped() && View() == Grown(old(View()), count) && numFree > 0
      ensures |data| == old(|data|) + if old(numFree) == 0 then 1 else 0
      ensures old(data) <= data && forall id: nat :: id / count < old(|data|) ==> BlockAt(id) == old(BlockAt(id))
      ensures (refCounts == old(refCounts) || fresh(refCounts)) && (freeBlocks == old(freeBlocks) || fresh(freeBlocks))
    {
      hide Ranged;
      ghost var v := View();
      FetchRanged(v, count);
      if numFree <= 0 {
        var capacity := Capacity();
        var pool := new bv8[blockSize * count];
        ghost var pools := data;
        assert pool !in pools;
        data := data + [pool];
        MorePools(pools, pool);
        OneMorePool(|pools|, count);
        var refs := Enlarge(refCounts, count);
        var free := Enlarge(freeBlocks, count);
        Renumber(free, capacity, count);
        refCounts, freeBlocks, numFree := refs, free, count;
        assert View() == Grown(v, count);
      }
    }

    /** st_bcache_get_free_block. */
    method GetFreeBlock() returns (id: nat, ghost g: Cache)
      requires Shaped() && (numFree == 0 ==> Capacity() + count <= INT32_MAX)
      modifies this`data, this`refCounts, this`freeBlocks, this`numFree
      ensures |data| == old(|data|) + if old(numFree) == 0 then 1 else 0
      ensures old(data) <= data && PoolsOk() && blockSize > 0 && count > 0
      ensures forall id: nat :: id / count < old(|data|) ==> BlockAt(id) == old(BlockAt(id))
      ensures (refCounts == old(refCounts) || fresh(refCounts)) && (freeBlocks == old(freeBlocks) || fresh(freeBlocks))
      ensures refCounts != freeBlocks && refCounts.Length == freeBlocks.Length == Capacity() <= INT32_MAX
      ensures numFree < freeBlocks.Length && id < refCounts.Length
      ensures g == Grown(old(View()), count) && Ranged(g) && |g.free| == numFree + 1
      ensures refCounts[..] == g.refs && freeBlocks[..numFree] == g.free[..numFree] && id == g.free[numFree]
    {
      FetchRanged(View(), count);
      if numFree <= 0 {
        Grow();
      }
      g := View();
      numFree := numFree - 1;
      id := freeBlocks[numFree];
    }

    /**
     * st_block_cache_fetch; a negative id asks for a new block. Asked for a block by its id, the cache stays in
     * order exactly when that block is in use.
     */
    method Fetch(id0: int) returns (block: Option<Address>, id: int)
      requires Shaped()
      requires id0 < 0 && numFree == 0 ==> Capacity() + count <= INT32_MAX
      modifies this`data, this`refCounts, this`freeBlocks, this`numFree, refCounts
      ensures Shaped() && old(data) <= data
      ensures |data| == old(|data|) + if id0 < 0 && old(numFree) == 0 then 1 else 0
      ensures old(Valid()) ==> (Valid() <==> (0 <= id0 < old(Capacity()) ==> old(refCounts[..])[id0] > 0))
      ensures forall id: nat :: id / count < old(|data|) ==> BlockAt(id) == old(BlockAt(id))
      ensures (refCounts == old(refCounts) || fresh(refCounts)) && (freeBlocks == old(freeBlocks) || fresh(freeBlocks))
      ensures id0 < 0 ==> id >= 0 && (View(), Block(id)) == Step(old(View()), count, FetchNew)
      ensures id0 >= 0 ==>
        id == id0 && (View(), if block.Some? then Block(id) else Failed) == Step(old(View()), count, Op.Fetch(id0))
      ensures block.Some? <==> id0 < old(Capacity())
      ensures block.Some? ==> id < Capacity() && id / count < |data| && block.value == BlockAt(id)
    {
      hide Consistent, Grown, Ranged, Distinct, PoolsOk;
      if id0 >= Capacity() {
        return None, id0;
      }
      ghost var v, after := View(), View();
      id := id0;
      if id < 0 {
        FetchRanged(v, count);
        NewConsistent(v, count);
        ghost var g;
        id, g := GetFreeBlock();
        after := Taken(g).0;
      } else {
        FetchByIdConsistent(v, id0);
        after := Bumped(v, id0);
      }
      refCounts[id] := refCounts[id] + 1;
      assert View() == after;
      PoolOf(id, |data|, count);
      block := Some(Address(data[id / count], blockSize * (id % count)));
    }

    /**
     * st_block_cache_return. In a cache that is not in order the last reference may find the free list full, and
     * its id is then written past the list.
     */
    method Return(id: int) returns (ok: bool, overrun: bool)
      requires Shaped()
      modifies this`numFree, refCounts, freeBlocks
      ensures Shaped() && (old(Valid()) ==> Valid() && !overrun)
      ensures overrun <==> 0 <= id < Capacity() && old(refCounts[..])[id] == 1 && old(numFree) == Capacity()
      ensures overrun ==> View() == Bared(old(View()), id)
      ensures !overrun ==> (ok <==> 0 <= id < Capacity() && old(refCounts[..])[id] > 0)
      ensures !overrun && id < 0 ==> !ok && View() == old(View())
      ensures !overrun && id >= 0 ==> (View(), if ok then Ok else Failed) == Step(old(View()), count, Op.Return(id))
    {
      hide Consistent;
      overrun := false;
      if id < 0 || id >= Capacity() || refCounts[id] <= 0 {
        return false, false;
      }
      ghost var v := View();
      ReturnConsistent(v, id);
      refCounts[id] := refCounts[id] - 1;
      if refCounts[id] <= 0 {
        if numFree == freeBlocks.Length {
          return false, true;
        }
        freeBlocks[numFree] := id;  // st_bcache_return_block
        numFree := numFree + 1;
        assert freeBlocks[..numFree] == v.free + [id];
      }
      return true, false;
    }

    /** st_block_cache_read. */
    method Read(id: int) returns (block: Option<Address>)
      requires Shaped()
      ensures block.Some? <==> 0 <= id < Capacity() && refCounts[id] > 0
      ensures block.Some? ==> id / count < |data| && block.value == BlockAt(id)
    {
      if id < 0 || id >= Capacity() || refCounts[id] <= 0 {
        return None;
      }
      PoolOf(id, |data|, count);
      return Some(Address(data[id / count], blockSize * (id % count)));
    }

    /** Every block lies inside its pool, and different ids never share a byte. */
    lemma BlocksDisjoint(id: nat, other: nat)
      requires Valid() && id < Capacity() && other < Capacity() && id != other
      ensures id / count < |data| && other / count < |data|
      ensures var x, y := BlockAt(id), BlockAt(other);
              && x.offset + blockSize <= x.pool.Length
              && (x.pool != y.pool || x.offset + blockSize <= y.offset || y.offset + blockSize <= x.offset)
    {
      PoolOf(id, |data|, count);
      PoolOf(other, |data|, count);
      var i, j := id % count, other % count;
      MulBound(i + 1, count, blockSize);
      Commutes(blockSize, i, count);
      if id / count == other / count {
        assert i != j by {
          SamePool(id, other, count);
        }
        if i < j {
          MulBound(i + 1, j, blockSize);
        } else {
          MulBound(j + 1, i, blockSize);
        }
        Commutes(blockSize, j, count);
      }
    }
  }

  lemma NewConsistent(c: Cache, count: nat)
    requires Ranged(c) && count > 0
    ensures Grown(c, count).free != [] && Ranged(Grown(c, count))
    ensures Consistent(c) ==> Consistent(Taken(Grown(c, count)).0)
  {
    FetchRanged(c, count);
    if Consistent(c) {
      GrownConsistent(c, count);
      TakenConsistent(Grown(c, count));
    }
  }

  lemma ReturnConsistent(c: Cache, id: nat)
    requires Ranged(c) && id < |c.refs| && c.refs[id] > 0
    ensures Ranged(Dropped(c, id)) && Ranged(Bared(c, id))
    ensures Consistent(c) ==> Consistent(Dropped(c, id)) && |c.free| < |c.refs|
  {
    if Consistent(c) {
      DroppedConsistent(c, id);
    }
  }

  lemma FetchByIdConsistent(c: Cache, id: nat)
    requires Ranged(c) && id < |c.refs|
    ensures Ranged(Bumped(c, id))
    ensures Consistent(c) ==> (Consistent(Bumped(c, id)) <==> c.refs[id] > 0)
  {
    if Consistent(c) {
      BumpedConsistentIff(c, id);
    }
  }

  // ---- Runs ----

  /** Every id's count is what was fetched of it and not returned since the last clear. */
  ghost predicate CountsOutstanding(c: Cache32, trace: seq<Event>)
    reads c, c.refCounts
  {
    forall id: nat :: Outstanding(trace, id) == if id < c.refCounts.Length then c.refCounts[id] else 0
  }

  /** The cache is in order, and `trace` is what has been called on it. */
  ghost predicate InOrder(c: Cache32, trace: seq<Event>)
    reads c, c.refCounts, c.freeBlocks
  {
    c.Valid() && Reaches(trace, c.count, c.View())
  }

  /**
   * A whole run of calls on a cache whose calls so far are in `trace0`. It goes on until a block that nobody
   * holds is fetched by its id; up to then the cache is in order and its counts are the outstanding fetches.
   */
  method Execute(c: Cache32, ops: seq<Op>, ghost trace0: seq<Event>) returns (trace: seq<Event>, broken: bool)
    requires InOrder(c, trace0)
    requires |c.data| * c.count + |ops| * c.count <= INT32_MAX
    modifies c, c.refCounts, c.freeBlocks
    ensures |trace| <= |ops| && forall i :: 0 <= i < |trace| ==> trace[i].op == ops[i]
    ensures !broken ==> |trace| == |ops| && InOrder(c, trace0 + trace) && CountsOutstanding(c, trace0 + trace)
    ensures broken ==> |trace| > 0 && !c.Valid() && HeldByNobody(trace0 + trace[..|trace| - 1], trace[|trace| - 1])
  {
    hide InOrder, HeldByNobody, CountsOutstanding, Cache32.Valid;
    trace, broken := [], false;
    assert trace0 + [] == trace0;
    for i := 0 to |ops|
      invariant |trace| == i && forall j :: 0 <= j < i ==> trace[j].op == ops[j]
      invariant InOrder(c, trace0 + trace)
      invariant c.refCounts == old(c.refCounts) || fresh(c.refCounts)
      invariant c.freeBlocks == old(c.freeBlocks) || fresh(c.freeBlocks)
      invariant |c.data| * c.count + (|ops| - i) * c.count <= INT32_MAX
    {
      FitsOneMore(|c.data|, |ops| - i, c.count);
      var e, idle := ExecuteOne(c, ops[i], trace0 + trace);
      TraceLonger(trace0, trace, e);
      trace := trace + [e];
      if idle {
        return trace, true;
      }
    }
    AllCounts(c, trace0 + trace);
  }

  /** A fetch by id that got a block without any outstanding fetch. */
  ghost predicate HeldByNobody(trace: seq<Event>, e: Event) {
    e.op.Fetch? && e.resp == Block(e.op.id) && Outstanding(trace, e.op.id) == 0
  }

  lemma TraceLonger(trace0: seq<Event>, trace: seq<Event>, e: Event)
    ensures (trace + [e])[..|trace|] == trace && trace0 + (trace + [e]) == (trace0 + trace) + [e]
  {
  }

  method ExecuteOne(c: Cache32, op: Op, ghost trace: seq<Event>) returns (e: Event, idle: bool)
    requires InOrder(c, trace) && c.Capacity() + c.count <= INT32_MAX
    modifies c, c.refCounts, c.freeBlocks
    ensures e.op == op && old(|c.data|) <= |c.data| <= old(|c.data|) + 1
    ensures c.refCounts == old(c.refCounts) || fresh(c.refCounts)
    ensures c.freeBlocks == old(c.freeBlocks) || fresh(c.freeBlocks)
    ensures !idle ==> InOrder(c, trace + [e])
    ensures idle ==> !c.Valid() && HeldByNobody(trace, e)
  {
    hide Consistent, Reaches, Outstanding, Step;
    ghost var before := c.View();
    if op.Fetch? {
      CountsAreOutstanding(trace, c.count, before, op.id);
    }
    idle := op.Fetch? && op.id < c.refCounts.Length && c.refCounts[op.id] == 0;
    e := Apply(c, op);
    if idle {
      FetchedById(before, c.count, op.id);
    } else {
      ReachesMore(trace, c.count, before, op);
    }
  }

  lemma AllCounts(c: Cache32, trace: seq<Event>)
    requires InOrder(c, trace)
    ensures CountsOutstanding(c, trace)
  {
    hide Reaches, Outstanding, Consistent;
    forall id: nat
      ensures Outstanding(trace, id) == if id < c.refCounts.Length then c.refCounts[id] else 0
    {
      CountsAreOutstanding(trace, c.count, c.View(), id);
    }
  }

  lemma FetchedById(c: Cache, count: nat, id: nat)
    requires Ranged(c) && count > 0 && id < |c.refs|
    ensures Step(c, count, Fetch(id)).1 == Block(id)
  {
  }

  lemma FitsOneMore(pools: nat, left: nat, count: nat)
    requires left > 0 && pools * count + left * count <= INT32_MAX
    ensures pools * count + count <= INT32_MAX
    ensures (pools + 1) * count + (left - 1) * count <= INT32_MAX && pools * count + (left - 1) * count <= INT32_MAX
  {
    assert left * count == (left - 1) * count + count && (pools + 1) * count == pools * count + count;
  }

  method Apply(c: Cache32, op: Op) returns (e: Event)
    requires c.Valid() && c.Capacity() + c.count <= INT32_MAX
    modifies c, c.refCounts, c.freeBlocks
    ensures e.op == op && c.Shaped() && old(|c.data|) <= |c.data| <= old(|c.data|) + 1
    ensures (c.View(), e.resp) == Step(old(c.View()), c.count, op)
    ensures c.Valid() <==> Allowed(old(c.View()), op)
    ensures c.refCounts == old(c.refCounts) || fresh(c.refCounts)
    ensures c.freeBlocks == old(c.freeBlocks) || fresh(c.freeBlocks)
  {
    hide Consistent, Grown, Ranged;
    match op
    case FetchNew =>
      var block, id := c.Fetch(-1);
      e := Event(op, Block(id));
    case Fetch(id0) =>
      var block, id := c.Fetch(id0);
      e := Event(op, if block.Some? then Block(id) else Failed);
    case Return(id) =>
      var ok, overrun := c.Return(id);
      e := Event(op, if ok then Ok else Failed);
    case Clear =>
      c.Clear();
      e := Event(op, Ok);
  }

  /** A held block handed out as new: fetched by its id while free, then again as a new one. */
  method HeldBlockAsNew() returns (c: Cache32, x: Option<Address>, y: Option<Address>, id: int)
    ensures c.Shaped() && id == 0 && c.refCounts[..] == [2]
    ensures x.Some? && x == y
  {
    hide Step, Cleared, Ranged, Consistent;
    HeldSteps();
    c := new Cache32(1, 1);
    var zero;
    x, zero := c.Fetch(0);
    assert c.View() == Cache([1], [0]);
    y, id := c.Fetch(-1);
    assert c.View() == Cache([2], []);
  }

  lemma HeldSteps()
    ensures Ranged(Cleared(1)) && Ranged(Cache([1], [0]))
    ensures Step(Cleared(1), 1, Fetch(0)) == (Cache([1], [0]), Block(0))
    ensures Step(Cache([1], [0]), 1, FetchNew) == (Cache([2], []), Block(0))
  {
    assert Cleared(1) == Cache([0], [0]);
    var none, one: seq<nat> := [0], [1];
    assert none[0 := 1] == one && one[0 := 2] == [2] && none[..0] == [];
    assert Taken(Cache(one, none)) == (Cache([2], []), 0);
  }

  /** A return past the free list: the block was free when it was fetched by its id. */
  method ReturnPastTheList() returns (c: Cache32, x: Option<Address>, overrun: bool)
    ensures x.Some? && overrun
  {
    c := new Cache32(1, 1);
    var id, ok;
    x, id := c.Fetch(0);
    ok, overrun := c.Return(0);
  }

  /** st_realloc to a longer array, the new part zeroed. */
  method Enlarge(a: array<nat>, extra: nat) returns (b: array<nat>)
    ensures fresh(b) && b[..] == a[..] + Zeros(extra)
  {
    b := new nat[a.Length + extra](_ => 0);
    forall i | 0 <= i < a.Length {
      b[i] := a[i];
    }
  }

  /** The new pool's ids at the front of the free list. */
  method Renumber(free: array<nat>, from: nat, count: nat)
    requires count <= free.Length
    modifies free
    ensures free[..count] == Numbers(from, count)
  {
    for i := 0 to count
      invariant forall j :: 0 <= j < i ==> free[j] == from + j
    {
      free[i] := i + from;
    }
  }

  lemma PoolOf(id: int, pools: nat, count: nat)
    requires count > 0 && 0 <= id < pools * count
    ensures 0 <= id / count < pools && 0 <= id % count < count
  {
    var q, r := id / count, id % count;
    assert id == q * count + r;
    if q >= pools {
      MulBound(pools, q, count);
    }
  }

  lemma SamePool(x: nat, y: nat, count: nat)
    requires count > 0 && x / count == y / count && x != y
    ensures x % count != y % count
  {
    assert x == x / count * count + x % count;
    assert y == y / count * count + y % count;
  }

  lemma Commutes(b: nat, i: nat, n: nat)
    ensures b * i + b == (i + 1) * b && b * i == i * b && b * n == n * b
  {
  }

  lemma MorePools(pools: seq<array<bv8>>, pool: array<bv8>)
    requires Distinct(pools) && pool !in pools
    ensures Distinct(pools + [pool]) && pools <= pools + [pool]
  {
  }

  lemma OneMorePool(n: nat, count: nat)
    ensures (n + 1) * count == n * count + count
  {
  }
}
