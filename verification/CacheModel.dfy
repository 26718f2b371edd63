/** The bookkeeping of st_block_cache: reference counts and the free list. */
module CacheModel {
  import opened Util

  datatype Cache = Cache(refs: seq<nat>, free: seq<nat>)

  /** The free list holds exactly the ids with count 0, each once. */
  ghost predicate Consistent(c: Cache) {
    && Distinct(c.free)
    && (forall i :: 0 <= i < |c.free| ==> c.free[i] < |c.refs| && c.refs[c.free[i]] == 0)
    && (forall id :: 0 <= id < |c.refs| && c.refs[id] == 0 ==> id in c.free)
  }

  /** The free list names blocks of the cache: all that keeps a fetch within its arrays. */
  ghost predicate Ranged(c: Cache) {
    forall i :: 0 <= i < |c.free| ==> c.free[i] < |c.refs|
  }

  function Numbers(from: nat, n: nat): (s: seq<nat>)
    ensures |s| == n && forall i :: 0 <= i < n ==> s[i] == from + i
  {
    seq(n, i => from + i)
  }

  function Zeros(n: nat): (s: seq<nat>)
    ensures |s| == n && forall i :: 0 <= i < n ==> s[i] == 0
  {
    seq(n, _ => 0)
  }

  /** One more pool of `count` blocks, when the free list has run out. */
  function Grown(c: Cache, count: nat): Cache {
    if c.free == [] then Cache(c.refs + Zeros(count), Numbers(|c.refs|, count)) else c
  }

  /** Taking the last free id. */
  function Taken(c: Cache): (r: (Cache, nat))
    requires c.free != [] && forall i :: 0 <= i < |c.free| ==> c.free[i] < |c.refs|
  {
    var id := c.free[|c.free| - 1];
    (Cache(c.refs[id := c.refs[id] + 1], c.free[..|c.free| - 1]), id)
  }

  function Bumped(c: Cache, id: nat): Cache
    requires id < |c.refs|
  {
    c.(refs := c.refs[id := c.refs[id] + 1])
  }

  /** Dropping one reference; the last one puts the id back on the free list. */
  function Dropped(c: Cache, id: nat): Cache
    requires id < |c.refs| && c.refs[id] > 0
  {
    Cache(c.refs[id := c.refs[id] - 1], if c.refs[id] == 1 then c.free + [id] else c.free)
  }

  /** One reference less, and the id nowhere. */
  function Bared(c: Cache, id: nat): Cache
    requires id < |c.refs| && c.refs[id] > 0
  {
    c.(refs := c.refs[id := c.refs[id] - 1])
  }

  function Cleared(n: nat): Cache {
    Cache(Zeros(n), Numbers(0, n))
  }

  lemma GrownConsistent(c: Cache, count: nat)
    requires Consistent(c) && count > 0
    ensures Consistent(Grown(c, count)) && Grown(c, count).free != []
    ensures c.refs <= Grown(c, count).refs
  {
    var g := Grown(c, count);
    forall id | 0 <= id < |g.refs| && g.refs[id] == 0
      ensures id in g.free
    {
      if c.free == [] {
        assert g.free[id - |c.refs|] == id;
      }
    }
  }

  /** A new fetch hands out an id nobody holds. */
  lemma TakenConsistent(c: Cache)
    requires Consistent(c) && c.free != []
    ensures var (c', id) := Taken(c);
            Consistent(c') && c.refs[id] == 0 && c'.refs[id] == 1 && id !in c'.free
  {
    var (c', id) := Taken(c);
    forall i | 0 <= i < |c'.free|
      ensures c'.free[i] != id
    {
    }
    forall j | 0 <= j < |c'.refs| && c'.refs[j] == 0
      ensures j in c'.free
    {
      assert j in c.free;
      var i :| 0 <= i < |c.free| && c.free[i] == j;
      assert c'.free[i] == j;
    }
  }

  /** Fetching an id by number is sound exactly for ids in use. */
  lemma BumpedConsistentIff(c: Cache, id: nat)
    requires Consistent(c) && id < |c.refs|
    ensures Consistent(Bumped(c, id)) <==> c.refs[id] > 0
  {
    var b := Bumped(c, id);
    if c.refs[id] > 0 {
      forall j | 0 <= j < |b.refs| && b.refs[j] == 0
        ensures j in b.free
      {
        assert c.refs[j] == 0;
      }
    } else {
      assert id in c.free;
      var i :| 0 <= i < |c.free| && c.free[i] == id;
      assert b.free[i] == id && b.refs[id] != 0;
    }
  }

  lemma FetchRanged(c: Cache, count: nat)
    requires Ranged(c) && count > 0
    ensures Ranged(Grown(c, count)) && Grown(c, count).free != []
    ensures Ranged(Taken(Grown(c, count)).0)
  {
  }

  /** Fetching a free block by its number gets a block that the next fetch hands out as new. */
  lemma HandedOutTwice(c: Cache, count: nat)
    requires Consistent(c) && count > 0 && c.free != []
    ensures var id := c.free[|c.free| - 1];
            var (c1, r1) := Step(c, count, Fetch(id));
            r1 == Block(id) && !Consistent(c1) && Step(c1, count, FetchNew).1 == Block(id)
  {
    BumpedConsistentIff(c, c.free[|c.free| - 1]);
  }

  lemma DroppedConsistent(c: Cache, id: nat)
    requires Consistent(c) && id < |c.refs| && c.refs[id] > 0
    ensures Consistent(Dropped(c, id))
    ensures |c.free| < |c.refs|
  {
    var d := Dropped(c, id);
    DistinctFits(c.free, |c.refs|, {id});
    forall j | 0 <= j < |d.refs| && d.refs[j] == 0
      ensures j in d.free
    {
      if j != id {
        assert c.refs[j] == 0 && j in c.free;
      } else {
        assert d.free[|c.free|] == id;
      }
    }
  }

  lemma ClearedConsistent(n: nat)
    ensures Consistent(Cleared(n))
  {
    forall id | 0 <= id < n
      ensures id in Cleared(n).free
    {
      assert Cleared(n).free[id] == id;
    }
  }

  /** The ids in use, of which st_block_cache_size gives the number. */
  ghost function InUse(c: Cache): set<nat> {
    set id | id in Below(|c.refs|) && c.refs[id] > 0
  }

  lemma InUseCount(c: Cache)
    requires Consistent(c)
    ensures |InUse(c)| == |c.refs| - |c.free|
  {
    var free := set id | id in c.free;
    DistinctElements(c.free);
    FreeIffUnused(c);
    hide Consistent;
    assert InUse(c) !! free;
    assert InUse(c) + free == Below(|c.refs|);
  }

  lemma FreeIffUnused(c: Cache)
    requires Consistent(c)
    ensures forall id :: 0 <= id < |c.refs| ==> (c.refs[id] > 0 <==> id !in c.free)
    ensures forall id :: id in c.free ==> id < |c.refs|
  {
  }

  // ---- Runs ----

  /** A fetch of a new block, of a block in use by id, a return, or a clear. */
  datatype Op = FetchNew | Fetch(id: nat) | Return(id: nat) | Clear

  /** What the calls answer: the id of the block, success, or failure. */
  datatype Resp = Block(id: nat) | Ok | Failed

  function Step(c: Cache, count: nat, op: Op): (r: (Cache, Resp))
    requires count > 0
    requires forall i :: 0 <= i < |c.free| ==> c.free[i] < |c.refs|
  {
    match op
    case FetchNew => var (c', id) := Taken(Grown(c, count)); (c', Block(id))
    case Fetch(id) => if id < |c.refs| then (Bumped(c, id), Block(id)) else (c, Failed)
    case Return(id) => if id < |c.refs| && c.refs[id] > 0 then (Dropped(c, id), Ok) else (c, Failed)
    case Clear => (Cleared(|c.refs|), Ok)
  }

  /** The caller's side: an id is fetched by number only while in use. */
  predicate Allowed(c: Cache, op: Op) {
    op.Fetch? && op.id < |c.refs| ==> c.refs[op.id] > 0
  }

  lemma StepConsistent(c: Cache, count: nat, op: Op)
    requires Consistent(c) && count > 0 && Allowed(c, op)
    ensures Consistent(Step(c, count, op).0) && |c.refs| <= |Step(c, count, op).0.refs|
  {
    match op
    case FetchNew =>
      GrownConsistent(c, count);
      TakenConsistent(Grown(c, count));
    case Fetch(id) =>
      if id < |c.refs| {
        BumpedConsistentIff(c, id);
      }
    case Return(id) =>
      if id < |c.refs| && c.refs[id] > 0 {
        DroppedConsistent(c, id);
      }
    case Clear =>
      ClearedConsistent(|c.refs|);
  }

  datatype Event = Event(op: Op, resp: Resp)

  /** Successful fetches of `id` minus successful returns of it since the last clear, read off the trace. */
  function Outstanding(trace: seq<Event>, id: nat): int {
    if trace == [] then 0
    else
      var before, e := Outstanding(trace[..|trace| - 1], id), trace[|trace| - 1];
      if e.op.Clear? then 0
      else if e.resp == Block(id) then before + 1
      else if e.op == Return(id) && e.resp == Ok then before - 1
      else before
  }

  /** A trace of calls answered by the cache, from creation to state `c`. */
  ghost predicate Reaches(trace: seq<Event>, count: nat, c: Cache)
    requires count > 0
  {
    if trace == [] then c == Cleared(count)
    else
      var e := trace[|trace| - 1];
      exists b :: Consistent(b) && Allowed(b, e.op) && Reaches(trace[..|trace| - 1], count, b)
        && Step(b, count, e.op) == (c, e.resp)
  }

  /** In every run the counts are the outstanding fetches, and ids beyond the capacity have none. */
  lemma {:induction false} CountsAreOutstanding(trace: seq<Event>, count: nat, c: Cache, id: nat)
    requires count > 0 && Reaches(trace, count, c)
    ensures Consistent(c)
    ensures Outstanding(trace, id) == if id < |c.refs| then c.refs[id] else 0
    decreases |trace|
  {
    if trace == [] {
      ClearedConsistent(count);
    } else {
      var init, e := trace[..|trace| - 1], trace[|trace| - 1];
      var b :| Consistent(b) && Allowed(b, e.op) && Reaches(init, count, b) && Step(b, count, e.op) == (c, e.resp);
      CountsAreOutstanding(init, count, b, id);
      StepConsistent(b, count, e.op);
      StepCounts(b, count, e.op, id);
    }
  }

  /** One more call. */
  lemma ReachesMore(trace: seq<Event>, count: nat, b: Cache, op: Op)
    requires count > 0 && Reaches(trace, count, b) && Consistent(b) && Allowed(b, op)
    ensures Reaches(trace + [Event(op, Step(b, count, op).1)], count, Step(b, count, op).0)
  {
    var more := trace + [Event(op, Step(b, count, op).1)];
    assert more[..|more| - 1] == trace;
  }

  /** How one call changes one count. */
  lemma StepCounts(c: Cache, count: nat, op: Op, id: nat)
    requires Consistent(c) && count > 0
    ensures var (c', r) := Step(c, count, op);
            var before := if id < |c.refs| then c.refs[id] else 0;
            var after := if id < |c'.refs| then c'.refs[id] else 0;
            after == if op.Clear? then 0
                     else if r == Block(id) then before + 1
                     else if op == Return(id) && r == Ok then before - 1
                     else before
  {
    GrownConsistent(c, count);
  }

  /** So a fetched new block was not in use, and is from then on until it is returned as often as fetched. */
  lemma NewBlockWasUnused(trace: seq<Event>, count: nat, c: Cache)
    requires count > 0 && Reaches(trace, count, c)
    ensures Consistent(c)
    ensures Step(c, count, FetchNew).1.Block? && Outstanding(trace, Step(c, count, FetchNew).1.id) == 0
  {
    CountsAreOutstanding(trace, count, c, 0);
    GrownConsistent(c, count);
    TakenConsistent(Grown(c, count));
    CountsAreOutstanding(trace, count, c, Step(c, count, FetchNew).1.id);
  }
}
