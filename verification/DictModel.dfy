/**
 * What an st_dict holds, bucket by bucket, and the finite map it stands for.
 *
 * A bucket lists the entries of one hash value in the order a seek meets them:
 * the head slot first, then the overflow chain.
 */
module DictModel {
  import opened Util

  type uint32 = x: int | 0 <= x < 0x1_0000_0000

  datatype Key = Key(sign1: uint32, sign2: uint32)
  datatype Entry = Entry(key: Key, val: uint32)

  const NO_KEY := Key(0, 0)

  type Bucket = seq<Entry>

  ghost predicate HashOk(hash: Key -> nat, n: nat) {
    forall k :: hash(k) < n
  }

  /** The first entry accepted by the equality callback, as seek finds it. */
  function FirstMatch(b: Bucket, eq: Entry -> bool): (r: Option<uint32>)
  {
    if b == [] then None
    else if eq(b[0]) then Some(b[0].val)
    else FirstMatch(b[1..], eq)
  }

  /** A new entry goes into the empty head slot, otherwise to the front of the overflow chain. */
  function Insert(b: Bucket, e: Entry): (r: Bucket) {
    if b == [] then [e] else [b[0], e] + b[1..]
  }

  /** The update callback: old value and new data to the stored value and success. */
  type Updater = (uint32, uint32) -> (uint32, bool)

  /** The first accepted entry gets the callback's value. */
  function UpdateFirst(b: Bucket, eq: Entry -> bool, f: uint32 -> uint32): (r: Bucket)
    ensures |r| == |b|
  {
    if b == [] then []
    else if eq(b[0]) then [b[0].(val := f(b[0].val))] + b[1..]
    else [b[0]] + UpdateFirst(b[1..], eq, f)
  }

  lemma {:induction false} FirstMatchAt(b: Bucket, eq: Entry -> bool, i: nat)
    requires i <= |b|
    requires forall j :: 0 <= j < i ==> !eq(b[j])
    requires i < |b| ==> eq(b[i])
    ensures FirstMatch(b, eq) == if i < |b| then Some(b[i].val) else None
  {
    if i > 0 {
      FirstMatchAt(b[1..], eq, i - 1);
    }
  }

  lemma {:induction false} UpdateFirstAt(b: Bucket, eq: Entry -> bool, f: uint32 -> uint32, i: nat)
    requires i < |b| && eq(b[i])
    requires forall j :: 0 <= j < i ==> !eq(b[j])
    ensures UpdateFirst(b, eq, f) == b[i := b[i].(val := f(b[i].val))]
  {
    if i > 0 {
      UpdateFirstAt(b[1..], eq, f, i - 1);
    }
  }

  /** The default st_dict_node_equal, with the sought key as its second node. */
  function SameKey(k: Key): Entry -> bool {
    (e: Entry) => e.key == k
  }

  function Total(bs: seq<Bucket>): nat {
    if bs == [] then 0 else |bs[0]| + Total(bs[1..])
  }

  lemma {:induction false} TotalUpdate(bs: seq<Bucket>, h: nat, b: Bucket)
    requires h < |bs|
    ensures Total(bs[h := b]) == Total(bs) - |bs[h]| + |b|
  {
    if h == 0 {
      assert bs[h := b][1..] == bs[1..];
    } else {
      assert bs[h := b][1..] == bs[1..][h - 1 := b];
      TotalUpdate(bs[1..], h - 1, b);
    }
  }

  lemma {:induction false} TotalEmpty(bs: seq<Bucket>)
    requires forall h :: 0 <= h < |bs| ==> bs[h] == []
    ensures Total(bs) == 0
  {
    if bs != [] {
      TotalEmpty(bs[1..]);
    }
  }

  function NoBuckets(n: nat): (bs: seq<Bucket>)
    ensures |bs| == n && forall h :: 0 <= h < n ==> bs[h] == []
  {
    seq(n, _ => [])
  }

  // ---- Operations with the default equality ----

  datatype Op =
    | Add(key: Key, val: uint32)
    | Seek(key: Key)
    | Update(key: Key, val: uint32)
    | Clear(trav: Entry -> bool)  // true for an entry the callback accepts

  /** Failed is the C return value -1; Found carries the value a seek delivers. */
  datatype Resp = Done | Found(val: uint32) | Failed

  ghost predicate RejectsIn(bs: seq<Bucket>, trav: Entry -> bool) {
    exists h, i :: 0 <= h < |bs| && 0 <= i < |bs[h]| && !trav(bs[h][i])
  }

  ghost predicate Rejects(m: map<Key, uint32>, trav: Entry -> bool) {
    exists k :: k in m && !trav(Entry(k, m[k]))
  }

  /** A clear whose callback rejects an entry is to fail and change nothing. */
  ghost function StepBuckets(bs: seq<Bucket>, hash: Key -> nat, upd: Updater, clearable: bool, op: Op)
    : (r: (seq<Bucket>, Resp))
    requires forall k :: hash(k) < |bs|
    ensures |r.0| == |bs|
  {
    match op
    case Clear(trav) =>
      if clearable && !RejectsIn(bs, trav) then (NoBuckets(|bs|), Done) else (bs, Failed)
    case Seek(k) =>
      if k == NO_KEY then (bs, Failed)
      else (match FirstMatch(bs[hash(k)], SameKey(k)) case Some(v) => (bs, Found(v)) case None => (bs, Failed))
    case Add(k, v) =>
      if k == NO_KEY || FirstMatch(bs[hash(k)], SameKey(k)).Some? then (bs, Failed)
      else (bs[hash(k) := Insert(bs[hash(k)], Entry(k, v))], Done)
    case Update(k, v) =>
      if k == NO_KEY then (bs, Failed)
      else
        var b := bs[hash(k)];
        (match FirstMatch(b, SameKey(k))
         case Some(o) =>
           (bs[hash(k) := UpdateFirst(b, SameKey(k), x => upd(x, v).0)], if upd(o, v).1 then Done else Failed)
         case None => (bs[hash(k) := Insert(b, Entry(k, v))], Done))
  }

  ghost function StepMap(m: map<Key, uint32>, upd: Updater, clearable: bool, op: Op): (map<Key, uint32>, Resp) {
    match op
    case Clear(trav) =>
      if clearable && !Rejects(m, trav) then (map[], Done) else (m, Failed)
    case Seek(k) =>
      if k in m then (m, Found(m[k])) else (m, Failed)
    case Add(k, v) =>
      if k == NO_KEY || k in m then (m, Failed) else (m[k := v], Done)
    case Update(k, v) =>
      if k == NO_KEY then (m, Failed)
      else if k in m then (m[k := upd(m[k], v).0], if upd(m[k], v).1 then Done else Failed)
      else (m[k := v], Done)
  }

  /** Seeking `k` in its bucket finds what the map holds. */
  ghost predicate Agrees(bs: seq<Bucket>, hash: Key -> nat, m: map<Key, uint32>, k: Key)
    requires hash(k) < |bs|
  {
    FirstMatch(bs[hash(k)], SameKey(k)) == if k in m then Some(m[k]) else None
  }

  /** Every entry of bucket `h` is one of the map's bindings, and no two are the same. */
  ghost predicate Holds(b: Bucket, h: nat, hash: Key -> nat, m: map<Key, uint32>) {
    && (forall i :: 0 <= i < |b| ==> b[i].key in m && m[b[i].key] == b[i].val && hash(b[i].key) == h)
    && (forall i, j :: 0 <= i < j < |b| ==> b[i].key != b[j].key)
  }

  /** The buckets hold the map's bindings, each once and under its hash value. */
  ghost predicate Represents(bs: seq<Bucket>, hash: Key -> nat, m: map<Key, uint32>) {
    && HashOk(hash, |bs|)
    && Total(bs) == |m|
    && NO_KEY !in m
    && (forall k :: Agrees(bs, hash, m, k))
    && (forall h :: 0 <= h < |bs| ==> Holds(bs[h], h, hash, m))
  }

  lemma {:induction false} FirstMatchFinds(b: Bucket, eq: Entry -> bool)
    ensures FirstMatch(b, eq).None? ==> forall e :: e in b ==> !eq(e)
    ensures FirstMatch(b, eq).Some? ==> exists e :: e in b && eq(e) && e.val == FirstMatch(b, eq).value
  {
    if b != [] {
      assert b == [b[0]] + b[1..];
      FirstMatchFinds(b[1..], eq);
      if eq(b[0]) {
        assert b[0] in b;
      }
    }
  }

  lemma PutHolds(b: Bucket, g: nat, hash: Key -> nat, m: map<Key, uint32>, k: Key, v: uint32)
    requires Holds(b, g, hash, m) && k !in m
    ensures Holds(b, g, hash, m[k := v])
    ensures hash(k) == g ==> Holds(Insert(b, Entry(k, v)), g, hash, m[k := v])
  {
  }

  lemma {:induction false} UpdateFirstEntries(b: Bucket, k: Key, f: uint32 -> uint32, i: nat)
    requires i < |b| && forall j, l :: 0 <= j < l < |b| ==> b[j].key != b[l].key
    ensures UpdateFirst(b, SameKey(k), f)[i] == if b[i].key == k then b[i].(val := f(b[i].val)) else b[i]
  {
    if i > 0 && b[0].key != k {
      UpdateFirstEntries(b[1..], k, f, i - 1);
    }
  }

  lemma ChangeHolds(b: Bucket, g: nat, hash: Key -> nat, m: map<Key, uint32>, k: Key, f: uint32 -> uint32)
    requires Holds(b, g, hash, m) && k in m
    ensures hash(k) != g ==> Holds(b, g, hash, m[k := f(m[k])])
    ensures hash(k) == g ==> Holds(UpdateFirst(b, SameKey(k), f), g, hash, m[k := f(m[k])])
  {
    forall i | 0 <= i < |b|
      ensures UpdateFirst(b, SameKey(k), f)[i] == if b[i].key == k then b[i].(val := f(b[i].val)) else b[i]
    {
      UpdateFirstEntries(b, k, f, i);
    }
  }

  /** What a callback sees in the buckets it sees in the map. */
  lemma RejectsSame(bs: seq<Bucket>, hash: Key -> nat, m: map<Key, uint32>, trav: Entry -> bool)
    requires Represents(bs, hash, m)
    ensures RejectsIn(bs, trav) <==> Rejects(m, trav)
  {
    if h, i :| 0 <= h < |bs| && 0 <= i < |bs[h]| && !trav(bs[h][i]) {
      assert Holds(bs[h], h, hash, m);
      assert bs[h][i] == Entry(bs[h][i].key, m[bs[h][i].key]);
    }
    if k :| k in m && !trav(Entry(k, m[k])) {
      assert Agrees(bs, hash, m, k);
      FirstMatchFinds(bs[hash(k)], SameKey(k));
      var i :| 0 <= i < |bs[hash(k)]| && bs[hash(k)][i] == Entry(k, m[k]);
    }
  }

  lemma {:induction false} FirstMatchInsert(b: Bucket, e: Entry, k: Key)
    requires FirstMatch(b, SameKey(e.key)).None?
    ensures FirstMatch(Insert(b, e), SameKey(k)) == if k == e.key then Some(e.val) else FirstMatch(b, SameKey(k))
  {
    if b != [] {
      assert Insert(b, e)[1..] == [e] + b[1..];
      assert ([e] + b[1..])[1..] == b[1..];
    }
  }

  lemma {:induction false} FirstMatchUpdate(b: Bucket, k: Key, f: uint32 -> uint32, k': Key)
    ensures FirstMatch(UpdateFirst(b, SameKey(k), f), SameKey(k')) ==
            match FirstMatch(b, SameKey(k'))
            case Some(v) => Some(if k' == k then f(v) else v)
            case None => None
  {
    if b != [] {
      FirstMatchUpdate(b[1..], k, f, k');
      var u := UpdateFirst(b, SameKey(k), f);
      assert u[1..] == if b[0].key == k then b[1..] else UpdateFirst(b[1..], SameKey(k), f);
    }
  }

  lemma StartRepresents(n: nat, hash: Key -> nat)
    requires HashOk(hash, n)
    ensures Represents(NoBuckets(n), hash, map[])
  {
    TotalEmpty(NoBuckets(n));
  }

  lemma PutRepresents(bs: seq<Bucket>, hash: Key -> nat, m: map<Key, uint32>, k: Key, v: uint32)
    requires Represents(bs, hash, m) && k != NO_KEY && k !in m
    ensures Represents(bs[hash(k) := Insert(bs[hash(k)], Entry(k, v))], hash, m[k := v])
  {
    var h := hash(k);
    var bs' := bs[h := Insert(bs[h], Entry(k, v))];
    TotalUpdate(bs, h, Insert(bs[h], Entry(k, v)));
    assert Agrees(bs, hash, m, k);
    var m' := m[k := v];
    assert m'.Keys == m.Keys + {k};
    forall k'
      ensures Agrees(bs', hash, m', k')
    {
      assert Agrees(bs, hash, m, k');
      if hash(k') == h {
        FirstMatchInsert(bs[h], Entry(k, v), k');
      }
    }
    forall g | 0 <= g < |bs'|
      ensures Holds(bs'[g], g, hash, m')
    {
      assert Holds(bs[g], g, hash, m);
      PutHolds(bs[g], g, hash, m, k, v);
    }
  }

  lemma ChangeRepresents(bs: seq<Bucket>, hash: Key -> nat, m: map<Key, uint32>, k: Key, f: uint32 -> uint32)
    requires Represents(bs, hash, m) && k in m
    ensures Represents(bs[hash(k) := UpdateFirst(bs[hash(k)], SameKey(k), f)], hash, m[k := f(m[k])])
  {
    var h := hash(k);
    var bs' := bs[h := UpdateFirst(bs[h], SameKey(k), f)];
    TotalUpdate(bs, h, UpdateFirst(bs[h], SameKey(k), f));
    var m' := m[k := f(m[k])];
    assert m'.Keys == m.Keys;
    forall k'
      ensures Agrees(bs', hash, m', k')
    {
      assert Agrees(bs, hash, m, k');
      if hash(k') == h {
        FirstMatchUpdate(bs[h], k, f, k');
      }
    }
    forall g | 0 <= g < |bs'|
      ensures Holds(bs'[g], g, hash, m')
    {
      assert Holds(bs[g], g, hash, m);
      ChangeHolds(bs[g], g, hash, m, k, f);
    }
  }

  /** One operation: same answer, and the results still correspond. */
  lemma StepRefines(bs: seq<Bucket>, hash: Key -> nat, upd: Updater, clearable: bool, m: map<Key, uint32>, op: Op)
    requires Represents(bs, hash, m)
    ensures var (bs', r) := StepBuckets(bs, hash, upd, clearable, op);
            var (m', r') := StepMap(m, upd, clearable, op);
            r == r' && Represents(bs', hash, m')
  {
    match op
    case Clear(trav) =>
      RejectsSame(bs, hash, m, trav);
      StartRepresents(|bs|, hash);
    case Seek(k) =>
      assert Agrees(bs, hash, m, k);
    case Add(k, v) =>
      assert Agrees(bs, hash, m, k);
      if k != NO_KEY && k !in m {
        PutRepresents(bs, hash, m, k, v);
      }
    case Update(k, v) =>
      assert Agrees(bs, hash, m, k);
      if k != NO_KEY {
        if k in m {
          ChangeRepresents(bs, hash, m, k, x => upd(x, v).0);
        } else {
          PutRepresents(bs, hash, m, k, v);
        }
      }
  }

  ghost function RunMap(m: map<Key, uint32>, upd: Updater, clearable: bool, ops: seq<Op>)
    : (r: (map<Key, uint32>, seq<Resp>))
    ensures |r.1| == |ops|
    decreases |ops|
  {
    if ops == [] then (m, [])
    else
      var (m', r) := StepMap(m, upd, clearable, ops[0]);
      var (m'', rs) := RunMap(m', upd, clearable, ops[1..]);
      (m'', [r] + rs)
  }

  lemma {:induction false} RunMapSnoc(m: map<Key, uint32>, upd: Updater, clearable: bool, ops: seq<Op>, op: Op)
    ensures var (m', rs) := RunMap(m, upd, clearable, ops);
            var (m'', r) := StepMap(m', upd, clearable, op);
            RunMap(m, upd, clearable, ops + [op]) == (m'', rs + [r])
    decreases |ops|
  {
    if ops == [] {
      assert ops + [op] == [op] && [op][1..] == [];
      var (m1, r1) := StepMap(m, upd, clearable, op);
      assert RunMap(m1, upd, clearable, []) == (m1, []);
      assert [r1] + [] == [] + [r1];
    } else {
      assert (ops + [op])[1..] == ops[1..] + [op];
      var (m1, r1) := StepMap(m, upd, clearable, ops[0]);
      RunMapSnoc(m1, upd, clearable, ops[1..], op);
      var (m', rs) := RunMap(m1, upd, clearable, ops[1..]);
      var (m'', r) := StepMap(m', upd, clearable, op);
      assert [r1] + (rs + [r]) == ([r1] + rs) + [r];
    }
  }
}
