/** Binary heaps as sequences: order with one spot broken, and how a swap moves the break. */
module HeapOrder {
  import opened Ordering

  function Parent(i: int): (p: int)
    ensures i > 0 ==> 0 <= p < i
  {
    (i - 1) / 2
  }

  ghost predicate Ordered(cmp: (int, int) -> int, s: seq<int>, j: int)
    requires 0 < j < |s|
  {
    Le(cmp, s[Parent(j)], s[j])
  }

  ghost predicate HeapOrdered(cmp: (int, int) -> int, s: seq<int>) {
    forall j :: 0 < j < |s| ==> Ordered(cmp, s, j)
  }

  /** The children of `i` are in order with the parent of `i`. */
  ghost predicate Bridged(cmp: (int, int) -> int, s: seq<int>, i: int) {
    0 < i < |s| ==> forall j :: 0 < j < |s| && Parent(j) == i ==> Le(cmp, s[Parent(i)], s[j])
  }

  /** In order but for `i` and its parent. */
  ghost predicate UpBroken(cmp: (int, int) -> int, s: seq<int>, i: int) {
    (forall j :: 0 < j < |s| && j != i ==> Ordered(cmp, s, j)) && Bridged(cmp, s, i)
  }

  /** In order but for `i` and its children. */
  ghost predicate DownBroken(cmp: (int, int) -> int, s: seq<int>, i: int) {
    (forall j :: 0 < j < |s| && Parent(j) != i ==> Ordered(cmp, s, j)) && Bridged(cmp, s, i)
  }

  lemma SwapUp(cmp: (int, int) -> int, s: seq<int>, i: int)
    requires TotalPreorder(cmp)
    requires 0 < i < |s| && UpBroken(cmp, s, i) && !Le(cmp, s[Parent(i)], s[i])
    ensures UpBroken(cmp, Swapped(s, i, Parent(i)), Parent(i))
  {
    var q, t := Parent(i), Swapped(s, i, Parent(i));
    LeTotal(cmp, s[q], s[i]);
    forall j | 0 < j < |t| && j != q
      ensures Ordered(cmp, t, j)
    {
      if j != i {
        assert Ordered(cmp, s, j);
        if Parent(j) == q {
          LeTrans(cmp, s[i], s[q], s[j]);
        }
      }
    }
    if q > 0 {
      assert Ordered(cmp, s, q);
      forall j | 0 < j < |t| && Parent(j) == q
        ensures Le(cmp, t[Parent(q)], t[j])
      {
        if j != i {
          assert Ordered(cmp, s, j);
          LeTrans(cmp, s[Parent(q)], s[q], s[j]);
        }
      }
    }
  }

  lemma SwapDown(cmp: (int, int) -> int, s: seq<int>, i: int, c: int)
    requires TotalPreorder(cmp)
    requires 0 <= i < c < |s| && Parent(c) == i && DownBroken(cmp, s, i)
    requires forall j :: 0 < j < |s| && Parent(j) == i ==> Le(cmp, s[c], s[j])
    requires Le(cmp, s[c], s[i])
    ensures DownBroken(cmp, Swapped(s, i, c), c)
  {
    var t := Swapped(s, i, c);
    forall j | 0 < j < |t| && Parent(j) != c
      ensures Ordered(cmp, t, j)
    {
      if Parent(j) != i {
        assert Ordered(cmp, s, j);
      }
    }
    forall j | 0 < j < |t| && Parent(j) == c
      ensures Le(cmp, t[Parent(c)], t[j])
    {
      assert Ordered(cmp, s, j);
    }
  }

  /** No break left: the parent is not above. */
  lemma UpDone(cmp: (int, int) -> int, s: seq<int>, i: int)
    requires UpBroken(cmp, s, i) && (0 < i < |s| ==> Ordered(cmp, s, i))
    ensures HeapOrdered(cmp, s)
  {
  }

  /** No break left: no child is below. */
  lemma DownDone(cmp: (int, int) -> int, s: seq<int>, i: int)
    requires DownBroken(cmp, s, i)
    requires forall j :: 0 < j < |s| && Parent(j) == i ==> Ordered(cmp, s, j)
    ensures HeapOrdered(cmp, s)
  {
  }

  /** The root is a least element. */
  lemma {:induction false} RootIsLeast(cmp: (int, int) -> int, s: seq<int>, k: int)
    requires TotalPreorder(cmp) && HeapOrdered(cmp, s) && 0 <= k < |s|
    ensures Le(cmp, s[0], s[k])
    decreases k
  {
    if k == 0 {
      LeTotal(cmp, s[0], s[0]);
    } else {
      assert Ordered(cmp, s, k);
      RootIsLeast(cmp, s, Parent(k));
      LeTrans(cmp, s[0], s[Parent(k)], s[k]);
    }
  }

  lemma AppendBreaksUp(cmp: (int, int) -> int, s: seq<int>, x: int)
    requires HeapOrdered(cmp, s)
    ensures UpBroken(cmp, s + [x], |s|)
  {
    var t := s + [x];
    forall j | 0 < j < |t| && j != |s|
      ensures Ordered(cmp, t, j)
    {
      assert Ordered(cmp, s, j);
    }
  }

  /** The last element takes the root's place. */
  function WithoutRoot(s: seq<int>): (t: seq<int>)
    requires |s| > 0
    ensures |t| == |s| - 1
  {
    if |s| == 1 then [] else s[..|s| - 1][0 := s[|s| - 1]]
  }

  lemma ReplaceRootBreaksDown(cmp: (int, int) -> int, s: seq<int>)
    requires HeapOrdered(cmp, s) && |s| > 1
    ensures DownBroken(cmp, WithoutRoot(s), 0)
  {
    var t := s[..|s| - 1][0 := s[|s| - 1]];
    forall j | 0 < j < |t| && Parent(j) != 0
      ensures Ordered(cmp, t, j)
    {
      assert Ordered(cmp, s, j);
    }
  }

  // ---- Changing one key ----

  /** `cmp'` compares as `cmp` does, except where `x` is involved. */
  ghost predicate AgreeBut(cmp: (int, int) -> int, cmp': (int, int) -> int, x: int) {
    forall y, z :: y != x && z != x ==> cmp'(y, z) == cmp(y, z)
  }

  ghost predicate OnlyAt(s: seq<int>, x: int, i: int) {
    0 <= i < |s| && forall j :: 0 <= j < |s| ==> (s[j] == x <==> j == i)
  }

  /** After the key of one element has decreased, fixup's precondition holds at its position. */
  lemma DecreasedBreaksUp(cmp: (int, int) -> int, cmp': (int, int) -> int, s: seq<int>, i: int, x: int)
    requires TotalPreorder(cmp) && HeapOrdered(cmp, s) && OnlyAt(s, x, i)
    requires AgreeBut(cmp, cmp', x) && forall y :: Le(cmp, x, y) ==> Le(cmp', x, y)
    ensures UpBroken(cmp', s, i)
  {
    forall j | 0 < j < |s| && j != i
      ensures Ordered(cmp', s, j)
    {
      assert Ordered(cmp, s, j);
    }
    BridgedAfterChange(cmp, cmp', s, i, x);
  }

  /** After the key of one element has increased, fixdown's does. */
  lemma IncreasedBreaksDown(cmp: (int, int) -> int, cmp': (int, int) -> int, s: seq<int>, i: int, x: int)
    requires TotalPreorder(cmp) && HeapOrdered(cmp, s) && OnlyAt(s, x, i)
    requires AgreeBut(cmp, cmp', x) && forall y :: Le(cmp, y, x) ==> Le(cmp', y, x)
    ensures DownBroken(cmp', s, i)
  {
    forall j | 0 < j < |s| && Parent(j) != i
      ensures Ordered(cmp', s, j)
    {
      assert Ordered(cmp, s, j);
    }
    BridgedAfterChange(cmp, cmp', s, i, x);
  }

  lemma BridgedAfterChange(cmp: (int, int) -> int, cmp': (int, int) -> int, s: seq<int>, i: int, x: int)
    requires TotalPreorder(cmp) && HeapOrdered(cmp, s) && OnlyAt(s, x, i) && AgreeBut(cmp, cmp', x)
    ensures Bridged(cmp', s, i)
  {
    if 0 < i {
      forall j | 0 < j < |s| && Parent(j) == i
        ensures Le(cmp', s[Parent(i)], s[j])
      {
        assert Ordered(cmp, s, i) && Ordered(cmp, s, j);
        LeTrans(cmp, s[Parent(i)], s[i], s[j]);
      }
    }
  }

  // ---- The index of positions ----

  const ID_RANGE: int := 0x1_0000_0000

  /** `(st_heap_id_t)(long)obj`: an object's slot in heap_index. */
  function Slot(x: int): (r: nat)
    ensures r < ID_RANGE && (x - r) % ID_RANGE == 0 && (0 <= x < ID_RANGE ==> r == x)
  {
    x % ID_RANGE
  }

  /** `heap_index[data_arr[p]] == p` for every position in use. */
  ghost predicate IndexOk(s: seq<int>, idx: seq<int>, max: int) {
    && max <= |idx|
    && forall p :: 0 <= p < |s| ==> Slot(s[p]) < max && idx[Slot(s[p])] == p
  }

  lemma SwapIndex(s: seq<int>, idx: seq<int>, max: int, i: int, j: int)
    requires IndexOk(s, idx, max) && 0 <= i < |s| && 0 <= j < |s| && i != j
    ensures IndexOk(Swapped(s, i, j), idx[Slot(s[j]) := i][Slot(s[i]) := j], max)
  {
    hide Slot;
  }

  /** A slot of heap_index that belongs to none of the objects. */
  ghost predicate Idle(s: seq<int>, k: int) {
    forall p :: 0 <= p < |s| ==> Slot(s[p]) != k
  }

  /** Such slots stay as they are, and stay idle. */
  ghost predicate IdleKept(s: seq<int>, idx: seq<int>, s': seq<int>, idx': seq<int>) {
    && |idx'| == |idx|
    && forall k :: 0 <= k < |idx| && Idle(s, k) ==> Idle(s', k) && idx'[k] == idx[k]
  }

  /** The slots that belong neither to one of the objects nor to `but` stay as they are. */
  ghost predicate OthersKept(s: seq<int>, but: int, idx: seq<int>, idx': seq<int>) {
    |idx'| == |idx| && forall k :: 0 <= k < |idx| && k != but && Idle(s, k) ==> idx'[k] == idx[k]
  }

  lemma OthersKeptInsert(s: seq<int>, x: int, idx: seq<int>, t: seq<int>, idx': seq<int>, p: int)
    requires 0 <= Slot(x) < |idx| && IdleKept(s + [x], idx[Slot(x) := p], t, idx')
    ensures OthersKept(s, Slot(x), idx, idx')
  {
    hide Slot;
  }

  lemma OthersKeptExtract(s: seq<int>, idx: seq<int>, idx': seq<int>, t: seq<int>, idx'': seq<int>)
    requires |s| > 0 && OthersKept(s, Slot(s[0]), idx, idx') && IdleKept(WithoutRoot(s), idx', t, idx'')
    ensures OthersKept(s, Slot(s[0]), idx, idx'')
  {
    hide Slot;
    assert |s| > 1 ==> WithoutRoot(s)[0] == s[|s| - 1];
  }

  lemma SwapKeepsIdle(s: seq<int>, idx: seq<int>, max: int, i: int, j: int)
    requires IndexOk(s, idx, max) && 0 <= i < |s| && 0 <= j < |s|
    ensures IdleKept(s, idx, Swapped(s, i, j), idx[Slot(s[j]) := i][Slot(s[i]) := j])
  {
    hide Slot;
  }

  lemma IdleKeptTrans(s: seq<int>, idx: seq<int>, s': seq<int>, idx': seq<int>, s'': seq<int>, idx'': seq<int>)
    requires IdleKept(s, idx, s', idx') && IdleKept(s', idx', s'', idx'')
    ensures IdleKept(s, idx, s'', idx'')
  {
  }

  lemma IdleKeptSame(s: seq<int>, idx: seq<int>)
    ensures IdleKept(s, idx, s, idx)
  {
  }

  lemma IdleSlot(s: seq<int>, idx: seq<int>, s': seq<int>, idx': seq<int>, k: int)
    requires IdleKept(s, idx, s', idx') && 0 <= k < |idx| && Idle(s, k)
    ensures |idx'| == |idx| && idx'[k] == idx[k]
  {
  }

  /** The root's own slot is idle once the root is gone. */
  lemma RootSlotIdle(s: seq<int>, idx: seq<int>, max: int)
    requires IndexOk(s, idx, max) && |s| > 0
    ensures Idle(WithoutRoot(s), Slot(s[0]))
  {
    hide Slot;
    assert idx[Slot(s[0])] == 0 && idx[Slot(s[|s| - 1])] == |s| - 1;
  }
}
