/** st_heap: a binary heap over an array, with an optional index of positions. */
module Heap {
  import opened Util
  import opened Ordering
  import opened HeapOrder

  const OK := 0
  const ERR := -1
  const FULL := 1
  const EMPTY := 2

  class IndexedHeap {
    var data: array<int>        // data_arr, capacity long
    var size: nat
    var cmp: (int, int) -> int  // cmp with its args: how the objects' keys compare now
    var heapIndex: array?<int>  // heap_index
    var maxIndex: nat           // max_heap_index_num

    /** The objects in the heap, in array order. */
    ghost function Objects(): (s: seq<int>)
      requires size <= data.Length
      reads this, data
      ensures |s| == size
    {
      data[..size]
    }

    /** Everything but the order. */
    ghost predicate Sound()
      reads this, data, heapIndex
    {
      && size <= data.Length <= INT32_MAX
      && data != heapIndex
      && (heapIndex != null ==> IndexOk(Objects(), heapIndex[..], maxIndex))
    }

    ghost predicate Valid()
      reads this, data, heapIndex
    {
      Sound() && HeapOrdered(cmp, Objects())
    }

    /** st_heap_create. */
    constructor (capacity: nat, cmp: (int, int) -> int, heapIndex: array?<int>, maxIndex: nat)
      requires 0 < capacity <= INT32_MAX
      requires heapIndex != null ==> maxIndex <= heapIndex.Length
      ensures Valid() && size == 0 && data.Length == capacity && fresh(data)
      ensures this.cmp == cmp && this.heapIndex == heapIndex && this.maxIndex == maxIndex
    {
      data := new int[capacity];
      size := 0;
      this.cmp, this.heapIndex, this.maxIndex := cmp, heapIndex, maxIndex;
    }

    /** The exchange both loops make: objects first, then their slots. */
    method Exchange(i: nat, j: nat)
      requires Sound() && i < size && j < size && i != j
      modifies data, heapIndex
      ensures Sound() && Objects() == Swapped(old(Objects()), i, j)
      ensures data[size..] == old(data[size..])
      ensures heapIndex != null ==> IdleKept(old(Objects()), old(heapIndex[..]), Objects(), heapIndex[..])
    {
      hide IdleKept;
      ghost var s := Objects();
      if heapIndex != null {
        SwapIndex(s, heapIndex[..], maxIndex, i, j);
        SwapKeepsIdle(s, heapIndex[..], maxIndex, i, j);
      }
      var temp := data[i];
      data[i] := data[j];
      data[j] := temp;
      if heapIndex != null {
        heapIndex[Slot(data[i])] := i;
        heapIndex[Slot(temp)] := j;
      }
      assert Objects() == Swapped(s, i, j);
    }

    /** st_heap_fixup: restores the order after the object at `index` has moved down in rank. */
    method Fixup(index0: nat) returns (r: int)
      requires Sound() && TotalPreorder(cmp)
      requires index0 < size ==> UpBroken(cmp, Objects(), index0)
      modifies data, heapIndex
      ensures Sound()
      ensures r == if old(index0 < size) then OK else ERR
      ensures r == OK ==> HeapOrdered(cmp, Objects()) && multiset(Objects()) == multiset(old(Objects()))
      ensures r == ERR ==> Objects() == old(Objects())
      ensures heapIndex != null ==> IdleKept(old(Objects()), old(heapIndex[..]), Objects(), heapIndex[..])
    {
      hide IndexOk, UpBroken, HeapOrdered, IdleKept;
      ghost var s0, idx0 := Objects(), if heapIndex == null then [] else heapIndex[..];
      IdleKeptSame(s0, idx0);
      if size <= index0 {
        return ERR;
      }
      var index: nat := index0;
      while index != 0
        invariant index < size && Sound()
        invariant UpBroken(cmp, Objects(), index)
        invariant multiset(Objects()) == multiset(old(Objects()))
        invariant heapIndex != null ==> IdleKept(s0, idx0, Objects(), heapIndex[..])
        decreases index
      {
        var parent := Parent(index);
        if cmp(data[parent], data[index]) <= 0 {
          break;
        }
        ghost var s, idx := Objects(), if heapIndex == null then [] else heapIndex[..];
        SwapUp(cmp, s, index);
        Exchange(index, parent);
        if heapIndex != null {
          IdleKeptTrans(s0, idx0, s, idx, Objects(), heapIndex[..]);
        }
        SwapPermutes(s, index, parent, 0, |s|);
        index := parent;
      }
      UpDone(cmp, Objects(), index);
      return OK;
    }

    /** The smaller child, the first one on ties. */
    method SmallerChild(index: nat, child0: nat) returns (child: nat)
      requires Sound() && TotalPreorder(cmp)
      requires child0 == 2 * index + 1 < size
      ensures index < child < size && Parent(child) == index
      ensures forall j :: 0 < j < size && Parent(j) == index ==> Le(cmp, Objects()[child], Objects()[j])
    {
      child := child0;
      LeTotal(cmp, data[child], data[child]);
      if child + 1 < size {
        LeTotal(cmp, data[child + 1], data[child]);
        LeTotal(cmp, data[child + 1], data[child + 1]);
        if cmp(data[child + 1], data[child]) < 0 {
          child := child + 1;
        }
      }
      ChildrenOf(index, size);
    }

    /** st_heap_fixdown: restores the order after the object at `index` has moved up in rank. */
    method Fixdown(index0: nat) returns (r: int)
      requires Sound() && TotalPreorder(cmp)
      requires index0 < size ==> DownBroken(cmp, Objects(), index0)
      modifies data, heapIndex
      ensures Sound()
      ensures r == if old(index0 < size) then OK else ERR
      ensures r == OK ==> HeapOrdered(cmp, Objects()) && multiset(Objects()) == multiset(old(Objects()))
      ensures r == ERR ==> Objects() == old(Objects())
      ensures heapIndex != null ==> IdleKept(old(Objects()), old(heapIndex[..]), Objects(), heapIndex[..])
    {
      hide IndexOk, DownBroken, HeapOrdered, IdleKept;
      ghost var s0, idx0 := Objects(), if heapIndex == null then [] else heapIndex[..];
      IdleKeptSame(s0, idx0);
      if size <= index0 {
        return ERR;
      }
      var index: nat := index0;
      var child := 2 * index + 1;
      while child < size
        invariant index < size && child == 2 * index + 1 && Sound()
        invariant DownBroken(cmp, Objects(), index)
        invariant multiset(Objects()) == multiset(old(Objects()))
        invariant heapIndex != null ==> IdleKept(s0, idx0, Objects(), heapIndex[..])
        decreases size - index
      {
        child := SmallerChild(index, child);
        ghost var s, idx := Objects(), if heapIndex == null then [] else heapIndex[..];
        LeTotal(cmp, data[child], data[index]);
        LeTotal(cmp, data[index], data[child]);
        if cmp(data[child], data[index]) >= 0 {
          ChildrenInOrder(cmp, s, index, child);
          DownDone(cmp, s, index);
          return OK;
        }
        SwapDown(cmp, s, index, child);
        Exchange(index, child);
        if heapIndex != null {
          IdleKeptTrans(s0, idx0, s, idx, Objects(), heapIndex[..]);
        }
        SwapPermutes(s, index, child, 0, |s|);
        index := child;
        child := 2 * index + 1;
      }
      ChildrenOf(index, size);
      DownDone(cmp, Objects(), index);
      return OK;
    }

    /** st_heap_insert. */
    method Insert(obj: int) returns (r: int)
      requires Valid() && TotalPreorder(cmp)
      requires heapIndex != null ==> forall p :: 0 <= p < size ==> Slot(Objects()[p]) != Slot(obj)
      modifies `size, data, heapIndex
      ensures Valid()
      ensures r == if old(size) >= data.Length || (heapIndex != null && Slot(obj) >= maxIndex) then FULL else OK
      ensures r == OK ==> size == old(size) + 1 && multiset(Objects()) == old(multiset(Objects())) + multiset{obj}
      ensures r == FULL ==> Objects() == old(Objects())
      ensures heapIndex != null ==> OthersKept(old(Objects()), Slot(obj), old(heapIndex[..]), heapIndex[..])
    {
      hide HeapOrdered, UpBroken, IdleKept, OthersKept, Slot;
      ghost var s, idx := Objects(), if heapIndex == null then [] else heapIndex[..];
      NothingChanged(s, Slot(obj), idx);
      if size >= data.Length {
        return FULL;
      }
      if heapIndex != null && Slot(obj) >= maxIndex {
        return FULL;
      }
      AppendBreaksUp(cmp, s, obj);
      Append(obj);
      ghost var idx1 := if heapIndex == null then [] else heapIndex[..];
      if size == 1 {
        SingleOrdered(cmp, Objects());
        IdleKeptSame(Objects(), idx1);
        if heapIndex != null {
          OthersKeptInsert(s, obj, idx, Objects(), idx1, size - 1);
        }
        return OK;
      }
      r := Fixup(size - 1);
      if heapIndex != null {
        OthersKeptInsert(s, obj, idx, Objects(), heapIndex[..], size - 1);
      }
    }

    method Append(obj: int)
      requires Sound() && size < data.Length
      requires heapIndex != null ==> Slot(obj) < maxIndex
      requires heapIndex != null ==> forall p :: 0 <= p < size ==> Slot(Objects()[p]) != Slot(obj)
      modifies `size, data, heapIndex
      ensures Sound() && size == old(size) + 1 && Objects() == old(Objects()) + [obj]
      ensures heapIndex != null ==> Slot(obj) < heapIndex.Length
      ensures heapIndex != null ==> heapIndex[..] == old(heapIndex[..])[Slot(obj) := size - 1]
    {
      ghost var s := Objects();
      data[size] := obj;
      size := size + 1;
      assert Objects() == s + [obj];
      if heapIndex != null {
        heapIndex[Slot(obj)] := size - 1;
      }
    }

    /** st_heap_extract: a least object leaves the heap. */
    method Extract() returns (r: int, obj: int)
      requires Valid() && TotalPreorder(cmp)
      modifies `size, data, heapIndex
      ensures Valid()
      ensures r == if old(size) == 0 then EMPTY else OK
      ensures r == EMPTY ==> Objects() == old(Objects())
      ensures r == OK ==>
        && size == old(size) - 1
        && old(multiset(Objects())) == multiset(Objects()) + multiset{obj}
        && (forall p :: 0 <= p < old(size) ==> Le(cmp, obj, old(Objects())[p]))
        && (heapIndex != null ==> Slot(obj) < heapIndex.Length && heapIndex[Slot(obj)] == UINT32_MAX)
      ensures heapIndex != null ==>
        (r == EMPTY ==> heapIndex[..] == old(heapIndex[..]))
        && (r == OK ==> OthersKept(old(Objects()), Slot(obj), old(heapIndex[..]), heapIndex[..]))
    {
      if size == 0 {
        return EMPTY, 0;
      }
      hide HeapOrdered, IndexOk, Le, Slot, OthersKept;
      ghost var s := Objects();
      RootBelowAll(cmp, s);
      RemovedRoot(s);
      obj := RemoveRoot();
      return OK, obj;
    }

    /** Extracting from a heap that is not empty. */
    method RemoveRoot() returns (obj: int)
      requires Valid() && TotalPreorder(cmp) && size > 0
      modifies `size, data, heapIndex
      ensures Valid() && size == old(size) - 1 && obj == old(Objects())[0]
      ensures multiset(Objects()) == multiset(WithoutRoot(old(Objects())))
      ensures heapIndex != null ==> Slot(obj) < heapIndex.Length && heapIndex[Slot(obj)] == UINT32_MAX
      ensures heapIndex != null ==> OthersKept(old(Objects()), Slot(obj), old(heapIndex[..]), heapIndex[..])
    {
      hide IndexOk, IdleKept, OthersKept, Idle, Slot, HeapOrdered, DownBroken;
      ghost var s0, idx0 := Objects(), if heapIndex == null then [] else heapIndex[..];
      if size > 1 {
        ReplaceRootBreaksDown(cmp, Objects());
      }
      obj := TakeRoot();
      if size == 0 {
        NoneOrdered(cmp, Objects());
        return;
      }
      ghost var t, idx := Objects(), if heapIndex == null then [] else heapIndex[..];
      var _ := Fixdown(0);
      if heapIndex != null {
        IdleSlot(t, idx, Objects(), heapIndex[..], Slot(obj));
        OthersKeptExtract(s0, idx0, idx, Objects(), heapIndex[..]);
      }
    }

    /** The root leaves, the last object takes its place. */
    method TakeRoot() returns (obj: int)
      requires Sound() && size > 0
      modifies `size, data, heapIndex
      ensures Sound() && size == old(size) - 1 && obj == old(Objects())[0]
      ensures Objects() == WithoutRoot(old(Objects()))
      ensures heapIndex != null ==>
        Slot(obj) < heapIndex.Length && heapIndex[Slot(obj)] == UINT32_MAX && Idle(Objects(), Slot(obj))
      ensures heapIndex != null ==> OthersKept(old(Objects()), Slot(obj), old(heapIndex[..]), heapIndex[..])
    {
      ghost var s := Objects();
      if heapIndex != null {
        RootSlotIdle(s, heapIndex[..], maxIndex);
      }
      obj := data[0];
      size := size - 1;
      if heapIndex != null {
        heapIndex[Slot(obj)] := UINT32_MAX;  // -1
      }
      if size == 0 {
        return;
      }
      data[0] := data[size];
      if heapIndex != null {
        heapIndex[Slot(data[0])] := 0;
      }
      assert Objects() == s[..size][0 := s[size]];
    }
  }

  lemma RootBelowAll(cmp: (int, int) -> int, s: seq<int>)
    requires TotalPreorder(cmp) && HeapOrdered(cmp, s) && |s| > 0
    ensures forall p :: 0 <= p < |s| ==> Le(cmp, s[0], s[p])
  {
    forall p | 0 <= p < |s|
      ensures Le(cmp, s[0], s[p])
    {
      RootIsLeast(cmp, s, p);
    }
  }

  lemma NothingChanged(s: seq<int>, but: int, idx: seq<int>)
    ensures OthersKept(s, but, idx, idx)
  {
  }

  lemma NoneOrdered(cmp: (int, int) -> int, s: seq<int>)
    requires s == []
    ensures HeapOrdered(cmp, s)
  {
  }

  lemma ChildrenOf(index: nat, size: nat)
    ensures forall j :: 0 < j < size && Parent(j) == index ==> j == 2 * index + 1 || j == 2 * index + 2
  {
  }

  lemma ChildrenInOrder(cmp: (int, int) -> int, s: seq<int>, index: nat, child: nat)
    requires TotalPreorder(cmp) && index < |s| && child < |s| && Le(cmp, s[index], s[child])
    requires forall j :: 0 < j < |s| && Parent(j) == index ==> Le(cmp, s[child], s[j])
    ensures forall j :: 0 < j < |s| && Parent(j) == index ==> Ordered(cmp, s, j)
  {
    forall j | 0 < j < |s| && Parent(j) == index
      ensures Ordered(cmp, s, j)
    {
      LeTrans(cmp, s[index], s[child], s[j]);
    }
  }

  lemma SingleOrdered(cmp: (int, int) -> int, s: seq<int>)
    requires |s| == 1
    ensures HeapOrdered(cmp, s)
  {
  }

  lemma RemovedRoot(s: seq<int>)
    requires |s| > 0
    ensures multiset(s) == multiset{s[0]} + multiset(WithoutRoot(s))
  {
    if |s| == 1 {
      assert s == [s[0]];
    } else {
      var last := s[|s| - 1];
      assert s == [s[0]] + s[1..|s| - 1] + [last];
      assert s[..|s| - 1][0 := last] == [last] + s[1..|s| - 1];
    }
  }

  /** Extracting until empty delivers all objects in order. */
  method Drain(h: IndexedHeap) returns (out: seq<int>)
    requires h.Valid() && TotalPreorder(h.cmp)
    modifies h`size, h.data, h.heapIndex
    ensures h.Valid() && h.size == 0
    ensures Sorted(h.cmp, out) && multiset(out) == old(multiset(h.Objects()))
  {
    out := [];
    while h.size > 0
      invariant h.Valid()
      invariant Sorted(h.cmp, out)
      invariant forall i, p :: 0 <= i < |out| && 0 <= p < h.size ==> Le(h.cmp, out[i], h.Objects()[p])
      invariant multiset(out) + multiset(h.Objects()) == old(multiset(h.Objects()))
      decreases h.size
    {
      ghost var s := h.Objects();
      var r, obj := h.Extract();
      Remaining(h.cmp, out, s, h.Objects(), obj);
      out := out + [obj];
    }
  }

  lemma Remaining(cmp: (int, int) -> int, out: seq<int>, s: seq<int>, t: seq<int>, obj: int)
    requires multiset(s) == multiset(t) + multiset{obj}
    requires forall i, p :: 0 <= i < |out| && 0 <= p < |s| ==> Le(cmp, out[i], s[p])
    requires forall p :: 0 <= p < |s| ==> Le(cmp, obj, s[p])
    requires Sorted(cmp, out)
    ensures Sorted(cmp, out + [obj])
    ensures forall i, p :: 0 <= i < |out + [obj]| && 0 <= p < |t| ==> Le(cmp, (out + [obj])[i], t[p])
  {
    assert obj in multiset(s);
    var m :| 0 <= m < |s| && s[m] == obj;
    forall p | 0 <= p < |t|
      ensures t[p] in s
    {
      assert t[p] in multiset(t);
      assert t[p] in multiset(s);
    }
  }
}
