/**
 * st_qsort: glibc's non-recursive quicksort with an explicit fixed-size stack,
 * median-of-three, unguarded scans and a final unguarded insertion sort.
 */
module Qsort {
  import opened Util
  import opened Ordering

  const MAX_THRESH := 4
  const STACK_SIZE := 64

  datatype StackNode = StackNode(lo: int, hi: int)

  /** The SWAP macro; `lo` and `hi` only say which part it stays in. */
  method Swap<T>(a: array<T>, i: int, j: int, ghost lo: int, ghost hi: int)
    requires 0 <= lo <= i < hi <= a.Length && lo <= j < hi
    modifies a
    ensures a[..] == Swapped(old(a[..]), i, j)
    ensures PermutedWithin(old(a[..]), a[..], lo, hi)
  {
    SwapPermutes(a[..], i, j, lo, hi);
    a[i], a[j] := a[j], a[i];
    assert a[..] == Swapped(old(a[..]), i, j);
  }

  /** Puts the median of a[lo], a[mid], a[hi] at `mid` and the other two around it. */
  method MedianOfThree<T(!new)>(a: array<T>, cmp: (T, T) -> int, lo: int, mid: int, hi: int)
    requires TotalPreorder(cmp)
    requires 0 <= lo < mid < hi < a.Length
    modifies a
    ensures PermutedWithin(old(a[..]), a[..], lo, hi + 1)
    ensures Le(cmp, a[lo], a[mid]) && Le(cmp, a[mid], a[hi])
  {
    hide PermutedWithin;
    ghost var x, y, z := a[lo], a[mid], a[hi];
    LeTotal(cmp, y, x);
    LeTotal(cmp, z, y);
    LeTotal(cmp, z, x);
    if cmp(a[mid], a[lo]) < 0 {
      Swap(a, mid, lo, lo, hi + 1);
    }
    ghost var s1 := a[..];
    if cmp(a[hi], a[mid]) < 0 {
      LowerMedian(a, cmp, lo, mid, hi);
    }
    PermutedTrans(old(a[..]), s1, a[..], lo, hi + 1);
  }

  /** Its second half: the last sample is the least or the median, and the middle one becomes the last. */
  method LowerMedian<T(!new)>(a: array<T>, cmp: (T, T) -> int, lo: int, mid: int, hi: int)
    requires TotalPreorder(cmp)
    requires 0 <= lo < mid < hi < a.Length
    requires Le(cmp, a[lo], a[mid]) && Le(cmp, a[hi], a[mid])
    modifies a
    ensures PermutedWithin(old(a[..]), a[..], lo, hi + 1)
    ensures Le(cmp, a[lo], a[mid]) && Le(cmp, a[mid], a[hi])
  {
    hide PermutedWithin;
    LeTotal(cmp, a[hi], a[lo]);
    Swap(a, mid, hi, lo, hi + 1);
    ghost var s2 := a[..];
    if cmp(a[mid], a[lo]) < 0 {
      Swap(a, mid, lo, lo, hi + 1);
      PermutedTrans(old(a[..]), s2, a[..], lo, hi + 1);
    }
  }

  /** First unguarded scan: `stop` holds an element not below the pivot, so the scan ends at or before it. */
  method ScanUp<T(!new)>(a: array<T>, cmp: (T, T) -> int, start: int, mid: int, ghost stop: int) returns (left: int)
    requires TotalPreorder(cmp)
    requires 0 <= start <= stop < a.Length && 0 <= mid < a.Length
    requires Le(cmp, a[mid], a[stop])
    ensures start <= left <= stop
    ensures Le(cmp, a[mid], a[left])
    ensures forall k :: start <= k < left ==> cmp(a[k], a[mid]) < 0
  {
    LeTotal(cmp, a[stop], a[mid]);
    left := start;
    while cmp(a[left], a[mid]) < 0
      invariant start <= left <= stop
      invariant forall k :: start <= k < left ==> cmp(a[k], a[mid]) < 0
      decreases stop - left
    {
      left := left + 1;
    }
    LeTotal(cmp, a[left], a[mid]);
  }

  /** Second unguarded scan, downwards to an element not above the pivot. */
  method ScanDown<T(!new)>(a: array<T>, cmp: (T, T) -> int, start: int, mid: int, ghost stop: int) returns (right: int)
    requires TotalPreorder(cmp)
    requires 0 <= stop <= start < a.Length && 0 <= mid < a.Length
    requires Le(cmp, a[stop], a[mid])
    ensures stop <= right <= start
    ensures Le(cmp, a[right], a[mid])
    ensures forall k :: right < k <= start ==> cmp(a[mid], a[k]) < 0
  {
    LeTotal(cmp, a[mid], a[stop]);
    right := start;
    while cmp(a[mid], a[right]) < 0
      invariant stop <= right <= start
      invariant forall k :: right < k <= start ==> cmp(a[mid], a[k]) < 0
      decreases right - stop
    {
      right := right - 1;
    }
    LeTotal(cmp, a[mid], a[right]);
  }

  /** The walls: [lo, left) is not above the pivot, (right, hi] is not below it. */
  ghost predicate Walls<T>(cmp: (T, T) -> int, s: seq<T>, pivot: T, lo: int, hi: int, left: int, right: int)
    requires 0 <= lo <= left <= hi + 1 <= |s| && lo - 1 <= right <= hi
  {
    && (forall k :: lo <= k < left ==> Le(cmp, s[k], pivot))
    && (forall k :: right < k <= hi ==> Le(cmp, pivot, s[k]))
  }

  lemma WallsAfterScan<T(!new)>(cmp: (T, T) -> int, s: seq<T>, pivot: T, lo: int, hi: int, left0: int, right0: int,
      left: int, right: int)
    requires TotalPreorder(cmp)
    requires 0 <= lo < left0 <= right0 < hi < |s|
    requires left0 <= left <= right0 + 1 && left0 - 1 <= right <= right0
    requires Walls(cmp, s, pivot, lo, hi, left0, right0)
    requires forall k :: left0 <= k < left ==> cmp(s[k], pivot) < 0
    requires forall k :: right < k <= right0 ==> cmp(pivot, s[k]) < 0
    ensures Walls(cmp, s, pivot, lo, hi, left, right)
    ensures left <= right + 1  // crossing without a swap, they cross by exactly one
  {
    if left > right + 1 {
      assert cmp(s[right + 1], pivot) < 0 && cmp(pivot, s[right + 1]) < 0;
      LeTotal(cmp, pivot, s[right + 1]);
    }
  }

  lemma WallsAfterSwap<T(!new)>(cmp: (T, T) -> int, s: seq<T>, pivot: T, lo: int, hi: int, left: int, right: int)
    requires 0 <= lo < left < right < hi < |s|
    requires Walls(cmp, s, pivot, lo, hi, left, right)
    requires Le(cmp, pivot, s[left]) && Le(cmp, s[right], pivot)
    ensures Walls(cmp, Swapped(s, left, right), pivot, lo, hi, left + 1, right - 1)
  {
  }

  /** After the scans: exchange the two stops and follow the pivot, or step over a meeting point. */
  method Exchange<T(!new)>(a: array<T>, cmp: (T, T) -> int, lo: int, hi: int, left0: int, right0: int, mid0: int)
    returns (left: int, right: int, mid: int)
    requires 0 <= lo < left0 <= hi < a.Length && lo <= right0 < hi && left0 <= right0 + 1 && lo <= mid0 <= hi
    requires Walls(cmp, a[..], a[mid0], lo, hi, left0, right0)
    requires Le(cmp, a[mid0], a[left0]) && Le(cmp, a[right0], a[mid0])
    modifies a
    ensures PermutedWithin(old(a[..]), a[..], lo, hi + 1)
    ensures if left0 <= right0 then left == left0 + 1 && right == right0 - 1 else left == left0 && right == right0
    ensures lo <= mid <= hi && a[mid] == old(a[mid0])
    ensures Walls(cmp, a[..], old(a[mid0]), lo, hi, left, right)
  {
    left, right, mid := left0, right0, mid0;
    if left < right {
      WallsAfterSwap(cmp, a[..], a[mid], lo, hi, left, right);
      Swap(a, left, right, lo, hi + 1);
      if mid == left {
        mid := right;
      } else if mid == right {
        mid := left;
      }
      left := left + 1;
      right := right - 1;
    } else if left == right {
      left := left + 1;
      right := right - 1;
    }
  }

  /** One round of the collapse-the-walls loop; neither scan leaves [lo, hi]. */
  method Collapse<T(!new)>(a: array<T>, cmp: (T, T) -> int, lo: int, hi: int, left0: int, right0: int, mid0: int)
    returns (left: int, right: int, mid: int)
    requires TotalPreorder(cmp)
    requires 0 <= lo < left0 <= right0 < hi < a.Length && lo <= mid0 <= hi
    requires Walls(cmp, a[..], a[mid0], lo, hi, left0, right0)
    modifies a
    ensures PermutedWithin(old(a[..]), a[..], lo, hi + 1)
    ensures left0 <= left && right <= right0 && left <= right + 2
    ensures lo <= right && lo < left <= hi && lo <= mid <= hi
    ensures left <= right ==> right - left < right0 - left0
    ensures a[mid] == old(a[mid0])
    ensures Walls(cmp, a[..], old(a[mid0]), lo, hi, left, right)
  {
    left := ScanUp(a, cmp, left0, mid0, right0 + 1);
    right := ScanDown(a, cmp, right0, mid0, left0 - 1);
    WallsAfterScan(cmp, a[..], a[mid0], lo, hi, left0, right0, left, right);
    left, right, mid := Exchange(a, cmp, lo, hi, left, right, mid0);
  }

  method Partition<T(!new)>(a: array<T>, cmp: (T, T) -> int, lo: int, hi: int)
    returns (left: int, right: int, ghost pivot: T)
    requires TotalPreorder(cmp)
    requires 0 <= lo && lo + MAX_THRESH <= hi < a.Length
    modifies a
    ensures PermutedWithin(old(a[..]), a[..], lo, hi + 1)
    ensures lo <= right < left <= hi && left <= right + 2
    ensures Walls(cmp, a[..], pivot, lo, hi, left, right)
  {
    var mid := lo + (hi - lo) / 2;
    MedianOfThree(a, cmp, lo, mid, hi);
    pivot := a[mid];
    left, right := lo + 1, hi - 1;
    while left <= right
      invariant lo < left <= hi && lo <= right < hi && left <= right + 2
      invariant lo <= mid <= hi && a[mid] == pivot
      invariant PermutedWithin(old(a[..]), a[..], lo, hi + 1)
      invariant Walls(cmp, a[..], pivot, lo, hi, left, right)
      decreases right - left
    {
      ghost var s := a[..];
      left, right, mid := Collapse(a, cmp, lo, hi, left, right, mid);
      PermutedTrans(old(a[..]), s, a[..], lo, hi + 1);
    }
  }

  // ---- The partition phase ----

  /** Position `c` separates the array: nothing before it is above anything from it on. */
  ghost predicate Cut<T>(cmp: (T, T) -> int, s: seq<T>, c: int) {
    && 0 <= c <= |s|
    && forall i, j :: 0 <= i < c <= j < |s| ==> Le(cmp, s[i], s[j])
  }

  ghost predicate AllCuts<T>(cmp: (T, T) -> int, s: seq<T>, cuts: set<int>) {
    forall c :: c in cuts ==> Cut(cmp, s, c)
  }

  /** A cut falls strictly after `i` and no later than `i + MAX_THRESH + 1`. */
  ghost predicate CutNear(cuts: set<int>, i: int) {
    exists c :: c in cuts && i < c <= i + MAX_THRESH + 1
  }

  ghost predicate Spans(seg: StackNode, i: int) {
    seg.lo <= i && i + MAX_THRESH + 1 <= seg.hi
  }

  /** Every run of MAX_THRESH + 2 positions meets a cut or lies in one of the segments. */
  ghost predicate Covered(n: int, cuts: set<int>, segs: seq<StackNode>) {
    forall i :: 0 <= i && i + MAX_THRESH + 1 < n ==>
      CutNear(cuts, i) || exists k :: 0 <= k < |segs| && Spans(segs[k], i)
  }

  /** The array falls into blocks of at most MAX_THRESH + 1 elements, ordered between blocks. */
  ghost predicate BlockSorted<T>(cmp: (T, T) -> int, s: seq<T>, cuts: set<int>) {
    AllCuts(cmp, s, cuts) && Covered(|s|, cuts, [])
  }

  /** A pending segment: long enough, bounded by cuts, with no cut inside. */
  ghost predicate SegOk(seg: StackNode, n: int, cuts: set<int>) {
    && 0 <= seg.lo && seg.lo + MAX_THRESH <= seg.hi < n
    && seg.lo in cuts && seg.hi + 1 in cuts
    && forall c :: c in cuts ==> c <= seg.lo || seg.hi < c
  }

  predicate Apart(x: StackNode, y: StackNode) {
    x.hi < y.lo || y.hi < x.lo
  }

  ghost predicate SegsOk(segs: seq<StackNode>, n: int, cuts: set<int>) {
    && (forall k :: 0 <= k < |segs| ==> SegOk(segs[k], n, cuts))
    && (forall j, k :: 0 <= j < k < |segs| ==> Apart(segs[j], segs[k]))
  }

  function Size(seg: StackNode): int {
    seg.hi - seg.lo + 1
  }

  /** The segment at stack height k has at most total_elems / 2^k elements. */
  ghost predicate Halving(segs: seq<StackNode>, n: int) {
    forall k :: 0 <= k < |segs| ==> Size(segs[k]) * Pow2(k) <= n
  }

  /** Work left: each partition step lowers it. */
  ghost function Work(segs: seq<StackNode>): int {
    if segs == [] then 0 else Work(segs[..|segs| - 1]) + Size(segs[|segs| - 1]) - 1
  }

  /** What one iteration leaves in place of [lo, hi]: small parts dropped, the larger part below the smaller. */
  function NextSegs(lo: int, hi: int, left: int, right: int): seq<StackNode> {
    var l, r := StackNode(lo, right), StackNode(left, hi);
    if right - lo <= MAX_THRESH then
      if hi - left <= MAX_THRESH then [] else [r]
    else if hi - left <= MAX_THRESH then [l]
    else if right - lo > hi - left then [l, r]
    else [r, l]
  }

  lemma PermutedKeepsCut<T(!new)>(cmp: (T, T) -> int, s: seq<T>, t: seq<T>, lo: int, hi: int, c: int)
    requires 0 <= lo <= hi < |s|
    requires PermutedWithin(s, t, lo, hi + 1)
    requires Cut(cmp, s, c) && (c <= lo || hi < c)
    ensures Cut(cmp, t, c)
  {
    forall i, j | 0 <= i < c <= j < |t|
      ensures Le(cmp, t[i], t[j])
    {
      var i' := PermutedOrigin(s, t, lo, hi + 1, i);
      var j' := PermutedOrigin(s, t, lo, hi + 1, j);
    }
  }

  lemma WallsGiveCuts<T(!new)>(cmp: (T, T) -> int, s: seq<T>, pivot: T, lo: int, hi: int, left: int, right: int, c: int)
    requires TotalPreorder(cmp)
    requires 0 <= lo <= right < left <= hi < |s| && left <= right + 2
    requires Walls(cmp, s, pivot, lo, hi, left, right)
    requires Cut(cmp, s, lo) && Cut(cmp, s, hi + 1)
    requires c == left || c == right + 1
    ensures Cut(cmp, s, c)
  {
    forall i, j | 0 <= i < c <= j < |s|
      ensures Le(cmp, s[i], s[j])
    {
      if lo <= i && j <= hi {
        LeTrans(cmp, s[i], pivot, s[j]);
      }
    }
  }

  lemma PartitionKeepsCuts<T(!new)>(cmp: (T, T) -> int, s: seq<T>, t: seq<T>, cuts: set<int>, seg: StackNode,
      left: int, right: int, pivot: T)
    requires TotalPreorder(cmp)
    requires AllCuts(cmp, s, cuts) && SegOk(seg, |s|, cuts)
    requires PermutedWithin(s, t, seg.lo, seg.hi + 1)
    requires seg.lo <= right < left <= seg.hi && left <= right + 2
    requires Walls(cmp, t, pivot, seg.lo, seg.hi, left, right)
    ensures AllCuts(cmp, t, cuts + {left, right + 1})
  {
    forall c | c in cuts
      ensures Cut(cmp, t, c)
    {
      PermutedKeepsCut(cmp, s, t, seg.lo, seg.hi, c);
    }
    WallsGiveCuts(cmp, t, pivot, seg.lo, seg.hi, left, right, left);
    WallsGiveCuts(cmp, t, pivot, seg.lo, seg.hi, left, right, right + 1);
  }

  lemma NextSegsOk(rest: seq<StackNode>, seg: StackNode, n: int, cuts: set<int>, left: int, right: int)
    requires SegsOk(rest + [seg], n, cuts)
    requires seg.lo <= right < left <= seg.hi && left <= right + 2
    ensures SegsOk(rest + NextSegs(seg.lo, seg.hi, left, right), n, cuts + {left, right + 1})
  {
    var all := rest + [seg];
    assert all[|rest|] == seg;
    forall k | 0 <= k < |rest|
      ensures SegOk(rest[k], n, cuts + {left, right + 1}) && Apart(rest[k], seg)
    {
      assert all[k] == rest[k];
      assert Apart(all[k], all[|rest|]);
    }
    forall j, k | 0 <= j < k < |rest|
      ensures Apart(rest[j], rest[k])
    {
      assert all[j] == rest[j] && all[k] == rest[k];
    }
  }

  lemma NextSegsCovered(rest: seq<StackNode>, seg: StackNode, n: int, cuts: set<int>, left: int, right: int)
    requires Covered(n, cuts, rest + [seg])
    requires seg.lo <= right < left <= seg.hi && left <= right + 2
    ensures Covered(n, cuts + {left, right + 1}, rest + NextSegs(seg.lo, seg.hi, left, right))
  {
    var cuts', next := cuts + {left, right + 1}, NextSegs(seg.lo, seg.hi, left, right);
    var segs' := rest + next;
    forall i | 0 <= i && i + MAX_THRESH + 1 < n
      ensures CutNear(cuts', i) || exists k :: 0 <= k < |segs'| && Spans(segs'[k], i)
    {
      if CutNear(cuts, i) {
        var c :| c in cuts && i < c <= i + MAX_THRESH + 1;
        assert c in cuts';
      } else {
        var k :| 0 <= k < |rest + [seg]| && Spans((rest + [seg])[k], i);
        if k < |rest| {
          assert segs'[k] == rest[k];
        } else if i <= right < i + MAX_THRESH + 1 {
          assert right + 1 in cuts';
        } else if i < left <= i + MAX_THRESH + 1 {
          assert left in cuts';
        } else {
          var m :| 0 <= m < |next| && Spans(next[m], i);
          assert segs'[|rest| + m] == next[m];
        }
      }
    }
  }

  lemma NextSegsHalve(rest: seq<StackNode>, seg: StackNode, n: int, left: int, right: int)
    requires Halving(rest + [seg], n)
    requires seg.lo <= right < left <= seg.hi
    ensures Halving(rest + NextSegs(seg.lo, seg.hi, left, right), n)
  {
    var all, h := rest + [seg], |rest|;
    assert all[h] == seg;
    var next := NextSegs(seg.lo, seg.hi, left, right);
    var segs' := rest + next;
    forall k | 0 <= k < |segs'|
      ensures Size(segs'[k]) * Pow2(k) <= n
    {
      if k < h {
        assert segs'[k] == all[k];
      } else if k == h {
        assert Size(next[0]) * Pow2(h) <= Size(seg) * Pow2(h) by {
          Scale(Size(next[0]), Size(seg), Pow2(h));
        }
      } else {
        assert Pow2(k) == 2 * Pow2(h);
        assert Size(next[1]) * Pow2(k) <= Size(seg) * Pow2(h) by {
          Scale(2 * Size(next[1]), Size(seg), Pow2(h));
        }
      }
    }
  }

  lemma Scale(x: int, y: int, f: nat)
    requires x <= y
    ensures x * f <= y * f
  {
  }

  lemma WorkAppend(rest: seq<StackNode>, seg: StackNode)
    ensures Work(rest + [seg]) == Work(rest) + Size(seg) - 1
  {
    assert (rest + [seg])[..|rest|] == rest;
  }

  lemma NextSegsLessWork(rest: seq<StackNode>, seg: StackNode, left: int, right: int)
    requires seg.lo <= right < left <= seg.hi
    ensures Work(rest + NextSegs(seg.lo, seg.hi, left, right)) < Work(rest + [seg])
  {
    hide *;
    NextSegsSmaller(seg, left, right);
    WorkAppend(rest, seg);
    WorkAppendUpToTwo(rest, NextSegs(seg.lo, seg.hi, left, right));
  }

  /** The work of at most two segments. */
  function WorkOfNext(next: seq<StackNode>): int {
    if |next| == 0 then 0 else if |next| == 1 then Size(next[0]) - 1 else Size(next[0]) + Size(next[1]) - 2
  }

  lemma NextSegsSmaller(seg: StackNode, left: int, right: int)
    requires seg.lo <= right < left <= seg.hi
    ensures var next := NextSegs(seg.lo, seg.hi, left, right);
            |next| <= 2 && WorkOfNext(next) < Size(seg) - 1
  {
  }

  lemma WorkAppendUpToTwo(rest: seq<StackNode>, next: seq<StackNode>)
    requires |next| <= 2
    ensures Work(rest + next) == Work(rest) + WorkOfNext(next)
  {
    hide Work, Size;
    if |next| == 0 {
      assert rest + next == rest;
    } else {
      WorkAppend(rest, next[0]);
      if |next| == 1 {
        assert rest + next == rest + [next[0]];
      } else {
        WorkAppend(rest + [next[0]], next[1]);
        assert rest + next == (rest + [next[0]]) + [next[1]];
      }
    }
  }

  lemma {:induction false} WorkNonNegative(segs: seq<StackNode>)
    requires forall k :: 0 <= k < |segs| ==> segs[k].lo <= segs[k].hi
    ensures Work(segs) >= 0
  {
    if segs != [] {
      WorkNonNegative(segs[..|segs| - 1]);
    }
  }

  /** log2 of the element count bounds the height, sentinel included. */
  lemma StackFits(segs: seq<StackNode>, n: int, cuts: set<int>)
    requires n <= SIZE_MAX
    requires SegsOk(segs, n, cuts) && Halving(segs, n)
    ensures |segs| + 1 < STACK_SIZE
  {
    if |segs| > 62 {
      var big := segs[62];
      assert Size(big) * Pow2(62) <= n;
      Scale(5, Size(big), Pow2(62));
      Pow2At62();
    }
  }

  lemma Pow2At62()
    ensures Pow2(62) == 0x4000_0000_0000_0000
  {
    assert Pow2(8) == 256 && Pow2(7) == 128;
    Pow2Sum(8, 7);
    Pow2Sum(8, 8);
    Pow2Sum(16, 15);
    Pow2Sum(31, 31);
  }

  /** The explicit stack above the sentinel, then the current segment. */
  ghost function Pending(stack: seq<StackNode>, top: int, lo: int, hi: int): seq<StackNode>
    requires 0 <= top <= |stack|
  {
    if top == 0 then [] else stack[1..top] + [StackNode(lo, hi)]
  }

  ghost predicate PhaseInv<T>(cmp: (T, T) -> int, s: seq<T>, cuts: set<int>, segs: seq<StackNode>) {
    && AllCuts(cmp, s, cuts)
    && SegsOk(segs, |s|, cuts)
    && Covered(|s|, cuts, segs)
    && Halving(segs, |s|)
  }

  /** The current segment is a legal argument of Partition, and the stack still has room. */
  lemma PickLast<T>(s: seq<T>, cmp: (T, T) -> int, cuts: set<int>, rest: seq<StackNode>, seg: StackNode)
    requires |s| <= SIZE_MAX
    requires PhaseInv(cmp, s, cuts, rest + [seg])
    ensures SegOk(seg, |s|, cuts)
    ensures |rest| + 2 < STACK_SIZE
    ensures Work(rest + [seg]) >= 0
  {
    assert (rest + [seg])[|rest|] == seg;
    StackFits(rest + [seg], |s|, cuts);
    WorkNonNegative(rest + [seg]);
  }

  lemma PhaseStep<T(!new)>(cmp: (T, T) -> int, s: seq<T>, t: seq<T>, cuts: set<int>, rest: seq<StackNode>,
      seg: StackNode, left: int, right: int, pivot: T)
    requires TotalPreorder(cmp)
    requires PhaseInv(cmp, s, cuts, rest + [seg]) && SegOk(seg, |s|, cuts)
    requires PermutedWithin(s, t, seg.lo, seg.hi + 1)
    requires seg.lo <= right < left <= seg.hi && left <= right + 2
    requires Walls(cmp, t, pivot, seg.lo, seg.hi, left, right)
    ensures PhaseInv(cmp, t, cuts + {left, right + 1}, rest + NextSegs(seg.lo, seg.hi, left, right))
    ensures Work(rest + NextSegs(seg.lo, seg.hi, left, right)) < Work(rest + [seg])
  {
    PartitionKeepsCuts(cmp, s, t, cuts, seg, left, right, pivot);
    NextSegsOk(rest, seg, |s|, cuts, left, right);
    NextSegsCovered(rest, seg, |s|, cuts, left, right);
    NextSegsHalve(rest, seg, |s|, left, right);
    NextSegsLessWork(rest, seg, left, right);
  }

  /** Sets up the next iteration: pops, keeps one part, or pushes the larger part and keeps the smaller. */
  method Advance(stack: array<StackNode>, top0: int, lo0: int, hi0: int, left: int, right: int)
    returns (top: int, lo: int, hi: int)
    requires 0 < top0 < stack.Length
    modifies stack
    ensures 0 <= top <= stack.Length
    ensures Pending(stack[..], top, lo, hi) == old(stack[1..top0]) + NextSegs(lo0, hi0, left, right)
  {
    ghost var rest := stack[1..top0];
    top, lo, hi := top0, lo0, hi0;
    if right - lo <= MAX_THRESH {
      if hi - left <= MAX_THRESH {
        top := top - 1;  // POP (lo, hi)
        lo, hi := stack[top].lo, stack[top].hi;
        assert top > 0 ==> rest == stack[1..top] + [stack[top]];
      } else {
        lo := left;
      }
    } else if hi - left <= MAX_THRESH {
      hi := right;
    } else if right - lo > hi - left {
      stack[top] := StackNode(lo, right);  // PUSH (lo, right_ptr)
      top := top + 1;
      lo := left;
      assert stack[1..top] == rest + [StackNode(lo0, right)];
    } else {
      stack[top] := StackNode(left, hi);  // PUSH (left_ptr, hi)
      top := top + 1;
      hi := right;
      assert stack[1..top] == rest + [StackNode(left, hi0)];
    }
  }

  /** One iteration: partition the current segment, then set up the next one. */
  method Iterate<T(!new)>(a: array<T>, cmp: (T, T) -> int, stack: array<StackNode>, top0: int, lo0: int, hi0: int,
      ghost cuts0: set<int>)
    returns (top: int, lo: int, hi: int, ghost cuts: set<int>)
    requires TotalPreorder(cmp)
    requires a.Length <= SIZE_MAX && stack.Length == STACK_SIZE && 0 < top0 <= STACK_SIZE
    requires a as object != stack as object
    requires PhaseInv(cmp, a[..], cuts0, Pending(stack[..], top0, lo0, hi0))
    modifies a, stack
    ensures multiset(a[..]) == old(multiset(a[..]))
    ensures 0 <= top <= STACK_SIZE
    ensures PhaseInv(cmp, a[..], cuts, Pending(stack[..], top, lo, hi))
    ensures 0 <= Work(old(Pending(stack[..], top0, lo0, hi0)))
    ensures Work(Pending(stack[..], top, lo, hi)) < Work(old(Pending(stack[..], top0, lo0, hi0)))
  {
    hide PhaseInv, Work, Walls;
    ghost var s, rest, seg := a[..], stack[1..top0], StackNode(lo0, hi0);
    assert stack[..][1..top0] == rest;
    PickLast(s, cmp, cuts0, rest, seg);
    ghost var pivot;
    var left, right;
    left, right, pivot := Partition(a, cmp, lo0, hi0);
    PhaseStep(cmp, s, a[..], cuts0, rest, seg, left, right, pivot);
    cuts := cuts0 + {left, right + 1};
    top, lo, hi := Advance(stack, top0, lo0, hi0, left, right);
  }

  lemma PhaseStart<T>(cmp: (T, T) -> int, s: seq<T>)
    requires MAX_THRESH < |s|
    ensures PhaseInv(cmp, s, {0, |s|}, [StackNode(0, |s| - 1)])
  {
    var segs := [StackNode(0, |s| - 1)];
    assert forall i :: 0 <= i && i + MAX_THRESH + 1 < |s| ==> Spans(segs[0], i);
  }

  /** The loop with the explicit stack: leaves short blocks, ordered between blocks. */
  method PartitionPhase<T(!new)>(a: array<T>, cmp: (T, T) -> int) returns (ghost cuts: set<int>)
    requires TotalPreorder(cmp)
    requires MAX_THRESH < a.Length <= SIZE_MAX
    modifies a
    ensures multiset(a[..]) == old(multiset(a[..]))
    ensures BlockSorted(cmp, a[..], cuts)
  {
    var lo, hi := 0, a.Length - 1;
    var stack := new StackNode[STACK_SIZE](_ => StackNode(-1, -1));
    var top := 0;
    stack[top] := StackNode(-1, -1);  // PUSH (NULL, NULL)
    top := top + 1;
    cuts := {0, a.Length};
    PhaseStart(cmp, a[..]);
    ghost var segs := [StackNode(lo, hi)];
    assert Pending(stack[..], top, lo, hi) == segs;
    while 0 < top
      invariant stack.Length == STACK_SIZE && 0 <= top <= STACK_SIZE && fresh(stack)
      invariant multiset(a[..]) == old(multiset(a[..]))
      invariant segs == Pending(stack[..], top, lo, hi)
      invariant PhaseInv(cmp, a[..], cuts, segs)
      decreases Work(segs)
    {
      top, lo, hi, cuts := Iterate(a, cmp, stack, top, lo, hi, cuts);
      segs := Pending(stack[..], top, lo, hi);
    }
  }

  // ---- The insertion phase ----

  ghost predicate SortedTo<T>(cmp: (T, T) -> int, s: seq<T>, n: int)
    requires n <= |s|
  {
    forall i, j :: 0 <= i < j < n ==> Le(cmp, s[i], s[j])
  }

  /** No element is below the first one. */
  ghost predicate MinFirst<T>(cmp: (T, T) -> int, s: seq<T>) {
    forall j :: 0 <= j < |s| ==> Le(cmp, s[0], s[j])
  }

  /** The element at `from` moves down to `to`, the ones between move up by one. */
  function Rotated<T>(s: seq<T>, to: int, from: int): (t: seq<T>)
    requires 0 <= to <= from < |s|
    ensures |t| == |s|
  {
    seq(|s|, k requires 0 <= k < |s| =>
      if k == to then s[from] else if to < k <= from then s[k - 1] else s[k])
  }

  lemma RotatedPermutes<T>(s: seq<T>, to: int, from: int)
    requires 0 <= to <= from < |s|
    ensures multiset(Rotated(s, to, from)) == multiset(s)
  {
    hide Rotated;
    RotatedParts(s, to, from);
    MultisetOfParts(s[..to], s[to..from], [s[from]], s[from + 1..]);
  }

  lemma RotatedParts<T>(s: seq<T>, to: int, from: int)
    requires 0 <= to <= from < |s|
    ensures s == s[..to] + s[to..from] + [s[from]] + s[from + 1..]
    ensures Rotated(s, to, from) == s[..to] + [s[from]] + s[to..from] + s[from + 1..]
  {
  }

  lemma MultisetOfParts<T>(x: seq<T>, y: seq<T>, z: seq<T>, r: seq<T>)
    ensures multiset(x + y + z + r) == multiset(x + z + y + r)
  {
  }

  /** A least element lies in the first MAX_THRESH + 1 slots: anything further on is cut off from slot 0. */
  lemma MinIsEarly<T(!new)>(cmp: (T, T) -> int, s: seq<T>, cuts: set<int>, j: int)
    requires BlockSorted(cmp, s, cuts)
    requires MAX_THRESH < j < |s|
    ensures Le(cmp, s[0], s[j])
  {
    var i := j - MAX_THRESH - 1;
    assert CutNear(cuts, 0);
    var c :| c in cuts && 0 < c <= MAX_THRESH + 1;
    assert Cut(cmp, s, c);
  }

  method FirstMinimum<T(!new)>(a: array<T>, cmp: (T, T) -> int, thresh: int) returns (tmp: int)
    requires TotalPreorder(cmp)
    requires 0 <= thresh < a.Length
    ensures 0 <= tmp <= thresh
    ensures forall k :: 0 <= k <= thresh ==> Le(cmp, a[tmp], a[k])
  {
    tmp := 0;
    var run := 1;
    LeTotal(cmp, a[0], a[0]);
    while run <= thresh
      invariant 0 <= tmp < run <= thresh + 1
      invariant forall k :: 0 <= k < run ==> Le(cmp, a[tmp], a[k])
    {
      LeTotal(cmp, a[run], a[tmp]);
      LeTotal(cmp, a[run], a[run]);
      if cmp(a[run], a[tmp]) < 0 {
        forall k | 0 <= k < run
          ensures Le(cmp, a[run], a[k])
        {
          LeTrans(cmp, a[run], a[tmp], a[k]);
        }
        tmp := run;
      }
      run := run + 1;
    }
  }

  method PlaceMinimum<T(!new)>(a: array<T>, cmp: (T, T) -> int, ghost cuts: set<int>)
    requires TotalPreorder(cmp)
    requires a.Length > 0
    requires a.Length <= MAX_THRESH + 1 || BlockSorted(cmp, a[..], cuts)
    modifies a
    ensures multiset(a[..]) == old(multiset(a[..]))
    ensures MinFirst(cmp, a[..])
  {
    hide BlockSorted, Swapped;
    var thresh := if a.Length - 1 < MAX_THRESH then a.Length - 1 else MAX_THRESH;
    var tmp := FirstMinimum(a, cmp, thresh);
    ghost var s := a[..];
    LeastEverywhere(cmp, s, cuts, tmp, thresh);
    if tmp != 0 {
      LeastInFront(cmp, s, tmp);
      Swap(a, tmp, 0, 0, a.Length);
    }
  }

  lemma LeastInFront<T>(cmp: (T, T) -> int, s: seq<T>, tmp: int)
    requires 0 <= tmp < |s| && forall j :: 0 <= j < |s| ==> Le(cmp, s[tmp], s[j])
    ensures MinFirst(cmp, Swapped(s, tmp, 0))
  {
  }

  lemma LeastEverywhere<T(!new)>(cmp: (T, T) -> int, s: seq<T>, cuts: set<int>, tmp: int, thresh: int)
    requires TotalPreorder(cmp)
    requires 0 <= tmp <= thresh < |s| && (thresh == |s| - 1 || thresh == MAX_THRESH)
    requires |s| <= MAX_THRESH + 1 || BlockSorted(cmp, s, cuts)
    requires forall k :: 0 <= k <= thresh ==> Le(cmp, s[tmp], s[k])
    ensures forall j :: 0 <= j < |s| ==> Le(cmp, s[tmp], s[j])
  {
    forall j | thresh < j < |s|
      ensures Le(cmp, s[tmp], s[j])
    {
      MinIsEarly(cmp, s, cuts, j);
      LeTrans(cmp, s[tmp], s[0], s[j]);
    }
  }

  /** The byte-column rotation, one element wide. */
  method RotateDown<T>(a: array<T>, to: int, from: int)
    requires 0 <= to < from < a.Length
    modifies a
    ensures a[..] == Rotated(old(a[..]), to, from)
  {
    ghost var s := a[..];
    var c := a[from];
    var hi, lo := from, from - 1;
    while lo >= to
      invariant to - 1 <= lo < from && hi == lo + 1
      invariant forall k :: hi < k <= from ==> a[k] == s[k - 1]
      invariant forall k :: 0 <= k < a.Length && !(hi < k <= from) ==> a[k] == s[k]
    {
      a[hi] := a[lo];
      hi := lo;
      lo := lo - 1;
    }
    a[hi] := c;
  }

  /** The unguarded insertion scan; the least element at slot 0 stops it. */
  method InsertionPoint<T(!new)>(a: array<T>, cmp: (T, T) -> int, run: int) returns (tmp: int)
    requires TotalPreorder(cmp)
    requires 0 < run < a.Length
    requires MinFirst(cmp, a[..]) && SortedTo(cmp, a[..], run)
    ensures 0 < tmp <= run
    ensures forall k :: 0 <= k < tmp ==> Le(cmp, a[k], a[run])
    ensures forall k :: tmp <= k < run ==> Le(cmp, a[run], a[k])
  {
    assert a[..][0] == a[0] && a[..][run] == a[run];
    LeTotal(cmp, a[run], a[0]);
    tmp := run - 1;
    while cmp(a[run], a[tmp]) < 0
      invariant 0 <= tmp < run
      invariant forall k :: tmp < k < run ==> cmp(a[run], a[k]) < 0
      decreases tmp
    {
      tmp := tmp - 1;
    }
    LeTotal(cmp, a[run], a[tmp]);
    forall k | 0 <= k < tmp
      ensures Le(cmp, a[k], a[run])
    {
      assert Le(cmp, a[..][k], a[..][tmp]);
      LeTrans(cmp, a[k], a[tmp], a[run]);
    }
    tmp := tmp + 1;
  }

  lemma InsertedSorted<T(!new)>(cmp: (T, T) -> int, s: seq<T>, to: int, from: int)
    requires 0 < to <= from < |s|
    requires MinFirst(cmp, s) && SortedTo(cmp, s, from)
    requires forall k :: 0 <= k < to ==> Le(cmp, s[k], s[from])
    requires forall k :: to <= k < from ==> Le(cmp, s[from], s[k])
    ensures SortedTo(cmp, Rotated(s, to, from), from + 1)
    ensures MinFirst(cmp, Rotated(s, to, from))
  {
  }

  method InsertionPhase<T(!new)>(a: array<T>, cmp: (T, T) -> int)
    requires TotalPreorder(cmp)
    requires a.Length > 0 && MinFirst(cmp, a[..])
    modifies a
    ensures multiset(a[..]) == old(multiset(a[..]))
    ensures Sorted(cmp, a[..])
  {
    var run := 2;
    while run <= a.Length - 1
      invariant 2 <= run
      invariant multiset(a[..]) == old(multiset(a[..]))
      invariant MinFirst(cmp, a[..])
      invariant SortedTo(cmp, a[..], if run <= a.Length then run else a.Length)
    {
      ghost var s := a[..];
      var tmp := InsertionPoint(a, cmp, run);
      InsertedSorted(cmp, s, tmp, run);
      RotatedPermutes(s, tmp, run);
      if tmp != run {
        RotateDown(a, tmp, run);
      }
      assert a[..] == Rotated(s, tmp, run);
      run := run + 1;
    }
  }

  /** Sorts in place, for every length a size_t can hold and every total preorder. */
  method Sort<T(!new)>(a: array<T>, cmp: (T, T) -> int)
    requires TotalPreorder(cmp)
    requires a.Length <= SIZE_MAX
    modifies a
    ensures Sorted(cmp, a[..])
    ensures multiset(a[..]) == old(multiset(a[..]))
  {
    if a.Length == 0 {
      return;
    }
    ghost var cuts: set<int> := {};
    if a.Length > MAX_THRESH {
      cuts := PartitionPhase(a, cmp);
    }
    PlaceMinimum(a, cmp, cuts);
    InsertionPhase(a, cmp);
  }
}
