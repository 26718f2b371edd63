/** The order in which st_dict_clear and st_dict_traverse show entries to a callback, and where they give up. */
module DictVisit {
  import opened DictModel

  /**
   * Refused is -1 for a dictionary without a clear list, Stopped is -1 after the callback has rejected an
   * entry, Aborted is a failed assert of a build without NDEBUG.
   */
  datatype Outcome = Completed | Refused | Stopped | Aborted

  /** What the asserts on overflow nodes object to. */
  predicate HalfZero(k: Key) {
    k.sign1 == 0 || k.sign2 == 0
  }

  /** An entry, and whether it lies in an overflow node: head entries are not checked for a zero half. */
  datatype Item = Item(entry: Entry, overflow: bool)

  predicate Trips(it: Item) {
    it.overflow && HalfZero(it.entry.key)
  }

  /** A bucket in the order it is visited: the head, then the chain. */
  function Items(b: Bucket): (r: seq<Item>)
    ensures |r| == |b| && forall i :: 0 <= i < |b| ==> r[i] == Item(b[i], i > 0)
  {
    seq(|b|, i requires 0 <= i < |b| => Item(b[i], i > 0))
  }

  function BucketAt(bs: seq<Bucket>, h: nat): Bucket {
    if h < |bs| then bs[h] else []
  }

  /** The listed buckets, one after another. */
  function AllItems(bs: seq<Bucket>, list: seq<nat>): seq<Item>
  {
    if list == [] then [] else Items(BucketAt(bs, list[0])) + AllItems(bs, list[1..])
  }

  function Entries(items: seq<Item>): (r: seq<Entry>)
    ensures |r| == |items| && forall i :: 0 <= i < |items| ==> r[i] == items[i].entry
  {
    seq(|items|, i requires 0 <= i < |items| => items[i].entry)
  }

  /** The walk: the assert comes before the callback; `trav` is true for an accepted entry, and everywhere for NULL. */
  function Visit(items: seq<Item>, checked: bool, trav: Entry -> bool): (r: (Outcome, seq<Entry>))
    ensures |r.1| <= |items| && (r.0 == Stopped ==> |r.1| >= 1)
    ensures r.0 == Completed || r.0 == Stopped || r.0 == Aborted
  {
    if items == [] then (Completed, [])
    else if checked && Trips(items[0]) then (Aborted, [])
    else if !trav(items[0].entry) then (Stopped, [items[0].entry])
    else
      var (r, v) := Visit(items[1..], checked, trav);
      (r, [items[0].entry] + v)
  }

  /** The first items have been shown and accepted, and the rest decides. */
  ghost predicate VisitedTo(items: seq<Item>, i: nat, visited: seq<Entry>, checked: bool, trav: Entry -> bool) {
    && i <= |items| && |visited| == i
    && Visit(items, checked, trav) ==
       (Visit(items[i..], checked, trav).0, visited + Visit(items[i..], checked, trav).1)
  }

  lemma VisitStart(items: seq<Item>, checked: bool, trav: Entry -> bool)
    ensures VisitedTo(items, 0, [], checked, trav)
  {
    assert items[0..] == items;
    assert [] + Visit(items, checked, trav).1 == Visit(items, checked, trav).1;
  }

  lemma VisitStep(items: seq<Item>, i: nat, visited: seq<Entry>, checked: bool, trav: Entry -> bool)
    requires i < |items| && VisitedTo(items, i, visited, checked, trav)
    ensures if checked && Trips(items[i]) then Visit(items, checked, trav) == (Aborted, visited)
            else if !trav(items[i].entry) then Visit(items, checked, trav) == (Stopped, visited + [items[i].entry])
            else VisitedTo(items, i + 1, visited + [items[i].entry], checked, trav)
  {
    var rest := items[i..];
    assert rest[0] == items[i] && rest[1..] == items[i + 1..];
    assert visited + [] == visited;
    var v := Visit(rest[1..], checked, trav).1;
    assert visited + ([items[i].entry] + v) == (visited + [items[i].entry]) + v;
  }

  lemma VisitEnd(items: seq<Item>, visited: seq<Entry>, checked: bool, trav: Entry -> bool)
    requires VisitedTo(items, |items|, visited, checked, trav)
    ensures Visit(items, checked, trav) == (Completed, visited)
  {
    assert items[|items|..] == [] && visited + [] == visited;
  }

  lemma {:induction false} VisitAppend(x: seq<Item>, y: seq<Item>, checked: bool, trav: Entry -> bool)
    ensures Visit(x + y, checked, trav) ==
            var (r, v) := Visit(x, checked, trav);
            if r != Completed then (r, v)
            else (Visit(y, checked, trav).0, v + Visit(y, checked, trav).1)
  {
    if x == [] {
      assert x + y == y && [] + Visit(y, checked, trav).1 == Visit(y, checked, trav).1;
    } else {
      VisitAppend(x[1..], y, checked, trav);
      assert (x + y)[1..] == x[1..] + y;
      var v := Visit(x[1..], checked, trav).1;
      assert [x[0].entry] + (v + Visit(y, checked, trav).1) == ([x[0].entry] + v) + Visit(y, checked, trav).1;
    }
  }

  predicate Passes(it: Item, checked: bool, trav: Entry -> bool) {
    trav(it.entry) && !(checked && Trips(it))
  }

  /** The first item that an assert or the callback objects to; the length if there is none. */
  function FirstBad(items: seq<Item>, checked: bool, trav: Entry -> bool): (n: nat)
    ensures n <= |items| && forall i :: 0 <= i < n ==> Passes(items[i], checked, trav)
    ensures n < |items| ==> !Passes(items[n], checked, trav)
  {
    if items == [] || !Passes(items[0], checked, trav) then 0 else 1 + FirstBad(items[1..], checked, trav)
  }

  /** What the outcomes mean: everything up to the first objection is shown, and a rejected entry too. */
  lemma {:induction false} VisitMeans(items: seq<Item>, checked: bool, trav: Entry -> bool)
    ensures var n := FirstBad(items, checked, trav);
            Visit(items, checked, trav) ==
            if n == |items| then (Completed, Entries(items))
            else if checked && Trips(items[n]) then (Aborted, Entries(items)[..n])
            else (Stopped, Entries(items)[..n + 1])
  {
    hide Trips, Entries;
    if items != [] {
      VisitMeans(items[1..], checked, trav);
      var n := FirstBad(items, checked, trav);
      EntriesFirst(items, n);
      if n < |items| {
        EntriesFirst(items, n + 1);
      }
    }
  }

  lemma EntriesFirst(items: seq<Item>, n: nat)
    requires items != [] && n <= |items|
    ensures Entries(items) == [items[0].entry] + Entries(items[1..])
    ensures Entries(items)[..n] == if n == 0 then [] else [items[0].entry] + Entries(items[1..])[..n - 1]
    ensures Entries(items[1..])[..0] == []
  {
  }

  // ---- With a callback that accepts everything ----

  ghost predicate AcceptsAll(trav: Entry -> bool) {
    forall e :: trav(e)
  }

  /** An overflow entry the asserts of clear and traverse reject. */
  ghost predicate TripsAssert(b: Bucket) {
    exists i :: 1 <= i < |b| && HalfZero(b[i].key)
  }

  ghost predicate AnyTrips(bs: seq<Bucket>) {
    exists h :: 0 <= h < |bs| && TripsAssert(bs[h])
  }

  lemma {:induction false} AllItemsMember(bs: seq<Bucket>, list: seq<nat>, it: Item)
    ensures it in AllItems(bs, list) <==> exists i :: 0 <= i < |list| && it in Items(BucketAt(bs, list[i]))
  {
    if list != [] {
      AllItemsMember(bs, list[1..], it);
      if i :| 0 <= i < |list| && it in Items(BucketAt(bs, list[i])) {
        if i > 0 {
          assert list[1..][i - 1] == list[i];
        }
      }
      if i :| 0 <= i < |list[1..]| && it in Items(BucketAt(bs, list[1..][i])) {
        assert list[i + 1] == list[1..][i];
      }
    }
  }

  /** Then every entry is shown, and only an assert can interfere: exactly for an overflow entry with a zero half. */
  lemma VisitAccepting(bs: seq<Bucket>, list: seq<nat>, checked: bool, trav: Entry -> bool)
    requires forall h :: 0 <= h < |bs| && h !in list ==> bs[h] == []
    ensures var r := Visit(AllItems(bs, list), checked, trav).0;
            AcceptsAll(trav) ==> r != Stopped && (r == Aborted <==> checked && AnyTrips(bs))
  {
    var items := AllItems(bs, list);
    VisitMeans(items, checked, trav);
    if AcceptsAll(trav) {
      var n := FirstBad(items, checked, trav);
      if n < |items| {
        TripsShown(bs, list, items[n]);
      }
      if h, i :| 0 <= h < |bs| && 1 <= i < |bs[h]| && HalfZero(bs[h][i].key) {
        var it := Items(bs[h])[i];
        assert BucketAt(bs, h) == bs[h] && h in list;
        AllItemsMember(bs, list, it);
        var k :| 0 <= k < |items| && items[k] == it;
      }
    }
  }

  lemma TripsShown(bs: seq<Bucket>, list: seq<nat>, it: Item)
    requires it in AllItems(bs, list) && Trips(it)
    ensures AnyTrips(bs)
  {
    AllItemsMember(bs, list, it);
    var j :| 0 <= j < |list| && it in Items(BucketAt(bs, list[j]));
    var i :| 0 <= i < |BucketAt(bs, list[j])| && Items(BucketAt(bs, list[j]))[i] == it;
    assert TripsAssert(bs[list[j]]);
  }
}
