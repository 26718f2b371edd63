/** st_alphabet: labels and their indices, over a dictionary of label signatures. */
module Alphabet {
  import opened Util
  import opened DictModel
  import opened DictLinks
  import opened Dict

  /** A byte of a C string: the terminator is not part of the text. */
  type Char = c: int | 1 <= c < 256 witness 1
  type Text = seq<Char>

  /** MurmurHash2, left uninterpreted: text and seed to a 32-bit value. */
  type Murmur = (Text, uint32) -> uint32

  const MAX_SYM_LEN := 256
  const REALLOC_NUM := 1000000

  /** memcpy of at most four bytes into a zeroed little-endian word. */
  function Pack(t: Text): (w: nat)
    requires |t| <= 4
    ensures t != [] ==> w != 0
    ensures w < 0x1_0000_0000
  {
    PackBound(t);
    PackRec(t)
  }

  function PackRec(t: Text): (w: nat)
    ensures t != [] ==> w != 0
  {
    if t == [] then 0 else t[0] + 256 * PackRec(t[1..])
  }

  function Pow256(n: nat): nat {
    if n == 0 then 1 else 256 * Pow256(n - 1)
  }

  lemma {:induction false} PackBelow(t: Text)
    ensures PackRec(t) < Pow256(|t|)
  {
    if t != [] {
      PackBelow(t[1..]);
    }
  }

  lemma PackBound(t: Text)
    requires |t| <= 4
    ensures PackRec(t) < 0x1_0000_0000
  {
    PackBelow(t);
    assert Pow256(4) == 256 * Pow256(3) && Pow256(3) == 256 * Pow256(2) && Pow256(2) == 256 * Pow256(1)
      && Pow256(1) == 256;
  }

  /** get_sign. */
  function Sign(mur: Murmur, t: Text): (k: Key)
    ensures 1 <= |t| <= 8 ==> k != NO_KEY
    ensures t == [] ==> k == NO_KEY
  {
    if |t| <= 4 then Key(Pack(t), 0)
    else if |t| <= 8 then Key(Pack(t[..4]), Pack(t[4..]))
    else Key(mur(t[..|t| / 2], 1), mur(t[|t| / 2..], 2))
  }

  /** A label no sign can be made for: the empty one, and a long one both halves of which hash to 0. */
  predicate Unsignable(mur: Murmur, t: Text) {
    t == [] || (|t| > 8 && mur(t[..|t| / 2], 1) == 0 && mur(t[|t| / 2..], 2) == 0)
  }

  lemma UnsignableIff(mur: Murmur, t: Text)
    ensures Sign(mur, t) == NO_KEY <==> Unsignable(mur, t)
  {
  }

  /** Two labels of more than 8 bytes have one sign exactly when both their halves hash alike. */
  lemma SameSignIff(mur: Murmur, t: Text, u: Text)
    requires |t| > 8 && |u| > 8
    ensures Sign(mur, t) == Sign(mur, u) <==>
            && mur(t[..|t| / 2], 1) == mur(u[..|u| / 2], 1)
            && mur(t[|t| / 2..], 2) == mur(u[|u| / 2..], 2)
  {
  }

  /** strncpy into a slot of MAX_SYM_LEN bytes, the last one forced to the terminator. */
  function Stored(t: Text): (s: Text)
    ensures |s| < MAX_SYM_LEN && s <= t
    ensures s == t <==> |t| < MAX_SYM_LEN
  {
    if |t| < MAX_SYM_LEN then t else t[..MAX_SYM_LEN - 1]
  }

  function StoredAll(asked: seq<Text>): (texts: seq<Text>)
    ensures |texts| == |asked| && forall i :: 0 <= i < |asked| ==> texts[i] == Stored(asked[i])
  {
    seq(|asked|, i requires 0 <= i < |asked| => Stored(asked[i]))
  }

  /** index_dict_node_eq for a sought label: signs first, then the text of the node's label. */
  function SameLabel(texts: seq<Text>, mur: Murmur, t: Text): Entry -> bool {
    (e: Entry) => e.key == Sign(mur, t) && e.val < |texts| && texts[e.val] == t
  }

  // ---- Labels as they were asked for ----

  /** The i-th label is filed under the sign of `t`, and its stored text is `t`. */
  predicate Matches(asked: seq<Text>, mur: Murmur, t: Text, i: nat) {
    i < |asked| && Sign(mur, asked[i]) == Sign(mur, t) && Stored(asked[i]) == t
  }

  ghost predicate Known(asked: seq<Text>, mur: Murmur, t: Text) {
    exists i: nat :: Matches(asked, mur, t, i)
  }

  /** No label was added while one with its text and sign was there. */
  ghost predicate NoRepeats(asked: seq<Text>, mur: Murmur) {
    forall i: nat, j: nat :: i < j < |asked| ==> !Matches(asked, mur, asked[j], i)
  }

  predicate AllShort(ts: seq<Text>) {
    forall i :: 0 <= i < |ts| ==> |ts[i]| < MAX_SYM_LEN
  }

  /** A text that fills a whole slot or more is never found. */
  lemma LongIsUnknown(asked: seq<Text>, mur: Murmur, t: Text)
    requires |t| >= MAX_SYM_LEN
    ensures !Known(asked, mur, t)
  {
  }

  /** st_alphabet_add_label: the list of labels afterwards ... */
  ghost function NextAsked(asked: seq<Text>, max: nat, mur: Murmur, t: Text): seq<Text> {
    if Known(asked, mur, t) || max <= |asked| || Unsignable(mur, t) then asked else asked + [t]
  }

  /** ... and what it may return: a matching label if there is one, failure, or the next index. */
  ghost predicate Answers(asked: seq<Text>, max: nat, mur: Murmur, t: Text, r: Option<nat>) {
    if Known(asked, mur, t) then r.Some? && Matches(asked, mur, t, r.value)
    else if max <= |asked| || Unsignable(mur, t) then r == None
    else r == Some(|asked|)
  }

  lemma NextNoRepeats(asked: seq<Text>, mur: Murmur, t: Text)
    requires NoRepeats(asked, mur) && !Known(asked, mur, t)
    ensures NoRepeats(asked + [t], mur)
  {
    var asked' := asked + [t];
    forall i: nat, j: nat | i < j < |asked'|
      ensures !Matches(asked', mur, asked'[j], i)
    {
      assert Matches(asked', mur, asked'[j], i) ==> Matches(asked, mur, asked'[j], i);
    }
  }

  // ---- The plain list, for labels that fit ----

  /** What a plain list of labels answers. */
  function IndexIn(texts: seq<Text>, t: Text): (r: Option<nat>)
    ensures r.Some? ==> r.value < |texts| && texts[r.value] == t
    ensures r.None? ==> t !in texts
  {
    if texts == [] then None
    else if texts[0] == t then Some(0)
    else match IndexIn(texts[1..], t) case Some(i) => Some(i + 1) case None => None
  }

  /** st_alphabet_add_label on the plain list: old index, failure (None), or the next index. */
  function AddTo(texts: seq<Text>, max: nat, mur: Murmur, t: Text): (r: (seq<Text>, Option<nat>)) {
    match IndexIn(texts, t)
    case Some(i) => (texts, Some(i))
    case None =>
      if max <= |texts| || Unsignable(mur, t) then (texts, None)
      else (texts + [t], Some(|texts|))
  }

  /** Among labels that fit, a match is the label itself, and there is one at the most. */
  lemma ShortMatches(asked: seq<Text>, mur: Murmur, t: Text)
    requires NoRepeats(asked, mur) && AllShort(asked)
    ensures Distinct(asked)
    ensures forall i: nat :: Matches(asked, mur, t, i) <==> i < |asked| && asked[i] == t
    ensures Known(asked, mur, t) <==> IndexIn(asked, t).Some?
    ensures forall r: Option<nat> ::
              (if Known(asked, mur, t) then r.Some? && Matches(asked, mur, t, r.value) else r == None)
              ==> r == IndexIn(asked, t)
  {
    forall i, j | 0 <= i < j < |asked|
      ensures asked[i] != asked[j]
    {
      assert !Matches(asked, mur, asked[j], i);
    }
    var r := IndexIn(asked, t);
    assert r.Some? ==> Matches(asked, mur, t, r.value);
  }

  /** So add_label then does what the plain list does. */
  lemma ShortAnswers(asked: seq<Text>, max: nat, mur: Murmur, t: Text)
    requires NoRepeats(asked, mur)
    ensures AllShort(asked) ==>
              forall r: Option<nat> :: Answers(asked, max, mur, t, r) ==>
                (NextAsked(asked, max, mur, t), r) == AddTo(asked, max, mur, t)
  {
    if AllShort(asked) {
      hide Matches, AllShort, NoRepeats;
      ShortMatches(asked, mur, t);
    }
  }

  // ---- The dictionary of signs ----

  /** The dictionary files every label under the sign of the label asked for, and nothing else. */
  ghost predicate Indexed(asked: seq<Text>, mur: Murmur, bs: seq<Bucket>, hash: Key -> nat)
    requires HashOk(hash, |bs|)
  {
    && (forall h, e :: 0 <= h < |bs| && e in bs[h] ==> e.val < |asked| && e.key == Sign(mur, asked[e.val]))
    && (forall i :: 0 <= i < |asked| ==> Filed(asked, mur, bs, hash, i))
  }

  ghost predicate Filed(asked: seq<Text>, mur: Murmur, bs: seq<Bucket>, hash: Key -> nat, i: nat)
    requires HashOk(hash, |bs|) && i < |asked|
  {
    && Sign(mur, asked[i]) != NO_KEY
    && exists e :: e in bs[hash(Sign(mur, asked[i]))] && e.val == i && e.key == Sign(mur, asked[i])
  }

  /** What a seek for a label delivers. */
  function Sought(asked: seq<Text>, mur: Murmur, bs: seq<Bucket>, hash: Key -> nat, t: Text): Option<nat>
    requires forall k :: hash(k) < |bs|
  {
    var k := Sign(mur, t);
    if k == NO_KEY then None
    else match FirstMatch(bs[hash(k)], SameLabel(StoredAll(asked), mur, t)) case Some(i) => Some(i) case None => None
  }

  /** Whatever the hashes collide on, a seek delivers a match, and fails only when there is none. */
  lemma SeekAgrees(asked: seq<Text>, mur: Murmur, bs: seq<Bucket>, hash: Key -> nat, t: Text)
    requires HashOk(hash, |bs|) && Indexed(asked, mur, bs, hash)
    ensures var r := Sought(asked, mur, bs, hash, t);
            if Known(asked, mur, t) then r.Some? && Matches(asked, mur, t, r.value) else r == None
  {
    var k := Sign(mur, t);
    if i: nat :| Matches(asked, mur, t, i) {
      assert Filed(asked, mur, bs, hash, i);
    }
    if k != NO_KEY {
      FirstMatchFinds(bs[hash(k)], SameLabel(StoredAll(asked), mur, t));
      var f := Sought(asked, mur, bs, hash, t);
      assert f.Some? ==> Matches(asked, mur, t, f.value);
    }
  }

  lemma InsertMembers(b: Bucket, x: Entry, e: Entry)
    ensures e in Insert(b, x) <==> e in b || e == x
  {
    if b != [] {
      assert b == [b[0]] + b[1..];
    }
  }

  lemma AddKeepsIndexed(asked: seq<Text>, mur: Murmur, bs: seq<Bucket>, hash: Key -> nat, t: Text)
    requires HashOk(hash, |bs|) && Indexed(asked, mur, bs, hash)
    requires Sign(mur, t) != NO_KEY && |asked| < 0x1_0000_0000
    ensures var k := Sign(mur, t);
            Indexed(asked + [t], mur, bs[hash(k) := Insert(bs[hash(k)], Entry(k, |asked|))], hash)
  {
    var k := Sign(mur, t);
    var x := Entry(k, |asked|);
    var asked', bs' := asked + [t], bs[hash(k) := Insert(bs[hash(k)], x)];
    forall h, e: Entry | 0 <= h < |bs'| && e in bs'[h]
      ensures e.val < |asked'| && e.key == Sign(mur, asked'[e.val])
    {
      InsertMembers(bs[hash(k)], x, e);
    }
    forall i | 0 <= i < |asked'|
      ensures Filed(asked', mur, bs', hash, i)
    {
      if i < |asked| {
        assert Filed(asked, mur, bs, hash, i);
        var h := hash(Sign(mur, asked[i]));
        var e :| e in bs[h] && e.val == i && e.key == Sign(mur, asked[i]);
        InsertMembers(bs[hash(k)], x, e);
        assert e in bs'[h];
      } else {
        InsertMembers(bs[hash(k)], x, x);
        assert x in bs'[hash(k)];
      }
    }
  }

  datatype Slot = Slot(text: Text, symid: int)

  datatype LabelResult = Label(text: Text) | Null | OutOfBounds

  class Alphabet {
    var labels: array<Slot>
    var labelNum: nat
    var dict: Dictionary   // index_dict
    const mur: Murmur
    ghost var asked: seq<Text>   // the labels as they were passed to st_alphabet_add_label

    ghost predicate Valid()
      reads this, labels, dict, dict.heads, dict.pool, dict.clearNodes
    {
      && labelNum == |asked| <= labels.Length <= INT32_MAX
      && (forall i :: 0 <= i < labelNum ==> labels[i] == Slot(Stored(asked[i]), i))
      && NoRepeats(asked, mur)
      && dict.Valid() && dict.clearNodes == null
      && dict.reallocNum == REALLOC_NUM && dict.cur <= labelNum
      && HashOk(dict.hash, |dict.buckets|)
      && Indexed(asked, mur, dict.buckets, dict.hash)
    }

    /** st_alphabet_create. */
    static method Create(max: int, mur: Murmur) returns (a: Alphabet?)
      requires max + max / 2 <= INT32_MAX
      ensures a == null <==> max <= 0
      ensures a != null ==> fresh(a) && a.Valid() && a.asked == [] && a.labels.Length == max && a.mur == mur
      ensures a != null ==> fresh(a.labels) && fresh(a.dict) && fresh(a.dict.heads) && fresh(a.dict.pool)
    {
      if max <= 0 {
        return null;
      }
      var n := max + max / 2;  // (int)(max * 1.5)
      var d := Dict.Create(n, REALLOC_NUM, None, false);
      EmptyIndexed(mur, d.buckets, d.hash);
      a := new Alphabet(max, mur, d);
    }

    constructor (max: nat, mur: Murmur, d: Dictionary)
      requires max <= INT32_MAX && d.Valid() && d.clearNodes == null && d.reallocNum == REALLOC_NUM && d.cur == 0
      requires HashOk(d.hash, |d.buckets|) && Indexed([], mur, d.buckets, d.hash)
      ensures Valid() && asked == [] && labels.Length == max && this.mur == mur && dict == d
      ensures fresh(labels)
    {
      this.mur := mur;
      labels := new Slot[max](_ => Slot([], -1));
      labelNum := 0;
      dict := d;
      asked := [];
    }

    /** What get_index answers now. */
    ghost function Found(t: Text): Option<nat>
      requires Valid()
      reads this, labels, dict, dict.heads, dict.pool, dict.clearNodes
    {
      Sought(asked, mur, dict.buckets, dict.hash, t)
    }

    /** st_alphabet_get_index: a label that matches if there is one; the plain list's answer while all labels fit. */
    method GetIndex(t: Text) returns (r: Option<nat>)
      requires Valid()
      ensures r == Found(t)
      ensures if Known(asked, mur, t) then r.Some? && Matches(asked, mur, t, r.value) else r == None
      ensures AllShort(asked) ==> r == IndexIn(asked, t)
    {
      SeekAgrees(asked, mur, dict.buckets, dict.hash, t);
      if AllShort(asked) {
        ShortMatches(asked, mur, t);
      }
      hide StateOk, Indexed, Matches, Known, AllShort, NoRepeats;
      var slots := labels[..labelNum];
      var stored := seq(|slots|, i requires 0 <= i < |slots| => slots[i].text);
      assert stored == StoredAll(asked);
      r := dict.Seek(Sign(mur, t), SameLabel(stored, mur, t));
    }

    /** st_alphabet_add_label, for labels of any length; as on the plain list while all labels fit. */
    method AddLabel(t: Text) returns (r: Option<nat>)
      requires Valid()
      modifies this`labelNum, this`asked, labels, dict, dict.heads, dict.pool
      ensures Valid() && labels == old(labels) && dict == old(dict) && dict.heads == old(dict.heads)
      ensures dict.pool == old(dict.pool) || fresh(dict.pool)
      ensures asked == NextAsked(old(asked), labels.Length, mur, t)
      ensures Answers(old(asked), labels.Length, mur, t, r)
      ensures !Known(old(asked), mur, t) && old(|asked|) < labels.Length ==> (r.None? <==> Unsignable(mur, t))
      ensures Known(old(asked), mur, t) ==> r == old(Found(t)) == Found(t)
      ensures AllShort(old(asked)) ==> (asked, r) == AddTo(old(asked), labels.Length, mur, t)
    {
      hide StateOk, Indexed, Matches, Known, AllShort, NoRepeats, AddTo;
      ghost var was, max := asked, labels.Length;
      ShortAnswers(was, max, mur, t);
      r := GetIndex(t);
      if r.Some? {
        return;
      }
      if labels.Length <= labelNum {
        return None;
      }
      NextNoRepeats(asked, mur, t);
      var ok := Append(t);
      return if ok then Some(labelNum - 1) else None;
    }

    /** Writes the next slot, and counts it once the dictionary has taken the sign. */
    method Append(t: Text) returns (ok: bool)
      requires Valid() && labelNum < labels.Length && NoRepeats(asked + [t], mur)
      modifies this`labelNum, this`asked, labels, dict, dict.heads, dict.pool
      ensures Valid() && labels == old(labels) && dict == old(dict) && dict.heads == old(dict.heads)
      ensures dict.pool == old(dict.pool) || fresh(dict.pool)
      ensures ok == !Unsignable(mur, t)
      ensures asked == if ok then old(asked) + [t] else old(asked)
    {
      UnsignableIff(mur, t);
      hide StateOk, Indexed, NoRepeats, Sign, Unsignable;
      labels[labelNum] := Slot(Stored(t), labelNum);
      var k := Sign(mur, t);
      if k != NO_KEY {
        AddKeepsIndexed(asked, mur, dict.buckets, dict.hash, t);
      }
      HasRoom();
      var overrun;
      ok, overrun := dict.AddNoSeek(k, labelNum);
      if ok {
        asked := asked + [t];
        labelNum := labelNum + 1;
      }
    }

    /** Ids stay far from the 32-bit limit. */
    lemma HasRoom()
      requires dict.Valid() && dict.reallocNum == REALLOC_NUM && dict.cur <= INT32_MAX
      ensures !dict.Exhausted()
    {
      StateBounds(dict.heads[..], dict.pool[..], dict.cur, dict.num, dict.ClearList(), dict.hash, dict.chains,
        dict.buckets);
    }

    /** st_alphabet_get_label: the bound lets index == label_num through, to a slot that holds no label. */
    method GetLabel(index: int) returns (r: LabelResult)
      requires Valid()
      ensures 0 <= index < |asked| ==> r == Label(Stored(asked[index]))
      ensures r == Null <==> index < 0 || |asked| < index
      ensures r == OutOfBounds <==> index == |asked| == labels.Length
    {
      if index < 0 || index > labelNum {
        return Null;
      }
      if index >= labels.Length {
        return OutOfBounds;
      }
      return Label(labels[index].text);
    }
  }

  lemma EmptyIndexed(mur: Murmur, bs: seq<Bucket>, hash: Key -> nat)
    requires HashOk(hash, |bs|) && forall h :: 0 <= h < |bs| ==> bs[h] == []
    ensures Indexed([], mur, bs, hash)
  {
  }

  // ---- Runs ----

  /** Adding a list of labels, on the plain list. */
  function AddAllTo(texts: seq<Text>, max: nat, mur: Murmur, ts: seq<Text>): (r: (seq<Text>, seq<Option<nat>>))
    decreases |ts|
  {
    if ts == [] then (texts, [])
    else
      var (texts', i) := AddTo(texts, max, mur, ts[0]);
      var (texts'', rs) := AddAllTo(texts', max, mur, ts[1..]);
      (texts'', [i] + rs)
  }

  /** The labels asked for after a run of adds of labels of any length, and its possible answers. */
  ghost function AskedAfter(asked: seq<Text>, max: nat, mur: Murmur, ts: seq<Text>): seq<Text>
    decreases |ts|
  {
    if ts == [] then asked else AskedAfter(NextAsked(asked, max, mur, ts[0]), max, mur, ts[1..])
  }

  ghost predicate AllAnswer(asked: seq<Text>, max: nat, mur: Murmur, ts: seq<Text>, rs: seq<Option<nat>>)
    decreases |ts|
  {
    && |rs| == |ts|
    && (ts != [] ==>
          && Answers(asked, max, mur, ts[0], rs[0])
          && AllAnswer(NextAsked(asked, max, mur, ts[0]), max, mur, ts[1..], rs[1..]))
  }

  method AddAll(a: Alphabet, ts: seq<Text>) returns (rs: seq<Option<nat>>)
    requires a.Valid()
    modifies a, a.labels, a.dict, a.dict.heads, a.dict.pool
    ensures a.Valid() && a.labels == old(a.labels)
    ensures a.dict == old(a.dict) && a.dict.heads == old(a.dict.heads)
    ensures a.dict.pool == old(a.dict.pool) || fresh(a.dict.pool)
    ensures a.asked == AskedAfter(old(a.asked), a.labels.Length, a.mur, ts)
    ensures AllAnswer(old(a.asked), a.labels.Length, a.mur, ts, rs)
    ensures AllShort(old(a.asked)) && AllShort(ts) ==>
      (a.asked, rs) == AddAllTo(old(a.asked), a.labels.Length, a.mur, ts)
    decreases |ts|
  {
    if ts == [] {
      return [];
    }
    hide StateOk, Indexed, Answers, NextAsked, Matches, NoRepeats;
    ghost var was := a.asked;
    var i := a.AddLabel(ts[0]);
    if AllShort(was) && AllShort(ts) {
      AddToShort(was, a.labels.Length, a.mur, ts[0]);
    }
    var more := AddAll(a, ts[1..]);
    rs := [i] + more;
    assert rs[1..] == more;
  }

  lemma AddToShort(asked: seq<Text>, max: nat, mur: Murmur, t: Text)
    requires AllShort(asked) && |t| < MAX_SYM_LEN
    ensures AllShort(AddTo(asked, max, mur, t).0)
  {
  }

  /** The invariants of the plain list over a run: distinct, ids dense in first-insertion order, answers stable. */
  lemma {:induction false} AddAllKeeps(texts: seq<Text>, max: nat, mur: Murmur, ts: seq<Text>)
    requires Distinct(texts) && |texts| <= max
    ensures var (texts', rs) := AddAllTo(texts, max, mur, ts);
            && Distinct(texts') && |texts'| <= max && |rs| == |ts|
            && texts <= texts'
            && (forall k :: 0 <= k <= |ts| ==> texts <= AddAllTo(texts, max, mur, ts[..k]).0 <= texts')
            && (forall i :: |texts| <= i < |texts'| ==> texts'[i] in ts)
            && (forall j :: 0 <= j < |ts| ==>
                  if rs[j].Some? then rs[j].value < |texts'| && texts'[rs[j].value] == ts[j] else ts[j] !in texts')
    decreases |ts|
  {
    if ts != [] {
      var (texts1, i) := AddTo(texts, max, mur, ts[0]);
      var (texts2, rs) := AddAllTo(texts1, max, mur, ts[1..]);
      AddAllKeeps(texts1, max, mur, ts[1..]);
      forall k | 0 < k <= |ts|
        ensures AddAllTo(texts, max, mur, ts[..k]).0 == AddAllTo(texts1, max, mur, ts[1..][..k - 1]).0
      {
        assert ts[..k][1..] == ts[1..][..k - 1];
      }
      if i.None? {
        NeverAdded(texts, max, mur, ts[1..], ts[0]);
      }
    }
  }

  /** A label refused once (no room, or a zero signature) is refused for the rest of the run. */
  lemma {:induction false} NeverAdded(texts: seq<Text>, max: nat, mur: Murmur, ts: seq<Text>, t: Text)
    requires t !in texts && (max <= |texts| || Unsignable(mur, t))
    ensures t !in AddAllTo(texts, max, mur, ts).0
    decreases |ts|
  {
    if ts != [] {
      NeverAdded(AddTo(texts, max, mur, ts[0]).0, max, mur, ts[1..], t);
    }
  }

  /** get_index and get_label are inverse on the labels present. */
  lemma {:induction false} IndexOfLabel(texts: seq<Text>, i: nat)
    requires Distinct(texts) && i < |texts|
    ensures IndexIn(texts, texts[i]) == Some(i)
  {
    if i > 0 {
      IndexOfLabel(texts[1..], i - 1);
    }
  }

  /** Found exactly when some add of the run succeeded on it: while all fit, when it was added and has a sign. */
  lemma FoundIffAdded(max: nat, mur: Murmur, ts: seq<Text>, t: Text)
    ensures var (texts, rs) := AddAllTo([], max, mur, ts);
            IndexIn(texts, t).Some? <==> exists j :: 0 <= j < |ts| && j < |rs| && ts[j] == t && rs[j].Some?
    ensures |Signable(mur, ts)| <= max ==>
              (IndexIn(AddAllTo([], max, mur, ts).0, t).Some? <==> t in ts && !Unsignable(mur, t))
  {
    AddAllKeeps([], max, mur, ts);
    RunHolds(max, mur, ts);
    SignableMember(mur, ts, t);
    hide Unsignable, Signable, AddAllTo;
    var (texts, rs) := AddAllTo([], max, mur, ts);
    if IndexIn(texts, t).Some? {
      assert t in ts;
      var j :| 0 <= j < |ts| && ts[j] == t;
    }
  }

  /** The distinct labels of a run that have a sign, in the order of their first appearance. */
  function Signable(mur: Murmur, ts: seq<Text>): seq<Text> {
    if ts == [] then []
    else
      var before, t := Signable(mur, ts[..|ts| - 1]), ts[|ts| - 1];
      if Unsignable(mur, t) || t in before then before else before + [t]
  }

  lemma {:induction false} AddAllToSnoc(texts: seq<Text>, max: nat, mur: Murmur, ts: seq<Text>, t: Text)
    ensures var (texts', rs) := AddAllTo(texts, max, mur, ts);
            var (texts'', r) := AddTo(texts', max, mur, t);
            AddAllTo(texts, max, mur, ts + [t]) == (texts'', rs + [r])
    decreases |ts|
  {
    if ts == [] {
      var (next, r) := AddTo(texts, max, mur, t);
      assert ts + [t] == [t] && [t][1..] == [] && [r] + [] == [] + [r];
      assert AddAllTo(texts, max, mur, [t]) == (next, [r] + []);
    } else {
      var (next, i) := AddTo(texts, max, mur, ts[0]);
      assert (ts + [t])[1..] == ts[1..] + [t];
      AddAllToSnoc(next, max, mur, ts[1..], t);
      var (texts', rs) := AddAllTo(next, max, mur, ts[1..]);
      var r := AddTo(texts', max, mur, t).1;
      assert [i] + (rs + [r]) == ([i] + rs) + [r];
    }
  }

  /** A run from the empty alphabet ends with the first `max` of them. */
  lemma {:induction false} RunHolds(max: nat, mur: Murmur, ts: seq<Text>)
    ensures var all := Signable(mur, ts);
            AddAllTo([], max, mur, ts).0 == if |all| <= max then all else all[..max]
  {
    if ts != [] {
      var init, t := ts[..|ts| - 1], ts[|ts| - 1];
      RunHolds(max, mur, init);
      assert ts == init + [t];
      AddAllToSnoc([], max, mur, init, t);
    }
  }

  lemma {:induction false} SignableMember(mur: Murmur, ts: seq<Text>, t: Text)
    ensures t in Signable(mur, ts) <==> t in ts && !Unsignable(mur, t)
    ensures Distinct(Signable(mur, ts))
  {
    hide Unsignable;
    if ts != [] {
      SignableMember(mur, ts[..|ts| - 1], t);
      assert ts == ts[..|ts| - 1] + [ts[|ts| - 1]];
    }
  }

  /** While the distinct labels that have a sign fit, exactly the adds of the others fail. */
  lemma AcceptedIff(max: nat, mur: Murmur, ts: seq<Text>, j: nat)
    requires j < |ts| && |Signable(mur, ts)| <= max
    ensures j < |AddAllTo([], max, mur, ts).1|
    ensures AddAllTo([], max, mur, ts).1[j].None? <==> Unsignable(mur, ts[j])
  {
    AddAllKeeps([], max, mur, ts);
    RunHolds(max, mur, ts);
    SignableMember(mur, ts, ts[j]);
  }

  /** Labels of 1 to 8 bytes always have a sign, so only lack of room refuses them. */
  lemma ShortLabelsAreAdded(texts: seq<Text>, max: nat, mur: Murmur, t: Text)
    requires 1 <= |t| <= 8 && |texts| < max
    ensures AddTo(texts, max, mur, t).1.Some?
  {
  }

  // ---- Runs with labels of any length ----

  /** The list only grows at its end, so indices are dense and in the order of first insertion. */
  lemma {:induction false} AskedGrows(asked: seq<Text>, max: nat, mur: Murmur, ts: seq<Text>, k: nat)
    requires k <= |ts|
    ensures asked <= AskedAfter(asked, max, mur, ts[..k]) <= AskedAfter(asked, max, mur, ts)
    decreases |ts|
  {
    if ts != [] {
      var next := NextAsked(asked, max, mur, ts[0]);
      if k > 0 {
        AskedGrows(next, max, mur, ts[1..], k - 1);
        assert ts[..k][1..] == ts[1..][..k - 1];
      } else {
        AskedGrows(next, max, mur, ts[1..], 0);
      }
    }
  }

  /** `t` is found after the run exactly when it was before, or some add that succeeded stores it under its sign. */
  lemma {:induction false} FoundIffStored(asked: seq<Text>, max: nat, mur: Murmur, ts: seq<Text>,
      rs: seq<Option<nat>>, t: Text)
    requires AllAnswer(asked, max, mur, ts, rs)
    ensures Known(AskedAfter(asked, max, mur, ts), mur, t) <==>
            Known(asked, mur, t) || exists j :: 0 <= j < |ts| && StoresAs(ts[j], rs[j], mur, t)
    decreases |ts|
  {
    if ts != [] {
      var next := NextAsked(asked, max, mur, ts[0]);
      FoundIffStored(next, max, mur, ts[1..], rs[1..], t);
      KnownAfterOne(asked, max, mur, ts[0], rs[0], t);
      hide Answers, NextAsked, AskedAfter, Known, StoresAs, AllAnswer;
      if j :| 0 <= j < |ts| && StoresAs(ts[j], rs[j], mur, t) {
        if j > 0 {
          assert StoresAs(ts[1..][j - 1], rs[1..][j - 1], mur, t);
        }
      }
      if j :| 0 <= j < |ts[1..]| && StoresAs(ts[1..][j], rs[1..][j], mur, t) {
        assert StoresAs(ts[j + 1], rs[j + 1], mur, t);
      }
      if StoresAs(ts[0], rs[0], mur, t) {
        assert 0 <= 0 < |ts|;
      }
    }
  }

  /**
   * An add of `asked` that succeeded and that a lookup of `t` finds: `t` itself, if it fits its slot, or a label whose
   * first 255 bytes are `t` and whose halves hash as those of `t` do.
   */
  predicate StoresAs(asked: Text, r: Option<nat>, mur: Murmur, t: Text) {
    r.Some? &&
    if |asked| < 256 then asked == t
    else
      && t == asked[..255]
      && mur(asked[..|asked| / 2], 1) == mur(t[..127], 1) && mur(asked[|asked| / 2..], 2) == mur(t[127..], 2)
  }

  lemma StoresIff(asked: Text, r: Option<nat>, mur: Murmur, t: Text)
    ensures StoresAs(asked, r, mur, t) <==> r.Some? && Stored(asked) == t && Sign(mur, asked) == Sign(mur, t)
  {
    hide Sign;
    if |asked| >= 256 && |t| == 255 {
      SameSignIff(mur, asked, t);
    }
  }

  lemma KnownAfterOne(asked: seq<Text>, max: nat, mur: Murmur, one: Text, r: Option<nat>, t: Text)
    requires Answers(asked, max, mur, one, r)
    ensures Known(NextAsked(asked, max, mur, one), mur, t) <==> Known(asked, mur, t) || StoresAs(one, r, mur, t)
  {
    StoresIff(one, r, mur, t);
    hide Sign, StoresAs, Unsignable;
    var next := NextAsked(asked, max, mur, one);
    if i: nat :| Matches(next, mur, t, i) {
      assert i < |asked| ==> Matches(asked, mur, t, i);
    }
    if i: nat :| Matches(asked, mur, t, i) {
      assert Matches(next, mur, t, i);
    }
    if StoresAs(one, r, mur, t) {
      assert Matches(next, mur, t, r.value);
    }
  }

  /** A label just added is found again, under the index the add returned, if and only if it fits its slot. */
  method AddThenFind(a: Alphabet, t: Text) returns (added: Option<nat>, found: Option<nat>)
    requires a.Valid()
    modifies a, a.labels, a.dict, a.dict.heads, a.dict.pool
    ensures a.Valid()
    ensures added.Some? ==> (found.Some? <==> |t| < MAX_SYM_LEN)
    ensures found.Some? ==> found == added
  {
    hide StateOk, Indexed, NoRepeats, AllShort, AddTo, Sign, IndexIn;
    ghost var was := a.asked;
    added := a.AddLabel(t);
    found := a.GetIndex(t);
    if |t| >= MAX_SYM_LEN {
      LongIsUnknown(a.asked, a.mur, t);
    } else if added.Some? {
      assert Matches(a.asked, a.mur, t, added.value);
      if !Known(was, a.mur, t) {
        assert found.value < |was| ==> Matches(was, a.mur, t, found.value);
      }
    } else {
      assert a.asked == was;
    }
  }

  /** Adding a label that does not fit twice makes two labels with one text, neither of which is ever found. */
  method LongLabelTwice(a: Alphabet, t: Text)
    returns (first: Option<nat>, second: Option<nat>, found: Option<nat>, x: LabelResult, y: LabelResult)
    requires a.Valid() && |a.asked| + 2 <= a.labels.Length
    requires |t| >= MAX_SYM_LEN && !Unsignable(a.mur, t)
    modifies a, a.labels, a.dict, a.dict.heads, a.dict.pool
    ensures a.Valid() && a.asked == old(a.asked) + [t, t]
    ensures first == Some(old(|a.asked|)) && second == Some(old(|a.asked|) + 1)
    ensures x == y == Label(t[..MAX_SYM_LEN - 1])
    ensures found == a.Found(t) == None
  {
    hide StateOk, Indexed, NoRepeats, AllShort, AddTo, Sign, IndexIn, Known;
    LongIsUnknown(a.asked, a.mur, t);
    first := a.AddLabel(t);
    LongIsUnknown(a.asked, a.mur, t);
    second := a.AddLabel(t);
    LongIsUnknown(a.asked, a.mur, t);
    x := a.GetLabel(first.value);
    y := a.GetLabel(second.value);
    found := a.GetIndex(t);
  }

  /** One such label: 256 times the letter a, under a hash that yields its seed. */
  method LongLabelExample()
    returns (first: Option<nat>, second: Option<nat>, found: Option<nat>, x: LabelResult, y: LabelResult)
    ensures first == Some(0) && second == Some(1) && found == None
    ensures x == y && x.Label? && |x.text| == 255
  {
    hide StateOk, Indexed, NoRepeats;
    var t: Text := seq(MAX_SYM_LEN, _ => 97);
    var mur: Murmur := (text, seed) => seed;
    var a := Alphabet.Create(2, mur);
    first, second, found, x, y := LongLabelTwice(a, t);
  }
}
