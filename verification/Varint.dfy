/** st_varint: unsigned LEB128 (section 7.6 of the DWARF Debugging Information Format, Version 5). */
module Varint {
  import opened Util

  const UINT64: int := 0x1_0000_0000_0000_0000

  /** Low seven bits first, the high bit saying that more follow. */
  function Encode(v: nat): (b: seq<Byte>)
    ensures |b| > 0
  {
    if v < 128 then [v] else [v % 128 + 128] + Encode(v / 128)
  }

  /** Value and length of the code at the front of `b`; None if it is cut off. */
  function Decode(b: seq<Byte>): (r: Option<(nat, nat)>)
    ensures r.Some? ==> 1 <= r.value.1 <= |b|
  {
    if b == [] then None
    else if b[0] < 128 then Some((b[0], 1))
    else
      match Decode(b[1..])
      case None => None
      case Some((v, n)) => Some((b[0] - 128 + 128 * v, n + 1))
  }

  /** Whatever follows, a code reads back as its value and its own length. */
  lemma {:induction false} RoundTrip(v: nat, rest: seq<Byte>)
    ensures Decode(Encode(v) + rest) == Some((v, |Encode(v)|))
  {
    if v >= 128 {
      RoundTrip(v / 128, rest);
      assert (Encode(v) + rest)[1..] == Encode(v / 128) + rest;
    }
  }

  /** No code is a prefix of another's, and codes determine values. */
  lemma SelfDelimiting(v: nat, w: nat, x: seq<Byte>, y: seq<Byte>)
    requires Encode(v) + x == Encode(w) + y
    ensures v == w && x == y
  {
    RoundTrip(v, x);
    RoundTrip(w, y);
    assert (Encode(v) + x)[|Encode(v)|..] == x && (Encode(w) + y)[|Encode(w)|..] == y;
  }

  /** Encode yields exactly the codes without a redundant last byte. */
  lemma {:induction false} EncodeInvertsDecode(b: seq<Byte>)
    requires Decode(b).Some? && Decode(b).value.1 == |b|
    ensures Encode(Decode(b).value.0) == b <==> |b| == 1 || b[|b| - 1] != 0
  {
    if b[0] >= 128 {
      var (v, n) := Decode(b[1..]).value;
      EncodeInvertsDecode(b[1..]);
      var w := b[0] - 128 + 128 * v;
      assert b == [b[0]] + b[1..];
      assert w % 128 == b[0] - 128 && w / 128 == v;
      if v == 0 {
        AllZero(b[1..]);
      }
    }
  }

  /** The i-th byte of a code holds the i-th group of seven bits of its value; all but the last have the high bit. */
  lemma {:induction false} DecodeBytes(b: seq<Byte>, i: nat)
    requires Decode(b).Some? && i < Decode(b).value.1
    ensures var (v, n) := Decode(b).value;
            && v < Pow2(7 * n) && v / Pow2(7 * i) % 128 == b[i] % 128 && (b[i] >= 128 <==> i + 1 < n)
  {
    SevenBits();
    if b[0] >= 128 {
      var (w, m) := Decode(b[1..]).value;
      var v := b[0] - 128 + 128 * w;
      DecodeBytes(b[1..], if i == 0 then 0 else i - 1);
      hide Pow2, Decode;
      Pow2Sum(7, 7 * m);
      DivModUnique(v, 128, w, b[0] - 128);
      if i > 0 {
        Pow2Sum(7, 7 * (i - 1));
        DivDiv(v, 128, Pow2(7 * (i - 1)));
      }
    }
  }

  lemma SevenBits()
    ensures Pow2(0) == 1 && Pow2(7) == 128
  {
  }

  lemma DivDiv(x: nat, a: nat, b: nat)
    requires a > 0 && b > 0
    ensures a * b > 0 && x / a / b == x / (a * b)
  {
    var y, t := x / a, x % a;
    var q, r := y / b, y % b;
    Remainders(x, a);
    Remainders(y, b);
    Recombined(q, r, t, a, b);
    DivModUnique(x, a * b, q, r * a + t);
  }

  lemma Remainders(x: nat, a: nat)
    requires a > 0
    ensures x == x / a * a + x % a && 0 <= x % a < a && x / a >= 0
  {
  }

  lemma Recombined(q: nat, r: nat, t: nat, a: nat, b: nat)
    requires r < b && t < a
    ensures (q * b + r) * a + t == q * (a * b) + (r * a + t) && 0 <= r * a + t < a * b
  {
    MulBound(r + 1, b, a);
    assert (r + 1) * a == r * a + a;
    assert (q * b + r) * a == q * b * a + r * a && q * b * a == q * (a * b);
  }

  /** So a value is written in groups of seven bits, the lowest first, in as few as it needs. */
  lemma EncodeBytes(v: nat, i: nat)
    requires i < |Encode(v)|
    ensures Encode(v)[i] == v / Pow2(7 * i) % 128 + if i + 1 < |Encode(v)| then 128 else 0
    ensures v < Pow2(7 * |Encode(v)|) && (|Encode(v)| > 1 ==> Encode(v)[|Encode(v)| - 1] > 0)
  {
    hide Encode, Decode, Pow2;
    RoundTrip(v, []);
    assert Encode(v) + [] == Encode(v);
    DecodeBytes(Encode(v), i);
    EncodeInvertsDecode(Encode(v));
  }

  /** A code of value 0 ends in a zero byte. */
  lemma {:induction false} AllZero(b: seq<Byte>)
    requires Decode(b).Some? && Decode(b).value.1 == |b| && Decode(b).value.0 == 0
    ensures b[|b| - 1] == 0
  {
    if b[0] >= 128 {
      AllZero(b[1..]);
    }
  }

  // ---- Lengths ----

  /** st_varint_length_uint64. */
  function Length(n: nat): (len: nat)
    ensures 1 <= len <= 10
  {
    if n < 128 then 1
    else if n < 16384 then 2
    else if n < 2097152 then 3
    else if n < 268435456 then 4
    else if n < 34359738368 then 5
    else if n < 4398046511104 then 6
    else if n < 562949953421312 then 7
    else if n < 72057594037927936 then 8
    else if n < 9223372036854775808 then 9
    else 10
  }

  lemma LengthStep(n: nat)
    requires 128 <= n < UINT64
    ensures Length(n) == Length(n / 128) + 1
  {
  }

  lemma {:induction false} LengthIsEncoded(n: nat)
    requires n < UINT64
    ensures Length(n) == |Encode(n)|
  {
    if n >= 128 {
      LengthStep(n);
      LengthIsEncoded(n / 128);
    }
  }

  // ---- The two kinds of plain char ----

  /**
   * The test of the encoding loops on a uint64. Their mask is a plain `char` with bit 7 set: widened it has all
   * higher bits where plain char is signed, and bit 7 alone where it is unsigned.
   */
  predicate More(signedChar: bool, v: nat) {
    if signedChar then v >= 128 else v / 128 % 2 == 1
  }

  /** The bytes the encoding loops produce. */
  function EncodeAs(signedChar: bool, v: nat): (b: seq<Byte>)
    ensures |b| > 0
    decreases v
  {
    if More(signedChar, v) then [v % 128 + 128] + EncodeAs(signedChar, v / 128) else [v % 256]
  }

  /** Every group of seven bits but the lowest is odd, up to the last one. */
  predicate OddGroups(v: nat) {
    v < 128 || (v / 128 % 2 == 1 && OddGroups(v / 128))
  }

  lemma {:induction false} SignedEncodes(v: nat)
    ensures EncodeAs(true, v) == Encode(v)
  {
    if v >= 128 {
      SignedEncodes(v / 128);
    }
  }

  /** What is written reads back as the value exactly for a signed char, or for odd groups. */
  lemma {:induction false} ReadsBackIff(signedChar: bool, v: nat, rest: seq<Byte>)
    ensures var b := EncodeAs(signedChar, v);
            var r := Decode(b + rest);
            r.Some? && r.value.1 == |b| && r.value.0 <= v && (r.value.0 == v <==> signedChar || OddGroups(v))
    decreases v
  {
    var b := EncodeAs(signedChar, v);
    if More(signedChar, v) {
      ReadsBackIff(signedChar, v / 128, rest);
      assert (b + rest)[1..] == EncodeAs(signedChar, v / 128) + rest;
    }
  }

  /** Either way it reads back as the lowest groups of the value. */
  lemma {:induction false} ReadsBackAs(signedChar: bool, v: nat)
    ensures var b := EncodeAs(signedChar, v);
            Decode(b) == Some((v % Pow2(7 * |b|), |b|)) && (signedChar ==> v < Pow2(7 * |b|))
    decreases v
  {
    hide EncodeAs, Decode, Pow2, More;
    EncodeStep(signedChar, v, []);
    if More(signedChar, v) {
      var rest := EncodeAs(signedChar, v / 128);
      MoreHalves(signedChar, v);
      ReadsBackAs(signedChar, v / 128);
      EncodeFirst(signedChar, v);
      DecodeFirst(v % 128 + 128, rest);
      LowestGroup(v, 7 * |rest|);
    } else {
      LastByte(signedChar, v);
    }
  }

  lemma EncodeFirst(signedChar: bool, v: nat)
    requires More(signedChar, v)
    ensures EncodeAs(signedChar, v) == [v % 128 + 128] + EncodeAs(signedChar, v / 128)
  {
  }

  lemma LastByte(signedChar: bool, v: nat)
    requires !More(signedChar, v)
    ensures v % 256 == v % Pow2(7) && Decode([v % 256]) == Some((v % 256, 1)) && (signedChar ==> v < Pow2(7))
  {
    SevenBits();
  }

  /** With an unsigned char those are the groups before the first even one above the lowest. */
  lemma {:induction false} UnsignedStops(v: nat, k: nat)
    requires 1 <= k <= |EncodeAs(false, v)|
    ensures v / Pow2(7 * k) % 2 == if k < |EncodeAs(false, v)| then 1 else 0
  {
    SevenBits();
    if k > 1 {
      UnsignedStops(v / 128, k - 1);
      hide EncodeAs, Pow2;
      Pow2Sum(7, 7 * (k - 1));
      DivDiv(v, 128, Pow2(7 * (k - 1)));
    }
  }

  lemma DecodeFirst(x: Byte, rest: seq<Byte>)
    requires x >= 128 && Decode(rest).Some?
    ensures Decode([x] + rest) == Some((x - 128 + 128 * Decode(rest).value.0, Decode(rest).value.1 + 1))
  {
    hide Decode;
    var b := [x] + rest;
    assert b[0] == x && b[1..] == rest;
    DecodeHead(b);
  }

  lemma DecodeHead(b: seq<Byte>)
    requires b != [] && b[0] >= 128 && Decode(b[1..]).Some?
    ensures Decode(b) == Some((b[0] - 128 + 128 * Decode(b[1..]).value.0, Decode(b[1..]).value.1 + 1))
  {
  }

  lemma LowestGroup(v: nat, bits: nat)
    ensures v % Pow2(7 + bits) == v % 128 + 128 * (v / 128 % Pow2(bits))
    ensures v / 128 < Pow2(bits) ==> v < Pow2(7 + bits)
  {
    SevenBits();
    Pow2Sum(7, bits);
    var p, w := Pow2(bits), v / 128;
    hide Pow2;
    Remainders(v, 128);
    Remainders(w, p);
    Recombined(w / p, w % p, v % 128, 128, p);
    DivModUnique(v, 128 * p, w / p, w % p * 128 + v % 128);
  }

  /** And exactly then it is the code. */
  lemma {:induction false} UnsignedEncodesIff(v: nat)
    ensures EncodeAs(false, v) == Encode(v) <==> OddGroups(v)
  {
    if OddGroups(v) {
      if v >= 128 {
        UnsignedEncodesIff(v / 128);
      }
    } else if EncodeAs(false, v) == Encode(v) {
      RoundTrip(v, []);
      ReadsBackIff(false, v, []);
    }
  }

  /** With an unsigned char 256 is encoded as one zero byte. */
  lemma UnsignedLosesValue()
    ensures EncodeAs(false, 256) == [0] && Decode([0]) == Some((0, 1))
  {
  }

  /** One byte more of an encoding. */
  lemma EncodeStep(signedChar: bool, v: nat, done: seq<Byte>)
    ensures |EncodeAs(signedChar, v)| > 0
    ensures More(signedChar, v) ==>
      && (done + [v % 128 + 128]) + EncodeAs(signedChar, v / 128) == done + EncodeAs(signedChar, v)
      && |EncodeAs(signedChar, v)| == 1 + |EncodeAs(signedChar, v / 128)|
    ensures !More(signedChar, v) ==> EncodeAs(signedChar, v) == [v % 256]
  {
    if More(signedChar, v) {
      OneAhead(done, v % 128 + 128, EncodeAs(signedChar, v / 128));
    }
  }

  lemma OneAhead(x: seq<Byte>, b: Byte, y: seq<Byte>)
    ensures (x + [b]) + y == x + ([b] + y) && |[b] + y| == 1 + |y|
  {
  }

  // ---- Buffers ----

  /**
   * st_varint_encode_uint64; -1 once the buffer is full and bytes are left. The first byte is written before
   * the length is looked at, so an empty buffer is overrun; the model stops there.
   */
  method EncodeTo(signedChar: bool, value0: nat, buf: array<Byte>, bufLen: nat) returns (r: int, overrun: bool)
    requires value0 < UINT64 && bufLen <= buf.Length
    modifies buf
    ensures overrun <==> bufLen == 0
    ensures !overrun ==>
      var code := EncodeAs(signedChar, value0);
      && r == (if |code| <= bufLen then |code| else -1)
      && (if r >= 0 then buf[..r] == code else buf[..bufLen] == code[..bufLen])
    ensures buf[bufLen..] == old(buf[bufLen..])
  {
    hide EncodeAs, More;
    overrun := bufLen == 0;
    if overrun {
      return -1, true;
    }
    var value: nat, i: nat := value0, 0;
    ghost var code := EncodeAs(signedChar, value0);
    while More(signedChar, value)
      invariant i < bufLen && i + |EncodeAs(signedChar, value)| == |code|
      invariant buf[..i] + EncodeAs(signedChar, value) == code
      invariant buf[bufLen..] == old(buf[bufLen..])
      decreases value
    {
      EncodeStep(signedChar, value, buf[..i]);
      MoreHalves(signedChar, value);
      buf[i] := value % 128 + 128;
      i := i + 1;
      assert buf[..i] == buf[..i - 1] + [value % 128 + 128];
      value := value / 128;
      EncodeStep(signedChar, value, []);
      if i >= bufLen {
        return -1, false;
      }
    }
    EncodeStep(signedChar, value, []);
    buf[i] := value % 256;
    assert buf[..i + 1] == buf[..i] + [value % 256];
    return i + 1, false;
  }

  lemma MoreHalves(signedChar: bool, v: nat)
    requires More(signedChar, v)
    ensures v / 128 < v
  {
  }

  /** `value += u << bits` on a uint64. */
  function AddShifted(value: nat, u: nat, bits: nat): nat {
    (value + Shifted(u, bits) % UINT64) % UINT64
  }

  /** The shift without the wrap. */
  function Shifted(u: nat, bits: nat): nat {
    u * Pow2(bits)
  }

  lemma AddShiftedWraps(acc: nat, u: nat, bits: nat)
    ensures AddShifted(acc % UINT64, u, bits) == (acc + Shifted(u, bits)) % UINT64
  {
    hide Shifted;
    WrapAdd(acc, Shifted(u, bits));
  }

  lemma WrapAdd(x: nat, y: nat)
    ensures (x % UINT64 + y % UINT64) % UINT64 == (x + y) % UINT64
  {
    var z := x % UINT64 + y % UINT64;
    DivModUnique(x + y, UINT64, x / UINT64 + y / UINT64 + z / UINT64, z % UINT64);
  }

  /** What a decode loop has accumulated: `acc` so far, `rest` still to come. */
  ghost predicate Accumulated(v: nat, acc: nat, bits: nat, rest: seq<Byte>) {
    Decode(rest).Some? && v == acc + Pow2(bits) * Decode(rest).value.0
  }

  lemma AccumulateMore(v: nat, acc: nat, bits: nat, rest: seq<Byte>)
    requires rest != [] && Accumulated(v, acc, bits, rest)
    ensures rest[0] >= 128 ==> Accumulated(v, acc + Shifted(rest[0] - 128, bits), bits + 7, rest[1..])
    ensures rest[0] < 128 ==> v == acc + Shifted(rest[0], bits)
  {
    if rest[0] >= 128 {
      var w := Decode(rest[1..]).value.0;
      Pow2Sum(bits, 7);
      assert Pow2(7) == 128;
      Distribute(Pow2(bits), rest[0] - 128, w);
    }
  }

  lemma Distribute(p: nat, x: nat, w: nat)
    ensures p * (x + 128 * w) == x * p + (p * 128) * w
  {
  }

  /** What reading a code out of a buffer comes to. */
  datatype Reading = Read(len: nat, value: nat) | PastEnd | ShiftTooFar

  /** st_varint_decode_uint64 reads on to the end of the code: past the buffer, or into a shift by 64 or more. */
  function ReadingOf(b: seq<Byte>): Reading {
    if !ShiftsFit(b) then ShiftTooFar
    else
      match Decode(b)
      case None => PastEnd
      case Some((v, n)) => Read(n, v % UINT64)
  }

  /** st_varint_decode_uint64: the code's value modulo 2^64, and its length. */
  method DecodeFrom(buf: array<Byte>) returns (r: Reading)
    ensures r == ReadingOf(buf[..])
  {
    hide AddShifted, Shifted, Decoding, ShiftsFit, Decode;
    ghost var all := buf[..];
    ghost var acc: nat := 0;
    var value: nat, i: nat, len: nat := 0, 0, 0;
    if buf.Length == 0 {
      EmptyCutOff();
      assert all == [];
      return PastEnd;
    }
    DecodingStart(all);
    while buf[i] >= 128
      invariant i < buf.Length && Decoding(all, value, acc, len, i)
      decreases buf.Length - i
    {
      DecodingStep(all, value, acc, len, i);
      value := AddShifted(value, buf[i] - 128, len);
      acc := acc + Shifted(buf[i] - 128, len);
      i := i + 1;
      len := len + 7;
      if i == buf.Length {
        return PastEnd;
      }
      if len >= 64 {
        return ShiftTooFar;
      }
    }
    DecodingEnd(all, value, acc, len, i);
    value := AddShifted(value, buf[i], len);
    return Read(i + 1, value);
  }

  /** Decoding what encode wrote: the value comes back exactly for a signed char, or for odd groups. */
  method EncodeThenDecode(signedChar: bool, value: nat, buf: array<Byte>) returns (r: Reading)
    requires value < UINT64 && |EncodeAs(signedChar, value)| <= buf.Length
    modifies buf
    ensures r.Read? && r.len == |EncodeAs(signedChar, value)| && (signedChar ==> r.len == Length(value))
    ensures r.value == value <==> signedChar || OddGroups(value)
  {
    hide EncodeAs, Length, OddGroups, Decode;
    var len, overrun := EncodeTo(signedChar, value, buf, buf.Length);
    ReadsBackIff(signedChar, value, buf[len..]);
    EncodedFits(signedChar, value);
    assert buf[..] == buf[..len] + buf[len..];
    r := DecodeFrom(buf);
  }

  // ---- Streams ----

  /** A FILE whose writes append and whose reads advance `pos`. */
  class ByteStream {
    var bytes: seq<Byte>
    var pos: nat

    ghost predicate Valid()
      reads this
    {
      pos <= |bytes|
    }

    ghost function Rest(): seq<Byte>
      requires Valid()
      reads this
    {
      bytes[pos..]
    }

    constructor ()
      ensures Valid() && bytes == [] && pos == 0
    {
      bytes, pos := [], 0;
    }

    method ReadByte() returns (c: Option<Byte>)
      requires Valid()
      modifies this`pos
      ensures Valid()
      ensures old(Rest()) == [] ==> c == None && Rest() == []
      ensures old(Rest()) != [] ==> c == Some(old(Rest())[0]) && Rest() == old(Rest())[1..]
    {
      if pos == |bytes| {
        return None;
      }
      c := Some(bytes[pos]);
      pos := pos + 1;
    }

    /** st_varint_encode_stream_uint64. */
    method Write(signedChar: bool, value0: nat) returns (len: nat)
      requires Valid() && value0 < UINT64
      modifies this`bytes
      ensures Valid() && len == |EncodeAs(signedChar, value0)|
      ensures bytes == old(bytes) + EncodeAs(signedChar, value0)
      ensures Rest() == old(Rest()) + EncodeAs(signedChar, value0)
    {
      hide EncodeAs, More;
      var value: nat := value0;
      len := 0;
      while More(signedChar, value)
        invariant Valid() && len + |EncodeAs(signedChar, value)| == |EncodeAs(signedChar, value0)|
        invariant bytes + EncodeAs(signedChar, value) == old(bytes) + EncodeAs(signedChar, value0)
        decreases value
      {
        EncodeStep(signedChar, value, bytes);
        MoreHalves(signedChar, value);
        bytes := bytes + [value % 128 + 128];
        len := len + 1;
        value := value / 128;
      }
      EncodeStep(signedChar, value, bytes);
      bytes := bytes + [value % 256];
      return len + 1;
    }

    /** st_varint_decode_stream_uint64; -1 when the stream ends inside a code. */
    method ReadBack() returns (r: int, value: nat, tooFar: bool)
      requires Valid()
      modifies this`pos
      ensures Valid() && (tooFar <==> !ShiftsFit(old(Rest())))
      ensures !tooFar ==>
        match Decode(old(Rest()))
        case None => r == -1 && Rest() == []
        case Some((v, n)) => r == n && value == v % UINT64 && Rest() == old(Rest())[n..]
    {
      hide AddShifted, Shifted, Decoding, ShiftsFit, Decode;
      ghost var all := Rest();
      ghost var acc: nat := 0;
      value := 0;
      var bits: nat, len: nat := 0, 0;
      var c := ReadByte();
      if c.None? {
        EmptyCutOff();
        return -1, value, false;
      }
      len := len + 1;
      DecodingStart(all);
      while c.value >= 128
        invariant Valid() && c.Some? && 1 <= len <= |all|
        invariant all[len - 1] == c.value && Rest() == all[len..]
        invariant Decoding(all, value, acc, bits, len - 1)
        decreases |all| - len
      {
        DecodingStep(all, value, acc, bits, len - 1);
        value := AddShifted(value, c.value - 128, bits);
        acc := acc + Shifted(c.value - 128, bits);
        c := ReadByte();
        if c.None? {
          return -1, value, false;
        }
        len := len + 1;
        bits := bits + 7;
        if bits >= 64 {
          return -1, value, true;
        }
      }
      DecodingEnd(all, value, acc, bits, len - 1);
      value := AddShifted(value, c.value, bits);
      return len, value, false;
    }

    /** Writes every value, in order, with a signed char. */
    method WriteEach(values: seq<nat>)
      requires Valid() && forall i :: 0 <= i < |values| ==> values[i] < UINT64
      modifies this`bytes
      ensures Valid() && Rest() == old(Rest()) + EncodeAll(values)
    {
      for i := 0 to |values|
        invariant Valid() && Rest() == old(Rest()) + EncodeAll(values[..i])
      {
        var _ := Write(true, values[i]);
        SignedEncodes(values[i]);
        EncodeAllSnoc(values[..i], values[i]);
        assert values[..i] + [values[i]] == values[..i + 1];
      }
      assert values[..|values|] == values;
    }

    /** Reads back exactly what WriteEach wrote, and stops where it stopped. */
    method ReadEach(ghost values: seq<nat>, ghost after: seq<Byte>, count: nat) returns (back: seq<nat>)
      requires Valid() && count == |values| && forall i :: 0 <= i < count ==> values[i] < UINT64
      requires Rest() == EncodeAll(values) + after
      modifies this`pos
      ensures Valid() && back == values && Rest() == after
    {
      back := [];
      while |back| < count
        invariant Valid() && |back| <= count && back == values[..|back|]
        invariant Rest() == EncodeAll(values[|back|..]) + after
      {
        hide Decode, Encode, EncodeAll;
        ghost var v, tail := values[|back|], EncodeAll(values[|back| + 1..]) + after;
        FirstOfMany(values[|back|..], after);
        assert values[|back|..][1..] == values[|back| + 1..];
        var _, value, tooFar := ReadBack();
        back := back + [value];
      }
    }
  }

  function EncodeAll(values: seq<nat>): (b: seq<Byte>) {
    if values == [] then [] else Encode(values[0]) + EncodeAll(values[1..])
  }

  lemma Reassociated(x: seq<Byte>, y: seq<Byte>, z: seq<Byte>)
    ensures (x + y) + z == x + (y + z) && ((x + y) + z)[|x|..] == y + z
  {
  }

  /** The front of a list's bytes decodes to its first value, the rest staying in place. */
  lemma FirstOfMany(values: seq<nat>, after: seq<Byte>)
    requires values != [] && values[0] < UINT64
    ensures var b := EncodeAll(values) + after;
            && Decode(b) == Some((values[0], Length(values[0])))
            && b[Length(values[0])..] == EncodeAll(values[1..]) + after
  {
    hide Decode, Encode, Length;
    var first, others := Encode(values[0]), EncodeAll(values[1..]);
    RoundTrip(values[0], others + after);
    LengthIsEncoded(values[0]);
    Reassociated(first, others, after);
  }

  lemma {:induction false} EncodeAllSnoc(values: seq<nat>, v: nat)
    ensures EncodeAll(values + [v]) == EncodeAll(values) + Encode(v)
  {
    if values != [] {
      EncodeAllSnoc(values[1..], v);
      assert (values + [v])[1..] == values[1..] + [v];
    } else {
      assert EncodeAll([v]) == Encode(v) + EncodeAll([]);
    }
  }

  /** Different lists of values never share a byte stream. */
  lemma {:induction false} EncodeAllDetermines(x: seq<nat>, y: seq<nat>)
    requires EncodeAll(x) == EncodeAll(y)
    ensures x == y
  {
    if x != [] && y != [] {
      SelfDelimiting(x[0], y[0], EncodeAll(x[1..]), EncodeAll(y[1..]));
      EncodeAllDetermines(x[1..], y[1..]);
      assert x == [x[0]] + x[1..] && y == [y[0]] + y[1..];
    }
  }

  /** No shift of 64 or more is met before the code, or the data, ends. */
  predicate ShiftsFit(b: seq<Byte>) {
    match Decode(b)
    case None => |b| <= 10
    case Some((_, n)) => n <= 10
  }

  /** After `n` bytes of `all`, what is left decides the same value or the same failure. */
  ghost predicate SameOutcome(all: seq<Byte>, acc: nat, bits: nat, n: nat) {
    && n < |all|
    && (Decode(all).Some? <==> Decode(all[n..]).Some?)
    && (Decode(all).Some? ==>
          && Accumulated(Decode(all).value.0, acc, bits, all[n..])
          && Decode(all).value.1 == n + Decode(all[n..]).value.1)
  }

  lemma DecodeTail(rest: seq<Byte>)
    requires rest != [] && rest[0] >= 128
    ensures Decode(rest).Some? <==> Decode(rest[1..]).Some?
    ensures Decode(rest).Some? ==> Decode(rest).value.1 == Decode(rest[1..]).value.1 + 1
    ensures |rest| == 1 ==> Decode(rest).None?
  {
  }

  lemma OutcomeStart(all: seq<Byte>)
    requires all != []
    ensures SameOutcome(all, 0, 0, 0)
  {
    assert all[0..] == all;
  }

  lemma OutcomeStep(all: seq<Byte>, acc: nat, bits: nat, n: nat)
    requires n < |all| && SameOutcome(all, acc, bits, n) && all[n] >= 128
    ensures n + 1 == |all| ==> Decode(all).None? && (n < 10 ==> ShiftsFit(all))
    ensures n + 1 < |all| ==> SameOutcome(all, acc + Shifted(all[n] - 128, bits), bits + 7, n + 1)
  {
    hide Shifted, Accumulated, Decode;
    assert all[n..][1..] == all[n + 1..];
    DecodeTail(all[n..]);
    if Decode(all).Some? {
      AccumulateMore(Decode(all).value.0, acc, bits, all[n..]);
    }
  }

  /** At a byte without the high bit the value is complete. */
  lemma OutcomeEnd(all: seq<Byte>, acc: nat, bits: nat, n: nat)
    requires n < |all| && SameOutcome(all, acc, bits, n) && all[n] < 128
    ensures Decode(all) == Some((acc + Shifted(all[n], bits), n + 1)) && (n < 10 ==> ShiftsFit(all))
  {
    hide Shifted;
    AccumulateMore(Decode(all).value.0, acc, bits, all[n..]);
  }

  /** A byte at place ten needs a shift too far. */
  lemma OutcomeLonger(all: seq<Byte>, acc: nat, bits: nat, n: nat)
    requires SameOutcome(all, acc, bits, n) && n >= 10
    ensures !ShiftsFit(all)
  {
  }

  /** A decode loop before its n-th byte. */
  ghost predicate Decoding(all: seq<Byte>, value: nat, acc: nat, bits: nat, n: nat) {
    SameOutcome(all, acc, bits, n) && bits == 7 * n < 64 && value == acc % UINT64
  }

  lemma DecodingStart(all: seq<Byte>)
    requires all != []
    ensures Decoding(all, 0, 0, 0, 0)
  {
    OutcomeStart(all);
  }

  lemma DecodingStep(all: seq<Byte>, value: nat, acc: nat, bits: nat, n: nat)
    requires n < |all| && Decoding(all, value, acc, bits, n) && all[n] >= 128
    ensures n + 1 == |all| ==> Decode(all).None? && ShiftsFit(all)
    ensures n + 1 < |all| && bits + 7 >= 64 ==> !ShiftsFit(all)
    ensures n + 1 < |all| && bits + 7 < 64 ==>
              Decoding(all, AddShifted(value, all[n] - 128, bits), acc + Shifted(all[n] - 128, bits), bits + 7, n + 1)
  {
    hide AddShifted, Shifted, SameOutcome, ShiftsFit, Decode;
    OutcomeStep(all, acc, bits, n);
    AddShiftedWraps(acc, all[n] - 128, bits);
    if n + 1 < |all| && bits + 7 >= 64 {
      OutcomeLonger(all, acc + Shifted(all[n] - 128, bits), bits + 7, n + 1);
    }
  }

  lemma DecodingEnd(all: seq<Byte>, value: nat, acc: nat, bits: nat, n: nat)
    requires n < |all| && Decoding(all, value, acc, bits, n) && all[n] < 128
    ensures ShiftsFit(all) && Decode(all).Some? && Decode(all).value.1 == n + 1
    ensures AddShifted(value, all[n], bits) == Decode(all).value.0 % UINT64
  {
    hide AddShifted, Shifted, SameOutcome, ShiftsFit, Decode;
    OutcomeEnd(all, acc, bits, n);
    AddShiftedWraps(acc, all[n], bits);
  }

  lemma EmptyCutOff()
    ensures Decode([]) == None && ShiftsFit([])
  {
  }

  /** Ten bytes are enough for a uint64. */
  lemma EncodedFits(signedChar: bool, v: nat)
    requires v < UINT64
    ensures |EncodeAs(signedChar, v)| <= 10 && (signedChar ==> |EncodeAs(signedChar, v)| == Length(v))
  {
    EncodedNoLonger(signedChar, v);
    LengthIsEncoded(v);
    SignedEncodes(v);
  }

  lemma {:induction false} EncodedNoLonger(signedChar: bool, v: nat)
    ensures |EncodeAs(signedChar, v)| <= |Encode(v)|
    decreases v
  {
    if More(signedChar, v) {
      EncodedNoLonger(signedChar, v / 128);
    }
  }
}
