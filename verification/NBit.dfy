/**
 * st_nbit_set and st_nbit_get: arrays of u-bit units packed into bytes.
 *
 * Masks and shifts are written as arithmetic: `x & ((1 << k) - 1)` is x mod 2^k,
 * `x >> k` halves k times, and `|=` after clearing the target bits is addition.
 */
module NBit {
  import opened Util
  import opened BitStream

  /** st_get_nbit_val_in_byte: `n` bits of `b` from bit `s`. */
  function GetInByte(b: Byte, s: nat, n: nat): int
    requires 1 <= n && s + n <= 8
  {
    b % Pow2(8 - s) / Pow2(8 - s - n)
  }

  /** st_clear_nbit_in_byte. */
  function ClearInByte(b: Byte, s: nat, n: nat): int
    requires 1 <= n && s + n <= 8
  {
    b - GetInByte(b, s, n) * Pow2(8 - s - n)
  }

  /** A cleared byte with `x` or-ed into the hole. */
  function PutInByte(b: Byte, s: nat, n: nat, x: nat): (r: int)
    requires 1 <= n && s + n <= 8
  {
    ClearInByte(b, s, n) + x * Pow2(8 - s - n)
  }

  /** A byte as three bit fields. */
  lemma Fields(b: Byte, s: nat, n: nat)
    requires s + n <= 8
    ensures var bits := ByteBits(b);
            var x, y, z := BitsVal(bits[..s]), BitsVal(bits[s..s + n]), BitsVal(bits[s + n..]);
            && b == x * Pow2(8 - s) + y * Pow2(8 - s - n) + z
            && y < Pow2(n) && z < Pow2(8 - s - n)
            && Pow2(8 - s) == Pow2(n) * Pow2(8 - s - n)
  {
    hide BitsVal, ByteBits, Pow2;
    var bits := ByteBits(b);
    ByteBitsVal(b);
    assert bits == bits[..s] + (bits[s..s + n] + bits[s + n..]);
    BitsValAppend(bits[..s], bits[s..s + n] + bits[s + n..]);
    BitsValAppend(bits[s..s + n], bits[s + n..]);
    Pow2Sum(n, 8 - s - n);
  }

  lemma MiddleField(b: nat, x: nat, y: nat, z: nat, p: nat, q: nat, r: nat)
    requires q > 0 && p == r * q && p > 0 && y < r && z < q
    requires b == x * p + y * q + z
    ensures b % p / q == y
  {
    assert y * q + z < p by {
      MulBound(y + 1, r, q);
      assert (y + 1) * q == y * q + q;
    }
    DivModUnique(b, p, x, y * q + z);
    DivModUnique(y * q + z, q, y, z);
  }

  /** get reads the value of the bits [s, s + n). */
  lemma GetInByteBits(b: Byte, s: nat, n: nat)
    requires 1 <= n && s + n <= 8
    ensures GetInByte(b, s, n) == BitsVal(ByteBits(b)[s..s + n])
  {
    hide BitsVal, ByteBits, Pow2;
    Fields(b, s, n);
    var bits := ByteBits(b);
    MiddleField(b, BitsVal(bits[..s]), BitsVal(bits[s..s + n]), BitsVal(bits[s + n..]), Pow2(8 - s), Pow2(8 - s - n),
      Pow2(n));
  }

  /** set replaces exactly the bits [s, s + n) by the low n bits of x. */
  lemma PutInByteBits(b: Byte, s: nat, n: nat, x: nat)
    requires 1 <= n && s + n <= 8 && x < Pow2(n)
    ensures 0 <= PutInByte(b, s, n, x) < 256
    ensures ByteBits(PutInByte(b, s, n, x)) == ByteBits(b)[..s] + NatBits(x, n) + ByteBits(b)[s + n..]
  {
    hide *;
    var bits := ByteBits(b);
    var u := bits[..s] + NatBits(x, n) + bits[s + n..];
    BitsValThree(bits[..s], NatBits(x, n), bits[s + n..]);
    NatBitsVal(x, n);
    DivModUnique(x, Pow2(n), 0, x);
    PutInByteVal(b, s, n, x);
    Pow2At8();
    ByteBitsVal(BitsVal(u));
    ValDeterminesBits(ByteBits(BitsVal(u)), u);
  }

  lemma BitsValThree(x: seq<bool>, y: seq<bool>, z: seq<bool>)
    ensures BitsVal(x + y + z) == BitsVal(x) * Pow2(|y| + |z|) + BitsVal(y) * Pow2(|z|) + BitsVal(z)
  {
    hide *;
    assert x + y + z == x + (y + z);
    BitsValAppend(x, y + z);
    BitsValAppend(y, z);
  }

  /** The outer fields stay. */
  lemma PutInByteVal(b: Byte, s: nat, n: nat, x: nat)
    requires 1 <= n && s + n <= 8
    ensures var bits := ByteBits(b);
            PutInByte(b, s, n, x) ==
            BitsVal(bits[..s]) * Pow2(8 - s) + x * Pow2(8 - s - n) + BitsVal(bits[s + n..])
  {
    hide BitsVal, ByteBits, Pow2, GetInByte;
    Fields(b, s, n);
    GetInByteBits(b, s, n);
  }

  // ---- Units ----

  /** C's truncating remainder. */
  function CRem(x: int, d: nat): int
    requires d > 0
  {
    if x >= 0 then x % d else -((-x) % d)
  }

  /** The unit at `pos`: the big-endian value of bits [u * pos, u * pos + u). */
  ghost function UnitAt(s: seq<bool>, u: nat, pos: nat): nat
    requires u * pos + u <= |s|
  {
    BitsVal(s[u * pos..u * pos + u])
  }

  ghost predicate Fits(a: seq<Byte>, u: nat, pos: nat) {
    1 <= u <= 30 && u * pos + u <= 8 * |a|
  }

  /** Replacing one piece of a byte splices the piece into the stream. */
  lemma PieceSplices(a: seq<Byte>, slot: int, s: nat, n: nat, x: nat)
    requires 0 <= slot < |a| && 1 <= n && s + n <= 8 && x < Pow2(n)
    ensures 0 <= PutInByte(a[slot], s, n, x) < 256
    ensures Stream(a[slot := PutInByte(a[slot], s, n, x)]) == Splice(Stream(a), 8 * slot + s, NatBits(x, n))
  {
    hide ByteBits, NatBits, PutInByte;
    PutInByteBits(a[slot], s, n, x);
    var b := PutInByte(a[slot], s, n, x);
    StreamByte(a, slot);
    StreamPut(a, slot, b);
    SpliceInside(Stream(a), 8 * slot, s, ByteBits(a[slot]), NatBits(x, n));
  }

  lemma SpliceInside(s: seq<bool>, at: int, i: nat, b: seq<bool>, x: seq<bool>)
    requires |b| == 8 && i + |x| <= 8 && 0 <= at && at + 8 <= |s| && s[at..at + 8] == b
    ensures Splice(s, at, b[..i] + x + b[i + |x|..]) == Splice(s, at + i, x)
  {
    var t, u := Splice(s, at, b[..i] + x + b[i + |x|..]), Splice(s, at + i, x);
    forall k | 0 <= k < |s|
      ensures t[k] == u[k]
    {
      if at <= k < at + 8 {
        assert s[k] == b[k - at];
        if k < at + i {
          assert t[k] == b[..i][k - at];
        } else if k >= at + i + |x| {
          assert t[k] == b[i + |x|..][k - at - i - |x|];
        } else {
          assert t[k] == x[k - at - i];
        }
      }
    }
  }

  /** The next `m` bits of the value, above the `n` already written. */
  lemma NextPiece(s: seq<bool>, at: int, v: nat, n: nat, m: nat)
    requires 0 <= at && at + m + n <= |s|
    ensures Splice(Splice(s, at + m, NatBits(v, n)), at, NatBits(Shr(v, n), m)) == Splice(s, at, NatBits(v, n + m))
  {
    NatBitsSplit(v, n, m);
    SpliceTwice(s, at, NatBits(Shr(v, n), m), NatBits(v, n));
  }

  lemma {:induction false} ShrShr(v: nat, n: nat, m: nat)
    ensures Shr(Shr(v, n), m) == Shr(v, n + m)
  {
    if n > 0 {
      ShrShr(v / 2, n - 1, m);
    }
  }

  lemma {:induction false} ShrBound(v: nat, n: nat, m: nat)
    requires v < Pow2(n + m)
    ensures Shr(v, n) < Pow2(m)
  {
    if n > 0 {
      ShrBound(v / 2, n - 1, m);
    }
  }

  /** Where set stands: all but the upper `u - n` bits written, the rest ending at `slot`'s last bit or inside it. */
  ghost predicate Standing(at: nat, u: nat, n: nat, slot: int) {
    n <= u && (8 * (slot + 1) == at + u - n || (n == 0 && at % 8 + u < 8 && 8 * slot + at % 8 == at))
  }

  /** What has been written so far. */
  ghost predicate Written(a: seq<Byte>, s: seq<bool>, at: nat, u: nat, v: nat, n: nat) {
    n <= u && at + u <= |s| && Stream(a) == Splice(s, at + u - n, NatBits(v, n))
  }

  /** Writing `m` more bits as a piece of one byte. */
  lemma WriteMore(a: seq<Byte>, s: seq<bool>, at: nat, u: nat, v: nat, n: nat, slot: int, i: nat, m: nat, x: nat)
    requires Written(a, s, at, u, v, n) && 1 <= m && n + m <= u && i + m <= 8
    requires 0 <= slot < |a| && 8 * slot + i == at + u - n - m
    requires x < Pow2(m) && NatBits(x, m) == NatBits(Shr(v, n), m)
    ensures 0 <= PutInByte(a[slot], i, m, x) < 256
    ensures Written(a[slot := PutInByte(a[slot], i, m, x)], s, at, u, v, n + m)
  {
    hide PutInByte, Stream, Splice;
    PieceSplices(a, slot, i, m, x);
    NextPiece(s, at + u - n - m, v, n, m);
  }

  lemma WholeByte(b: Byte, x: nat)
    requires x < 256
    ensures PutInByte(b, 0, 8, x) == x
  {
    Pow2At8();
  }

  lemma LowBits(v: nat, m: nat)
    ensures v % Pow2(m) < Pow2(m) && NatBits(v % Pow2(m), m) == NatBits(v, m)
  {
    NatBitsMod(v, m);
  }

  /** The last step of set, and the first slot's place. */
  lemma FirstPiece(at: nat, u: nat, n: nat, slot: int)
    requires Standing(at, u, n, slot) && n < u && u - n < 8
    ensures at % 8 + (u - n) <= 8 && 8 * slot + at % 8 == at
  {
  }

  /** The last byte and how many bits of the unit it holds beyond the whole bytes. */
  lemma LastPiece(at: nat, u: nat)
    requires u >= 1
    ensures var begin := at % 8;
            var slot := at / 8 + (begin + u - 1) / 8;
            var n := CRem(u - (8 - begin), 8);
            && n < 8 && n < u && 8 * slot < at + u <= 8 * slot + 8
            && (n > 0 ==> 8 * slot + n == at + u && slot >= 1)
            && (n <= 0 ==> Standing(at, u, 0, slot))
  {
    var begin, q := at % 8, at / 8;
    var k, r := (begin + u - 1) / 8, (begin + u - 1) % 8;
    assert begin + u == 8 * k + r + 1 && at == 8 * q + begin;
    if k > 0 {
      assert u - (8 - begin) == 8 * (k - 1) + r + 1;
    }
  }

  /** st_nbit_set: the bits of the unit become those of val mod 2^u, and no other bit changes. */
  method Set(a: array<Byte>, u: nat, pos: nat, val: int)
    requires Fits(a[..], u, pos)
    modifies a
    ensures Stream(a[..]) == Splice(Stream(old(a[..])), u * pos, NatBits(val % Pow2(u), u))
    ensures forall k :: 0 <= k < 8 * a.Length && !(u * pos <= k < u * pos + u) ==>
              Stream(a[..])[k] == Stream(old(a[..]))[k]
  {
    hide PutInByte, Written, Standing, Stream, Splice, NatBits, CRem, Shr;
    ghost var s := Stream(a[..]);
    var v := val % Pow2(u);
    ghost var v0 := v;
    var first := u * pos;
    var begin := first % 8;
    var slot := first / 8;
    slot := slot + (begin + u - 1) / 8;
    var n := CRem(u - (8 - begin), 8);
    ghost var at := first;
    LastPiece(at, u);
    NothingWritten(a[..], s, at, u, v0);
    ShrNone(v0);
    if n > 0 {
      LowBits(v, n);
      WriteMore(a[..], s, at, u, v0, 0, slot, 0, n, v % Pow2(n));
      a[slot] := PutInByte(a[slot], 0, n, v % Pow2(n));
      v := Shr(v, n);
      slot := slot - 1;
      ByteEnd(at, u, n, slot);
    } else {
      n := 0;
    }
    while u - n >= 8
      invariant 0 <= n <= u && v == Shr(v0, n)
      invariant Standing(at, u, n, slot)
      invariant Written(a[..], s, at, u, v0, n)
    {
      WriteWhole(a[..], s, at, u, v0, n, slot);
      a[slot] := v % 256;
      v := Shr(v, 8);
      n := n + 8;
      slot := slot - 1;
    }
    if n < u {
      FirstPiece(at, u, n, slot);
      ShrBound(v0, n, u - n);
      WriteMore(a[..], s, at, u, v0, n, slot, begin, u - n, v);
      a[slot] := PutInByte(a[slot], begin, u - n, v);
    }
    AllWritten(a[..], s, at, u, v0);
    OutsideUntouched(s, at, NatBits(v0, u));
  }

  /** A whole byte of the value. */
  lemma WriteWhole(a: seq<Byte>, s: seq<bool>, at: nat, u: nat, v: nat, n: nat, slot: int)
    requires Written(a, s, at, u, v, n) && Standing(at, u, n, slot) && u - n >= 8 && at + u <= 8 * |a|
    ensures 0 <= slot < |a| && Standing(at, u, n + 8, slot - 1)
    ensures Written(a[slot := Shr(v, n) % 256], s, at, u, v, n + 8)
    ensures Shr(Shr(v, n), 8) == Shr(v, n + 8)
  {
    hide PutInByte, Written, Standing, NatBits, Shr;
    var x := Shr(v, n) % 256;
    WholeSlot(at, u, n, slot);
    LowBits(Shr(v, n), 8);
    Pow2At8();
    WriteMore(a, s, at, u, v, n, slot, 0, 8, x);
    WholeByte(a[slot], x);
    ShrShr(v, n, 8);
    ByteEnd(at, u, n + 8, slot - 1);
  }

  lemma ShrNone(v: nat)
    ensures Shr(v, 0) == v
  {
  }

  lemma NothingWritten(a: seq<Byte>, s: seq<bool>, at: nat, u: nat, v: nat)
    requires s == Stream(a) && at + u <= |s|
    ensures Written(a, s, at, u, v, 0)
  {
  }

  lemma AllWritten(a: seq<Byte>, s: seq<bool>, at: nat, u: nat, v: nat)
    requires Written(a, s, at, u, v, u)
    ensures Stream(a) == Splice(s, at, NatBits(v, u))
  {
  }

  lemma ByteEnd(at: nat, u: nat, n: nat, slot: int)
    requires n <= u && 8 * (slot + 1) == at + u - n
    ensures Standing(at, u, n, slot)
  {
  }

  lemma WholeSlot(at: nat, u: nat, n: nat, slot: int)
    requires Standing(at, u, n, slot) && u - n >= 8
    ensures 8 * (slot + 1) == at + u - n && slot >= 0
  {
  }

  /** st_nbit_get: the big-endian value of the unit's bits. */
  method Get(a: array<Byte>, u: nat, pos: nat) returns (val: nat)
    requires Fits(a[..], u, pos)
    ensures val == UnitAt(Stream(a[..]), u, pos)
  {
    hide Stream, BitsVal, GetInByte, Pow2;
    ghost var s := Stream(a[..]);
    var first := u * pos;
    ghost var at := first;
    var begin := first % 8;
    var slot := first / 8;
    var n := if u < 8 - begin then u else 8 - begin;
    ReadPiece(a[..], slot, begin, n);
    val := GetInByte(a[slot], begin, n);
    slot := slot + 1;
    while n <= u - 8
      invariant 1 <= n <= u && (n < u ==> 8 * slot == at + n)
      invariant n < u || 8 * (slot - 1) < at + n <= 8 * slot
      invariant val == BitsVal(s[at..at + n])
    {
      ReadPiece(a[..], slot, 0, 8);
      WholeGet(a[slot]);
      Longer(s, at, n, 8);
      Pow2At8();
      val := val * 256 + a[slot];
      n := n + 8;
      slot := slot + 1;
    }
    if n < u {
      ReadPiece(a[..], slot, 0, u - n);
      Longer(s, at, n, u - n);
      val := val * Pow2(u - n) + GetInByte(a[slot], 0, u - n);
    }
    assert at + u == u * pos + u;
  }

  lemma ReadPiece(a: seq<Byte>, slot: int, i: nat, n: nat)
    requires 0 <= slot < |a| && 1 <= n && i + n <= 8
    ensures GetInByte(a[slot], i, n) == BitsVal(Stream(a)[8 * slot + i..8 * slot + i + n])
  {
    hide BitsVal, ByteBits;
    GetInByteBits(a[slot], i, n);
    StreamByte(a, slot);
    assert Stream(a)[8 * slot + i..8 * slot + i + n] == Stream(a)[8 * slot..8 * slot + 8][i..i + n];
  }

  lemma WholeGet(b: Byte)
    ensures GetInByte(b, 0, 8) == b
  {
    Pow2At8();
  }

  lemma Longer(s: seq<bool>, at: nat, n: nat, m: nat)
    requires at + n + m <= |s|
    ensures BitsVal(s[at..at + n + m]) == BitsVal(s[at..at + n]) * Pow2(m) + BitsVal(s[at + n..at + n + m])
  {
    hide BitsVal, Pow2;
    BitsValAppend(s[at..at + n], s[at + n..at + n + m]);
    assert s[at..at + n + m] == s[at..at + n] + s[at + n..at + n + m];
  }

  // ---- The packed array as one number ----

  /** The bytes as the digits of one number to base 256, the first byte the highest. */
  function Number(a: seq<Byte>): nat {
    if a == [] then 0 else 256 * Number(a[..|a| - 1]) + a[|a| - 1]
  }

  lemma {:induction false} NumberIsStream(a: seq<Byte>)
    ensures Number(a) == BitsVal(Stream(a))
  {
    if a == [] {
      assert Stream(a) == [];
    } else {
      var init, last := a[..|a| - 1], a[|a| - 1];
      NumberIsStream(init);
      StreamSnoc(init, last);
      assert a == init + [last];
      ByteBitsVal(last);
      BitsValAppend(Stream(init), ByteBits(last));
      Pow2At8();
    }
  }

  lemma StreamSnoc(a: seq<Byte>, b: Byte)
    ensures Stream(a + [b]) == Stream(a) + ByteBits(b)
  {
    hide ByteBits;
  }

  /** A unit is cut out of that number: the units follow one another from the highest bits down. */
  lemma UnitOfNumber(a: seq<Byte>, u: nat, pos: nat)
    requires u >= 1 && u * pos + u <= 8 * |a|
    ensures UnitAt(Stream(a), u, pos) == Number(a) / Pow2(8 * |a| - u * pos - u) % Pow2(u)
  {
    hide *;
    NumberIsStream(a);
    UnitIs(Stream(a), u, pos);
    SliceOfValue(Stream(a), u * pos, u);
  }

  lemma UnitIs(s: seq<bool>, u: nat, pos: nat)
    requires u * pos + u <= |s|
    ensures UnitAt(s, u, pos) == BitsVal(s[u * pos..u * pos + u])
  {
  }

  lemma SliceOfValue(s: seq<bool>, at: nat, u: nat)
    requires at + u <= |s|
    ensures BitsVal(s[at..at + u]) == BitsVal(s) / Pow2(|s| - at - u) % Pow2(u)
  {
    hide BitsVal, Pow2;
    var x, y, z := s[..at], s[at..at + u], s[at + u..];
    assert s == x + y + z;
    BitsValThree(x, y, z);
    Pow2Sum(u, |z|);
    CutOut(BitsVal(s), BitsVal(x), BitsVal(y), BitsVal(z), Pow2(u), Pow2(|z|));
  }

  lemma CutOut(b: nat, x: nat, y: nat, z: nat, r: nat, q: nat)
    requires q > 0 && r > 0 && y < r && z < q && b == x * (r * q) + y * q + z
    ensures b / q % r == y
  {
    assert x * (r * q) + y * q == (x * r + y) * q;
    DivModUnique(b, q, x * r + y, z);
    DivModUnique(x * r + y, r, x, y);
  }

  // ---- The packed array as a plain array of u-bit units ----

  /** Setting a unit is a one-element update: the unit reads back val mod 2^u, every other unit reads as before. */
  lemma SetThenGet(s: seq<bool>, u: nat, pos: nat, val: int, other: nat)
    requires u >= 1 && u * pos + u <= |s| && u * other + u <= |s|
    ensures |NatBits(val % Pow2(u), u)| == u
    ensures UnitAt(Splice(s, u * pos, NatBits(val % Pow2(u), u)), u, other) ==
            if other == pos then val % Pow2(u) else UnitAt(s, u, other)
  {
    hide Splice, NatBits, BitsVal, Pow2;
    var v, at, from := val % Pow2(u), u * pos, u * other;
    NatBitsVal(v, u);
    DivModUnique(v, Pow2(u), 0, v);
    if other == pos {
      UnitSpliced(s, at, NatBits(v, u));
    } else {
      UnitsApart(u, pos, other);
      UnitBeside(s, at, NatBits(v, u), from, u);
    }
  }

  lemma UnitSpliced(s: seq<bool>, at: nat, b: seq<bool>)
    requires at + |b| <= |s|
    ensures |Splice(s, at, b)| == |s| && Splice(s, at, b)[at..at + |b|] == b
  {
  }

  lemma UnitBeside(s: seq<bool>, at: nat, b: seq<bool>, from: nat, n: nat)
    requires at + |b| <= |s| && from + n <= |s| && (from + n <= at || at + |b| <= from)
    ensures |Splice(s, at, b)| == |s| && Splice(s, at, b)[from..from + n] == s[from..from + n]
  {
  }

  lemma UnitsApart(u: nat, i: nat, j: nat)
    requires i != j
    ensures u * i + u <= u * j || u * j + u <= u * i
  {
    if i < j {
      MulBound(i + 1, j, u);
      assert (i + 1) * u == u * i + u && j * u == u * j;
    } else {
      MulBound(j + 1, i, u);
      assert (j + 1) * u == u * j + u && i * u == u * i;
    }
  }

  /** Every bit outside the unit is untouched, in particular those of a neighbour sharing a byte. */
  lemma OutsideUntouched(s: seq<bool>, at: int, bits: seq<bool>)
    requires 0 <= at && at + |bits| <= |s|
    ensures forall k :: 0 <= k < |s| && !(at <= k < at + |bits|) ==> Splice(s, at, bits)[k] == s[k]
  {
  }

  /** The units determine the bits they cover: two streams with equal units agree there. */
  lemma {:induction false} UnitsDetermineBits(s: seq<bool>, t: seq<bool>, u: nat, n: nat)
    requires |s| == |t| && u * n <= |s|
    requires forall p: nat :: p < n ==> u * p + u <= |s| && UnitAt(s, u, p) == UnitAt(t, u, p)
    ensures s[..u * n] == t[..u * n]
  {
    if n > 0 {
      var m := n - 1;
      assert u * n == u * m + u;
      UnitsDetermineBits(s, t, u, m);
      ValDeterminesBits(s[u * m..u * m + u], t[u * m..u * m + u]);
      PrefixesMeet(s, t, u * m, u);
    }
  }

  lemma PrefixesMeet(s: seq<bool>, t: seq<bool>, at: nat, u: nat)
    requires at + u <= |s| && at + u <= |t| && s[..at] == t[..at] && s[at..at + u] == t[at..at + u]
    ensures s[..at + u] == t[..at + u]
  {
    assert s[..at + u] == s[..at] + s[at..at + u] && t[..at + u] == t[..at] + t[at..at + u];
  }
}
