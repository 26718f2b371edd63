/** Bit sequences, most significant bit first: their values, and bytes as bit sequences. */
module BitStream {
  import opened Util

  /** Big-endian value. */
  function BitsVal(bits: seq<bool>): (v: nat)
    ensures v < Pow2(|bits|)
  {
    if bits == [] then 0
    else 2 * BitsVal(bits[..|bits| - 1]) + if bits[|bits| - 1] then 1 else 0
  }

  /** The low `u` bits of `v`. */
  function NatBits(v: nat, u: nat): (bits: seq<bool>)
    ensures |bits| == u
  {
    if u == 0 then [] else NatBits(v / 2, u - 1) + [v % 2 == 1]
  }

  /** `v >> n` for a non-negative value. */
  function Shr(v: nat, n: nat): nat {
    if n == 0 then v else Shr(v / 2, n - 1)
  }

  lemma {:induction false} NatBitsVal(v: nat, u: nat)
    ensures BitsVal(NatBits(v, u)) == v % Pow2(u)
  {
    if u > 0 {
      NatBitsVal(v / 2, u - 1);
      assert NatBits(v, u)[..u - 1] == NatBits(v / 2, u - 1);
      ModDouble(v, Pow2(u - 1));
    }
  }

  lemma ModDouble(v: nat, p: nat)
    requires p > 0
    ensures v % (2 * p) == 2 * (v / 2 % p) + v % 2
  {
    var q, r := v / 2 / p, v / 2 % p;
    assert v / 2 == q * p + r;
    assert v == 2 * (v / 2) + v % 2;
    assert v == q * (2 * p) + (2 * r + v % 2);
    DivModUnique(v, 2 * p, q, 2 * r + v % 2);
  }

  lemma BitsValSnoc(x: seq<bool>, b: bool)
    ensures BitsVal(x + [b]) == 2 * BitsVal(x) + if b then 1 else 0
  {
    assert (x + [b])[..|x|] == x;
  }

  lemma {:induction false} BitsValAppend(x: seq<bool>, y: seq<bool>)
    ensures BitsVal(x + y) == BitsVal(x) * Pow2(|y|) + BitsVal(y)
  {
    if y == [] {
      assert x + y == x;
    } else {
      var y', b := y[..|y| - 1], y[|y| - 1];
      BitsValAppend(x, y');
      assert x + y == (x + y') + [b] && y == y' + [b];
      BitsValSnoc(x + y', b);
      BitsValSnoc(y', b);
      ShiftedSum(BitsVal(x), Pow2(|y'|), BitsVal(y'), if b then 1 else 0, Pow2(|y|));
    }
  }

  lemma ShiftedSum(x: int, p: int, v: int, b: int, p': int)
    requires p' == 2 * p
    ensures 2 * (x * p + v) + b == x * p' + (2 * v + b)
  {
  }

  lemma {:induction false} ValDeterminesBits(x: seq<bool>, y: seq<bool>)
    requires |x| == |y| && BitsVal(x) == BitsVal(y)
    ensures x == y
  {
    if x != [] {
      ValDeterminesBits(x[..|x| - 1], y[..|y| - 1]);
      assert x == x[..|x| - 1] + [x[|x| - 1]] && y == y[..|y| - 1] + [y[|y| - 1]];
    }
  }

  /** The upper bits of a value, then its lower `n` bits. */
  lemma {:induction false} NatBitsSplit(v: nat, n: nat, m: nat)
    ensures NatBits(v, n + m) == NatBits(Shr(v, n), m) + NatBits(v, n)
  {
    if n == 0 {
      assert NatBits(v, 0) == [];
    } else {
      NatBitsSplit(v / 2, n - 1, m);
      assert NatBits(v, n + m) == NatBits(v / 2, n - 1 + m) + [v % 2 == 1];
    }
  }

  lemma NatBitsMod(v: nat, u: nat)
    ensures NatBits(v % Pow2(u), u) == NatBits(v, u)
  {
    var p := Pow2(u);
    NatBitsVal(v, u);
    NatBitsVal(v % p, u);
    DivModUnique(v % p, p, 0, v % p);
    ValDeterminesBits(NatBits(v % p, u), NatBits(v, u));
  }

  // ---- Bytes ----

  function ByteBits(b: Byte): (bits: seq<bool>)
    ensures |bits| == 8
  {
    NatBits(b, 8)
  }

  lemma ByteBitsVal(b: Byte)
    ensures BitsVal(ByteBits(b)) == b
  {
    hide BitsVal, NatBits;
    NatBitsVal(b, 8);
    Pow2At8();
  }

  lemma Pow2At8()
    ensures Pow2(0) == 1 && Pow2(1) == 2 && Pow2(2) == 4 && Pow2(3) == 8 && Pow2(4) == 16
    ensures Pow2(5) == 32 && Pow2(6) == 64 && Pow2(7) == 128 && Pow2(8) == 256
  {
  }

  /** A byte array as one sequence of bits. */
  ghost function Stream(a: seq<Byte>): (s: seq<bool>)
    ensures |s| == 8 * |a|
  {
    seq(8 * |a|, k requires 0 <= k < 8 * |a| => ByteBits(a[k / 8])[k % 8])
  }

  /** `bits` written over `s` from position `at`. */
  ghost function Splice(s: seq<bool>, at: int, bits: seq<bool>): (t: seq<bool>)
    requires 0 <= at && at + |bits| <= |s|
    ensures |t| == |s|
  {
    s[..at] + bits + s[at + |bits|..]
  }

  lemma SpliceTwice(s: seq<bool>, at: int, x: seq<bool>, y: seq<bool>)
    requires 0 <= at && at + |x| + |y| <= |s|
    ensures Splice(Splice(s, at + |x|, y), at, x) == Splice(s, at, x + y)
  {
  }

  lemma StreamByte(a: seq<Byte>, slot: int)
    requires 0 <= slot < |a|
    ensures Stream(a)[8 * slot..8 * slot + 8] == ByteBits(a[slot])
  {
    hide ByteBits;
    var s := Stream(a)[8 * slot..8 * slot + 8];
    forall i | 0 <= i < 8
      ensures s[i] == ByteBits(a[slot])[i]
    {
      assert s[i] == Stream(a)[8 * slot + i];
      assert (8 * slot + i) / 8 == slot && (8 * slot + i) % 8 == i;
    }
  }

  lemma StreamPut(a: seq<Byte>, slot: int, b: Byte)
    requires 0 <= slot < |a|
    ensures Stream(a[slot := b]) == Splice(Stream(a), 8 * slot, ByteBits(b))
  {
    hide ByteBits;
    StreamByte(a[slot := b], slot);
    forall k | 0 <= k < 8 * |a| && k / 8 != slot
      ensures Stream(a[slot := b])[k] == Stream(a)[k]
    {
    }
    var s, t := Stream(a[slot := b]), Splice(Stream(a), 8 * slot, ByteBits(b));
    forall k | 0 <= k < 8 * |a|
      ensures s[k] == t[k]
    {
      if 8 * slot <= k < 8 * slot + 8 {
        assert s[k] == s[8 * slot..8 * slot + 8][k - 8 * slot];
      } else {
        assert k / 8 != slot;
      }
    }
  }
}
