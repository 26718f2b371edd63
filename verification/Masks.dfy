/** Masks of the form 2^k - 1: `&` with one is the remainder of a division by 2^k. */
module Masks {
  import opened Util

  /** Bitwise and of two naturals. */
  function And(x: nat, y: nat): nat {
    if y == 0 then 0 else (x % 2) * (y % 2) + 2 * And(x / 2, y / 2)
  }

  lemma {:induction false} AndIsRemainder(x: nat, mask: nat, bits: nat)
    requires mask + 1 == Pow2(bits)
    ensures And(x, mask) == x % (mask + 1)
  {
    if bits > 0 {
      assert mask / 2 + 1 == Pow2(bits - 1) && mask % 2 == 1;
      AndIsRemainder(x / 2, mask / 2, bits - 1);
      HalveRemainder(x, mask / 2 + 1);
    }
  }

  lemma HalveRemainder(x: nat, p: nat)
    requires p > 0
    ensures x % (2 * p) == x % 2 + 2 * (x / 2 % p)
  {
    DivModUnique(x, 2 * p, x / 2 / p, x % 2 + 2 * (x / 2 % p));
  }

  /** The words whose set bits are the lowest ones. */
  predicate IsMask(m: bv32) {
    m & (m + 1) == 0 && m != 0xFFFF_FFFF
  }

  lemma MaskCases(m: bv32)
    requires IsMask(m)
    ensures || m == 0x0 || m == 0x1 || m == 0x3 || m == 0x7
            || m == 0xF || m == 0x1F || m == 0x3F || m == 0x7F
            || m == 0xFF || m == 0x1FF || m == 0x3FF || m == 0x7FF
            || m == 0xFFF || m == 0x1FFF || m == 0x3FFF || m == 0x7FFF
            || m == 0xFFFF || m == 0x1FFFF || m == 0x3FFFF || m == 0x7FFFF
            || m == 0xFFFFF || m == 0x1FFFFF || m == 0x3FFFFF || m == 0x7FFFFF
            || m == 0xFFFFFF || m == 0x1FFFFFF || m == 0x3FFFFFF || m == 0x7FFFFFF
            || m == 0xFFFFFFF || m == 0x1FFFFFFF || m == 0x3FFFFFFF || m == 0x7FFFFFFF
  {
  }

  lemma MaskBits(m: bv32) returns (bits: nat)
    requires IsMask(m)
    ensures m as nat + 1 == Pow2(bits) && bits < 32
  {
    MaskCases(m);
    hide Pow2;
    Powers();
    if m == 0x0 {
      bits := 0;
    } else if m == 0x1 {
      bits := 1;
    } else if m == 0x3 {
      bits := 2;
    } else if m == 0x7 {
      bits := 3;
    } else if m == 0xF {
      bits := 4;
    } else if m == 0x1F {
      bits := 5;
    } else if m == 0x3F {
      bits := 6;
    } else if m == 0x7F {
      bits := 7;
    } else if m == 0xFF {
      bits := 8;
    } else if m == 0x1FF {
      bits := 9;
    } else if m == 0x3FF {
      bits := 10;
    } else if m == 0x7FF {
      bits := 11;
    } else if m == 0xFFF {
      bits := 12;
    } else if m == 0x1FFF {
      bits := 13;
    } else if m == 0x3FFF {
      bits := 14;
    } else if m == 0x7FFF {
      bits := 15;
    } else if m == 0xFFFF {
      bits := 16;
    } else if m == 0x1FFFF {
      bits := 17;
    } else if m == 0x3FFFF {
      bits := 18;
    } else if m == 0x7FFFF {
      bits := 19;
    } else if m == 0xFFFFF {
      bits := 20;
    } else if m == 0x1FFFFF {
      bits := 21;
    } else if m == 0x3FFFFF {
      bits := 22;
    } else if m == 0x7FFFFF {
      bits := 23;
    } else if m == 0xFFFFFF {
      bits := 24;
    } else if m == 0x1FFFFFF {
      bits := 25;
    } else if m == 0x3FFFFFF {
      bits := 26;
    } else if m == 0x7FFFFFF {
      bits := 27;
    } else if m == 0xFFFFFFF {
      bits := 28;
    } else if m == 0x1FFFFFFF {
      bits := 29;
    } else if m == 0x3FFFFFFF {
      bits := 30;
    } else if m == 0x7FFFFFFF {
      bits := 31;
    }
  }

  lemma Powers()
    ensures Pow2(0) == 0x1 && Pow2(1) == 0x2 && Pow2(2) == 0x4 && Pow2(3) == 0x8
    ensures Pow2(4) == 0x10 && Pow2(5) == 0x20 && Pow2(6) == 0x40 && Pow2(7) == 0x80
    ensures Pow2(8) == 0x100 && Pow2(9) == 0x200 && Pow2(10) == 0x400 && Pow2(11) == 0x800
    ensures Pow2(12) == 0x1000 && Pow2(13) == 0x2000 && Pow2(14) == 0x4000 && Pow2(15) == 0x8000
    ensures Pow2(16) == 0x10000 && Pow2(17) == 0x20000 && Pow2(18) == 0x40000 && Pow2(19) == 0x80000
    ensures Pow2(20) == 0x100000 && Pow2(21) == 0x200000 && Pow2(22) == 0x400000 && Pow2(23) == 0x800000
    ensures Pow2(24) == 0x1000000 && Pow2(25) == 0x2000000 && Pow2(26) == 0x4000000 && Pow2(27) == 0x8000000
    ensures Pow2(28) == 0x10000000 && Pow2(29) == 0x20000000 && Pow2(30) == 0x40000000 && Pow2(31) == 0x80000000
  {
  }
}
