/** The bit expressions of st_bit.c on a byte are the arithmetic that NBit writes for them. */
module ByteOps {
  import opened Util
  import opened BitStream
  import opened NBit

  /** `(1 << a) - 1` in int, of which 16 bits are enough here. */
  function Ones(a: nat): bv16
    requires a <= 8
  {
    (1 << a) - 1
  }

  /** `0xFF << k` in int. */
  function High(k: nat): bv16
    requires k <= 7
  {
    0xFF << k
  }

  /** Conversion to unsigned char. */
  function Narrow(x: bv16): bv8 {
    (x & 0xFF) as bv8
  }

  /** `(b & ((1 << a) - 1)) >> (a - n)` with a = CHAR_BIT - s, computed in int and returned as a byte. */
  function GetExpr(b: bv8, s: nat, n: nat): bv8
    requires 1 <= n && s + n <= 8
  {
    var a := 8 - s;
    Narrow(((b as bv16) & Ones(a)) >> (a - n))
  }

  /** `b & ~(((1 << a) - 1) & (0xFF << (a - n)))`, likewise. */
  function ClearExpr(b: bv8, s: nat, n: nat): bv8
    requires 1 <= n && s + n <= 8
  {
    var a := 8 - s;
    Narrow((b as bv16) & !(Ones(a) & High(a - n)))
  }

  /** The clearing followed by `|= x << (a - n)`. */
  function PutExpr(b: bv8, s: nat, n: nat, x: bv8): bv8
    requires 1 <= n && s + n <= 8
  {
    Either(ClearExpr(b, s, n), Left(x, 8 - s - n))
  }

  // ---- The expressions with their masks and shifts spelled out ----

  /** `(1 << k) - 1`. */
  function Low(k: nat): bv8
    requires k <= 8
  {
    if k == 0 then 0x00 else if k == 1 then 0x01 else if k == 2 then 0x03 else if k == 3 then 0x07
    else if k == 4 then 0x0F else if k == 5 then 0x1F else if k == 6 then 0x3F else if k == 7 then 0x7F else 0xFF
  }

  function Both(x: bv8, y: bv8): bv8 {
    x & y
  }

  function Either(x: bv8, y: bv8): bv8 {
    x | y
  }

  function Without(x: bv8, y: bv8): bv8 {
    x & !y
  }

  function Right(b: bv8, k: nat): bv8
    requires k <= 7
  {
    b >> k
  }

  function Left(b: bv8, k: nat): bv8
    requires k <= 7
  {
    b << k
  }

  lemma OnesIs(a: nat)
    requires a <= 8
    ensures Ones(a) == Low(a) as bv16
  {
  }

  lemma HighIs(k: nat)
    requires k <= 7
    ensures High(k) & 0xFF == Without(0xFF, Low(k)) as bv16
  {
  }

  lemma NarrowRight(y: bv8, k: nat)
    requires k <= 7
    ensures Narrow((y as bv16) >> k) == Right(y, k)
  {
  }

  lemma WideBoth(x: bv8, y: bv8)
    ensures (x as bv16) & (y as bv16) == Both(x, y) as bv16
  {
  }

  lemma NarrowClear(b: bv8, x: bv8, y: bv8, h: bv16)
    requires h & 0xFF == Without(0xFF, y) as bv16
    ensures Narrow((b as bv16) & !((x as bv16) & h)) == Without(b, Without(x, y))
  {
  }

  lemma GetSpelled(b: bv8, s: nat, n: nat)
    requires 1 <= n && s + n <= 8
    ensures GetExpr(b, s, n) == Right(Both(b, Low(8 - s)), 8 - s - n)
  {
    hide Ones, Narrow, Low, Right, Both;
    OnesIs(8 - s);
    WideBoth(b, Low(8 - s));
    NarrowRight(Both(b, Low(8 - s)), 8 - s - n);
  }

  lemma ClearMask(b: bv8, s: nat, n: nat)
    requires 1 <= n && s + n <= 8
    ensures ClearExpr(b, s, n) == Without(b, Without(Low(8 - s), Low(8 - s - n)))
  {
    hide Ones, High, Narrow, Low, Without;
    OnesIs(8 - s);
    HighIs(8 - s - n);
    NarrowClear(b, Low(8 - s), Low(8 - s - n), High(8 - s - n));
  }

  lemma RightLeft(x: bv8, k: nat)
    requires k <= 7
    ensures Left(Right(x, k), k) == Without(x, Low(k))
  {
  }

  lemma MaskAlgebra(b: bv8, x: bv8, y: bv8)
    ensures Without(b, Without(x, y)) == Without(b, Without(Both(b, x), y))
    ensures Both(b, Without(Both(b, x), y)) == Without(Both(b, x), y)
  {
  }

  /** Clearing takes out the bits that reading delivers, which are among those of the byte ... */
  lemma ClearSpelled(b: bv8, s: nat, n: nat)
    requires 1 <= n && s + n <= 8
    ensures var g := Left(GetExpr(b, s, n), 8 - s - n); ClearExpr(b, s, n) == Without(b, g) && Both(b, g) == g
  {
    hide *;
    GetSpelled(b, s, n);
    ClearMask(b, s, n);
    RightLeft(Both(b, Low(8 - s)), 8 - s - n);
    MaskAlgebra(b, Low(8 - s), Low(8 - s - n));
  }

  lemma LeftLow(x: bv8, s: nat, n: nat)
    requires 1 <= n && s + n <= 8 && Both(x, Low(n)) == x
    ensures Both(Left(x, 8 - s - n), Without(Low(8 - s), Low(8 - s - n))) == Left(x, 8 - s - n)
  {
  }

  lemma HoleAlgebra(b: bv8, m: bv8, y: bv8)
    requires Both(y, m) == y
    ensures Both(Without(b, m), y) == 0
  {
  }

  /** ... and a value of n bits fits the hole they leave. */
  lemma HoleBits(b: bv8, s: nat, n: nat, x: bv8)
    requires 1 <= n && s + n <= 8 && Both(x, Low(n)) == x
    ensures Both(ClearExpr(b, s, n), Left(x, 8 - s - n)) == 0
  {
    hide *;
    ClearMask(b, s, n);
    LeftLow(x, s, n);
    HoleAlgebra(b, Without(Low(8 - s), Low(8 - s - n)), Left(x, 8 - s - n));
  }

  // ---- Masks and shifts as arithmetic ----

  function Val(b: bv8): (v: nat)
    ensures v < 256
  {
    b as nat
  }

  lemma MaskOne(b: bv8)
    ensures Val(b & 0x01) == Val(b) % 2
  {
  }

  lemma MaskTwo(b: bv8)
    ensures Val(b & 0x03) == Val(b) % 4
  {
  }

  lemma MaskMiddle(b: bv8)
    ensures Val(b & 0x07) == Val(b) % 8 && Val(b & 0x0F) == Val(b) % 16
  {
  }

  lemma MaskLarge(b: bv8)
    ensures Val(b & 0x1F) == Val(b) % 32 && Val(b & 0x3F) == Val(b) % 64 && Val(b & 0x7F) == Val(b) % 128
  {
  }

  lemma MaskEnds(b: bv8)
    ensures Val(b & 0x00) == 0 && Val(b & 0xFF) == Val(b)
  {
    assert b & 0xFF == b && b & 0x00 == 0;
  }

  /** Masking with 2^k - 1 is the remainder ... */
  lemma MaskIsMod(b: bv8, k: nat)
    requires k <= 8
    ensures Val(Both(b, Low(k))) == Val(b) % Pow2(k)
  {
    hide Val, Pow2;
    Pow2At8();
    if k == 1 {
      MaskOne(b);
    } else if k == 2 {
      MaskTwo(b);
    } else if 3 <= k <= 4 {
      MaskMiddle(b);
    } else if 5 <= k <= 7 {
      MaskLarge(b);
    } else {
      MaskEnds(b);
    }
  }

  lemma RightSmall(b: bv8)
    ensures Val(Right(b, 1)) == Val(b) / 2 && Val(Right(b, 2)) == Val(b) / 4
  {
  }

  lemma RightMiddle(b: bv8)
    ensures Right(b, 0) == b
    ensures Val(Right(b, 3)) == Val(b) / 8 && Val(Right(b, 4)) == Val(b) / 16
  {
  }

  lemma RightLarge(b: bv8)
    ensures Val(Right(b, 5)) == Val(b) / 32 && Val(Right(b, 6)) == Val(b) / 64 && Val(Right(b, 7)) == Val(b) / 128
  {
  }

  /** ... a right shift the quotient ... */
  lemma RightIsDiv(b: bv8, k: nat)
    requires k <= 7
    ensures Val(Right(b, k)) == Val(b) / Pow2(k)
  {
    hide Val, Pow2, Right;
    Pow2At8();
    if 1 <= k <= 2 {
      RightSmall(b);
    } else if k <= 4 {
      RightMiddle(b);
    } else {
      RightLarge(b);
    }
  }

  lemma LeftSmall(x: bv8)
    ensures Val(x) < 128 ==> Val(Left(x, 1)) == Val(x) * 2
    ensures Val(x) < 64 ==> Val(Left(x, 2)) == Val(x) * 4
  {
  }

  lemma LeftMiddle(x: bv8)
    ensures Left(x, 0) == x
    ensures Val(x) < 32 ==> Val(Left(x, 3)) == Val(x) * 8
    ensures Val(x) < 16 ==> Val(Left(x, 4)) == Val(x) * 16
  {
  }

  lemma LeftLarge(x: bv8)
    ensures Val(x) < 8 ==> Val(Left(x, 5)) == Val(x) * 32
    ensures Val(x) < 4 ==> Val(Left(x, 6)) == Val(x) * 64
    ensures Val(x) < 2 ==> Val(Left(x, 7)) == Val(x) * 128
  {
  }

  /** ... a left shift that loses no bit the product ... */
  lemma LeftIsTimes(x: bv8, k: nat)
    requires k <= 7 && Val(x) * Pow2(k) < 256
    ensures Val(Left(x, k)) == Val(x) * Pow2(k)
  {
    hide Val, Pow2, Left;
    Pow2At8();
    if 1 <= k <= 2 {
      LeftSmall(x);
    } else if k <= 4 {
      LeftMiddle(x);
    } else {
      LeftLarge(x);
    }
  }

  /** ... or-ing into cleared bits adds, and clearing bits subtracts their value. */
  lemma DisjointOrIsSum(x: bv8, y: bv8)
    requires Both(x, y) == 0
    ensures Val(Either(x, y)) == Val(x) + Val(y)
  {
    hide *;
    HalvesDisjoint(x, y);
    Halves(x);
    Halves(y);
    Halves(Either(x, y));
    HalfOrIsSum(UpperHalf(x), UpperHalf(y));
    HalfOrIsSum(LowerHalf(x), LowerHalf(y));
  }

  function UpperHalf(x: bv8): bv8 {
    x >> 4
  }

  function LowerHalf(x: bv8): bv8 {
    x & 0x0F
  }

  lemma Halves(b: bv8)
    ensures Val(b) == 16 * Val(UpperHalf(b)) + Val(LowerHalf(b)) && UpperHalf(b) < 16 && LowerHalf(b) < 16
  {
  }

  lemma HalvesDisjoint(x: bv8, y: bv8)
    requires Both(x, y) == 0
    ensures UpperHalf(Either(x, y)) == Either(UpperHalf(x), UpperHalf(y))
    ensures LowerHalf(Either(x, y)) == Either(LowerHalf(x), LowerHalf(y))
    ensures Both(UpperHalf(x), UpperHalf(y)) == 0 && Both(LowerHalf(x), LowerHalf(y)) == 0
  {
  }

  lemma HalfOrIsSum(x: bv8, y: bv8)
    requires x < 16 && y < 16 && Both(x, y) == 0
    ensures Val(Either(x, y)) == Val(x) + Val(y)
  {
  }

  lemma ClearIsDifference(b: bv8, m: bv8)
    requires Both(b, m) == m
    ensures Val(Without(b, m)) == Val(b) - Val(m)
  {
    hide Val;
    assert Both(Without(b, m), m) == 0 && Either(Without(b, m), m) == b;
    DisjointOrIsSum(Without(b, m), m);
  }

  /** A value below 2^n has no bit beyond the n-th. */
  lemma SmallIsMasked(x: bv8, n: nat)
    requires n <= 8 && Val(x) < Pow2(n)
    ensures Both(x, Low(n)) == x
  {
    hide *;
    MaskIsMod(x, n);
    ModSmall(Val(x), Pow2(n));
    SameVal(Both(x, Low(n)), x);
  }

  lemma ModSmall(v: nat, p: nat)
    requires v < p
    ensures v % p == v
  {
  }

  lemma SameVal(x: bv8, y: bv8)
    requires Val(x) == Val(y)
    ensures x == y
  {
    assert (x as nat) as bv8 == x && (y as nat) as bv8 == y;
  }

  // ---- The expressions of the C code are those of NBit ----

  /** st_get_nbit_val_in_byte, for every start and length. */
  lemma GetExprIs(b: bv8, s: nat, n: nat)
    requires 1 <= n && s + n <= 8
    ensures Val(GetExpr(b, s, n)) == GetInByte(Val(b), s, n)
  {
    hide GetExpr, Low, Right, Both, Val, Pow2;
    GetSpelled(b, s, n);
    MaskIsMod(b, 8 - s);
    RightIsDiv(Both(b, Low(8 - s)), 8 - s - n);
  }

  /** st_clear_nbit_in_byte, likewise. */
  lemma ClearExprIs(b: bv8, s: nat, n: nat)
    requires 1 <= n && s + n <= 8
    ensures Val(ClearExpr(b, s, n)) == ClearInByte(Val(b), s, n)
  {
    hide GetExpr, ClearExpr, Left, Both, Without, Val, Pow2, GetInByte;
    var k, g := 8 - s - n, GetExpr(b, s, n);
    ClearSpelled(b, s, n);
    GetExprIs(b, s, n);
    GotFits(Val(b), s, n);
    LeftIsTimes(g, k);
    ClearIsDifference(b, Left(g, k));
  }

  /** The bits read, shifted back, are no more than the byte. */
  lemma GotFits(b: nat, s: nat, n: nat)
    requires 1 <= n && s + n <= 8 && b < 256
    ensures 0 <= GetInByte(b, s, n) * Pow2(8 - s - n) <= b
  {
    hide Pow2;
    DivTimes(b % Pow2(8 - s), Pow2(8 - s - n));
    ModAtMost(b, Pow2(8 - s));
  }

  lemma DivTimes(m: nat, q: nat)
    requires q > 0
    ensures 0 <= m / q * q <= m
  {
  }

  lemma ModAtMost(b: nat, p: nat)
    requires p > 0
    ensures 0 <= b % p <= b
  {
  }

  /** Setting: clearing and or-ing in a value of n bits. */
  lemma PutExprIs(b: bv8, s: nat, n: nat, x: bv8)
    requires 1 <= n && s + n <= 8 && Val(x) < Pow2(n)
    ensures Val(PutExpr(b, s, n, x)) == PutInByte(Val(b), s, n, Val(x))
  {
    hide ClearExpr, Left, Low, Both, Either, Val, Pow2, ClearInByte;
    var k := 8 - s - n;
    SmallIsMasked(x, n);
    HoleBits(b, s, n, x);
    PutFits(Val(x), n, k);
    LeftIsTimes(x, k);
    ClearExprIs(b, s, n);
    DisjointOrIsSum(ClearExpr(b, s, n), Left(x, k));
  }

  lemma PutFits(x: nat, n: nat, k: nat)
    requires x < Pow2(n) && n + k <= 8
    ensures x * Pow2(k) < 256
  {
    hide Pow2;
    Pow2Sum(n, k);
    Pow2Monotone(n + k, 8);
    Pow2At8();
    MulBound(x + 1, Pow2(n), Pow2(k));
    assert (x + 1) * Pow2(k) == x * Pow2(k) + Pow2(k);
  }
}
