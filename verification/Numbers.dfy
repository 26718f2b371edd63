/** st_ll2str and st_str2ll: 64-bit numbers with a power-of-base suffix. */
module Numbers {
  import opened Util
  import opened CStrings

  const INT64_MIN: int := -0x8000_0000_0000_0000
  const INT64_MAX: int := 0x7FFF_FFFF_FFFF_FFFF

  predicate InInt64(v: int) {
    INT64_MIN <= v <= INT64_MAX
  }

  function Abs(v: int): nat {
    if v < 0 then -v else v
  }

  function Power(b: nat, k: nat): nat {
    if k == 0 then 1 else b * Power(b, k - 1)
  }

  // ---- Decimal text ----

  predicate IsDigit(c: char) {
    '0' <= c <= '9'
  }

  function DigitChar(d: nat): (c: char)
    requires d < 10
    ensures IsDigit(c) && DigitValue(c) == d
  {
    ('0' as int + d) as char
  }

  function DigitValue(c: char): nat
    requires IsDigit(c)
  {
    c as int - '0' as int
  }

  function Digits(n: nat): (s: string)
    ensures |s| >= 1 && IsDigit(s[0])
  {
    if n < 10 then [DigitChar(n)] else Digits(n / 10) + [DigitChar(n % 10)]
  }

  /** printf's %lld. */
  function Decimal(v: int): (s: string)
    ensures |s| >= 1
  {
    if v < 0 then "-" + Digits(-v) else Digits(v)
  }

  /** The number at the front of `s`, `acc` having been read before it. */
  function DigitsFrom(s: string, acc: nat): nat
  {
    if s == "" || !IsDigit(s[0]) then acc else DigitsFrom(s[1..], 10 * acc + DigitValue(s[0]))
  }

  predicate IsSpace(c: char) {
    c == ' ' || 9 <= c as int <= 13
  }

  /** atoll, before it is fitted into 64 bits. */
  function Atoll(s: string): int {
    if s == "" then 0
    else if IsSpace(s[0]) then Atoll(s[1..])
    else if s[0] == '-' then 0 - DigitsFrom(s[1..], 0)
    else if s[0] == '+' then DigitsFrom(s[1..], 0)
    else DigitsFrom(s, 0)
  }

  lemma {:induction false} DigitsReadBack(n: nat, tail: string)
    ensures DigitsFrom(Digits(n) + tail, 0) == DigitsFrom(tail, n)
  {
    var last := [DigitChar(n % 10)];
    assert (last + tail)[1..] == tail;
    if n >= 10 {
      DigitsReadBack(n / 10, last + tail);
      assert Digits(n) + tail == Digits(n / 10) + (last + tail);
    }
  }

  lemma AtollOfDigits(text: string)
    requires text != "" && IsDigit(text[0])
    ensures Atoll(text) == DigitsFrom(text, 0)
    ensures Atoll("-" + text) == 0 - DigitsFrom(text, 0)
  {
    hide DigitsFrom;
    assert ("-" + text)[1..] == text;
  }

  lemma NaturalReadsBack(n: nat, tail: string)
    requires tail == "" || !IsDigit(tail[0])
    ensures Atoll(Digits(n) + tail) == n && Atoll("-" + (Digits(n) + tail)) == 0 - n
  {
    DigitsReadBack(n, tail);
    assert DigitsFrom(tail, n) == n;
    hide Digits, DigitsFrom, Atoll;
    assert (Digits(n) + tail)[0] == Digits(n)[0];
    AtollOfDigits(Digits(n) + tail);
  }

  lemma DecimalReadsBack(v: int, tail: string)
    requires tail == "" || !IsDigit(tail[0])
    ensures Atoll(Decimal(v) + tail) == v
  {
    hide Digits, Atoll;
    var digits := Digits(Abs(v));
    NaturalReadsBack(Abs(v), tail);
    if v < 0 {
      assert Decimal(v) + tail == "-" + (digits + tail);
    }
  }

  lemma {:induction false} DigitsLength(n: nat, k: nat)
    requires n < Power(10, k) && k >= 1
    ensures |Digits(n)| <= k
  {
    assert Power(10, 1) == 10 * Power(10, 0);
    if n >= 10 {
      DigitsLength(n / 10, k - 1);
    }
  }

  // ---- Suffixes ----

  const SUFFIXES: string := "kMGTPEZY"

  function Upper(c: char): char {
    if 'a' <= c <= 'z' then (c as int - 32) as char else c
  }

  function Base(binary: bool): nat {
    if binary then 1024 else 1000
  }

  function Suffix(n: nat, binary: bool): (s: string)
    requires n <= 8
    ensures |s| == if n == 0 then 0 else if binary then 2 else 1
  {
    if n == 0 then ""
    else if binary then [Upper(SUFFIXES[n - 1]), 'i']
    else [SUFFIXES[n - 1]]
  }

  /** `l` as t * base^n, with base taken out as often as it goes. */
  predicate Reduced(l: int, base: nat, t: int, n: nat)
    requires base > 0
  {
    l == t * Power(base, n) && (l == 0 ==> n == 0) && (l != 0 ==> t % base != 0)
  }

  lemma PowerMore(t: int, base: nat, n: nat)
    requires n > 0
    ensures t * Power(base, n) == base * (t * Power(base, n - 1))
  {
    var p := Power(base, n - 1);
    assert t * (base * p) == base * (t * p);
  }

  lemma MultipleMod(base: nat, x: int)
    requires base > 0
    ensures (base * x) % base == 0 && (base * x) / base == x
  {
    DivModUnique(base * x, base, x, 0);
  }

  /** There is one way only to take it out. */
  lemma {:induction false} ReducedUnique(l: int, base: nat, t: int, n: nat, t': int, n': nat)
    requires base > 1 && Reduced(l, base, t, n) && Reduced(l, base, t', n')
    ensures t == t' && n == n'
    decreases n + n'
  {
    if n > 0 {
      PowerMore(t, base, n);
      MultipleMod(base, t * Power(base, n - 1));
    }
    if n' > 0 {
      PowerMore(t', base, n');
      MultipleMod(base, t' * Power(base, n' - 1));
    }
    if n > 0 && n' > 0 {
      ReducedUnique(l / base, base, t, n - 1, t', n' - 1);
    }
  }

  // ---- Reading ----

  const DECIMAL_LABELS: string := "YZEPTGMk"
  const BINARY_LABELS: string := "YZEPTGMK"

  /** How many cases a switch that falls through runs from the label `c` on. */
  function Steps(c: char, labels: string): nat {
    if labels == "" then 0 else if labels[0] == c then |labels| else Steps(c, labels[1..])
  }

  /** What the suffix of a text multiplies by. */
  function Factor(s: string): nat
    requires s != ""
  {
    var last := s[|s| - 1];
    if last != 'i' then Power(1000, Steps(last, DECIMAL_LABELS))
    else if |s| < 2 then 1
    else Power(1024, Steps(s[|s| - 2], BINARY_LABELS))
  }

  /** The number a text stands for; None when it does not fit into 64 bits. */
  function ReadValue(s: string): Option<int> {
    var v := Atoll(s);
    if v == 0 then Some(0)
    else if InInt64(v) && InInt64(v * Factor(s)) then Some(v * Factor(s))
    else None
  }

  /** `l *= base` on a long long. */
  function Multiply(l: int, base: nat): Option<int> {
    if InInt64(l * base) then Some(l * base) else None
  }

  lemma {:induction false} PowerSplit(base: nat, j: nat, k: nat)
    ensures Power(base, j + k) == Power(base, j) * Power(base, k)
  {
    if j > 0 {
      PowerSplit(base, j - 1, k);
      Associate(base, Power(base, j - 1), Power(base, k));
      assert j + k - 1 == j - 1 + k;
    }
  }

  lemma Associate(x: int, y: int, z: int)
    ensures x * (y * z) == x * y * z
  {
  }

  lemma {:induction false} PowerPositive(base: nat, k: nat)
    requires base >= 1
    ensures Power(base, k) >= 1
  {
    if k > 0 {
      PowerPositive(base, k - 1);
      MulBound(1, base, Power(base, k - 1));
    }
  }

  lemma FurtherOut(x: int, m: nat)
    requires !InInt64(x) && m >= 1
    ensures !InInt64(x * m)
  {
    if x > 0 {
      MulBound(1, m, x);
    } else {
      MulBound(1, m, -x);
      assert m * -x == -(x * m);
    }
  }

  /** Once out of range, further multiplications stay out of range. */
  lemma OverflowStays(l: int, base: nat, j: nat, k: nat)
    requires base >= 1 && j <= k && !InInt64(l * Power(base, j))
    ensures !InInt64(l * Power(base, k))
  {
    PowerSplit(base, j, k - j);
    PowerPositive(base, k - j);
    var x, y := Power(base, j), Power(base, k - j);
    FurtherOut(l * x, y);
    assert l * x * y == l * (x * y);
  }

  lemma NextPower(l: int, base: nat, k: nat)
    ensures Power(base, 0) == 1 && l * Power(base, k) * base == l * Power(base, k + 1)
  {
    var p := Power(base, k);
    assert l * p * base == l * (base * p);
  }

  /** The switch of st_str2ll: no case is run before the label, every one from it on. */
  method FallThrough(l0: int, c: char, labels: string, base: nat) returns (l: Option<int>)
    requires InInt64(l0) && base >= 1
    ensures l == Multiply(l0, Power(base, Steps(c, labels)))
  {
    hide Power, InInt64;
    l := Some(l0);
    var hit := false;
    ghost var first: nat := 0;
    NextPower(l0, base, 0);
    for i := 0 to |labels|
      invariant l.Some? && InInt64(l.value)
      invariant !hit ==> l == Some(l0) && Steps(c, labels) == Steps(c, labels[i..])
      invariant hit ==> first < i && Steps(c, labels) == |labels| - first && l == Some(l0 * Power(base, i - first))
    {
      if !hit && labels[i] == c {
        hit := true;
        first := i;
      }
      assert labels[i..][1..] == labels[i + 1..];
      if hit {
        NextPower(l0, base, i - first);
        l := Multiply(l.value, base);
        if l.None? {
          OverflowStays(l0, base, i + 1 - first, Steps(c, labels));
          return;
        }
      }
    }
  }

  /** st_str2ll; None where the C code would overflow a long long. */
  method StrToNumber(str: string) returns (r: Option<int>)
    ensures r == ReadValue(str)
  {
    hide Power, InInt64, Steps, Atoll;
    var l := Atoll(str);
    if !InInt64(l) {
      ZeroFits();
      return None;
    }
    if l == 0 {
      return Some(l);
    }
    var len := |str|;
    AtollOfNothing();
    if str[len - 1] == 'i' {
      if len < 2 {
        UnitFactor(l);
        return Some(l);
      }
      r := FallThrough(l, str[len - 2], BINARY_LABELS, 1024);
    } else {
      r := FallThrough(l, str[len - 1], DECIMAL_LABELS, 1000);
    }
  }

  lemma ZeroFits()
    ensures InInt64(0)
  {
  }

  lemma AtollOfNothing()
    ensures Atoll("") == 0
  {
  }

  lemma UnitFactor(l: int)
    ensures l * 1 == l
  {
  }

  // ---- What a text stands for, character by character ----

  /** How many times a last character multiplies by 1000. */
  function Thousands(c: char): nat {
    match c
    case 'k' => 1
    case 'M' => 2
    case 'G' => 3
    case 'T' => 4
    case 'P' => 5
    case 'E' => 6
    case 'Z' => 7
    case 'Y' => 8
    case _ => 0
  }

  /** How many times a character before a last `i` multiplies by 1024: the kilo is a capital there. */
  function BinarySteps(c: char): nat {
    match c
    case 'K' => 1
    case 'M' => 2
    case 'G' => 3
    case 'T' => 4
    case 'P' => 5
    case 'E' => 6
    case 'Z' => 7
    case 'Y' => 8
    case _ => 0
  }

  /** What a text multiplies its number by, going by its last two characters. */
  function Unit(s: string): nat {
    if s == "" then 1
    else if s[|s| - 1] != 'i' then Power(1000, Thousands(s[|s| - 1]))
    else if |s| == 1 then 1
    else Power(1024, BinarySteps(s[|s| - 2]))
  }

  lemma ThousandsAre(c: char)
    ensures Steps(c, DECIMAL_LABELS) == Thousands(c)
  {
    var at := 8 - Thousands(c);
    if Thousands(c) > 0 {
      StepsAt(c, DECIMAL_LABELS, at);
    } else {
      NotALabel(c, DECIMAL_LABELS);
    }
  }

  lemma BinaryStepsAre(c: char)
    ensures Steps(c, BINARY_LABELS) == BinarySteps(c)
  {
    var at := 8 - BinarySteps(c);
    if BinarySteps(c) > 0 {
      StepsAt(c, BINARY_LABELS, at);
    } else {
      NotALabel(c, BINARY_LABELS);
    }
  }

  /** The switch knows those characters and no other. */
  lemma FactorIsUnit(s: string)
    requires s != ""
    ensures Factor(s) == Unit(s)
  {
    hide Power, Steps, Thousands, BinarySteps;
    ThousandsAre(s[|s| - 1]);
    if |s| >= 2 {
      BinaryStepsAre(s[|s| - 2]);
    }
    PowerZero();
  }

  lemma PowerZero()
    ensures Power(1000, 0) == Power(1024, 0) == 1
  {
  }

  predicate AllSpace(s: string) {
    forall i :: 0 <= i < |s| ==> IsSpace(s[i])
  }

  lemma {:induction false} AtollSkips(spaces: string, s: string)
    requires AllSpace(spaces)
    ensures Atoll(spaces + s) == Atoll(s)
  {
    if spaces == "" {
      assert spaces + s == s;
    } else {
      AtollSkips(spaces[1..], s);
      assert (spaces + s)[1..] == spaces[1..] + s;
    }
  }

  lemma AtollOfPlus(s: string)
    requires s != "" && IsDigit(s[0])
    ensures Atoll("+" + s) == Atoll(s)
  {
    assert ("+" + s)[1..] == s;
  }

  /** What the text behind a number multiplies it by: its last character decides, or the last but one before an `i`. */
  function TailUnit(tail: string): nat {
    if tail == "" || tail == "i" then 1
    else if tail[|tail| - 1] != 'i' then Power(1000, Thousands(tail[|tail| - 1]))
    else Power(1024, BinarySteps(tail[|tail| - 2]))
  }

  lemma UnitOfTail(front: string, tail: string)
    requires front != "" && IsDigit(front[|front| - 1])
    ensures Unit(front + tail) == TailUnit(tail)
  {
    hide Power;
    PowerZero();
    var s := front + tail;
    if tail == "" {
      assert s == front;
    } else if |tail| == 1 {
      assert s[|s| - 2] == front[|front| - 1];
    } else {
      assert s[|s| - 2] == tail[|tail| - 2];
    }
  }

  lemma DecimalStart(v: nat)
    ensures IsDigit(Decimal(v)[0])
  {
  }

  lemma DecimalEnd(v: int)
    ensures IsDigit(Decimal(v)[|Decimal(v)| - 1])
  {
    DigitsEnd(Abs(v));
  }

  /**
   * Blanks, a number with or without a plus, and anything that does not go on with a digit: the number times the
   * unit at the end of the text; None exactly when a 64-bit number overflows.
   */
  lemma ReadsAs(spaces: string, plus: bool, v: int, tail: string)
    requires AllSpace(spaces) && (plus ==> v >= 0) && (tail == "" || !IsDigit(tail[0]))
    ensures var s := spaces + ((if plus then "+" else "") + (Decimal(v) + tail));
            s != "" && ReadValue(s) ==
            if v == 0 then Some(0)
            else if !InInt64(v) || !InInt64(v * TailUnit(tail)) then None
            else Some(v * TailUnit(tail))
  {
    hide Digits, Factor, Unit, TailUnit, Atoll, InInt64, Decimal;
    var text := Decimal(v) + tail;
    var s := spaces + ((if plus then "+" else "") + text);
    DecimalReadsBack(v, tail);
    AtollSkips(spaces, (if plus then "+" else "") + text);
    if plus {
      DecimalStart(v);
      assert text[0] == Decimal(v)[0];
      AtollOfPlus(text);
    } else {
      assert "" + text == text;
    }
    FactorIsUnit(s);
    var front := spaces + ((if plus then "+" else "") + Decimal(v));
    assert front + tail == s;
    DecimalEnd(v);
    assert front[|front| - 1] == Decimal(v)[|Decimal(v)| - 1];
    UnitOfTail(front, tail);
  }

  /** A text with no number in front, or with a zero, stands for 0, whatever its last character. */
  lemma NoNumber(spaces: string, sign: string, tail: string)
    requires AllSpace(spaces) && sign in {"", "+", "-"} && (tail == "" || !IsDigit(tail[0]))
    requires sign == "" && tail != "" ==> !IsSpace(tail[0]) && tail[0] != '+' && tail[0] != '-'
    ensures ReadValue(spaces + (sign + tail)) == Some(0)
  {
    AtollSkips(spaces, sign + tail);
    if sign == "" {
      assert sign + tail == tail;
    } else {
      assert (sign + tail)[1..] == tail;
    }
  }

  /** The unit counts only as the very end: `12kxx` is 12. */
  method UnitInside() returns (r: Option<int>)
    ensures r == Some(12)
  {
    r := StrToNumber("12kxx");
    assert Digits(12) == "12" && Decimal(12) + "kxx" == "12kxx";
    assert "" + ("" + "12kxx") == "12kxx";
    ReadsAs("", false, 12, "kxx");
    PowerZero();
  }

  // ---- Printing ----

  /** C's division and remainder, which truncate. */
  function Quotient(a: int, b: nat): int
    requires b > 0
  {
    if a >= 0 then a / b else -((-a) / b)
  }

  function Remainder(a: int, b: nat): int
    requires b > 0
  {
    a - b * Quotient(a, b)
  }

  lemma RemainderIsMod(a: int, b: nat)
    requires b > 0
    ensures Remainder(a, b) == 0 <==> a % b == 0
    ensures a % b == 0 ==> a == Quotient(a, b) * b
  {
    var m := if a >= 0 then a else -a;
    var q, r := m / b, m % b;
    assert m == b * q + r;
    if a < 0 {
      assert -(b * q) == b * -q;
      if r == 0 {
        DivModUnique(a, b, -q, 0);
      } else {
        DivModUnique(a, b, -q - 1, b - r);
      }
    }
  }

  /** Taking base out of a nonzero 64-bit number: six times at the most. */
  lemma FewSteps(l: int, base: nat, t: int, n: nat)
    requires InInt64(l) && l != 0 && base >= 1000 && l == t * Power(base, n)
    ensures n <= 6
  {
    if n >= 7 {
      Power7(base);
      PowerMonotone(base, 7, n);
      var p := Power(base, n);
      if t >= 1 {
        MulBound(1, t, p);
      } else if t <= -1 {
        MulBound(t, -1, p);
      }
    }
  }

  lemma AtLeast(x: nat, m: nat)
    requires m >= 1
    ensures x <= x * m
  {
    MulBound(1, m, x);
  }

  lemma PowerMonotone(base: nat, j: nat, k: nat)
    requires base >= 1 && j <= k
    ensures Power(base, j) <= Power(base, k)
  {
    PowerSplit(base, j, k - j);
    PowerPositive(base, k - j);
    AtLeast(Power(base, j), Power(base, k - j));
  }

  lemma {:induction false} PowerBase(b: nat, c: nat, k: nat)
    requires b <= c
    ensures Power(b, k) <= Power(c, k)
  {
    if k > 0 {
      PowerBase(b, c, k - 1);
      MulBound(b, c, Power(b, k - 1));
      MulBound(Power(b, k - 1), Power(c, k - 1), c);
    }
  }

  lemma Power7(base: nat)
    requires base >= 1000
    ensures Power(base, 7) > 0x8000_0000_0000_0000
  {
    PowerBase(1000, base, 7);
    assert Power(1000, 3) == 1000 * Power(1000, 2) == 1000_000_000;
    PowerSplit(1000, 3, 3);
    assert Power(1000, 7) == 1000 * Power(1000, 6);
  }

  /** The loop of st_ll2str: its limit of eight steps is never what stops it. */
  method Reduce(l: int, base: nat) returns (t: int, n: nat)
    requires InInt64(l) && base >= 1000
    ensures Reduced(l, base, t, n) && n <= 6 && InInt64(t)
  {
    hide Power, Quotient, Remainder;
    t, n := l, 0;
    NextPower(l, base, 0);
    while t != 0 && Remainder(t, base) == 0
      invariant l == t * Power(base, n) && n <= 6 && InInt64(t)
      invariant l == 0 <==> t == 0
      invariant l == 0 ==> n == 0
      decreases Abs(t)
    {
      RemainderIsMod(t, base);
      ghost var t0 := t;
      t := Quotient(t, base);
      Shrinks(t0, t, base);
      PowerMore(t, base, n + 1);
      FactorOut(t, base, Power(base, n));
      n := n + 1;
      FewSteps(l, base, t, n);
      if n >= |SUFFIXES| {
        break;
      }
    }
    RemainderIsMod(t, base);
  }

  lemma FactorOut(t: int, base: nat, p: nat)
    ensures t * base * p == base * (t * p)
  {
  }

  /** What that loop computes. */
  function Reduction(l: int, base: nat): (r: (int, nat))
    requires base >= 1000
    ensures Reduced(l, base, r.0, r.1)
    decreases Abs(l)
  {
    if l != 0 && l % base == 0 then
      RemainderIsMod(l, base);
      var t0 := Quotient(l, base);
      Shrinks(l, t0, base);
      var (t, n) := Reduction(t0, base);
      PowerMore(t, base, n + 1);
      FactorOut(t, base, Power(base, n));
      (t, n + 1)
    else
      (l, 0)
  }

  lemma Shrinks(t0: int, t: int, base: nat)
    requires t0 != 0 && t0 == t * base && base >= 1000
    ensures t != 0
    ensures Abs(t) < Abs(t) * 1000 <= Abs(t0)
  {
    MulBound(1000, base, Abs(t));
    if t < 0 {
      assert base * -t == -(t * base);
    }
  }

  lemma ReductionFits(l: int, base: nat)
    requires InInt64(l) && base >= 1000
    ensures Reduction(l, base).1 <= 6
  {
    if l != 0 {
      FewSteps(l, base, Reduction(l, base).0, Reduction(l, base).1);
    }
  }

  /** The text st_ll2str stands for. */
  function Text(l: int, binary: bool): (s: string)
    requires InInt64(l)
  {
    ReductionFits(l, Base(binary));
    var (t, n) := Reduction(l, Base(binary));
    Decimal(t) + Suffix(n, binary)
  }

  /**
   * The printed text: a number that the base does not divide as a plain decimal; that number times a power of the
   * base with the one character, or the character and an `i`, that reading multiplies by the same power for.
   */
  lemma TextSpelled(t: int, n: nat, binary: bool) returns (c: char)
    requires t % Base(binary) != 0 && InInt64(t * Power(Base(binary), n))
    ensures var text := Text(t * Power(Base(binary), n), binary);
            if n == 0 then text == Decimal(t)
            else if binary then BinarySteps(c) == n && text == Decimal(t) + [c, 'i']
            else Thousands(c) == n && text == Decimal(t) + [c]
  {
    var base := Base(binary);
    var l := t * Power(base, n);
    ProductNotZero(t, Power(base, n), base, n);
    ReductionFits(l, base);
    ReducedUnique(l, base, Reduction(l, base).0, Reduction(l, base).1, t, n);
    hide Reduction, Decimal, Power, BinarySteps, Thousands, Steps;
    c := 'k';
    if n == 0 {
      assert Decimal(t) + "" == Decimal(t);
    } else {
      c := Suffix(n, binary)[0];
      SuffixSteps(n, binary);
      ThousandsAre(c);
      BinaryStepsAre(c);
      assert Suffix(n, binary) == if binary then [c, 'i'] else [c];
    }
  }

  lemma ProductNotZero(t: int, p: nat, base: nat, n: nat)
    requires base >= 1000 && t % base != 0 && p == Power(base, n)
    ensures t * p != 0
  {
    PowerPositive(base, n);
    hide Power;
    if t >= 1 {
      MulBound(1, t, p);
    } else {
      MulBound(t, -1, p);
    }
  }

  // ---- Round trip ----

  lemma SuffixSteps(n: nat, binary: bool)
    requires 1 <= n <= 8
    ensures Steps(Suffix(n, binary)[0], if binary then BINARY_LABELS else DECIMAL_LABELS) == n
    ensures !IsDigit(Suffix(n, binary)[0]) && Suffix(n, binary)[0] != 'i'
  {
    var c := Suffix(n, binary)[0];
    var labels := if binary then BINARY_LABELS else DECIMAL_LABELS;
    StepsAt(c, labels, 8 - n);
  }

  lemma {:induction false} StepsAt(c: char, labels: string, at: nat)
    requires at < |labels| && labels[at] == c && c !in labels[..at]
    ensures Steps(c, labels) == |labels| - at
  {
    if at > 0 {
      assert labels[0] == labels[..at][0];
      assert labels[1..][..at - 1] == labels[..at][1..];
      StepsAt(c, labels[1..], at - 1);
    }
  }

  lemma {:induction false} DigitsEnd(n: nat)
    ensures IsDigit(Digits(n)[|Digits(n)| - 1])
  {
  }

  /** A text without suffix multiplies by one, one with suffix by the power it names. */
  lemma FactorOfText(t: int, n: nat, binary: bool)
    requires n <= 8
    ensures Factor(Decimal(t) + Suffix(n, binary)) == Power(Base(binary), n)
  {
    hide Digits, Power, Steps;
    var s := Decimal(t) + Suffix(n, binary);
    if n == 0 {
      DigitsEnd(Abs(t));
      assert s == Decimal(t) && IsDigit(s[|s| - 1]);
      NoStepsAtDigit(s[|s| - 1]);
    } else {
      SuffixSteps(n, binary);
      assert s[|s| - |Suffix(n, binary)|] == Suffix(n, binary)[0];
    }
  }

  lemma NoStepsAtDigit(c: char)
    requires IsDigit(c)
    ensures Power(1000, Steps(c, DECIMAL_LABELS)) == Power(1000, 0) == Power(1024, 0) == 1
  {
    NotALabel(c, DECIMAL_LABELS);
  }

  lemma {:induction false} NotALabel(c: char, labels: string)
    requires forall i :: 0 <= i < |labels| ==> labels[i] != c
    ensures Steps(c, labels) == 0
  {
    if labels != "" {
      NotALabel(c, labels[1..]);
    }
  }

  /** Every 64-bit number reads back from its text, in both bases. */
  lemma TextReadsBack(l: int, binary: bool)
    requires InInt64(l)
    ensures ReadValue(Text(l, binary)) == Some(l)
  {
    hide Digits, Steps, Factor, Atoll, Decimal, Suffix;
    ReductionFits(l, Base(binary));
    var (t, n) := Reduction(l, Base(binary));
    TextParts(t, n, binary);
    DecimalReadsBack(t, Suffix(n, binary));
    FactorOfText(t, n, binary);
    ReductionInside(l, Base(binary));
  }

  lemma TextParts(t: int, n: nat, binary: bool)
    requires n <= 8
    ensures Decimal(t) + Suffix(n, binary) != ""
    ensures Suffix(n, binary) == "" || !IsDigit(Suffix(n, binary)[0])
  {
    if n > 0 {
      SuffixSteps(n, binary);
    }
  }

  /** What is left after the loop is zero only for zero, and no larger than the number. */
  lemma {:induction false} ReductionInside(l: int, base: nat)
    requires base >= 1000
    ensures var (t, n) := Reduction(l, base);
            && (t == 0 <==> l == 0)
            && Abs(t) <= Abs(l)
            && (n > 0 ==> Abs(t) * 1000 <= Abs(l))
            && (InInt64(l) ==> InInt64(t))
    decreases Abs(l)
  {
    hide Power, Reduced, Quotient;
    if l != 0 && l % base == 0 {
      RemainderIsMod(l, base);
      var t0 := Quotient(l, base);
      Shrinks(l, t0, base);
      ReductionInside(t0, base);
    }
  }

  /** Twenty characters are enough. */
  lemma TextLength(l: int, binary: bool)
    requires InInt64(l)
    ensures |Text(l, binary)| <= 20
  {
    ReductionFits(l, Base(binary));
    ReductionInside(l, Base(binary));
    var (t, n) := Reduction(l, Base(binary));
    PowersOfTen();
    hide Digits, Power, Reduction;
    DigitsLength(Abs(t), if n == 0 then 19 else 16);
  }

  lemma PowersOfTen()
    ensures Power(10, 16) == 1_0000_0000_0000_0000 && Power(10, 19) == 1000 * Power(10, 16)
  {
    assert Power(10, 4) == 10 * Power(10, 3) && Power(10, 3) == 10 * Power(10, 2) && Power(10, 2) == 10 * Power(10, 1);
    assert Power(10, 4) == 1_0000;
    PowerSplit(10, 4, 4);
    PowerSplit(10, 8, 8);
    PowerSplit(10, 3, 16);
  }

  /** The most negative number takes the largest binary step there is. */
  lemma MostNegative()
    ensures Text(INT64_MIN, true) == "-8Ei"
  {
    assert Power(1024, 3) == 1024 * Power(1024, 2) == 1024 * 1024 * 1024;
    PowerSplit(1024, 3, 3);
    assert Reduced(INT64_MIN, 1024, -8, 6);
    ReducedUnique(INT64_MIN, 1024, Reduction(INT64_MIN, 1024).0, Reduction(INT64_MIN, 1024).1, -8, 6);
    hide Reduction, Power;
    assert Decimal(-8) == "-8";
  }

  // ---- The buffer ----

  lemma {:induction false} DigitsNoNul(n: nat)
    ensures NoNul(Digits(n))
  {
    if n >= 10 {
      DigitsNoNul(n / 10);
    }
  }

  lemma DecimalNoNul(t: int)
    ensures NoNul(Decimal(t))
  {
    hide Digits;
    DigitsNoNul(Abs(t));
  }

  /** snprintf(str, len, "%s", text): the text, cut to leave room for the NUL. */
  method PrintInto(str: array<char>, len: nat, text: string)
    requires 1 <= len <= str.Length && NoNul(text)
    modifies str
    ensures CString(str[..]) == text[..if |text| < len then |text| else len - 1]
    ensures str[len..] == old(str[len..])
  {
    var n := if |text| < len then |text| else len - 1;
    forall i | 0 <= i < n {
      str[i] := text[i];
    }
    str[n] := '\0';
    assert str[..n] == text[..n] && str[..][..n] == str[..n];
    CStringUnique(str[..], n);
  }

  /** Appends to the C string in the buffer. */
  method PutBehind(str: array<char>, len: nat, sz: nat, more: string)
    requires sz + |more| < len <= str.Length && NoNul(more) && |CString(str[..])| == sz
    modifies str
    ensures CString(str[..]) == old(CString(str[..])) + more
    ensures str[len..] == old(str[len..])
  {
    ghost var front := CString(str[..]);
    assert str[..sz] == front;
    forall i | 0 <= i < |more| {
      str[sz + i] := more[i];
    }
    str[sz + |more|] := '\0';
    assert str[..sz] == front && str[sz..sz + |more|] == more;
    assert str[..][..sz + |more|] == str[..sz] + str[sz..sz + |more|];
    CStringUnique(str[..], sz + |more|);
  }

  /** The number of base steps a printed number is given a suffix for. */
  function SuffixSize(l: int, binary: bool): nat
    requires InInt64(l)
  {
    ReductionFits(l, Base(binary));
    |Suffix(Reduction(l, Base(binary)).1, binary)|
  }

  /** Null is the C code's failure; Overrun is a write past the `len` bytes of the buffer. */
  datatype Outcome = Printed | Null | Overrun

  /** Subtraction on size_t. */
  function SizeMinus(x: nat, y: nat): nat
    requires x <= SIZE_MAX && y <= SIZE_MAX
  {
    if x >= y then x - y else x + (SIZE_MAX + 1) - y
  }

  /**
   * st_ll2str. With a suffix to write, the room check `sz > len - 3` or `sz > len - 2` wraps around for a
   * buffer no longer than the suffix, passes, and the suffix is written past the buffer; the model stops there.
   */
  method NumberToStr(str: array<char>, len: nat, l: int, binary: bool) returns (r: Outcome)
    requires InInt64(l) && len <= str.Length && len <= SIZE_MAX
    modifies str
    ensures r == Overrun <==> 0 < len <= SuffixSize(l, binary)
    ensures r == Null <==> len == 0 || 0 < SuffixSize(l, binary) < len <= |Text(l, binary)|
    ensures r == Printed ==>
              CString(str[..]) == if |Text(l, binary)| < len then Text(l, binary) else Text(l, binary)[..len - 1]
    ensures str[len..] == old(str[len..])
  {
    hide Decimal, CString, Power, Steps;
    if len == 0 {
      return Null;
    }
    var base := if binary then 1024 else 1000;
    var t, n := Reduce(l, base);
    ReductionFits(l, base);
    ReducedUnique(l, base, t, n, Reduction(l, base).0, Reduction(l, base).1);
    hide Reduction;
    DecimalNoNul(t);
    PrintInto(str, len, Decimal(t));
    ghost var shown := Decimal(t);
    assert shown + "" == shown && shown[..|shown|] == shown;
    if n > 0 {
      hide Reduced;
      SuffixSteps(n, binary);
      var sz := |CString(str[..])|;
      if sz > SizeMinus(len, if binary then 3 else 2) {
        return Null;
      }
      var suffix := if binary then [Upper(SUFFIXES[n - 1]), 'i'] else [SUFFIXES[n - 1]];
      if sz + |suffix| >= len {
        return Overrun;
      }
      PutBehind(str, len, sz, suffix);
    }
    return Printed;
  }

  /** The shortest overrun: 1000 into one byte. */
  method OneByteOverrun() returns (r: Outcome)
    ensures r == Overrun
  {
    var str := new char[1];
    ReducedOnce();
    r := NumberToStr(str, 1, 1000, false);
  }

  lemma ReducedOnce()
    ensures SuffixSize(1000, false) == 1
  {
    assert Power(1000, 1) == 1000 * Power(1000, 0);
    assert Reduced(1000, 1000, 1, 1);
    ReducedUnique(1000, 1000, Reduction(1000, 1000).0, Reduction(1000, 1000).1, 1, 1);
  }

  /** Print and read back, for every 64-bit number, base and buffer of at least 21 bytes. */
  method PrintThenRead(str: array<char>, len: nat, l: int, binary: bool) returns (r: Outcome, back: Option<int>)
    requires InInt64(l) && 21 <= len <= str.Length && len <= SIZE_MAX
    modifies str
    ensures r == Printed && back == Some(l)
  {
    TextLength(l, binary);
    SuffixInside(l, binary);
    r := NumberToStr(str, len, l, binary);
    TextReadsBack(l, binary);
    back := StrToNumber(CString(str[..]));
  }

  lemma SuffixInside(l: int, binary: bool)
    requires InInt64(l)
    ensures SuffixSize(l, binary) <= |Text(l, binary)|
  {
  }

  // ---- Short buffers ----

  /** A shortened decimal is the decimal of a smaller number. */
  lemma {:induction false} DigitsPrefix(n: nat, k: nat) returns (m: nat)
    requires 1 <= k < |Digits(n)|
    ensures Digits(n)[..k] == Digits(m) && m < n
  {
    if k == |Digits(n)| - 1 {
      m := n / 10;
      assert Digits(n)[..k] == Digits(n / 10);
    } else {
      m := DigitsPrefix(n / 10, k);
      assert Digits(n)[..k] == Digits(n / 10)[..k];
    }
  }

  /** A number without suffix that is cut by a short buffer reads back right only if it is zero. */
  lemma CutReadsBackIff(l: int, k: nat)
    requires InInt64(l) && k < |Decimal(l)|
    ensures ReadValue(Decimal(l)[..k]) == Some(l) <==> l == 0
  {
    hide Digits, DigitsFrom, Power, Steps;
    var s, digits, sign := Decimal(l)[..k], Digits(Abs(l)), if l < 0 then 1 else 0;
    AtollOfNothing();
    SignAlone();
    if k <= sign {
      assert k == 0 ==> s == "";
      assert k == 1 ==> s == "-";
      DigitsAtZero();
    } else {
      var m := DigitsPrefix(Abs(l), k - sign);
      assert s == (if l < 0 then "-" else "") + Digits(m);
      NaturalReadsBack(m, "");
      assert Digits(m) + "" == Digits(m);
      DigitsEnd(m);
      NoStepsAtDigit(s[|s| - 1]);
    }
  }

  lemma SignAlone()
    ensures Atoll("-") == 0
  {
  }

  lemma DigitsAtZero()
    ensures |Digits(0)| == 1
  {
  }
}
