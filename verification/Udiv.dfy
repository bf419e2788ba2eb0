/** 64-by-64 bit unsigned division from 32-bit halves (kernel/udiv.c).

    The division of the PowerPC Compiler Writer's Guide: special cases first, then a
    shift-and-subtract loop whose comparison is the sign of `d - r - 1`.
 */
module Udiv {
  import opened Bits

  type U32 = x: int | 0 <= x < 0x1_0000_0000
  type U64 = x: int | 0 <= x < 0x1_0000_0000_0000_0000

  /** Quotient and remainder, or the trap that dividing by zero raises. */
  datatype DivResult = Trap | Quotient(q: U64, r: U64)

  function Hi(x: U64): U32 { x / 0x1_0000_0000 }
  function Lo(x: U64): U32 { x % 0x1_0000_0000 }
  function Join(h: U32, l: U32): U64 { h * 0x1_0000_0000 + l }

  /** `x << k` on 32 bits. */
  function Shl(x: U32, k: nat): U32 { Left(x, k) % 0x1_0000_0000 }

  /** `x >> k` on 32 bits. */
  function Shr(x: U32, k: nat): U32 {
    RightLe(x, k);
    Right(x, k)
  }

  /** `x | y` on 32 bits. */
  function Or32(x: U32, y: U32): U32 {
    Pow2Values();
    OrFits(x, y, 32);
    Or(x, y)
  }

  /** `x & y`. */
  function And32(x: U32, y: U32): U32 {
    AndFits(x, y);
    And(x, y)
  }

  /** `__builtin_clz` on a nonzero 32-bit word. */
  function Clz(x: U32): (c: nat)
    requires x > 0
    ensures c <= 31
  {
    BitLenFits(x);
    32 - BitLen(x)
  }

  /** Subtraction in 32 bits: a negative difference becomes large. */
  function WrapDiff(x: nat, y: nat): (r: U32)
    requires x <= 31 && y <= 31
    ensures r <= 31 <==> x >= y
    ensures x >= y ==> r == x - y
  {
    (x - y) % 0x1_0000_0000
  }

  lemma BitLenFits(x: U32)
    requires x > 0
    ensures 1 <= BitLen(x) <= 32
  {
    BitLenBounds(x);
    Pow2Values();
    if BitLen(x) > 32 { Pow2Mono(32, BitLen(x) - 1); }
  }

  /** `x - y` on 64 bits. */
  function Sub64(x: U64, y: U64): U64 { if x >= y then x - y else x - y + 0x1_0000_0000_0000_0000 }

  /** `(x << 1) | bit` on 64 bits. */
  function Double64(x: U64, bit: nat): U64
    requires bit <= 1
  {
    if x >= 0x8000_0000_0000_0000 then 2 * x + bit - 0x1_0000_0000_0000_0000 else 2 * x + bit
  }

  /** The top bit of a 64-bit word. */
  function Top64(x: U64): (b: U32)
    ensures b <= 1
  {
    if x >= 0x8000_0000_0000_0000 then 1 else 0
  }

  /** Arithmetic shift of a 64-bit word right by 63: all ones when the sign bit is set. */
  function SignMask(x: U64): U64 {
    if x >= 0x8000_0000_0000_0000 then 0xffff_ffff_ffff_ffff else 0
  }

  // ----- shifting across the two halves

  lemma LeftWord(x: nat)
    ensures Left(x, 32) == x * 0x1_0000_0000
  {
    LeftMul(x, 32);
    Pow2Values();
  }

  lemma LeftDoubleWord(x: nat)
    ensures Left(x, 63) == x * 0x8000_0000_0000_0000
  {
    LeftMul(x, 63);
    Pow2Values();
  }

  /** A truncating left shift by `32 - s` keeps the low `s` bits. */
  lemma ShlKeepsLow(x: U32, s: nat)
    requires 1 <= s <= 31
    ensures Shl(x, 32 - s) == Left(Low(x, s), 32 - s)
    ensures Left(x, 32 - s) == Right(x, s) * 0x1_0000_0000 + Left(Low(x, s), 32 - s)
  {
    var a, b := Right(x, s), Low(x, s);
    assert Left(x, 32 - s) == a * 0x1_0000_0000 + Left(b, 32 - s) by {
      SplitAt(x, s);
      LeftAdd(Left(a, s), b, 32 - s);
      LeftLeft(a, s, 32 - s);
      LeftWord(a);
    }
    assert Left(b, 32 - s) < 0x1_0000_0000 by {
      SplitAt(x, s);
      LeftBound(b, s, 32 - s);
      Pow2Values();
    }
  }

  /** `(h << (32 - s)) | (l >> s)`: the low word of `h:l >> s`. */
  lemma FunnelShift(h: U32, l: U32, s: nat)
    requires 1 <= s <= 31
    ensures Or32(Shl(h, 32 - s), Shr(l, s)) == Left(Low(h, s), 32 - s) + Right(l, s)
  {
    ShlKeepsLow(h, s);
    Pow2Values();
    RightBound(l, 32 - s, s);
    OrDisjoint(Low(h, s), Right(l, s), 32 - s);
  }

  /** The pair `h:l`, with `h` and `l` split at bit `s`, regrouped as a number split at bit `s`. */
  lemma PairSplit(a: nat, b: nat, c: nat, s: nat)
    requires s <= 32
    ensures Left(Left(a, s) + b, 32) + Left(c, s) == Left(Left(a, 32) + Left(b, 32 - s) + c, s)
  {
    LeftAdd(Left(a, s), b, 32);
    LeftLeft(a, s, 32);
    LeftLeft(a, 32, s);
    LeftLeft(b, 32 - s, s);
    LeftAdd(Left(a, 32) + Left(b, 32 - s), c, s);
    LeftAdd(Left(a, 32), Left(b, 32 - s), s);
  }

  lemma ShiftBelowPair(h: U32, l: U32, s: nat)
    requires 1 <= s <= 31
    ensures Join(Shr(h, s), Or32(Shl(h, 32 - s), Shr(l, s))) == Right(Join(h, l), s)
    ensures Low(l, s) == Low(Join(h, l), s)
  {
    var q := Left(Right(h, s), 32) + Left(Low(h, s), 32 - s) + Right(l, s);
    assert Join(h, l) == Left(q, s) + Low(l, s) by {
      SplitAt(h, s);
      SplitAt(l, s);
      PairSplit(Right(h, s), Low(h, s), Right(l, s), s);
      LeftWord(h);
    }
    SplitAt(l, s);
    SplitUnique(Join(h, l), s, q, Low(l, s));
    FunnelShift(h, l, s);
    LeftWord(Right(h, s));
  }

  /** A right shift by `s < 32` of both halves. */
  lemma ShiftBelowWord(n: U64, s: nat)
    requires 1 <= s <= 31
    ensures Join(Shr(Hi(n), s), Or32(Shl(Hi(n), 32 - s), Shr(Lo(n), s))) == Right(n, s)
    ensures Low(Lo(n), s) == Low(n, s)
  {
    ShiftBelowPair(Hi(n), Lo(n), s);
    assert n == Join(Hi(n), Lo(n));
  }

  /** The bits such a shift drops, left-justified. */
  lemma DroppedBelowWord(n: U64, s: nat)
    requires 1 <= s <= 31
    ensures Join(Shl(Lo(n), 32 - s), 0) == Left(Low(n, s), 64 - s)
  {
    ShiftBelowWord(n, s);
    ShlKeepsLow(Lo(n), s);
    LeftLeft(Low(n, s), 32 - s, 32);
    LeftWord(Left(Low(n, s), 32 - s));
  }

  lemma SplitAboveWord(n: U64, t: nat)
    requires t <= 31
    ensures Right(n, 32 + t) == Right(Hi(n), t)
    ensures Low(n, 32 + t) == Low(Hi(n), t) * 0x1_0000_0000 + Lo(n)
  {
    var h, l := Hi(n), Lo(n);
    var q, m := Right(h, t), Low(h, t);
    SplitAt(h, t);
    LeftWord(h);
    LeftWord(m);
    LeftAdd(Left(q, t), m, 32);
    LeftLeft(q, t, 32);
    LeftBound(m, t, 32);
    Pow2Values();
    SplitUnique(n, 32 + t, q, m * 0x1_0000_0000 + l);
  }

  /** A right shift by `32 + t`, and the bits it drops, left-justified. */
  lemma ShiftAboveWord(n: U64, t: nat)
    requires 1 <= t <= 31
    ensures Join(0, Shr(Hi(n), t)) == Right(n, 32 + t)
    ensures Join(Or32(Shl(Hi(n), 32 - t), Shr(Lo(n), t)), Shl(Lo(n), 32 - t)) == Left(Low(n, 32 + t), 32 - t)
  {
    var h, l := Hi(n), Lo(n);
    var m := Low(h, t);
    FunnelShift(h, l, t);
    ShlKeepsLow(l, t);
    SplitAboveWord(n, t);
    LeftWord(m);
    LeftAdd(m * 0x1_0000_0000, l, 32 - t);
    LeftLeft(m, 32, 32 - t);
    LeftLeft(m, 32 - t, 32);
    LeftWord(Left(m, 32 - t));
  }

  lemma ShiftByWord(n: U64)
    ensures Join(0, Hi(n)) == Right(n, 32)
    ensures Join(Lo(n), 0) == Left(Low(n, 32), 32)
  {
    SplitAboveWord(n, 0);
    LeftWord(Lo(n));
  }

  /** `(x << 1) | bit` on 32 bits. */
  lemma ShiftInBit(x: U32, bit: U32)
    requires bit <= 1
    ensures Or32(Shl(x, 1), bit) == (2 * x) % 0x1_0000_0000 + bit
  {
    assert Left(x, 1) == 2 * x && Pow2(1) == 2;
    var y := Shl(x, 1) / 2;
    assert Left(y, 1) == Shl(x, 1);
    OrDisjoint(y, bit, 1);
  }

  lemma ShrTop(x: U32)
    ensures Shr(x, 31) == x / 0x8000_0000
  {
    var q, m := x / 0x8000_0000, x % 0x8000_0000;
    Pow2Values();
    LeftWord(q);
    assert Left(q, 32) == 2 * Left(q, 31);
    SplitUnique(x, 31, q, m);
  }

  /** Shifting a 64-bit word left by one, word by word, with `bit` coming in at the bottom. */
  lemma ShiftPair(h: U32, l: U32, bit: U32)
    requires bit <= 1
    ensures Join(Or32(Shl(h, 1), Shr(l, 31)), Or32(Shl(l, 1), bit)) == Double64(Join(h, l), bit)
    ensures Shr(h, 31) == Top64(Join(h, l))
  {
    ShrTop(l);
    ShrTop(h);
    ShiftInBit(h, l / 0x8000_0000);
    ShiftInBit(l, bit);
    DoublePair(h, l, bit);
  }

  lemma DoublePair(h: U32, l: U32, bit: U32)
    requires bit <= 1
    ensures Join((2 * h) % 0x1_0000_0000 + l / 0x8000_0000, (2 * l) % 0x1_0000_0000 + bit) == Double64(Join(h, l), bit)
    ensures h / 0x8000_0000 == Top64(Join(h, l))
  {
    var ht, lt := h / 0x8000_0000, l / 0x8000_0000;
    assert (2 * h) % 0x1_0000_0000 == 2 * h - ht * 0x1_0000_0000;
    assert (2 * l) % 0x1_0000_0000 == 2 * l - lt * 0x1_0000_0000;
  }

  // ----- the shift-and-subtract loop

  /** `q * d` by repeated addition, which keeps the loop's invariant linear. */
  function Times(q: nat, d: nat): nat {
    if q == 0 then 0 else d + Times(q - 1, d)
  }

  lemma {:induction false} TimesIsProduct(q: nat, d: nat)
    ensures Times(q, d) == q * d
  {
    if q > 0 {
      TimesIsProduct(q - 1, d);
      assert (q - 1) * d + d == q * d;
    }
  }

  lemma {:induction false} TimesAtLeast(q: nat, d: nat)
    requires d > 0
    ensures Times(q, d) >= q && (q > 0 ==> Times(q, d) >= d)
  {
    if q > 0 { TimesAtLeast(q - 1, d); }
  }

  lemma {:induction false} TimesDouble(q: nat, c: nat, d: nat)
    requires c <= 1
    ensures Times(2 * q + c, d) == 2 * Times(q, d) + (if c == 1 then d else 0)
  {
    if q > 0 {
      TimesDouble(q - 1, c, d);
      assert Times(2 * q + c, d) == d + (d + Times(2 * q + c - 2, d));
    }
  }

  /** The dividend is split at bit `s`: `r` holds the high part, `q` the low part left-justified. */
  predicate Normalized(n: U64, d: U64, s: nat, r: U64, q: U64) {
    && 1 <= s <= 63
    && r == Right(n, s) < d
    && q == Left(Low(n, s), 64 - s)
    && (d >= 0x8000_0000_0000_0000 ==> s == 1 && n >= 0x8000_0000_0000_0000)
  }

  /** With `k` bits to go, `quo` divides the bits consumed so far; its last bit waits in `carry`. */
  predicate LoopInv(n: U64, d: U64, k: nat, r: U64, q: U64, carry: U32, quo: nat) {
    && k <= 63
    && Right(n, k) == Times(quo, d) + r && r < d
    && q == Left(Low(n, k), 64 - k) + quo / 2
    && carry == quo % 2
    && (d >= 0x8000_0000_0000_0000 ==> k <= 1 && n >= 0x8000_0000_0000_0000)
  }

  /** Bit `k - 1` of the dividend is what the shift moves from `q` to `r`. */
  lemma {:induction false} NextBit(n: nat, k: nat)
    requires k >= 1
    ensures Right(n, k - 1) == 2 * Right(n, k) + Right(n, k - 1) % 2
    ensures Low(n, k) == Left(Right(n, k - 1) % 2, k - 1) + Low(n, k - 1)
  {
    if k > 1 { NextBit(n / 2, k - 1); }
  }

  lemma QuotientFits(n: U64, d: U64, k: nat, r: U64, quo: nat)
    requires k <= 63 && d > 0 && Right(n, k) == Times(quo, d) + r
    ensures quo < Pow2(64 - k)
  {
    Pow2Values();
    RightBound(n, 64 - k, k);
    TimesAtLeast(quo, d);
  }

  /** What the shift does to `q`: its top bit is the next dividend bit, and the waiting
      quotient bit enters at the bottom. */
  lemma ShiftedQuotient(n: U64, d: U64, k: nat, r: U64, q: U64, carry: U32, quo: nat)
    requires 1 <= k && carry <= 1 && LoopInv(n, d, k, r, q, carry, quo)
    ensures Top64(q) == Right(n, k - 1) % 2
    ensures Double64(q, carry) == Left(Low(n, k - 1), 64 - (k - 1)) + quo
  {
    var bit, low := Right(n, k - 1) % 2, Low(n, k - 1);
    NextBit(n, k);
    LeftAdd(Left(bit, k - 1), low, 64 - k);
    LeftLeft(bit, k - 1, 64 - k);
    LeftDoubleWord(bit);
    QuotientFits(n, d, k, r, quo);
    SplitAt(n, k - 1);
    LeftBound(low, k - 1, 64 - k);
    Pow2Values();
    var rest := Left(low, 64 - k) + quo / 2;
    assert q == bit * 0x8000_0000_0000_0000 + rest && rest < 0x8000_0000_0000_0000;
  }

  /** The comparison of the loop: the sign of `d - r - 1`, truncated to 64 bits, tests `r >= d`.
      It is a correct test because the difference fits a signed 64-bit word. */
  lemma SignMaskCompares(d: U64, r: U64)
    requires r < 2 * d
    requires d >= 0x8000_0000_0000_0000 ==> r >= 0x8000_0000_0000_0000
    ensures -0x8000_0000_0000_0000 <= d - r - 1 < 0x8000_0000_0000_0000
    ensures SignMask(Sub64(Sub64(d, r), 1)) == if r >= d then 0xffff_ffff_ffff_ffff else 0
  {
  }

  /** Outside that range the test is wrong: remainder 0 against the largest divisor. */
  lemma SignMaskFailsOutOfRange()
    ensures SignMask(Sub64(Sub64(0xffff_ffff_ffff_ffff, 0), 1)) != 0
  {
  }

  /** `d & mask` for the two masks the loop can form. */
  lemma MaskedDivisor(d: U64)
    ensures And(d, 0xffff_ffff_ffff_ffff) == d && And(d, 0) == 0
  {
    Pow2Values();
    AndMask(d, 64);
    LeftZero(64);
    SplitUnique(d, 64, 0, d);
  }

  /** The remainder after the shift and before the subtraction. */
  lemma ShiftedRemainder(n: U64, d: U64, k: nat, r: U64, quo: nat, bit: nat)
    requires k <= 1 || d < 0x8000_0000_0000_0000
    requires d >= 0x8000_0000_0000_0000 ==> n >= 0x8000_0000_0000_0000
    requires 1 <= k && Right(n, k) == Times(quo, d) + r && r < d && bit == Right(n, k - 1) % 2
    ensures Right(n, k - 1) == 2 * Times(quo, d) + (2 * r + bit)
    ensures 2 * r + bit < 2 * d && 2 * r + bit < 0x1_0000_0000_0000_0000
    ensures d >= 0x8000_0000_0000_0000 ==> 2 * r + bit >= 0x8000_0000_0000_0000
  {
    NextBit(n, k);
    RightLe(n, k - 1);
    TimesAtLeast(quo, d);
  }

  /** One round of the loop, given what the shifts produced. */
  lemma LoopStep(n: U64, d: U64, k: nat, r: U64, q: U64, carry: U32, quo: nat, r': U64, q': U64, c: U32)
    requires 1 <= k && LoopInv(n, d, k, r, q, carry, quo)
    requires q' == Double64(q, carry)
    requires var s := Double64(r, Top64(q));
             if s >= d then c == 1 && r' == s - d else c == 0 && r' == s
    ensures LoopInv(n, d, k - 1, r', q', c, 2 * quo + c)
  {
    var bit := Top64(q);
    ShiftedQuotient(n, d, k, r, q, carry, quo);
    ShiftedRemainder(n, d, k, r, quo, bit);
    TimesDouble(quo, c, d);
    assert (2 * quo + c) / 2 == quo && (2 * quo + c) % 2 == c;
  }

  // ----- which shift normalizes

  /** The first remainder is below the divisor when the shift lines up the leading bits. */
  lemma Aligned(n: U64, s: nat, bits: nat)
    requires n < Pow2(s + bits)
    ensures Right(n, s) < Pow2(bits)
  {
    RightBound(n, bits, s);
  }

  lemma BitLen64(h: U32, l: U32)
    requires h > 0
    ensures Pow2(31 + BitLen(h)) <= Join(h, l) < Pow2(32 + BitLen(h))
  {
    var b := BitLen(h);
    BitLenBounds(h);
    Pow2Values();
    LeftWord(h);
    LeftBound(h, b, 32);
    LeftMono(Pow2(b - 1), h, 32);
    assert Left(Pow2(b - 1), 32) == Pow2(b + 31) by {
      Pow2IsLeft(b - 1);
      LeftLeft(1, b - 1, 32);
      Pow2IsLeft(b + 31);
    }
  }

  /** Both operands need the high word, and the dividend is not shorter. */
  lemma AlignedHigh(n: U64, d: U64)
    requires Hi(n) > 0 && Hi(d) > 0 && Clz(Hi(n)) <= Clz(Hi(d))
    ensures Right(n, 1 + Clz(Hi(d)) - Clz(Hi(n))) < d
    ensures d >= 0x8000_0000_0000_0000 ==> Clz(Hi(d)) == Clz(Hi(n)) == 0 && n >= 0x8000_0000_0000_0000
  {
    var s := 1 + Clz(Hi(d)) - Clz(Hi(n));
    BitLenFits(Hi(n));
    BitLenFits(Hi(d));
    BitLen64(Hi(n), Lo(n));
    BitLen64(Hi(d), Lo(d));
    assert s + (31 + BitLen(Hi(d))) == 32 + BitLen(Hi(n));
    Aligned(n, s, 31 + BitLen(Hi(d)));
    if d >= 0x8000_0000_0000_0000 { HighBitLen(Hi(d)); Pow2Values(); }
  }

  lemma HighBitLen(x: U32)
    requires x >= 0x8000_0000
    ensures BitLen(x) == 32
  {
    BitLenFits(x);
    BitLenBounds(x);
    Pow2Values();
    if BitLen(x) < 32 { Pow2Mono(BitLen(x), 31); }
  }

  /** A dividend with a shorter high word is below the divisor. */
  lemma ShorterIsSmaller(n: U64, d: U64)
    requires Hi(n) > 0 && Hi(d) > 0 && Clz(Hi(d)) < Clz(Hi(n))
    ensures n < d
  {
    BitLenFits(Hi(n));
    BitLenFits(Hi(d));
    BitLen64(Hi(n), Lo(n));
    BitLen64(Hi(d), Lo(d));
    Pow2Mono(32 + BitLen(Hi(n)), 31 + BitLen(Hi(d)));
  }

  /** The divisor fits the low word. */
  lemma AlignedLow(n: U64, d: U64)
    requires Hi(n) > 0 && Hi(d) == 0 && d > 0 && And(d, d - 1) != 0
    ensures var s := 33 + Clz(d) - Clz(Hi(n)); 2 <= s <= 63 && Right(n, s) < d
  {
    var s := 33 + Clz(d) - Clz(Hi(n));
    BitLenFits(Hi(n));
    BitLenFits(d);
    BitLen64(Hi(n), Lo(n));
    BitLenBounds(d);
    assert s + (BitLen(d) - 1) == 32 + BitLen(Hi(n));
    Aligned(n, s, BitLen(d) - 1);
    assert BitLen(d) > 1 by { assert Pow2(1) == 2; }
  }

  // ----- powers of two

  /** Division by the power of two `d` is a shift, its remainder a mask. */
  lemma PowerOfTwoDivides(x: nat, d: nat)
    requires d > 0 && And(d, d - 1) == 0
    ensures x == Right(x, Ctz(d)) * d + And(x, d - 1) && And(x, d - 1) < d
    ensures And(x, d - 1) == Low(x, Ctz(d)) && d == Pow2(Ctz(d))
  {
    PowerOfTwoTest(d);
    var k := Ctz(d);
    SplitAt(x, k);
    LeftMul(Right(x, k), k);
    AndMask(x, k);
  }

  lemma CtzFits(d: U32)
    requires d > 1 && And(d, d - 1) == 0
    ensures 1 <= Ctz(d) <= 31
  {
    PowerOfTwoTest(d);
    Pow2Values();
    if Ctz(d) >= 32 { Pow2Mono(32, Ctz(d)); }
  }

  /** `d` with an empty low word. */
  lemma HighWordDivision(n: U64, d: U64, q: nat, m: nat)
    requires Lo(d) == 0 && Hi(n) == q * Hi(d) + m && m < Hi(d)
    ensures n == q * d + (m * 0x1_0000_0000 + Lo(n)) && m * 0x1_0000_0000 + Lo(n) < d
  {
    assert q * d == (q * Hi(d)) * 0x1_0000_0000;
  }

  /** The unsigned difference of leading zeros exceeds 30 only for a dividend below the divisor. */
  lemma SmallDividend(n: U64, d: U64)
    requires Hi(n) > 0 && Hi(d) > 0 && And(Hi(d), Hi(d) - 1) != 0
    requires WrapDiff(Clz(Hi(d)), Clz(Hi(n))) > 30
    ensures n < d
  {
    assert BitLen(Hi(d)) > 1;
    ShorterIsSmaller(n, d);
  }

  /** What the mask of one round selects. */
  lemma RoundMask(n: U64, d: U64, k: nat, r: U64, q: U64, carry: U32, quo: nat, s: U64)
    requires 1 <= k && LoopInv(n, d, k, r, q, carry, quo)
    requires s == Double64(r, Top64(q))
    ensures var mask := SignMask(Sub64(Sub64(d, s), 1));
            if s >= d then And(mask, 1) == 1 && And(d, mask) == d else And(mask, 1) == 0 && And(d, mask) == 0
  {
    ShiftedQuotient(n, d, k, r, q, carry, quo);
    ShiftedRemainder(n, d, k, r, quo, Top64(q));
    SignMaskCompares(d, s);
    MaskedDivisor(d);
    assert And(0xffff_ffff_ffff_ffff, 1) == 1;
  }

  /** One round of the loop from the shifted words on. */
  lemma FinishRound(n: U64, d: U64, k: nat, r: U64, q: U64, carry: U32, quo: nat, s: U64, q': U64)
    requires 1 <= k && LoopInv(n, d, k, r, q, carry, quo)
    requires s == Double64(r, Top64(q))
    requires q' == Double64(q, carry)
    ensures var mask := SignMask(Sub64(Sub64(d, s), 1));
            var c := And(mask, 1);
            c <= 1 && And(d, mask) <= d && LoopInv(n, d, k - 1, Sub64(s, And(d, mask)), q', c, 2 * quo + c)
  {
    RoundMask(n, d, k, r, q, carry, quo, s);
    var c: U32 := if s >= d then 1 else 0;
    LoopStep(n, d, k, r, q, carry, quo, if s >= d then s - d else s, q', c);
  }

  lemma JoinHalves(x: U64)
    ensures Join(Hi(x), Lo(x)) == x
  {
  }

  lemma HighPowerOfTwo(n: U64, d: U64)
    requires Hi(d) > 0 && Lo(d) == 0 && And(Hi(d), Hi(d) - 1) == 0
    ensures And(Hi(n), Hi(d) - 1) < Hi(d)
    ensures n == Shr(Hi(n), Ctz(Hi(d))) * d + Join(And(Hi(n), Hi(d) - 1), Lo(n))
    ensures Join(And(Hi(n), Hi(d) - 1), Lo(n)) < d
  {
    PowerOfTwoDivides(Hi(n), Hi(d));
    HighWordDivision(n, d, Right(Hi(n), Ctz(Hi(d))), And(Hi(n), Hi(d) - 1));
  }

  /** The final shift puts the waiting bit in place. */
  lemma LastBit(n: U64, d: U64, r: U64, q: U64, carry: U32, quo: nat)
    requires d > 0 && LoopInv(n, d, 0, r, q, carry, quo)
    ensures Or(Double64(q, 0), carry) == quo < 0x1_0000_0000_0000_0000
    ensures n == quo * d + r
  {
    TimesIsProduct(quo, d);
    assert quo < 0x1_0000_0000_0000_0000 by {
      QuotientFits(n, d, 0, r, quo);
      Pow2Values();
    }
    assert q == quo / 2 by { LeftZero(64); }
    assert Double64(q, 0) == Left(q, 1);
    OrDisjoint(q, carry, 1);
  }

  // ----- the starting states of the loop, one lemma per branch

  lemma StartHigh(n: U64, d: U64, s: nat)
    requires Hi(n) > 0 && Hi(d) > 0 && Clz(Hi(n)) <= Clz(Hi(d)) && s == 1 + Clz(Hi(d)) - Clz(Hi(n)) <= 31
    ensures Normalized(n, d, s, Join(Shr(Hi(n), s), Or32(Shl(Hi(n), 32 - s), Shr(Lo(n), s))),
      Join(Shl(Lo(n), 32 - s), 0))
  {
    AlignedHigh(n, d);
    ShiftBelowWord(n, s);
    DroppedBelowWord(n, s);
  }

  lemma StartHighWord(n: U64, d: U64)
    requires Hi(n) > 0 && Hi(d) > 0 && Clz(Hi(d)) - Clz(Hi(n)) == 31
    ensures Normalized(n, d, 32, Join(0, Hi(n)), Join(Lo(n), 0))
  {
    AlignedHigh(n, d);
    ShiftByWord(n);
  }

  lemma StartLow(n: U64, d: U64, s: nat)
    requires Hi(n) > 0 && Hi(d) == 0 && d > 0 && And(d, d - 1) != 0 && s == 33 + Clz(d) - Clz(Hi(n))
    ensures 2 <= s <= 63
    ensures s == 32 ==> Normalized(n, d, s, Join(0, Hi(n)), Join(Lo(n), 0))
    ensures s < 32 ==>
      Normalized(n, d, s, Join(Shr(Hi(n), s), Or32(Shl(Hi(n), 32 - s), Shr(Lo(n), s))), Join(Shl(Lo(n), 32 - s), 0))
    ensures s > 32 ==>
      Normalized(n, d, s, Join(0, Shr(Hi(n), s - 32)),
        Join(Or32(Shl(Hi(n), 64 - s), Shr(Lo(n), s - 32)), Shl(Lo(n), 64 - s)))
  {
    AlignedLow(n, d);
    if s == 32 {
      ShiftByWord(n);
    } else if s < 32 {
      ShiftBelowWord(n, s);
      DroppedBelowWord(n, s);
    } else {
      ShiftAboveWord(n, s - 32);
    }
  }

  /** A power of two in the low word: the quotient is the funnel shift, the remainder a mask. */
  lemma LowPowerOfTwo(n: U64, d: U64)
    requires Hi(d) == 0 && d > 1 && And(d, d - 1) == 0
    ensures 1 <= Ctz(d) <= 31
    ensures var s := Ctz(d);
            n == Join(Shr(Hi(n), s), Or32(Shl(Hi(n), 32 - s), Shr(Lo(n), s))) * d + And(Lo(n), d - 1)
    ensures And(Lo(n), d - 1) < d
  {
    PowerOfTwoDivides(n, d);
    PowerOfTwoDivides(Lo(n), d);
    CtzFits(d);
    ShiftBelowWord(n, Ctz(d));
  }

  // ----- __udivmoddi4

  /** Quotient and remainder; `rem` is always wanted here. */
  method UDivMod(a: U64, b: U64) returns (res: DivResult)
    ensures res.Trap? <==> b == 0
    ensures res.Quotient? ==> a == res.q * b + res.r && res.r < b
  {
    if Hi(a) == 0 {
      if Hi(b) == 0 {
        if Lo(b) == 0 { return Trap; }
        var q, r := DivideWord(Lo(a), Lo(b));
        return Quotient(q, r);
      }
      return Quotient(0, Lo(a));
    }
    if Lo(b) == 0 {
      if Hi(b) == 0 { return Trap; }
      if Lo(a) == 0 {
        var q, r := DivideWord(Hi(a), Hi(b));
        HighWordDivision(a, b, q, r);
        return Quotient(q, Join(r, 0));
      }
      res := DivideByHighWord(a, b);
    } else if Hi(b) == 0 {
      res := DivideByLowWord(a, b);
    } else {
      res := DivideByBothWords(a, b);
    }
  }

  /** The division instruction on 32-bit words. */
  method DivideWord(x: U32, y: U32) returns (q: U32, r: U32)
    requires y > 0
    ensures x == q * y + r && r < y
  {
    q, r := x / y, x % y;
  }

  /** K X / K 0 */
  method DivideByHighWord(n: U64, d: U64) returns (res: DivResult)
    requires Hi(n) > 0 && Hi(d) > 0 && Lo(d) == 0
    ensures res.Quotient? && n == res.q * d + res.r && res.r < d
  {
    if And32(Hi(d), Hi(d) - 1) == 0 {
      HighPowerOfTwo(n, d);
      return Quotient(Shr(Hi(n), Ctz(Hi(d))), Join(And32(Hi(n), Hi(d) - 1), Lo(n)));
    }
    // sr is unsigned: it is large exactly when the subtraction wraps
    var sr: nat := WrapDiff(Clz(Hi(d)), Clz(Hi(n)));
    if sr > 30 {
      SmallDividend(n, d);
      return Quotient(0, n);
    }
    var q, r := ShiftHigh(n, d, sr + 1);
    res := Quotient(q, r);
  }

  /** The start of the loop for a divisor of more than one word, with less than a word to shift. */
  method ShiftHigh(n: U64, d: U64, sr: nat) returns (q: U64, r: U64)
    requires Hi(n) > 0 && Hi(d) > 0 && Clz(Hi(n)) <= Clz(Hi(d)) && sr == 1 + Clz(Hi(d)) - Clz(Hi(n)) <= 31
    ensures n == q * d + r && r < d
  {
    StartHigh(n, d, sr);
    q, r := ShiftSubtract(n, d, sr,
                          Shr(Hi(n), sr), Or32(Shl(Hi(n), 32 - sr), Shr(Lo(n), sr)),
                          Shl(Lo(n), 32 - sr), 0);
  }

  /** K X / 0 K */
  method DivideByLowWord(n: U64, d: U64) returns (res: DivResult)
    requires Hi(n) > 0 && Hi(d) == 0 && Lo(d) > 0
    ensures res.Quotient? && n == res.q * d + res.r && res.r < d
  {
    var sr: nat;
    if And32(Lo(d), Lo(d) - 1) == 0 {
      if Lo(d) == 1 { return Quotient(n, And32(Lo(n), Lo(d) - 1)); }
      LowPowerOfTwo(n, d);
      sr := Ctz(Lo(d));
      return Quotient(Join(Shr(Hi(n), sr), Or32(Shl(Hi(n), 32 - sr), Shr(Lo(n), sr))), And32(Lo(n), Lo(d) - 1));
    }
    sr := 1 + 32 + Clz(Lo(d)) - Clz(Hi(n));
    StartLow(n, d, sr);
    var rh: U32, rl: U32, qh: U32, ql: U32;
    if sr == 32 {
      ql, qh, rh, rl := 0, Lo(n), 0, Hi(n);
    } else if sr < 32 {
      ql, qh := 0, Shl(Lo(n), 32 - sr);
      rh, rl := Shr(Hi(n), sr), Or32(Shl(Hi(n), 32 - sr), Shr(Lo(n), sr));
    } else {
      ql := Shl(Lo(n), 64 - sr);
      qh := Or32(Shl(Hi(n), 64 - sr), Shr(Lo(n), sr - 32));
      rh, rl := 0, Shr(Hi(n), sr - 32);
    }
    var q, r := ShiftSubtract(n, d, sr, rh, rl, qh, ql);
    res := Quotient(q, r);
  }

  /** K X / K K */
  method DivideByBothWords(n: U64, d: U64) returns (res: DivResult)
    requires Hi(n) > 0 && Hi(d) > 0 && Lo(d) > 0
    ensures res.Quotient? && n == res.q * d + res.r && res.r < d
  {
    var sr: nat := WrapDiff(Clz(Hi(d)), Clz(Hi(n)));
    if sr > 31 {
      ShorterIsSmaller(n, d);
      return Quotient(0, n);
    }
    sr := sr + 1;
    var q, r;
    if sr == 32 {
      StartHighWord(n, d);
      q, r := ShiftSubtract(n, d, sr, 0, Hi(n), Lo(n), 0);
    } else {
      q, r := ShiftHigh(n, d, sr);
    }
    res := Quotient(q, r);
  }

  /** The loop that ends the division. */
  method ShiftSubtract(ghost n: U64, d: U64, s: nat, rh: U32, rl: U32, qh: U32, ql: U32) returns (quotient: U64, r: U64)
    requires Normalized(n, d, s, Join(rh, rl), Join(qh, ql))
    ensures n == quotient * d + r && r < d
  {
    r := Join(rh, rl);
    var sr, q := s, Join(qh, ql);
    var carry: U32 := 0;
    ghost var quo: nat := 0;
    while sr > 0
      invariant LoopInv(n, d, sr, r, q, carry, quo)
    {
      r, q, carry, quo := Round(n, d, sr, r, q, carry, quo);
      sr := sr - 1;
    }
    LastBit(n, d, r, q, carry, quo);
    quotient := Or(Double64(q, 0), carry);
  }

  /** One round: shift `r:q` left through `carry`, then subtract the divisor under the sign mask. */
  method Round(ghost n: U64, d: U64, ghost k: nat, r: U64, q: U64, carry: U32, ghost quo: nat)
    returns (r': U64, q': U64, carry': U32, ghost quo': nat)
    requires 1 <= k && LoopInv(n, d, k, r, q, carry, quo)
    ensures LoopInv(n, d, k - 1, r', q', carry', quo')
  {
    r', q' := ShiftWords(r, q, carry);
    FinishRound(n, d, k, r, q, carry, quo, r', q');
    var mask := SignMask(Sub64(Sub64(d, r'), 1));
    carry' := And(mask, 1);
    quo' := 2 * quo + carry';
    r' := Sub64(r', And(d, mask));
  }

  /** The four word shifts of a round. */
  method ShiftWords(r: U64, q: U64, carry: U32) returns (r': U64, q': U64)
    requires carry <= 1
    ensures r' == Double64(r, Top64(q)) && q' == Double64(q, carry)
  {
    JoinHalves(r);
    JoinHalves(q);
    ShiftPair(Hi(q), Lo(q), carry);
    ShiftPair(Hi(r), Lo(r), Shr(Hi(q), 31));
    r' := Join(Or32(Shl(Hi(r), 1), Shr(Lo(r), 31)), Or32(Shl(Lo(r), 1), Shr(Hi(q), 31)));
    q' := Join(Or32(Shl(Hi(q), 1), Shr(Lo(q), 31)), Or32(Shl(Lo(q), 1), carry));
  }

  /** __udivdi3 */
  method UDiv(a: U64, b: U64) returns (q: U64)
    requires b != 0
    ensures q == a / b
  {
    var res := UDivMod(a, b);
    DivModUnique(a, b, res.q, res.r);
    q := res.q;
  }

  /** __umoddi3 */
  method UMod(a: U64, b: U64) returns (r: U64)
    requires b != 0
    ensures r == a % b
  {
    var res := UDivMod(a, b);
    DivModUnique(a, b, res.q, res.r);
    r := res.r;
  }

  /** Euclidean division is the only decomposition with a remainder in range. */
  lemma {:induction false} DivModUnique(x: nat, d: nat, q: nat, r: nat)
    requires d > 0 && x == q * d + r && r < d
    ensures x / d == q && x % d == r
    decreases q
  {
    if q > 0 {
      assert x - d == (q - 1) * d + r;
      DivModUnique(x - d, d, q - 1, r);
      DivStep(x, d);
    }
  }

  lemma DivStep(x: nat, d: nat)
    requires 0 < d <= x
    ensures x / d == (x - d) / d + 1 && x % d == (x - d) % d
  {
    var q, r := x / d, x % d;
    var q', r' := (x - d) / d, (x - d) % d;
    assert (q - q' - 1) * d == r' - r;
    MulSmall(q - q' - 1, d, r' - r);
  }

  lemma MulSmall(k: int, d: nat, e: int)
    requires d > 0 && k * d == e && 0 - d < e < d
    ensures k == 0
  {
  }
}
