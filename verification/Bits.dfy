/** Bitwise operations of C on unsigned integers, modelled on unbounded naturals.

    Operands of a C operator of a fixed width are naturals below the power of two of
    that width; truncation is written out at the places where C truncates. Shifts are
    defined by repeated doubling and halving, so that reasoning about them is linear.
 */
module Bits {

  /** `x * 2^k` */
  function Left(x: nat, k: nat): nat {
    if k == 0 then x else 2 * Left(x, k - 1)
  }

  /** `x / 2^k` */
  function Right(x: nat, k: nat): nat {
    if k == 0 then x else Right(x / 2, k - 1)
  }

  /** `x % 2^k` */
  function Low(x: nat, k: nat): nat {
    if k == 0 then 0 else x % 2 + 2 * Low(x / 2, k - 1)
  }

  function Pow2(k: nat): (p: nat)
    ensures p > 0
  {
    if k == 0 then 1 else 2 * Pow2(k - 1)
  }

  /** Bitwise `x & y`. */
  function And(x: nat, y: nat): nat {
    if x == 0 || y == 0 then 0
    else 2 * And(x / 2, y / 2) + (if x % 2 == 1 && y % 2 == 1 then 1 else 0)
  }

  /** Bitwise `x | y`. */
  function Or(x: nat, y: nat): nat
    decreases x + y
  {
    if x == 0 && y == 0 then 0
    else 2 * Or(x / 2, y / 2) + (if x % 2 == 1 || y % 2 == 1 then 1 else 0)
  }

  /** Bit `i` of `x`. */
  predicate Bit(x: nat, i: nat) {
    if i == 0 then x % 2 == 1 else Bit(x / 2, i - 1)
  }

  /** Number of significant bits: 0 for 0, 32 for 0xffff_ffff. */
  function BitLen(x: nat): nat {
    if x == 0 then 0 else 1 + BitLen(x / 2)
  }

  /** `__builtin_ctz`, for a nonzero argument. */
  function Ctz(x: nat): nat
    requires x > 0
  {
    if x % 2 == 1 then 0 else 1 + Ctz(x / 2)
  }

  // ----- shifts

  lemma {:induction false} Pow2IsLeft(k: nat)
    ensures Pow2(k) == Left(1, k)
  {
    if k > 0 { Pow2IsLeft(k - 1); }
  }

  lemma Pow2Values()
    ensures Pow2(8) == 0x100
    ensures Pow2(31) == 0x8000_0000
    ensures Pow2(32) == 0x1_0000_0000
    ensures Pow2(63) == 0x8000_0000_0000_0000
    ensures Pow2(64) == 0x1_0000_0000_0000_0000
  {
    assert Pow2(8) == 0x100;
    assert Pow2(16) == 0x1_0000;
    assert Pow2(24) == 0x100_0000;
    assert Pow2(31) == 0x8000_0000;
    assert Pow2(40) == 0x100_0000_0000;
    assert Pow2(48) == 0x1_0000_0000_0000;
    assert Pow2(56) == 0x100_0000_0000_0000;
  }

  lemma {:induction false} Pow2Mono(j: nat, k: nat)
    requires j <= k
    ensures Pow2(j) <= Pow2(k)
  {
    if j < k { Pow2Mono(j, k - 1); }
  }

  /** Every number splits at bit `k`. */
  lemma {:induction false} SplitAt(x: nat, k: nat)
    ensures x == Left(Right(x, k), k) + Low(x, k)
    ensures Low(x, k) < Pow2(k)
  {
    if k > 0 { SplitAt(x / 2, k - 1); }
  }

  /** ... in one way only. */
  lemma {:induction false} SplitUnique(x: nat, k: nat, q: nat, m: nat)
    requires x == Left(q, k) + m && m < Pow2(k)
    ensures Right(x, k) == q && Low(x, k) == m
  {
    if k > 0 { SplitUnique(x / 2, k - 1, q, m / 2); }
  }

  lemma {:induction false} LeftAdd(x: nat, y: nat, k: nat)
    ensures Left(x + y, k) == Left(x, k) + Left(y, k)
  {
    if k > 0 { LeftAdd(x, y, k - 1); }
  }

  lemma {:induction false} LeftMono(x: nat, y: nat, k: nat)
    requires x <= y
    ensures Left(x, k) <= Left(y, k)
  {
    if k > 0 { LeftMono(x, y, k - 1); }
  }

  lemma {:induction false} LeftZero(k: nat)
    ensures Left(0, k) == 0
  {
    if k > 0 { LeftZero(k - 1); }
  }

  lemma {:induction false} LeftLeft(x: nat, j: nat, k: nat)
    ensures Left(Left(x, j), k) == Left(x, j + k)
  {
    if k > 0 { LeftLeft(x, j, k - 1); }
  }

  lemma {:induction false} LeftMul(x: nat, k: nat)
    ensures Left(x, k) == x * Pow2(k)
  {
    if k > 0 {
      LeftMul(x, k - 1);
      assert 2 * (x * Pow2(k - 1)) == x * (2 * Pow2(k - 1));
    }
  }

  /** A number of at most `j` bits shifted left by `k` has at most `j + k` bits. */
  lemma LeftBound(x: nat, j: nat, k: nat)
    requires x < Pow2(j)
    ensures Left(x, k) + Pow2(k) <= Pow2(j + k)
  {
    LeftMono(x + 1, Pow2(j), k);
    LeftAdd(x, 1, k);
    Pow2IsLeft(k);
    Pow2IsLeft(j);
    Pow2IsLeft(j + k);
    LeftLeft(1, j, k);
  }

  lemma {:induction false} RightBound(x: nat, j: nat, k: nat)
    requires x < Pow2(j + k)
    ensures Right(x, k) < Pow2(j)
  {
    if k > 0 { RightBound(x / 2, j, k - 1); }
  }

  lemma {:induction false} RightLe(x: nat, k: nat)
    ensures Right(x, k) <= x
  {
    if k > 0 { RightLe(x / 2, k - 1); }
  }

  lemma {:induction false} BitLenBounds(x: nat)
    requires x > 0
    ensures BitLen(x) > 0 && Pow2(BitLen(x) - 1) <= x < Pow2(BitLen(x))
  {
    if x > 1 { BitLenBounds(x / 2); }
  }

  // ----- or, and, masks

  /** Or of two words whose bits do not overlap is their sum. */
  lemma {:induction false} OrDisjoint(x: nat, y: nat, k: nat)
    requires y < Pow2(k)
    ensures Or(Left(x, k), y) == Left(x, k) + y
  {
    if k == 0 { OrZero(x); } else { OrDisjoint(x, y / 2, k - 1); }
  }

  lemma {:induction false} OrFits(x: nat, y: nat, k: nat)
    requires x < Pow2(k) && y < Pow2(k)
    ensures Or(x, y) < Pow2(k)
  {
    if k > 0 { OrFits(x / 2, y / 2, k - 1); }
  }

  lemma {:induction false} AndFits(x: nat, y: nat)
    ensures And(x, y) <= x
  {
    if x > 0 && y > 0 { AndFits(x / 2, y / 2); }
  }

  lemma {:induction false} OrZero(x: nat)
    ensures Or(x, 0) == x
  {
    if x > 0 { OrZero(x / 2); }
  }

  lemma {:induction false} AndMask(x: nat, k: nat)
    ensures And(x, Pow2(k) - 1) == Low(x, k)
  {
    if x == 0 { LowZero(k); } else if k > 0 { AndMask(x / 2, k - 1); }
  }

  lemma {:induction false} LowZero(k: nat)
    ensures Low(0, k) == 0
  {
    if k > 0 { LowZero(k - 1); }
  }

  lemma {:induction false} AndSelf(x: nat)
    ensures And(x, x) == x
  {
    if x > 0 { AndSelf(x / 2); }
  }

  /** `d & (d - 1)` is zero exactly when `d` is the power of two named by its trailing zeros. */
  lemma {:induction false} PowerOfTwoTest(d: nat)
    requires d > 0
    ensures And(d, d - 1) == 0 <==> d == Pow2(Ctz(d))
  {
    if d % 2 == 1 {
      assert (d - 1) / 2 == d / 2;
      AndSelf(d / 2);
    } else {
      assert (d - 1) / 2 == d / 2 - 1;
      PowerOfTwoTest(d / 2);
    }
  }

  // ----- single bits

  lemma OrStep(x: nat, y: nat)
    ensures Or(x, y) / 2 == Or(x / 2, y / 2)
    ensures Or(x, y) % 2 == if x % 2 == 1 || y % 2 == 1 then 1 else 0
  {
  }

  lemma {:induction false} BitOr(x: nat, y: nat, i: nat)
    ensures Bit(Or(x, y), i) == (Bit(x, i) || Bit(y, i))
  {
    OrStep(x, y);
    if i > 0 { BitOr(x / 2, y / 2, i - 1); }
  }

  lemma {:induction false} BitAnd(x: nat, y: nat, i: nat)
    ensures Bit(And(x, y), i) == (Bit(x, i) && Bit(y, i))
  {
    if x == 0 || y == 0 { BitZero(i); } else if i > 0 { BitAnd(x / 2, y / 2, i - 1); }
  }

  lemma {:induction false} BitZero(i: nat)
    ensures !Bit(0, i)
  {
    if i > 0 { BitZero(i - 1); }
  }

  lemma {:induction false} BitPow2(j: nat, i: nat)
    ensures Bit(Pow2(j), i) == (i == j)
  {
    if j == 0 {
      if i > 0 { BitZero(i - 1); }
    } else if i > 0 {
      BitPow2(j - 1, i - 1);
    }
  }
}
