/** Bitwise operators on natural numbers of any width, and what they do to the value. */
module Bits {
  import opened Powers

  /** Bit k of x, counting from the least significant. */
  predicate Bit(x: nat, k: nat) {
    if k == 0 then x % 2 == 1 else Bit(x / 2, k - 1)
  }

  function BitValue(b: bool): nat {
    if b then 1 else 0
  }

  function And(x: nat, y: nat): nat
    decreases x + y
  {
    if x == 0 || y == 0 then 0
    else BitValue(Bit(x, 0) && Bit(y, 0)) + 2 * And(x / 2, y / 2)
  }

  function Or(x: nat, y: nat): nat
    decreases x + y
  {
    if x == 0 && y == 0 then 0
    else BitValue(Bit(x, 0) || Bit(y, 0)) + 2 * Or(x / 2, y / 2)
  }

  /** x & ~y */
  function AndNot(x: nat, y: nat): nat
    decreases x
  {
    if x == 0 then 0
    else BitValue(Bit(x, 0) && !Bit(y, 0)) + 2 * AndNot(x / 2, y / 2)
  }

  /** Bit k is what a right shift by k leaves in the lowest place. */
  lemma {:induction false} BitIsShifted(x: nat, k: nat)
    ensures Pow(2, k) > 0
    ensures Bit(x, k) == (x / Pow(2, k) % 2 == 1)
  {
    PowPositive(2, k);
    if k == 0 {
      assert x / 1 == x;
    } else {
      BitIsShifted(x / 2, k - 1);
      HalvesThenShift(x, k);
    }
  }

  lemma HalvesThenShift(x: nat, k: nat)
    requires k > 0
    ensures Pow(2, k) > 0 && Pow(2, k - 1) > 0
    ensures x / Pow(2, k) == x / 2 / Pow(2, k - 1)
    ensures x % Pow(2, k) == x % 2 + 2 * (x / 2 % Pow(2, k - 1))
  {
    PowPositive(2, k);
    PowPositive(2, k - 1);
    var p := Pow(2, k - 1);
    var h, r := x / 2 / p, x / 2 % p;
    assert x / 2 == p * h + r;
    assert x == 2 * (p * h + r) + x % 2;
    assert 2 * (p * h) == h * (2 * p);
    DivisionUnique(x, 2 * p, h, 2 * r + x % 2);
  }

  /** One more low bit of x. */
  lemma {:induction false} LowBitsStep(x: nat, k: nat)
    ensures Pow(2, k) > 0 && Pow(2, k + 1) == 2 * Pow(2, k)
    ensures x % Pow(2, k + 1) == x % Pow(2, k) + (if Bit(x, k) then Pow(2, k) else 0)
  {
    PowPositive(2, k);
    if k == 0 {
      assert Pow(2, 1) == 2;
      assert x % 1 == 0;
    } else {
      LowBitsStep(x / 2, k - 1);
      HalvesThenShift(x, k);
      HalvesThenShift(x, k + 1);
    }
  }

  /** Bits j and up of x are the bits of the high part x / 2^j. */
  lemma {:induction false} BitOfHighPart(lo: nat, hi: nat, j: nat, k: nat)
    requires lo < Pow(2, j)
    ensures 0 <= hi * Pow(2, j)
    ensures Bit(lo + hi * Pow(2, j), j + k) == Bit(hi, k)
  {
    PowPositive(2, j);
    MulNonNegative(hi, Pow(2, j));
    if j > 0 {
      PowPositive(2, j - 1);
      assert hi * Pow(2, j) == 2 * (hi * Pow(2, j - 1)) by {
        assert Pow(2, j) == 2 * Pow(2, j - 1);
      }
      BitOfHighPart(lo / 2, hi, j - 1, k);
      assert (lo + hi * Pow(2, j)) / 2 == lo / 2 + hi * Pow(2, j - 1);
      assert j + k - 1 == (j - 1) + k;
    }
  }

  /** Bits below j do not see multiples of 2^j. */
  lemma {:induction false} BitOfLowPart(lo: nat, hi: nat, j: nat, k: nat)
    requires k < j
    ensures 0 <= hi * Pow(2, j)
    ensures Bit(lo + hi * Pow(2, j), k) == Bit(lo, k)
  {
    PowPositive(2, j);
    PowPositive(2, j - 1);
    MulNonNegative(hi, Pow(2, j));
    assert hi * Pow(2, j) == 2 * (hi * Pow(2, j - 1)) by {
      assert Pow(2, j) == 2 * Pow(2, j - 1);
    }
    if k > 0 {
      BitOfLowPart(lo / 2, hi, j - 1, k - 1);
      assert (lo + hi * Pow(2, j)) / 2 == lo / 2 + hi * Pow(2, j - 1);
    }
  }

  /** x & 2^k keeps exactly bit k. */
  lemma {:induction false} AndOneBit(x: nat, k: nat)
    ensures Pow(2, k) > 0
    ensures And(x, Pow(2, k)) == if Bit(x, k) then Pow(2, k) else 0
  {
    PowPositive(2, k);
    if x == 0 {
      ZeroHasNoBits(k);
    } else if k == 0 {
      assert And(x / 2, 0) == 0;
    } else {
      AndOneBit(x / 2, k - 1);
      assert Pow(2, k) == 2 * Pow(2, k - 1);
    }
  }

  lemma ZeroHasNoBits(k: nat)
    ensures !Bit(0, k)
  {
  }

  lemma OrZero(x: nat)
    ensures Or(x, 0) == x && Or(0, x) == x
  {
  }

  lemma AndNotZero(x: nat)
    ensures AndNot(x, 0) == x
  {
  }

  /** x | 2^k turns bit k on. */
  lemma {:induction false} OrOneBit(x: nat, k: nat)
    ensures Pow(2, k) > 0
    ensures Or(x, Pow(2, k)) == if Bit(x, k) then x else x + Pow(2, k)
  {
    PowPositive(2, k);
    if k == 0 {
      OrZero(x / 2);
    } else {
      OrOneBit(x / 2, k - 1);
      assert Pow(2, k) == 2 * Pow(2, k - 1);
    }
  }

  /** x & ~2^k turns bit k off. */
  lemma {:induction false} AndNotOneBit(x: nat, k: nat)
    ensures 0 < Pow(2, k)
    ensures Bit(x, k) ==> Pow(2, k) <= x
    ensures AndNot(x, Pow(2, k)) == if Bit(x, k) then x - Pow(2, k) else x
  {
    PowPositive(2, k);
    if x == 0 {
      ZeroHasNoBits(k);
    } else if k == 0 {
      AndNotZero(x / 2);
      assert Pow(2, 0) / 2 == 0;
    } else {
      AndNotOneBit(x / 2, k - 1);
      var p := Pow(2, k - 1);
      assert Pow(2, k) == 2 * p;
      assert Pow(2, k) / 2 == p && !Bit(Pow(2, k), 0);
      assert AndNot(x, Pow(2, k)) == BitValue(Bit(x, 0)) + 2 * AndNot(x / 2, p);
    }
  }

  /** Or of two numbers without a common place is their sum. */
  lemma {:induction false} OrDisjoint(lo: nat, hi: nat, k: nat)
    requires lo < Pow(2, k)
    ensures 0 <= hi * Pow(2, k)
    ensures Or(lo, hi * Pow(2, k)) == lo + hi * Pow(2, k)
  {
    PowPositive(2, k);
    MulNonNegative(hi, Pow(2, k));
    if k == 0 {
      OrZero(hi * Pow(2, k));
    } else {
      assert hi * Pow(2, k) == 2 * (hi * Pow(2, k - 1)) by {
        assert Pow(2, k) == 2 * Pow(2, k - 1);
      }
      OrDisjoint(lo / 2, hi, k - 1);
    }
  }

  /** No operator leaves the word: results of n-bit operands have n bits. */
  lemma {:induction false} OrBound(x: nat, y: nat, n: nat)
    requires x < Pow(2, n) && y < Pow(2, n)
    ensures Or(x, y) < Pow(2, n)
  {
    if n > 0 {
      assert Pow(2, n) == 2 * Pow(2, n - 1);
      OrBound(x / 2, y / 2, n - 1);
    }
  }

  /** The value of x is the sum of its bits. */
  function BitSum(x: nat, n: nat): nat {
    if n == 0 then 0
    else PowPositive(2, n - 1); BitSum(x, n - 1) + (if Bit(x, n - 1) then Pow(2, n - 1) else 0)
  }

  lemma {:induction false} BitSumIsLowPart(x: nat, n: nat)
    ensures Pow(2, n) > 0
    ensures BitSum(x, n) == x % Pow(2, n)
  {
    PowPositive(2, n);
    if n == 0 {
      assert x % 1 == 0;
    } else {
      BitSumIsLowPart(x, n - 1);
      LowBitsStep(x, n - 1);
    }
  }
}
