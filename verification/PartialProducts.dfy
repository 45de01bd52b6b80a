/** The partial sums of a shift-and-add multiplication. */
module PartialProducts {
  import opened Powers
  import opened Bits
  import opened Blocks
  import opened BlockShifts

  /** The number formed by the blocks of a below i and the y low bits of block i. */
  function LowPart(a: seq<Blk>, i: nat, y: nat): nat
    requires i < |a|
  {
    PowPositive(2, y);
    MulNonNegative(a[i] % Pow(2, y), Weight(i));
    Val(a, i) + a[i] % Pow(2, y) * Weight(i)
  }

  /** Bit y of block i contributes 2^y * Radix^i. */
  lemma LowPartStep(a: seq<Blk>, i: nat, y: nat)
    requires i < |a|
    ensures 0 <= Pow(2, y) * Weight(i)
    ensures LowPart(a, i, y + 1) == LowPart(a, i, y) + (if Bit(a[i], y) then Pow(2, y) * Weight(i) else 0)
  {
    PowPositive(2, y);
    MulNonNegative(Pow(2, y), Weight(i));
    LowBitsStep(a[i], y);
    var r, w := a[i] % Pow(2, y), Weight(i);
    assert (r + Pow(2, y)) * w == r * w + Pow(2, y) * w;
  }

  lemma LowPartEnds(a: seq<Blk>, i: nat)
    requires i < |a|
    ensures LowPart(a, i, 0) == Val(a, i)
    ensures LowPart(a, i, N) == Val(a, i + 1)
  {
    assert a[i] % 1 == 0;
    assert a[i] < Radix();
    DivisionUnique(a[i], Radix(), 0, a[i]);
  }

  lemma {:induction false} LowPartBound(a: seq<Blk>, i: nat, y: nat)
    requires i < |a| && y <= N
    ensures LowPart(a, i, y) <= Value(a)
    decreases N - y
  {
    if y == N {
      LowPartEnds(a, i);
      ValMonotone(a, i + 1, |a|);
    } else {
      LowPartBound(a, i, y + 1);
      LowPartStep(a, i, y);
    }
  }

  /** A product of an m-block and an n-block number has at most m + n blocks. */
  lemma ProductBound(a: seq<Blk>, b: seq<Blk>, v: nat)
    requires v <= Value(a)
    ensures v * Value(b) < Weight(|a| + |b|)
  {
    ValBound(a, |a|);
    ValBound(b, |b|);
    WeightAdd(|a|, |b|);
    MulMonotone(Value(b), v, Weight(|a|));
    MulStrictlyMonotone(Weight(|a|), Value(b), Weight(|b|));
  }

  /** ... and at least m + n - 1. */
  lemma ProductIsLarge(a: seq<Blk>, b: seq<Blk>)
    requires Canonical(a) && Canonical(b) && |a| > 0 && |b| > 0
    ensures Weight(|a| + |b| - 2) <= Value(a) * Value(b)
  {
    CanonicalBounds(a);
    CanonicalBounds(b);
    WeightAdd(|a| - 1, |b| - 1);
    MulMonotone(Weight(|a| - 1), Weight(|b| - 1), Value(b));
    MulMonotone(Value(b), Weight(|a| - 1), Value(a));
    assert |a| + |b| - 2 == (|a| - 1) + (|b| - 1);
  }

  /** Adding b << (i blocks and y bits) for bit y of block i, and why it fits. */
  lemma PartialStep(a: seq<Blk>, b: seq<Blk>, i: nat, y: nat)
    requires i < |a| && y < N
    ensures 0 <= LowPart(a, i, y + 1) * Value(b) < Weight(|a| + |b|)
    ensures LowPart(a, i, y + 1) * Value(b)
         == LowPart(a, i, y) * Value(b) + (if Bit(a[i], y) then Value(Shifted(b, i, y)) else 0)
  {
    LowPartStep(a, i, y);
    LowPartBound(a, i, y + 1);
    ProductBound(a, b, LowPart(a, i, y + 1));
    MulNonNegative(LowPart(a, i, y + 1), Value(b));
    Distribute(LowPart(a, i, y), Pow(2, y), Weight(i), Value(b));
    ShiftedValue(b, i, y);
  }

  lemma Distribute(l: int, p: int, w: int, v: int)
    ensures (l + p * w) * v == l * v + v * p * w
  {
    assert p * w * v == v * p * w;
  }
}
