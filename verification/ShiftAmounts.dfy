/** Shifts of whole numbers, and how a bit count divides into blocks and bits. */
module ShiftAmounts {
  import opened Powers
  import opened Blocks
  import opened BlockShifts

  /** A C++ int. */
  type Int32 = x: int | -0x8000_0000 <= x < 0x8000_0000

  /** v * 2^b, rounded down when b is negative. */
  function ShiftNumber(v: nat, b: int): nat {
    if b >= 0 then
      PowPositive(2, b);
      MulNonNegative(v, Pow(2, b));
      v * Pow(2, b)
    else
      PowPositive(2, -b);
      QuotientBound(v, Pow(2, -b));
      v / Pow(2, -b)
  }

  lemma LeftShiftBlocks(a: seq<Blk>, b: nat)
    ensures 0 <= b / N && 0 <= b % N < N
    ensures Value(Shifted(a, b / N, b % N)) == ShiftNumber(Value(a), b)
  {
    var i, y := b / N, b % N;
    assert b == N * i + y;
    if i < 0 {
      MulMonotone(N, i, -1);
    }
    ShiftedValue(a, i, y);
    WeightIsPower(i);
    PowAdd(2, y, N * i);
    MulAssociative(Value(a), Pow(2, y), Weight(i));
  }

  /** Zero shifted left by one whole block: dropping one leading zero block leaves another. */
  lemma ZeroShiftedLeavesZeroBlock()
    ensures |Shifted([], 1, 0)| == 2 && Shifted([], 1, 0)[1] == 0
    ensures !Canonical(Shifted([], 1, 0)[..1])
  {
    ShiftedZero([], 1, 0);
  }

  lemma SmallQuotient(b: nat)
    ensures b / N == 0 <==> b < N
  {
    assert b == N * (b / N) + b % N;
    if b < N {
      DivisionUnique(b, N, 0, b);
    }
  }

  /** Room for the result: a nonzero number shifted left needs all blocks but the last. */
  lemma LeftShiftIsLarge(a: seq<Blk>, i: nat, y: nat)
    requires Canonical(a) && |a| > 0 && y < N
    ensures Weight(|a| + i - 1) <= Value(Shifted(a, i, y))
  {
    hide Val, Weight, Shifted;
    CanonicalBounds(a);
    ShiftedValue(a, i, y);
    WeightAdd(|a| - 1, i);
    assert |a| + i - 1 == (|a| - 1) + i;
    PowMonotone(2, 0, y);
    MulMonotone(Value(a), 1, Pow(2, y));
    MulMonotone(Weight(i), Weight(|a| - 1), Value(a) * Pow(2, y));
  }

  /** Rounding the blocks up and shifting back left inside the blocks. */
  lemma RightShiftAmounts(b: nat, rsb: int, y: int)
    requires rsb == (b + N - 1) / N && y == N * rsb - b
    ensures 0 <= rsb && 0 <= y < N && N * rsb == b + y
    ensures rsb == 0 <==> b == 0
  {
    var r := (b + N - 1) % N;
    assert b + N - 1 == N * rsb + r;
    if rsb < 0 {
      MulMonotone(N, rsb, -1);
    }
    assert rsb == 0 ==> N * rsb == 0;
    if b == 0 {
      DivisionUnique(N - 1, N, 0, N - 1);
    }
  }

  lemma RightShiftBlocks(a: seq<Blk>, b: int, rsb: nat, y: nat)
    requires 0 <= b && y < N && N * rsb == b + y
    ensures |Shifted(a, 0, y)| == |a| + 1
    ensures rsb <= |a| ==> Value(Shifted(a, 0, y)[rsb..]) == ShiftNumber(Value(a), -b)
    ensures rsb > |a| ==> ShiftNumber(Value(a), -b) == 0
  {
    hide Val, Weight, Shifted;
    ghost var s := Shifted(a, 0, y);
    PowPositive(2, b);
    PowPositive(2, y);
    ShiftedByBits(a, y);
    WeightIsPower(rsb);
    PowAdd(2, b, y);
    if rsb <= |a| {
      ValSplit(s, rsb, |s| - rsb);
      assert rsb + (|s| - rsb) == |s|;
      ValBound(s, rsb);
      ScaledDivision(Value(a), Pow(2, b), Pow(2, y), Value(s[rsb..]), Val(s, rsb));
    } else {
      assert N * rsb == N * (rsb - 1) + N;
      ValBound(a, |a|);
      WeightMonotone(|a|, rsb - 1);
      WeightIsPower(rsb - 1);
      PowMonotone(2, N * (rsb - 1), b);
      DivisionUnique(Value(a), Pow(2, b), 0, Value(a));
    }
  }

  lemma ScaledDivision(v: nat, p: nat, u: nat, q: nat, r: nat)
    requires p > 0 && u > 0
    requires v * u == r + q * (p * u) && r < p * u
    ensures v / p == q
  {
    var d := v - q * p;
    assert d * u == r by {
      MulAssociative(q, p, u);
      assert (v - q * p) * u == v * u - q * p * u;
    }
    if d < 0 {
      MulMonotone(u, d, -1);
    } else if d >= p {
      MulMonotone(u, p, d);
    }
    DivisionUnique(v, p, q, d);
  }

  /** A right shift by less than the length leaves a number that needs all blocks but the last. */
  lemma RightShiftIsLarge(a: seq<Blk>, rsb: nat, y: nat)
    requires Canonical(a) && y < N && rsb < |a|
    ensures |Shifted(a, 0, y)| == |a| + 1
    ensures Weight(|a| - 1 - rsb) <= Value(Shifted(a, 0, y)[rsb..])
  {
    hide Val, Weight, Shifted;
    ghost var s := Shifted(a, 0, y);
    ShiftedByBits(a, y);
    LeftShiftIsLarge(a, 0, y);
    ValSplit(s, rsb, |s| - rsb);
    assert rsb + (|s| - rsb) == |s|;
    ValBound(s, rsb);
    WeightAdd(|a| - 1 - rsb, rsb);
    assert (|a| - 1 - rsb) + rsb == |a| - 1;
    QuotientAtLeast(Value(s), Value(s[rsb..]), Val(s, rsb), Weight(rsb), Weight(|a| - 1 - rsb));
  }
}
