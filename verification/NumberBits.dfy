/** The bits of a number held in blocks. */
module NumberBits {
  import opened Powers
  import opened Bits
  import opened Blocks
  import opened BlockShifts

  /** Where bit bi lives: bit bi % N of block bi / N. */
  lemma BitPlace(bi: nat)
    ensures 0 <= bi / N && 0 <= bi % N < N
    ensures bi == N * (bi / N) + bi % N
  {
    QuotientBound(bi, N);
  }

  /** x & ~y on blocks. */
  function AndNotBlk(x: Blk, y: Blk): Blk {
    AndNotSmaller(x, y);
    AndNot(x, y)
  }

  lemma {:induction false} AndNotSmaller(x: nat, y: nat)
    ensures AndNot(x, y) <= x
  {
    if x > 0 {
      AndNotSmaller(x / 2, y / 2);
    }
  }

  lemma MaskedBlock(d: Blk, y: nat, b: bool)
    requires y < N
    ensures WithBit(d, y, b) == if b then OrBlk(d, ShiftLeftBlk(1, y)) else AndNotBlk(d, ShiftLeftBlk(1, y))
  {
    MaskSelectsBit(d, y);
  }

  /** x is d >> l. */
  predicate IsHighPart(x: nat, d: nat, l: nat) {
    PowPositive(2, l);
    x * Pow(2, l) <= d < (x + 1) * Pow(2, l)
  }

  lemma HighPartStarts(d: nat)
    ensures IsHighPart(d, d, 0)
  {
  }

  /** Shifting out one more bit. */
  lemma HighPartStep(x: nat, d: nat, l: nat)
    requires 0 < x && IsHighPart(x, d, l)
    ensures IsHighPart(x / 2, d, l + 1)
    ensures x / 2 == 0 ==> Pow(2, l) <= d
  {
    PowPositive(2, l);
    assert Pow(2, l + 1) == 2 * Pow(2, l);
    HalveRange(x, d, Pow(2, l));
  }

  lemma HalveRange(x: nat, d: nat, p: nat)
    requires 0 < x && x * p <= d < (x + 1) * p
    ensures x / 2 * (2 * p) <= d < (x / 2 + 1) * (2 * p)
    ensures p <= d
  {
    var h := x / 2;
    assert h * (2 * p) == (2 * h) * p;
    assert (h + 1) * (2 * p) == (2 * h + 2) * p;
    MulMonotone(p, 2 * h, x);
    MulMonotone(p, x + 1, 2 * h + 2);
    MulMonotone(p, 1, x);
  }

  lemma HighPartEnds(d: nat, l: nat)
    requires IsHighPart(0, d, l)
    ensures d < Pow(2, l)
  {
  }

  lemma OneBlock(s: seq<Blk>)
    requires |s| == 1
    ensures Value(s) == s[0] < Pow(2, N)
  {
    assert s[0] < Radix();
    assert Val(s, 0) == 0 && Weight(0) == 1;
  }

  lemma ManyBlocks(s: seq<Blk>)
    requires Canonical(s) && |s| >= 2
    ensures Pow(2, N) <= Value(s)
  {
    CanonicalBounds(s);
    WeightMonotone(1, |s| - 1);
    WeightIsPower(1);
  }

  lemma BitOfNumber(s: seq<Blk>, i: nat, y: nat)
    requires y < N
    ensures 0 <= N * i
    ensures Bit(Value(s), N * i + y) == Bit(BlockAt(s, i), y)
  {
    hide Val, Weight, Bit;
    WeightIsPower(i);
    if i < |s| {
      ValSplit(s, i, |s| - i);
      assert i + (|s| - i) == |s|;
      ValBound(s, i);
      BitOfHighPart(Val(s, i), Value(s[i..]), N * i, y);
      FirstBlock(s[i..]);
      BitOfLowPart(s[i], Value(s[i..][1..]), N, y);
    } else {
      ValPadded(s, i);
      ValBound(s, i);
      BitOfHighPart(Value(s), 0, N * i, y);
      ZeroHasNoBits(y);
    }
  }

  lemma FirstBlock(t: seq<Blk>)
    requires |t| > 0
    ensures Value(t) == t[0] + Value(t[1..]) * Pow(2, N)
  {
    ValSplit(t, 1, |t| - 1);
    assert 1 + (|t| - 1) == |t|;
    assert Val(t, 1) == Val(t, 0) + BlockAt(t, 0) * Weight(0);
    WeightIsPower(1);
  }

  /** The lengths of the leading block and of the rest add up. */
  lemma LengthOfNumber(s: seq<Blk>, l: nat)
    requires Canonical(s) && |s| > 0 && l > 0
    requires Pow(2, l - 1) <= s[|s| - 1] < Pow(2, l)
    ensures 0 <= (|s| - 1) * N
    ensures Pow(2, l + (|s| - 1) * N - 1) <= Value(s) < Pow(2, l + (|s| - 1) * N)
  {
    hide Val, Weight, Pow;
    var k := |s| - 1;
    WeightIsPower(k);
    var e := N * k;
    assert e == k * N;
    PowAdd(2, l, e);
    PowAdd(2, l - 1, e);
    assert (l - 1) + e == l + e - 1;
    ValBound(s, k);
    ValStep(s, k);
    LeadingDigit(Val(s, k), s[k], Weight(k), Pow(2, l - 1), Pow(2, l));
  }

  lemma LeadingDigit(v: int, d: int, w: int, lo: int, hi: int)
    requires 0 <= v < w && lo <= d < hi
    ensures lo * w <= v + d * w < hi * w
  {
    MulMonotone(w, lo, d);
    MulMonotone(w, d + 1, hi);
    assert (d + 1) * w == d * w + w;
  }

  lemma BlocksBoundValue(s: seq<Blk>)
    ensures 0 <= |s| * N
    ensures Value(s) < Pow(2, |s| * N)
  {
    ValBound(s, |s|);
    WeightIsPower(|s|);
    assert |s| * N == N * |s|;
  }

  // ---- what the operators do to each bit

  lemma {:induction false} OrBits(x: nat, y: nat, k: nat)
    ensures Bit(Or(x, y), k) == (Bit(x, k) || Bit(y, k))
  {
    if x == 0 && y == 0 {
      ZeroHasNoBits(k);
    } else if k > 0 {
      OrBits(x / 2, y / 2, k - 1);
    }
  }

  lemma {:induction false} AndNotBits(x: nat, y: nat, k: nat)
    ensures Bit(AndNot(x, y), k) == (Bit(x, k) && !Bit(y, k))
  {
    if x == 0 {
      ZeroHasNoBits(k);
    } else if k > 0 {
      AndNotBits(x / 2, y / 2, k - 1);
    }
  }

  lemma {:induction false} PowerBits(j: nat, k: nat)
    ensures Pow(2, j) > 0
    ensures Bit(Pow(2, j), k) == (j == k)
  {
    PowPositive(2, j);
    if j == 0 {
      if k > 0 {
        assert Pow(2, 0) / 2 == 0;
        ZeroHasNoBits(k - 1);
      }
    } else {
      assert Pow(2, j) == 2 * Pow(2, j - 1);
      if k > 0 {
        PowerBits(j - 1, k - 1);
      }
    }
  }

  /** v with bit bi set to b. */
  function WithBit(v: nat, bi: nat, b: bool): nat {
    PowPositive(2, bi);
    if b then Or(v, Pow(2, bi)) else AndNot(v, Pow(2, bi))
  }

  /** Setting one bit changes that bit only. */
  lemma WithBitBits(v: nat, bi: nat, b: bool, k: nat)
    ensures Bit(WithBit(v, bi, b), k) == if k == bi then b else Bit(v, k)
  {
    PowerBits(bi, k);
    OrBits(v, Pow(2, bi), k);
    AndNotBits(v, Pow(2, bi), k);
  }

  lemma WithBitValue(v: nat, bi: nat, b: bool)
    ensures Pow(2, bi) > 0
    ensures WithBit(v, bi, b) == if Bit(v, bi) == b then v else if b then v + Pow(2, bi) else v - Pow(2, bi)
  {
    OrOneBit(v, bi);
    AndNotOneBit(v, bi);
  }

  /** Setting a bit of block i is setting a bit of the number. */
  lemma SetBlockBit(s: seq<Blk>, i: nat, y: nat, b: bool, v: int)
    requires y < N
    requires v == Value(s) + (WithBit(BlockAt(s, i), y, b) - BlockAt(s, i)) * Weight(i)
    ensures 0 <= N * i
    ensures v == WithBit(Value(s), N * i + y, b)
  {
    hide Val, Weight, Bit, Pow, WithBit;
    BitOfNumber(s, i, y);
    var d, e := BlockAt(s, i), N * i;
    WithBitValue(d, y, b);
    WithBitValue(Value(s), e + y, b);
    WeightIsPower(i);
    PowAdd(2, e, y);
    SignedTimes(Pow(2, y), Weight(i));
  }

  lemma SignedTimes(p: int, w: int)
    ensures (0 - p) * w == -(p * w)
  {
  }

  /** The bits from 0 to the bit length, with their weights, sum up to the number. */
  lemma BitsSumUp(v: nat, l: nat)
    requires v < Pow(2, l)
    ensures BitSum(v, l) == v
    ensures l > 0 && Pow(2, l - 1) <= v ==> Bit(v, l - 1)
  {
    BitSumIsLowPart(v, l);
    DivisionUnique(v, Pow(2, l), 0, v);
    if l > 0 && Pow(2, l - 1) <= v {
      BitIsShifted(v, l - 1);
      var p := Pow(2, l - 1);
      DivisionUnique(v, p, 1, v - p);
    }
  }
}
