/** The trial subtractions of a shift-and-subtract division. */
module TrialSubtraction {
  import opened Powers
  import opened Bits
  import opened Blocks
  import opened BlockShifts

  /** The value of blocks i up to k of s, at their place. */
  ghost function Window(s: seq<Blk>, i: nat, k: nat): int {
    Val(s, k) - Val(s, i)
  }

  lemma {:induction false} WindowBound(s: seq<Blk>, i: nat, k: nat)
    requires i <= k
    ensures Window(s, i, k) <= Weight(k) - Weight(i)
    decreases k
  {
    if i < k {
      WindowBound(s, i, k - 1);
      BlockBound(BlockAt(s, k - 1), Weight(k - 1), Radix());
    }
  }

  lemma BlockBound(d: int, w: int, r: int)
    requires 0 <= w && d < r
    ensures d * w <= w * r - w
  {
    MulMonotone(w, d + 1, r);
    assert w * (d + 1) == d * w + w;
  }

  /** A borrow left over at block k says that the shifted divisor is larger than x. */
  lemma BorrowMeansTooLarge(sub: seq<Blk>, x: seq<Blk>, i: nat, k: nat, z: int)
    requires i <= k
    requires Window(sub, i, k) + z == Window(x, i, k) + Weight(k)
    ensures Val(x, k) < z
  {
    WindowBound(sub, i, k);
    ValBound(x, i);
  }

  lemma NoBorrowMeansFits(sub: seq<Blk>, x: seq<Blk>, i: nat, k: nat, z: int)
    requires i <= k
    requires Window(sub, i, k) + z == Window(x, i, k)
    ensures z <= Val(x, k)
  {
    ValMonotone(sub, i, k);
  }

  /** A number below Radix^k has nothing from block k on. */
  lemma {:induction false} SmallNumberStops(s: seq<Blk>, k: nat, n: nat)
    requires k <= n && Val(s, n) < Weight(k)
    ensures Val(s, n) == Val(s, k)
    decreases n
  {
    if k < n {
      var d, w := BlockAt(s, n - 1), Weight(n - 1);
      WeightMonotone(k, n - 1);
      if d > 0 {
        MulMonotone(w, 1, d);
      }
      SmallNumberStops(s, k, n - 1);
    }
  }

  /** Turning on bit y of a quotient block whose bits up to y are off. */
  lemma QuotientBit(d: Blk, y: nat)
    requires y < N
    requires Pow(2, y + 1) > 0 && d % Pow(2, y + 1) == 0
    ensures Pow(2, y) > 0 && d % Pow(2, y) == 0
    ensures OrBlk(d, ShiftLeftBlk(1, y)) == d + Pow(2, y)
    ensures (d + Pow(2, y)) % Pow(2, y) == 0
  {
    LowBitsStep(d, y);
    MaskSelectsBit(d, y);
    OrOneBit(d, y);
    NextMultiple(d, Pow(2, y));
  }

  lemma NextMultiple(d: nat, p: nat)
    requires p > 0 && d % p == 0
    ensures (d + p) % p == 0
  {
    var h := d / p;
    assert d == p * h;
    assert (h + 1) * p == h * p + p;
    DivisionUnique(d + p, p, h + 1, 0);
  }

  /**
   One trial: v == q * b + r with r below b shifted by one more bit; when b shifted
   fits, the bit goes into the quotient.
   */
  lemma TrialStep(v: int, q: int, b: int, r: int, y: nat, w: int, q': int, r': int, fits: bool)
    requires v == q * b + r && r < b * Pow(2, y + 1) * w
    requires fits <==> b * Pow(2, y) * w <= r
    requires q' == q + (if fits then Pow(2, y) * w else 0)
    requires r' == r - (if fits then b * Pow(2, y) * w else 0)
    ensures v == q' * b + r' && r' < b * Pow(2, y) * w
  {
    ShiftDoubles(b, y, w);
    if fits {
      var p := Pow(2, y);
      assert (q + p * w) * b == q * b + b * p * w;
    }
  }

  /** The divisor at one shift is half the divisor at the next. */
  lemma ShiftDoubles(v: int, y: nat, w: int)
    ensures v * Pow(2, y + 1) * w == 2 * (v * Pow(2, y) * w)
  {
    var p := Pow(2, y);
    assert Pow(2, y + 1) == 2 * p;
    assert v * (2 * p) * w == 2 * (v * p * w);
  }

  /** After N bits the shift is a whole block. */
  lemma ShiftEnds(v: int, i: nat)
    ensures v * Pow(2, N) * Weight(i) == v * Weight(i + 1)
    ensures Pow(2, 0) == 1 == Weight(0)
    ensures v * 1 * Weight(i) == v * Weight(i)
  {
    assert Radix() == Pow(2, N);
    MulAssociative(v, Radix(), Weight(i));
    assert Radix() * Weight(i) == Weight(i + 1);
    assert v * 1 == v;
  }

  /** The first trial starts above the dividend. */
  lemma FirstTrial(x: seq<Blk>, b: seq<Blk>)
    requires Canonical(b) && 0 < |b| <= |x|
    ensures Value(x) < Value(b) * Weight(|x| - |b| + 1)
  {
    CanonicalBounds(b);
    ValBound(x, |x|);
    WeightAdd(|b| - 1, |x| - |b| + 1);
    assert (|b| - 1) + (|x| - |b| + 1) == |x|;
    MulMonotone(Weight(|x| - |b| + 1), Weight(|b| - 1), Value(b));
  }

  /** The quotient needs all its blocks but one. */
  lemma QuotientIsLarge(x: seq<Blk>, b: seq<Blk>, q: nat, r: nat)
    requires Canonical(x) && Canonical(b) && 0 < |b| < |x|
    requires Value(x) == q * Value(b) + r && r < Value(b)
    ensures Weight(|x| - |b| - 1) <= q
  {
    hide Val, Weight;
    CanonicalBounds(x);
    CanonicalBounds(b);
    WeightAdd(|x| - |b| - 1, |b|);
    assert (|x| - |b| - 1) + |b| == |x| - 1;
    MulStrictlyMonotone(Weight(|x| - |b| - 1), Value(b), Weight(|b|));
    QuotientAtLeast(Value(x), q, r, Value(b), Weight(|x| - |b| - 1));
  }
}
