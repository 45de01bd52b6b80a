/**
 Numbers as little-endian sequences of machine words.

 The width N of a word is left open: any multiple of 8 from 32 up, as for a
 C++ unsigned long.  A word is an integer below 2^N; wrap-around is written out.
 */
module Blocks {
  import opened Powers
  import opened Bits

  type BlockBits = n: int | 32 <= n && n % 8 == 0 witness 64

  /** The number of bits in a block (8 * sizeof(Blk)). */
  const N: BlockBits

  /** 2^N, the number of values of a block. */
  function Radix(): (r: nat)
    ensures r >= 0x1_0000_0000
  {
    assert Pow(2, 8) == 0x100;
    PowAdd(2, 8, 8);
    PowAdd(2, 16, 16);
    PowMonotone(2, 32, N);
    Pow(2, N)
  }

  type Blk = x: int | 0 <= x < Radix() witness 0

  // ---- wrap-around arithmetic on one block

  function WrapAdd(x: Blk, y: Blk): (r: Blk)
    ensures r == if x + y < Radix() then x + y else x + y - Radix()
  {
    var q := if x + y < Radix() then 0 else 1;
    DivisionUnique(x + y, Radix(), q, x + y - q * Radix());
    (x + y) % Radix()
  }

  function WrapSub(x: Blk, y: Blk): (r: Blk)
    ensures r == if x >= y then x - y else x - y + Radix()
  {
    DivisionUnique(x - y, Radix(), if x >= y then 0 else -1, if x >= y then x - y else x - y + Radix());
    (x - y) % Radix()
  }

  // ---- the value of a sequence of blocks

  function Weight(k: nat): (w: nat)
    ensures w >= 1
  {
    if k == 0 then 1 else MulMonotone(Weight(k - 1), 1, Radix()); Weight(k - 1) * Radix()
  }

  /** Blocks beyond the end count as zero. */
  function BlockAt(s: seq<Blk>, i: nat): Blk {
    if i < |s| then s[i] else 0
  }

  /** The number written by the k lowest blocks of s. */
  function Val(s: seq<Blk>, k: nat): nat {
    if k == 0 then 0
    else
      MulNonNegative(BlockAt(s, k - 1), Weight(k - 1));
      Val(s, k - 1) + BlockAt(s, k - 1) * Weight(k - 1)
  }

  function Value(s: seq<Blk>): nat {
    Val(s, |s|)
  }

  /** No leading zero block. */
  predicate Canonical(s: seq<Blk>) {
    |s| > 0 ==> s[|s| - 1] != 0
  }

  lemma {:induction false} WeightIsPower(k: nat)
    ensures 0 <= N * k
    ensures Weight(k) == Pow(2, N * k)
  {
    MulNonNegative(N, k);
    if k == 0 {
      assert N * k == 0;
    } else {
      WeightIsPower(k - 1);
      assert N * k == N * (k - 1) + N;
      PowAdd(2, N * (k - 1), N);
    }
  }

  lemma {:induction false} WeightAdd(i: nat, j: nat)
    ensures Weight(i + j) == Weight(i) * Weight(j)
  {
    if j > 0 {
      WeightAdd(i, j - 1);
      assert i + j - 1 == i + (j - 1);
      MulAssociative(Weight(i), Weight(j - 1), Radix());
    }
  }

  lemma {:induction false} WeightMonotone(i: nat, j: nat)
    requires i <= j
    ensures Weight(i) <= Weight(j)
  {
    WeightAdd(i, j - i);
    MulMonotone(Weight(i), 1, Weight(j - i));
  }

  lemma {:induction false} ValBound(s: seq<Blk>, k: nat)
    ensures Val(s, k) < Weight(k)
  {
    if k > 0 {
      ValBound(s, k - 1);
      MulMonotone(Weight(k - 1), BlockAt(s, k - 1) + 1, Radix());
      assert Weight(k - 1) * (BlockAt(s, k - 1) + 1) == BlockAt(s, k - 1) * Weight(k - 1) + Weight(k - 1);
    }
  }

  lemma {:induction false} ValMonotone(s: seq<Blk>, i: nat, k: nat)
    requires i <= k
    ensures Val(s, i) <= Val(s, k)
    decreases k
  {
    if i < k {
      ValMonotone(s, i, k - 1);
      MulNonNegative(BlockAt(s, k - 1), Weight(k - 1));
    }
  }

  /** The value depends on the blocks only, and equal upper blocks contribute equally. */
  lemma {:induction false} ValAgree(s: seq<Blk>, t: seq<Blk>, i: nat, k: nat)
    requires i <= k
    requires forall j :: i <= j < k ==> BlockAt(s, j) == BlockAt(t, j)
    ensures Val(s, k) - Val(s, i) == Val(t, k) - Val(t, i)
    decreases k
  {
    if i < k {
      ValAgree(s, t, i, k - 1);
    }
  }

  lemma ValEmpty(s: seq<Blk>)
    ensures Val(s, 0) == 0
  {
  }

  lemma ValStep(s: seq<Blk>, k: nat)
    ensures Val(s, k + 1) == Val(s, k) + BlockAt(s, k) * Weight(k)
  {
  }

  /** Writing block k leaves the number below it as it was. */
  lemma StoreBlock(before: seq<Blk>, after: seq<Blk>, k: nat)
    requires k < |before| == |after|
    requires forall j :: 0 <= j < k ==> before[j] == after[j]
    ensures Val(after, k) == Val(before, k)
    ensures Val(after, k + 1) == Val(before, k) + after[k] * Weight(k)
  {
    ValAgree(before, after, 0, k);
  }

  lemma ValSame(s: seq<Blk>, t: seq<Blk>, k: nat)
    requires k <= |s| && k <= |t| && s[..k] == t[..k]
    ensures Val(s, k) == Val(t, k)
  {
    ValPrefix(s, k);
    ValPrefix(t, k);
  }

  lemma {:induction false} ValPadded(s: seq<Blk>, k: nat)
    requires |s| <= k
    ensures Val(s, k) == Value(s)
  {
    if k > |s| {
      ValPadded(s, k - 1);
    }
  }

  lemma {:induction false} ValPrefix(s: seq<Blk>, i: nat)
    requires i <= |s|
    ensures Value(s[..i]) == Val(s, i)
  {
    ValAgree(s[..i], s, 0, i);
  }

  lemma {:induction false} ValSplit(s: seq<Blk>, i: nat, k: nat)
    requires i <= |s|
    ensures Val(s, i + k) == Val(s, i) + Val(s[i..], k) * Weight(i)
  {
    if k > 0 {
      ValSplit(s, i, k - 1);
      var d := BlockAt(s, i + k - 1);
      assert i + k - 1 == i + (k - 1);
      WeightAdd(i, k - 1);
      ScaledDigit(Val(s[i..], k - 1), d, Weight(k - 1), Weight(i));
    }
  }

  lemma ScaledDigit(v: int, d: int, w: int, u: int)
    ensures (v + d * w) * u == v * u + d * (u * w)
  {
    MulAssociative(d, w, u);
  }

  lemma {:induction false} ValOfZeros(s: seq<Blk>, k: nat)
    requires forall j :: 0 <= j < k ==> BlockAt(s, j) == 0
    ensures Val(s, k) == 0
  {
    if k > 0 {
      ValOfZeros(s, k - 1);
    }
  }

  lemma ZeroBlocks(s: seq<Blk>)
    requires forall j :: 0 <= j < |s| ==> s[j] == 0
    ensures Value(s) == 0
  {
    ValOfZeros(s, |s|);
  }

  /** Adding d to block i adds d * Radix^i. */
  lemma BlockGrows(s: seq<Blk>, t: seq<Blk>, i: nat, d: int)
    requires i < |s| == |t| && t[i] == s[i] + d
    requires forall j :: 0 <= j < |s| && j != i ==> s[j] == t[j]
    ensures Value(t) == Value(s) + d * Weight(i)
  {
    ValAgree(s, t, 0, i);
    ValAgree(s, t, i + 1, |s|);
    assert (s[i] + d) * Weight(i) == s[i] * Weight(i) + d * Weight(i);
  }

  /** t is s with block i replaced, both without end. */
  ghost predicate OnlyBlockChanged(s: seq<Blk>, t: seq<Blk>, i: nat, d: Blk) {
    forall j: nat :: BlockAt(t, j) == if j == i then d else BlockAt(s, j)
  }

  lemma ChangedBlockValue(s: seq<Blk>, t: seq<Blk>, i: nat, d: Blk)
    requires OnlyBlockChanged(s, t, i, d)
    ensures Value(t) == Value(s) + (d - BlockAt(s, i)) * Weight(i)
  {
    hide Weight, Val;
    var n := |s| + |t| + i + 1;
    ValPadded(s, n);
    ValPadded(t, n);
    ValEmpty(s);
    ValEmpty(t);
    ValAgree(s, t, 0, i);
    ValAgree(s, t, i + 1, n);
    ValStep(s, i);
    ValStep(t, i);
    assert (d - BlockAt(s, i)) * Weight(i) == d * Weight(i) - BlockAt(s, i) * Weight(i);
  }

  lemma AppendedZero(s: seq<Blk>, t: seq<Blk>)
    requires t == s + [0]
    ensures Value(t) == Value(s)
  {
    ValSame(s, t, |s|);
  }

  // ---- canonical form

  lemma CanonicalBounds(s: seq<Blk>)
    requires Canonical(s) && |s| > 0
    ensures Weight(|s| - 1) <= Value(s) < Weight(|s|)
  {
    ValBound(s, |s|);
    MulMonotone(Weight(|s| - 1), 1, s[|s| - 1]);
  }

  lemma CanonicalZero(s: seq<Blk>)
    requires Canonical(s)
    ensures Value(s) == 0 <==> |s| == 0
  {
    if |s| > 0 {
      CanonicalBounds(s);
    }
  }

  /** The number of blocks that x needs. */
  function BlockCount(x: nat): nat {
    if x == 0 then 0 else QuotientBelow(x); 1 + BlockCount(x / Radix())
  }

  lemma QuotientBelow(x: nat)
    requires x > 0
    ensures 0 <= x / Radix() < x
    ensures x == x / Radix() * Radix() + x % Radix()
  {
    QuotientBound(x, Radix());
    assert x == Radix() * (x / Radix()) + x % Radix();
    if x / Radix() >= x {
      MulMonotone(x / Radix(), 2, Radix());
    }
  }

  lemma {:induction false} BlockCountBounds(x: nat)
    ensures x < Weight(BlockCount(x))
    ensures x > 0 ==> BlockCount(x) > 0 && Weight(BlockCount(x) - 1) <= x
  {
    hide Weight, Radix;
    WeightStep(0);
    if x > 0 {
      QuotientBelow(x);
      var q, k := x / Radix(), BlockCount(x / Radix());
      BlockCountBounds(q);
      WeightStep(k);
      ScaledBelow(q, x % Radix(), Weight(k), Radix());
      if q > 0 {
        WeightStep(k - 1);
        MulMonotone(Radix(), Weight(k - 1), q);
      }
    }
  }

  lemma WeightStep(k: nat)
    ensures Weight(0) == 1 && Weight(k + 1) == Weight(k) * Radix()
  {
  }

  lemma ScaledBelow(q: int, r: int, w: int, d: int)
    requires q < w && 0 <= r < d
    ensures q * d + r < w * d
  {
    MulMonotone(d, q + 1, w);
    assert (q + 1) * d == q * d + d;
  }

  /** A canonical number has as many blocks as its value needs. */
  lemma CanonicalLength(s: seq<Blk>)
    requires Canonical(s)
    ensures |s| == BlockCount(Value(s))
  {
    hide Weight;
    var x, k := Value(s), BlockCount(Value(s));
    CanonicalZero(s);
    BlockCountBounds(x);
    if |s| > 0 {
      CanonicalBounds(s);
      if k < |s| {
        WeightMonotone(k, |s| - 1);
      } else if |s| < k {
        WeightMonotone(|s|, k - 1);
      }
    }
  }

  /** A longer canonical number is larger. */
  lemma LongerIsLarger(s: seq<Blk>, t: seq<Blk>)
    requires Canonical(t) && |s| < |t|
    ensures Value(s) < Value(t)
  {
    ValBound(s, |s|);
    WeightMonotone(|s|, |t| - 1);
    CanonicalBounds(t);
  }

  /** With equal blocks above i, block i decides. */
  lemma HigherBlockDecides(s: seq<Blk>, t: seq<Blk>, i: nat)
    requires |s| == |t| && i < |s| && s[i] < t[i]
    requires forall j :: i < j < |s| ==> s[j] == t[j]
    ensures Value(s) < Value(t)
  {
    ValBound(s, i);
    MulMonotone(Weight(i), s[i] + 1, t[i]);
    assert Weight(i) * (s[i] + 1) == s[i] * Weight(i) + Weight(i);
    assert Val(s, i + 1) < Val(t, i + 1);
    ValAgree(s, t, i + 1, |s|);
  }

  /** Equal numbers have equal canonical blocks. */
  lemma {:induction false} CanonicalUnique(s: seq<Blk>, t: seq<Blk>)
    requires Canonical(s) && Canonical(t) && Value(s) == Value(t)
    ensures s == t
  {
    if |s| < |t| {
      LongerIsLarger(s, t);
    } else if |t| < |s| {
      LongerIsLarger(t, s);
    } else {
      ValDeterminesBlocks(s, t, |s|);
      forall j | 0 <= j < |s| ensures s[j] == t[j] {
        assert BlockAt(s, j) == BlockAt(t, j);
      }
    }
  }

  lemma {:induction false} ValDeterminesBlocks(s: seq<Blk>, t: seq<Blk>, k: nat)
    requires Val(s, k) == Val(t, k)
    ensures forall j :: 0 <= j < k ==> BlockAt(s, j) == BlockAt(t, j)
  {
    if k > 0 {
      var w := Weight(k - 1);
      ValBound(s, k - 1);
      ValBound(t, k - 1);
      DivisionUnique(Val(s, k), w, BlockAt(s, k - 1), Val(s, k - 1));
      DivisionUnique(Val(t, k), w, BlockAt(t, k - 1), Val(t, k - 1));
      ValDeterminesBlocks(s, t, k - 1);
    }
  }

  /** A number that needs all its blocks has no leading zero. */
  lemma LargeIsCanonical(s: seq<Blk>)
    requires |s| > 0 ==> Weight(|s| - 1) <= Value(s)
    ensures Canonical(s)
  {
    if |s| > 0 && s[|s| - 1] == 0 {
      ValBound(s, |s| - 1);
    }
  }

  /** When the value needs |s| - 1 blocks, at most one leading block is zero. */
  lemma OneZapSuffices(s: seq<Blk>)
    requires |s| > 0
    requires |s| >= 2 ==> Weight(|s| - 2) <= Value(s)
    ensures s[|s| - 1] == 0 ==> Canonical(s[..|s| - 1]) && Value(s[..|s| - 1]) == Value(s)
  {
    var k := |s| - 1;
    ValPrefix(s, k);
    if s[k] == 0 && k > 0 && s[k - 1] == 0 {
      ValBound(s, k - 1);
    }
  }

  // ---- carries and borrows

  function Carry(c: bool, k: nat): nat {
    if c then Weight(k) else 0
  }

  lemma NothingYet(r: seq<Blk>, x: seq<Blk>, y: seq<Blk>)
    ensures Val(r, 0) == 0 && Val(x, 0) == 0 && Val(y, 0) == 0
    ensures forall c :: Carry(c, 0) == BitValue(c)
  {
  }

  /** One column of an addition: block k of the sum and the carry into block k + 1. */
  lemma AddColumn(x: seq<Blk>, y: seq<Blk>, carryIn: bool, temp: nat, carryOut: bool, k: nat)
    requires temp + (if carryOut then Radix() else 0) == BlockAt(x, k) + BlockAt(y, k) + BitValue(carryIn)
    ensures Val(x, k) + Val(y, k) + temp * Weight(k) + Carry(carryOut, k + 1)
            == Val(x, k + 1) + Val(y, k + 1) + Carry(carryIn, k)
  {
    CarryStep(BlockAt(x, k), BlockAt(y, k), carryIn, temp, carryOut, k);
  }

  /** One column of a subtraction. */
  lemma SubtractColumn(x: seq<Blk>, y: seq<Blk>, borrowIn: bool, temp: nat, borrowOut: bool, k: nat)
    requires temp + BlockAt(y, k) + BitValue(borrowIn) == BlockAt(x, k) + (if borrowOut then Radix() else 0)
    ensures Val(x, k + 1) - Val(y, k + 1) + Carry(borrowOut, k + 1)
            == Val(x, k) - Val(y, k) + temp * Weight(k) + Carry(borrowIn, k)
  {
    CarryStep(temp, BlockAt(y, k), borrowIn, BlockAt(x, k), borrowOut, k);
  }

  lemma CarryValue(c: bool, k: nat)
    ensures Carry(c, k) == if c then Weight(k) else 0
  {
  }

  /** A column that only passes a carry on. */
  lemma CarryColumn(x: seq<Blk>, temp: nat, carryOut: bool, k: nat)
    requires temp + (if carryOut then Radix() else 0) == BlockAt(x, k) + 1
    ensures Val(x, k) + temp * Weight(k) + Carry(carryOut, k + 1) == Val(x, k + 1) + Carry(true, k)
  {
    CarryStep(BlockAt(x, k), 0, true, temp, carryOut, k);
  }

  /** A column that only passes a borrow on. */
  lemma BorrowColumn(x: seq<Blk>, temp: nat, borrowOut: bool, k: nat)
    requires temp + 1 == BlockAt(x, k) + (if borrowOut then Radix() else 0)
    ensures Val(x, k) + temp * Weight(k) + Carry(true, k) == Val(x, k + 1) + Carry(borrowOut, k + 1)
  {
    CarryStep(temp, 0, true, BlockAt(x, k), borrowOut, k);
  }

  /** A number below a canonical one of the same length by one needs all blocks but one. */
  lemma OneLessIsLarge(s: seq<Blk>, v: nat)
    requires Canonical(s) && |s| >= 2 && v + 1 == Value(s)
    ensures Weight(|s| - 2) <= v
  {
    CanonicalBounds(s);
    MulMonotone(Weight(|s| - 2), 2, Radix());
  }

  lemma CarryStep(x: nat, y: nat, carryIn: bool, temp: nat, carryOut: bool, k: nat)
    requires temp + (if carryOut then Radix() else 0) == x + y + BitValue(carryIn)
    ensures temp * Weight(k) + Carry(carryOut, k + 1) == x * Weight(k) + y * Weight(k) + Carry(carryIn, k)
  {
    ScaleColumn(x, y, BitValue(carryIn), temp, if carryOut then Radix() else 0, Weight(k));
    assert Weight(k + 1) == Weight(k) * Radix();
  }

  lemma ScaleColumn(x: int, y: int, c: int, t: int, o: int, w: int)
    requires t + o == x + y + c
    ensures t * w + o * w == x * w + y * w + c * w
  {
    assert (t + o) * w == t * w + o * w;
    assert (x + y + c) * w == x * w + y * w + c * w;
  }
}
