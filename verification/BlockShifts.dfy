/** Left shifts of a number by whole blocks and by bits, one result block at a time. */
module BlockShifts {
  import opened Powers
  import opened Bits
  import opened Blocks

  /** x << y on a block: the bits pushed out on the left are lost. */
  function ShiftLeftBlk(x: Blk, y: nat): Blk {
    PowPositive(2, y);
    MulNonNegative(x, Pow(2, y));
    x * Pow(2, y) % Radix()
  }

  /** x >> y on a block. */
  function ShiftRightBlk(x: Blk, y: nat): Blk {
    PowPositive(2, y);
    QuotientBound(x, Pow(2, y));
    x / Pow(2, y)
  }

  /** Block x of num << y. */
  function ShiftedBlock(num: seq<Blk>, x: nat, y: nat): Blk
    requires x <= |num| && y < N
  {
    var part1: Blk := if x == 0 || y == 0 then 0 else ShiftRightBlk(num[x - 1], N - y);
    var part2: Blk := if x == |num| then 0 else ShiftLeftBlk(num[x], y);
    OrBlk(part1, part2)
  }

  /** x | y on blocks. */
  function OrBlk(x: Blk, y: Blk): Blk {
    assert x < Radix() && y < Radix();
    OrBound(x, y, N);
    Or(x, y)
  }

  /** The block sequence of num << (i blocks and y bits), with room for the bits pushed out. */
  function Shifted(num: seq<Blk>, i: nat, y: nat): seq<Blk>
    requires y < N
  {
    seq(i, _ => 0) + seq(|num| + 1, j requires 0 <= j <= |num| => ShiftedBlock(num, j, y))
  }

  /** What block x - 1 pushes into block x. */
  function PushedIn(num: seq<Blk>, x: nat, y: nat): nat
    requires y < N
  {
    if x == 0 then 0 else PowPositive(2, N - y); BlockAt(num, x - 1) / Pow(2, N - y)
  }

  /** A shifted block splits into what stays and what is pushed out. */
  lemma SplitShift(d: Blk, y: nat)
    requires y < N
    ensures Pow(2, y) > 0 && Pow(2, N - y) > 0
    ensures d / Pow(2, N - y) < Pow(2, y)
    ensures ShiftLeftBlk(d, y) == d % Pow(2, N - y) * Pow(2, y)
    ensures d * Pow(2, y) == ShiftLeftBlk(d, y) + d / Pow(2, N - y) * Radix()
  {
    var p, u := Pow(2, y), Pow(2, N - y);
    PowPositive(2, y);
    PowPositive(2, N - y);
    PowAdd(2, y, N - y);
    var h, l := d / u, d % u;
    assert d == u * h + l;
    SplitProduct(d, h, l, u, p);
    if h >= p {
      MulMonotone(u, p, h);
    }
    MulMonotone(p, l + 1, u);
    assert p * (l + 1) == l * p + p;
    MulNonNegative(l, p);
    DivisionUnique(d * p, Radix(), h, l * p);
  }

  lemma SplitProduct(d: int, h: int, l: int, u: int, p: int)
    requires d == u * h + l
    ensures d * p == h * (p * u) + l * p
  {
    MulAssociative(h, p, u);
    assert (u * h + l) * p == u * h * p + l * p;
    assert u * h * p == h * p * u;
  }

  /** The two parts of a shifted block do not overlap, so or is plus. */
  lemma ShiftedBlockIsSum(num: seq<Blk>, x: nat, y: nat)
    requires x <= |num| && y < N
    ensures ShiftedBlock(num, x, y) == ShiftLeftBlk(BlockAt(num, x), y) + PushedIn(num, x, y)
  {
    var part1: Blk := if x == 0 || y == 0 then 0 else ShiftRightBlk(num[x - 1], N - y);
    assert part1 == PushedIn(num, x, y) && part1 < Pow(2, y) by {
      PowPositive(2, y);
      if x > 0 {
        assert num[x - 1] < Radix();
        SplitShift(num[x - 1], y);
      }
    }
    assert ShiftLeftBlk(0, y) == 0;
    if x < |num| {
      OrPushedIn(part1, num[x], y);
    } else {
      OrZero(part1);
    }
  }

  lemma OrPushedIn(pushed: Blk, d: Blk, y: nat)
    requires y < N && pushed < Pow(2, y)
    ensures OrBlk(pushed, ShiftLeftBlk(d, y)) == pushed + ShiftLeftBlk(d, y)
  {
    SplitShift(d, y);
    OrDisjoint(pushed, d % Pow(2, N - y), y);
  }

  lemma ShiftedColumn(num: seq<Blk>, j: nat, y: nat)
    requires j <= |num| && y < N
    ensures ShiftedBlock(num, j, y) + PushedIn(num, j + 1, y) * Radix()
            == BlockAt(num, j) * Pow(2, y) + PushedIn(num, j, y)
  {
    ShiftedBlockIsSum(num, j, y);
    SplitShift(BlockAt(num, j), y);
  }

  lemma {:induction false} ShiftedPrefix(num: seq<Blk>, y: nat, j: nat)
    requires y < N && j <= |num| + 1
    ensures Val(Shifted(num, 0, y), j) + PushedIn(num, j, y) * Weight(j) == Val(num, j) * Pow(2, y)
  {
    if j > 0 {
      ShiftedPrefix(num, y, j - 1);
      ShiftedColumn(num, j - 1, y);
      PrefixStep(Val(Shifted(num, 0, y), j - 1), ShiftedBlock(num, j - 1, y), PushedIn(num, j, y), Radix(),
                 Weight(j - 1), Val(num, j - 1), BlockAt(num, j - 1), Pow(2, y), PushedIn(num, j - 1, y));
    }
  }

  lemma PrefixStep(v: int, s: int, h: int, r: int, w: int, n: int, d: int, p: int, h0: int)
    requires v + h0 * w == n * p
    requires s + h * r == d * p + h0
    ensures (v + s * w) + h * (w * r) == (n + d * w) * p
  {
    assert (s + h * r) * w == (d * p + h0) * w;
    assert (s + h * r) * w == s * w + h * (w * r);
    assert (d * p + h0) * w == d * w * p + h0 * w;
    assert (n + d * w) * p == n * p + d * w * p;
  }

  /** num << (i blocks and y bits) is the product with 2^y * Radix^i. */
  lemma ShiftedValue(num: seq<Blk>, i: nat, y: nat)
    requires y < N
    ensures |Shifted(num, i, y)| == i + |num| + 1
    ensures Value(Shifted(num, i, y)) == Value(num) * Pow(2, y) * Weight(i)
  {
    var s, t := Shifted(num, i, y), Shifted(num, 0, y);
    assert s[i..] == t && |s| == i + |t|;
    SplitZeros(s, t, i);
    ShiftedByBits(num, y);
  }

  lemma SplitZeros(s: seq<Blk>, t: seq<Blk>, i: nat)
    requires i <= |s| && s[i..] == t
    requires forall j :: 0 <= j < i ==> s[j] == 0
    ensures Value(s) == Value(t) * Weight(i)
  {
    ValSplit(s, i, |t|);
    ValOfZeros(s, i);
  }

  lemma ShiftedByBits(num: seq<Blk>, y: nat)
    requires y < N
    ensures |Shifted(num, 0, y)| == |num| + 1
    ensures Value(Shifted(num, 0, y)) == Value(num) * Pow(2, y)
  {
    ShiftedPrefix(num, y, |num| + 1);
    ValPadded(num, |num| + 1);
    PowPositive(2, N - y);
    assert PushedIn(num, |num| + 1, y) == 0;
  }

  /** The blocks of a shifted number. */
  lemma ShiftedAt(num: seq<Blk>, i: nat, y: nat)
    requires y < N
    ensures |Shifted(num, i, y)| == i + |num| + 1
    ensures Val(Shifted(num, i, y), i) == 0
    ensures forall k :: 0 <= k < i ==> Shifted(num, i, y)[k] == 0
    ensures forall k :: i <= k <= i + |num| ==> Shifted(num, i, y)[k] == ShiftedBlock(num, k - i, y)
  {
    ValOfZeros(Shifted(num, i, y), i);
  }

  /** Zero shifted left is zero blocks only. */
  lemma ShiftedZero(num: seq<Blk>, i: nat, y: nat)
    requires y < N && |num| == 0
    ensures |Shifted(num, i, y)| == i + 1
    ensures forall k :: 0 <= k <= i ==> Shifted(num, i, y)[k] == 0
  {
    ShiftedBlockIsSum(num, 0, y);
    SplitShift(0, y);
  }

  /** The mask 1 << y selects bit y. */
  lemma MaskSelectsBit(d: Blk, y: nat)
    requires y < N
    ensures ShiftLeftBlk(1, y) == Pow(2, y)
    ensures And(d, ShiftLeftBlk(1, y)) == 0 <==> !Bit(d, y)
  {
    PowMonotone(2, y, N - 1);
    assert Radix() == 2 * Pow(2, N - 1);
    DivisionUnique(1 * Pow(2, y), Radix(), 0, Pow(2, y));
    AndOneBit(d, y);
  }
}
