/**
 Numbers from raw data: pieces of p bits, lowest first, packed into blocks.

 A piece of a signed type is widened to a block with its sign, so a negative piece sets
 every bit above its own to the end of the block.
 */
module RawData {
  import opened Powers
  import opened Bits
  import opened Blocks
  import opened BlockShifts

  /** The number whose pieces of p bits are data, the lowest first. */
  function Pieces(data: seq<nat>, p: nat, k: nat): nat
    requires k <= |data|
  {
    if k == 0 then 0
    else
      MulNonNegative(p, k - 1);
      PowPositive(2, p * (k - 1));
      MulNonNegative(data[k - 1], Pow(2, p * (k - 1)));
      Pieces(data, p, k - 1) + data[k - 1] * Pow(2, p * (k - 1))
  }

  /** A value of a signed or an unsigned type of p bits. */
  predicate IsPiece(d: int, p: nat) {
    p > 0 && -Pow(2, p - 1) <= d < Pow(2, p)
  }

  /** The p bits of a piece, what the caller wants to be packed. */
  function LowBits(d: int, p: nat): nat {
    PowPositive(2, p);
    d % Pow(2, p)
  }

  /** Blk(d): a negative value wraps around. */
  function CastBlk(d: int): Blk {
    d % Radix()
  }

  /** The pieces as the caller wants them, followed by zeros up to a total. */
  function Wanted(data: seq<int>, p: nat, total: nat): seq<nat> {
    seq(total, k requires 0 <= k < total => if k < |data| then LowBits(data[k], p) else 0)
  }

  /** A negative piece lies below place k in the same block of c pieces. */
  ghost predicate Spilled(data: seq<int>, c: nat, k: nat)
    requires c > 0
  {
    exists j :: k - k % c <= j < k && j < |data| && data[j] < 0
  }

  /** The pieces as they are packed: ones wherever a negative piece has spilled. */
  ghost function Packed(data: seq<int>, p: nat, c: nat, total: nat): seq<nat>
    requires c > 0
  {
    PowPositive(2, p);
    seq(total, k requires 0 <= k < total => if Spilled(data, c, k) then Pow(2, p) - 1 else Wanted(data, p, total)[k])
  }

  /** Where a negative piece spills, the data has all ones anyway. */
  ghost predicate HarmlessSpills(data: seq<int>, p: nat, c: nat, total: nat)
    requires c > 0
  {
    forall k :: 0 <= k < total && Spilled(data, c, k) ==> k < |data| && LowBits(data[k], p) == Pow(2, p) - 1
  }

  /** The packed number is the one wanted exactly when no spill does harm. */
  lemma PackedAsWanted(data: seq<int>, p: nat, c: nat, total: nat)
    requires p > 0 && c > 0 && |data| <= total
    ensures Pieces(Packed(data, p, c, total), p, total) == Pieces(Wanted(data, p, |data|), p, |data|)
       <==> HarmlessSpills(data, p, c, total)
  {
    hide Pow, Pieces, Spilled;
    var packed, wanted := Packed(data, p, c, total), Wanted(data, p, total);
    PowMonotone(2, 1, p);
    assert Pow(2, 1) == 2 by { PowTwo(); }
    PaddedPieces(data, p, total);
    forall k | 0 <= k < total ensures packed[k] < Pow(2, p) && wanted[k] < Pow(2, p) {
    }
    if HarmlessSpills(data, p, c, total) {
      assert packed == wanted;
    } else if Pieces(packed, p, total) == Pieces(wanted, p, total) {
      PiecesUnique(packed, wanted, p, total);
      forall k | 0 <= k < total && Spilled(data, c, k) ensures k < |data| && LowBits(data[k], p) == Pow(2, p) - 1 {
        assert packed[k] == wanted[k];
      }
    }
  }

  lemma PowTwo()
    ensures Pow(2, 1) == 2
  {
  }

  /** Unsigned data, and data whose pieces fill a block, never spill. */
  lemma NothingSpills(data: seq<int>, p: nat, c: nat, total: nat)
    requires c > 0
    requires c == 1 || forall j :: 0 <= j < |data| ==> data[j] >= 0
    ensures HarmlessSpills(data, p, c, total)
  {
    hide LowBits;
    forall k: nat ensures c == 1 ==> k - k % c == k {
    }
  }

  /** Two bytes, the lower one negative: the block fills with ones and the second byte is lost. */
  lemma NegativePieceSpills()
    ensures var data, c := [-1, 0], N / 8;
            && c >= 4
            && Packed(data, 8, c, c) == seq(c, _ => 255)
            && Wanted(data, 8, 2) == [255, 0]
            && Pieces(Packed(data, 8, c, c), 8, c) != Pieces(Wanted(data, 8, 2), 8, 2)
  {
    hide Pieces;
    var data, c := [-1, 0], N / 8;
    assert Pow(2, 8) == 256;
    assert LowBits(-1, 8) == 255;
    assert LowBits(data[1], 8) == 0;
    forall k: nat | k < c ensures Spilled(data, c, k) <==> k > 0 {
      DivisionUnique(k, c, 0, k);
      assert k > 0 ==> k - k % c <= 0 < k && data[0] < 0;
    }
    assert !HarmlessSpills(data, 8, c, c);
    PackedAsWanted(data, 8, c, c);
  }

  lemma {:induction false} PaddedPieces(data: seq<int>, p: nat, total: nat)
    requires |data| <= total
    ensures Pieces(Wanted(data, p, total), p, total) == Pieces(Wanted(data, p, |data|), p, |data|)
  {
    if total > |data| {
      PaddedPieces(data, p, total - 1);
      PiecesPrefix(Wanted(data, p, total), Wanted(data, p, total - 1), p, total - 1);
    }
  }

  lemma {:induction false} PiecesPrefix(s: seq<nat>, t: seq<nat>, p: nat, k: nat)
    requires k <= |s| && k <= |t| && forall i :: 0 <= i < k ==> s[i] == t[i]
    ensures Pieces(s, p, k) == Pieces(t, p, k)
  {
    if k > 0 {
      PiecesPrefix(s, t, p, k - 1);
    }
  }

  lemma {:induction false} PiecesBound(s: seq<nat>, p: nat, k: nat)
    requires k <= |s| && forall i :: 0 <= i < k ==> s[i] < Pow(2, p)
    ensures 0 <= p * k && Pieces(s, p, k) < Pow(2, p * k)
  {
    MulNonNegative(p, k);
    if k == 0 {
      assert p * k == 0;
    } else {
      PiecesBound(s, p, k - 1);
      assert p * k == p + p * (k - 1);
      PowAdd(2, p, p * (k - 1));
      AboveLow(Pieces(s, p, k - 1), s[k - 1], Pow(2, p * (k - 1)), Pow(2, p));
    }
  }

  /** Pieces are determined by their number. */
  lemma {:induction false} PiecesUnique(s: seq<nat>, t: seq<nat>, p: nat, k: nat)
    requires k <= |s| && k <= |t| && Pieces(s, p, k) == Pieces(t, p, k)
    requires forall i :: 0 <= i < k ==> s[i] < Pow(2, p) && t[i] < Pow(2, p)
    ensures forall i :: 0 <= i < k ==> s[i] == t[i]
  {
    hide Pow;
    if k > 0 {
      PiecesBound(s, p, k - 1);
      PiecesBound(t, p, k - 1);
      var w := Pow(2, p * (k - 1));
      DivisionUnique(Pieces(s, p, k), w, s[k - 1], Pieces(s, p, k - 1));
      DivisionUnique(Pieces(t, p, k), w, t[k - 1], Pieces(t, p, k - 1));
      PiecesUnique(s, t, p, k - 1);
    }
  }

  lemma AboveLow(c: int, d: int, w: int, q: int)
    requires 0 <= c < w && 0 <= d < q
    ensures 0 <= d * w && c + d * w < q * w
  {
    MulNonNegative(d, w);
    MulMonotone(w, d + 1, q);
    assert (d + 1) * w == d * w + w;
  }

  // ---- one piece or-ed into a block

  /** What a block holds below place e, and ones above it after a spill. */
  function Filled(low: nat, spilled: bool, e: nat): int {
    low + if spilled then Radix() - Pow(2, e) else 0
  }

  /**
   Or-ing a piece into a block puts its bits in place, spills if it is negative, and
   changes nothing after a spill.
   */
  lemma PieceIntoBlock(cur: Blk, low: nat, spilled: bool, d: int, p: nat, e: nat)
    requires IsPiece(d, p) && e + p <= N
    requires low < Pow(2, e) && cur == Filled(low, spilled, e)
    ensures var bits := if spilled then Pow(2, p) - 1 else LowBits(d, p);
            && 0 <= bits * Pow(2, e) && low + bits * Pow(2, e) < Pow(2, e + p)
            && OrBlk(cur, ShiftLeftBlk(CastBlk(d), e)) == Filled(low + bits * Pow(2, e), spilled || d < 0, e + p)
  {
    hide Or, Pow, Radix, CastBlk, ShiftLeftBlk;
    var w, q, r := Pow(2, e), Pow(2, p), Pow(2, N - e);
    PowPositive(2, p);
    PowPositive(2, N - e);
    PowAdd(2, e, p);
    PowAdd(2, N - e, e);
    RadixIsPower();
    SplitShift(CastBlk(d), e);
    CastBits(d, p, N - e);
    var y := CastBlk(d) % r;
    ShiftedLoss(y, LowBits(d, p), q, r, w);
    if spilled {
      AboveLow(low, q - 1, w, q);
      OrOntoOnes(low, y, e, N - e);
    } else {
      AboveLow(low, LowBits(d, p), w, q);
      OrDisjoint(low, y, e);
    }
  }

  lemma ShiftedLoss(y: int, bits: int, q: int, r: int, w: int)
    ensures (q - 1) * w == w * q - w && (r - 1) * w == r * w - w
    ensures y == bits - q + r ==> y * w == bits * w - w * q + r * w
  {
  }

  lemma RadixIsPower()
    ensures Radix() == Pow(2, N)
  {
  }

  /** The m lowest bits of a piece widened to a block: itself, or wrapped around below zero. */
  lemma CastBits(d: int, p: nat, m: nat)
    requires IsPiece(d, p) && p <= m <= N
    ensures Pow(2, m) > 0
    ensures CastBlk(d) % Pow(2, m) == if d < 0 then LowBits(d, p) - Pow(2, p) + Pow(2, m) else LowBits(d, p)
  {
    hide Pow, Radix;
    PowMonotone(2, p - 1, p);
    PowMonotone(2, p, m);
    PowPositive(2, N - m);
    PowAdd(2, N - m, m);
    RadixIsPower();
    WrappedBits(d, Pow(2, p), Pow(2, m), Pow(2, N - m));
  }

  lemma WrappedBits(d: int, q: int, r: int, u: int)
    requires 0 < q <= r && u > 0 && -q <= d < q
    ensures u * r > 0
    ensures d % q == if d < 0 then d + q else d
    ensures d % (u * r) % r == if d < 0 then d + r else d
  {
    MulMonotone(r, 1, u);
    DivisionUnique(d, q, if d < 0 then -1 else 0, if d < 0 then d + q else d);
    DivisionUnique(d, u * r, if d < 0 then -1 else 0, if d < 0 then d + u * r else d);
    assert (u - 1) * r == u * r - r;
    DivisionUnique(d % (u * r), r, if d < 0 then u - 1 else 0, if d < 0 then d + r else d);
  }

  /** Nothing shows when or-ed onto ones. */
  lemma {:induction false} OrOntoOnes(low: nat, y: nat, e: nat, m: nat)
    requires low < Pow(2, e) && y < Pow(2, m)
    ensures 0 <= (Pow(2, m) - 1) * Pow(2, e) && 0 <= y * Pow(2, e)
    ensures Or(low + (Pow(2, m) - 1) * Pow(2, e), y * Pow(2, e)) == low + (Pow(2, m) - 1) * Pow(2, e)
  {
    PowPositive(2, e);
    PowPositive(2, m);
    MulNonNegative(Pow(2, m) - 1, Pow(2, e));
    MulNonNegative(y, Pow(2, e));
    if e > 0 {
      var h, ones := Pow(2, e - 1), Pow(2, m) - 1;
      PowPositive(2, e - 1);
      MulNonNegative(ones, h);
      MulNonNegative(y, h);
      DoubleProduct(ones, h);
      DoubleProduct(y, h);
      OrOntoOnes(low / 2, y, e - 1, m);
      OrDoubled(low, ones * h, y * h);
    } else {
      OrOntoAllOnes(y, m);
    }
  }

  /** An even number shows in an or only above the lowest bit. */
  lemma OrDoubled(low: nat, x: nat, y: nat)
    ensures Or(low + 2 * x, 2 * y) == low % 2 + 2 * Or(low / 2 + x, y)
  {
  }

  lemma DoubleProduct(x: int, h: int)
    ensures x * (2 * h) == 2 * (x * h)
  {
  }

  lemma OrHalves(x: nat, y: nat)
    ensures Or(x, y) == BitValue(Bit(x, 0) || Bit(y, 0)) + 2 * Or(x / 2, y / 2)
  {
  }

  lemma {:induction false} OrOntoAllOnes(y: nat, m: nat)
    requires y < Pow(2, m)
    ensures Or(Pow(2, m) - 1, y) == Pow(2, m) - 1
  {
    if m > 0 {
      PowPositive(2, m - 1);
      OrOntoAllOnes(y / 2, m - 1);
      OrHalves(Pow(2, m) - 1, y);
    }
  }

  // ---- blocks of pieces

  /** Place h of block b is place c * b + h of the whole. */
  lemma PieceInNumber(packed: seq<nat>, p: nat, c: nat, b: nat, h: nat, k: nat, v: nat, low: nat)
    requires p * c == N && k == c * b + h && k < |packed| && 0 <= p * h
    requires Pieces(packed, p, k) == v + low * Weight(b)
    ensures Pieces(packed, p, k + 1) == v + (low + packed[k] * Pow(2, p * h)) * Weight(b)
  {
    hide Weight;
    WeightIsPower(b);
    MulAssociative(p, c, b);
    assert p * k == N * b + p * h;
    PowAdd(2, p * h, N * b);
    PieceProduct(low, packed[k], Pow(2, p * h), Weight(b));
  }

  lemma PieceProduct(low: int, d: int, e: int, w: int)
    ensures (low + d * e) * w == low * w + d * (e * w)
  {
    MulAssociative(d, e, w);
  }

  /** The places of a block after the end of the data. */
  lemma {:induction false} RestOfBlock(packed: seq<nat>, p: nat, c: nat, b: nat, h: nat, v: nat, low: nat,
                                       spilled: bool)
    requires p > 0 && p * c == N && h <= c && 0 <= c * b && c * b + c <= |packed|
    requires forall k :: c * b + h <= k < c * b + c ==> packed[k] == if spilled then Pow(2, p) - 1 else 0
    requires 0 <= p * h && Pieces(packed, p, c * b + h) == v + low * Weight(b)
    ensures Pieces(packed, p, c * b + c) == v + Filled(low, spilled, p * h) * Weight(b)
    decreases c - h
  {
    hide Pow, Weight, Radix, Pieces;
    if h == c {
      RadixIsPower();
    } else {
      var k, w := c * b + h, Pow(2, p * h);
      PieceInNumber(packed, p, c, b, h, k, v, low);
      assert p * (h + 1) == p + p * h;
      PowAdd(2, p, p * h);
      PowPositive(2, p * h);
      PowPositive(2, p);
      MulNonNegative(packed[k], w);
      RestOfBlock(packed, p, c, b, h + 1, v, low + packed[k] * w, spilled);
      assert spilled ==> packed[k] * w == Pow(2, p) * w - w;
    }
  }

  /** The state of a block after h of its pieces. */
  ghost predicate BlockState(data: seq<int>, p: nat, c: nat, packed: seq<nat>, b: nat, h: nat, v: nat, cur: Blk,
                             low: nat)
    requires c > 0 && 0 <= c * b && c * b + h <= |packed| && 0 <= p * h
  {
    && low < Pow(2, p * h)
    && cur == Filled(low, SpilledIn(data, c * b, h), p * h)
    && Pieces(packed, p, c * b + h) == v + low * Weight(b)
  }

  /** One of the h pieces from start on is negative. */
  ghost predicate SpilledIn(data: seq<int>, start: nat, h: nat) {
    exists j :: start <= j < start + h && j < |data| && data[j] < 0
  }

  lemma SpilledInBlock(data: seq<int>, c: nat, b: nat, h: nat)
    requires h < c && 0 <= c * b
    ensures Spilled(data, c, c * b + h) == SpilledIn(data, c * b, h)
  {
    assert b * c + h == c * b + h;
    DivisionUnique(c * b + h, c, b, h);
  }

  lemma BlockStarts(data: seq<int>, p: nat, c: nat, packed: seq<nat>, b: nat, v: nat)
    requires c > 0 && 0 <= c * b <= |packed| && Pieces(packed, p, c * b) == v
    ensures p * 0 == 0 && BlockState(data, p, c, packed, b, 0, v, 0, 0)
  {
    assert p * 0 == 0 && Pow(2, 0) == 1;
    assert 0 * Weight(b) == 0;
  }

  /** Or-ing the next piece. */
  lemma BlockGoesOn(data: seq<int>, p: nat, c: nat, packed: seq<nat>, b: nat, h: nat, v: nat, cur: Blk, low: nat)
    returns (low': nat)
    requires p > 0 && p * c == N && h < c && 0 <= c * b && c * b + h < |data| && c * b + h < |packed| && 0 <= p * h
    requires packed == Packed(data, p, c, |packed|) && IsPiece(data[c * b + h], p)
    requires BlockState(data, p, c, packed, b, h, v, cur, low)
    ensures 0 <= p * (h + 1)
    ensures BlockState(data, p, c, packed, b, h + 1, v, OrBlk(cur, ShiftLeftBlk(CastBlk(data[c * b + h]), p * h)), low')
  {
    hide Pow, Pieces, Or, OrBlk, ShiftLeftBlk, LowBits, Radix, CastBlk, IsPiece;
    var k := c * b + h;
    var d := data[k];
    var spilled := SpilledIn(data, c * b, h);
    MulMonotone(p, h + 1, c);
    assert p * (h + 1) == p * h + p;
    PieceIntoBlock(cur, low, spilled, d, p, p * h);
    SpilledInBlock(data, c, b, h);
    PieceInNumber(packed, p, c, b, h, k, v, low);
    SpilledFurther(data, c * b, h);
    low' := low + packed[k] * Pow(2, p * h);
  }

  lemma SpilledFurther(data: seq<int>, start: nat, h: nat)
    requires start + h < |data|
    ensures SpilledIn(data, start, h + 1) <==> SpilledIn(data, start, h) || data[start + h] < 0
  {
  }

  /** At the end of a block, or of the data within it, the block is complete. */
  lemma BlockEnds(data: seq<int>, p: nat, c: nat, packed: seq<nat>, b: nat, h: nat, v: nat, cur: Blk, low: nat)
    requires p > 0 && p * c == N && h <= c && 0 <= c * b && c * b + c <= |packed| && 0 <= p * h
    requires packed == Packed(data, p, c, |packed|) && (h == c || c * b + h == |data|)
    requires BlockState(data, p, c, packed, b, h, v, cur, low)
    ensures Pieces(packed, p, c * b + c) == v + cur * Weight(b)
  {
    hide Pow, Pieces, LowBits, Weight, Radix;
    var spilled := SpilledIn(data, c * b, h);
    forall k | c * b + h <= k < c * b + c ensures packed[k] == if spilled then Pow(2, p) - 1 else 0 {
      SpilledInBlock(data, c, b, k - c * b);
    }
    RestOfBlock(packed, p, c, b, h, v, low, spilled);
  }
}
