/** Text and raw data to and from big integers. */
module BigIntegerUtils {
  import opened Exceptions
  import opened Powers
  import opened Bits
  import opened Blocks
  import opened BlockShifts
  import opened RawData
  import opened Numerals
  import opened BigUnsigneds
  import opened BigIntegers
  import opened BigUnsignedInABases

  method BigUnsignedToString(x: BigUnsigned, base: Digit) returns (r: Result<string>)
    requires x.Valid()
    ensures base < 2 ==> r == Err(BaseTooSmall)
    ensures base > 36 ==> r == Err(BaseTooLarge)
    ensures 2 <= base <= 36 ==> r == Ok(WriteNumber(x.Number(), base))
  {
    hide Val, Weight, Value, Canonical;
    var digits := BigUnsignedInABase.FromUnsigned(x, base);
    if digits.Err? {
      return Err(digits.error);
    }
    DigitsAreDigits(x.Number(), base);
    r := digits.value.ToText();
  }

  method BigIntegerToString(x: BigInteger) returns (s: string)
    requires x.Valid()
    ensures s == WriteInteger(x.Int())
  {
    hide Val, Weight, Value, Canonical, WriteNumber;
    x.SignTells();
    var digits := BigUnsignedToString(x.mag, 10);
    return if x.sign == Negative then "-" + digits.value else digits.value;
  }

  method StringToBigUnsigned(s: string) returns (r: Result<BigUnsigned>)
    ensures r.Err? ==> ReadText(s, 10) == Err(r.error)
    ensures r.Ok? ==> fresh(r.value) && fresh(r.value.blk) && r.value.Valid()
    ensures r.Ok? ==> ReadText(s, 10) == Ok(r.value.Number())
  {
    hide Val, Weight, Value, Canonical, ReadText;
    var digits := BigUnsignedInABase.FromText(s, 10);
    if digits.Err? {
      return Err(digits.error);
    }
    var x := digits.value.ToUnsigned();
    return Ok(x);
  }

  method StringToBigInteger(s: string) returns (r: Result<BigInteger>)
    ensures r.Err? ==> ReadInteger(s) == Err(r.error)
    ensures r.Ok? ==> fresh(r.value) && r.value.Valid()
    ensures r.Ok? ==> ReadInteger(s) == Ok(r.value.Int())
  {
    hide Val, Weight, Value, Canonical, ReadText;
    var signed := |s| > 0 && (s[0] == '-' || s[0] == '+');
    var x := StringToBigUnsigned(if signed then s[1..] else s);
    if x.Err? {
      return Err(x.error);
    }
    r := BigInteger.FromSigned(x.value, if signed && s[0] == '-' then Negative else Positive);
  }

  // ---- raw data

  /** Packs block b; stops early at the end of the data. */
  method PackBlock(data: seq<int>, p: nat, c: nat, pieceNum0: nat, ghost packed: seq<nat>, ghost b: nat, ghost v: nat)
    returns (curBlock: Blk, pieceNum: nat)
    requires p > 0 && p * c == N && pieceNum0 == c * b < |data| && c * b + c <= |packed|
    requires forall k :: 0 <= k < |data| ==> IsPiece(data[k], p)
    requires packed == Packed(data, p, c, |packed|) && Pieces(packed, p, pieceNum0) == v
    ensures pieceNum0 <= pieceNum <= |data|
    ensures pieceNum == pieceNum0 + c || pieceNum == |data| < pieceNum0 + c
    ensures Pieces(packed, p, c * b + c) == v + curBlock * Weight(b)
  {
    hide Weight, Pow, Or, OrBlk, ShiftLeftBlk, CastBlk, Pieces, Packed, BlockState, IsPiece;
    var pieceNumHere := 0;
    curBlock, pieceNum := 0, pieceNum0;
    BlockStarts(data, p, c, packed, b, v);
    ghost var low := 0;
    while pieceNumHere < c && pieceNum < |data|
      invariant pieceNumHere <= c && pieceNum == c * b + pieceNumHere <= |data|
      invariant 0 <= p * pieceNumHere && BlockState(data, p, c, packed, b, pieceNumHere, v, curBlock, low)
    {
      low := BlockGoesOn(data, p, c, packed, b, pieceNumHere, v, curBlock, low);
      curBlock := OrBlk(curBlock, ShiftLeftBlk(CastBlk(data[pieceNum]), p * pieceNumHere));
      pieceNumHere, pieceNum := pieceNumHere + 1, pieceNum + 1;
    }
    BlockEnds(data, p, c, packed, b, pieceNumHere, v, curBlock, low);
  }

  /** The number of pieces that the blocks have room for. */
  function Room(length: nat, p: nat): int
    requires 0 < p <= N
  {
    var c := N / p;
    if c > 0 then c * ((length + c - 1) / c) else 0
  }

  /**
   Binary data, in pieces of a signed or unsigned type whose size divides the block size,
   with a sign.  The pieces count as they are packed, spills included.
   */
  method DataToBigInteger(data: seq<int>, pieceSizeInBits: nat, sign: Sign) returns (r: Result<BigInteger>)
    requires 0 < pieceSizeInBits <= N && N % pieceSizeInBits == 0
    requires forall k :: 0 <= k < |data| ==> IsPiece(data[k], pieceSizeInBits)
    ensures N / pieceSizeInBits > 0 && |data| <= Room(|data|, pieceSizeInBits)
    ensures var p, room := pieceSizeInBits, Room(|data|, pieceSizeInBits);
            var v := Pieces(Packed(data, p, N / p, room), p, room);
            && (r.Err? <==> sign == Zero && v != 0)
            && (r.Err? ==> r.error == ZeroSignForNonzero)
            && (r.Ok? ==> fresh(r.value) && r.value.Valid() && r.value.Int() == Signed(sign, v))
  {
    hide Val, Weight, Canonical, Pow, Pieces, Packed, IsPiece;
    var piecesPerBlock := N / pieceSizeInBits;
    PiecesFillBlock(pieceSizeInBits);
    var numBlocks := (|data| + piecesPerBlock - 1) / piecesPerBlock;
    EnoughBlocks(|data|, piecesPerBlock);
    ghost var packed := Packed(data, pieceSizeInBits, piecesPerBlock, piecesPerBlock * numBlocks);
    PackedLength(data, pieceSizeInBits, piecesPerBlock, piecesPerBlock * numBlocks);
    var blocks := new Blk[numBlocks];
    var pieceNum := 0;
    NothingPacked(packed, pieceSizeInBits, blocks[..]);
    for blockNum := 0 to numBlocks
      invariant 0 <= piecesPerBlock * blockNum <= |packed|
      invariant pieceNum <= |data|
      invariant pieceNum == piecesPerBlock * blockNum || pieceNum == |data| < piecesPerBlock * blockNum
      invariant Pieces(packed, pieceSizeInBits, piecesPerBlock * blockNum) == Val(blocks[..], blockNum)
    {
      StillBehind(|data|, piecesPerBlock, numBlocks, blockNum);
      ghost var before := blocks[..];
      var curBlock;
      ghost var v := Val(before, blockNum);
      curBlock, pieceNum := PackBlock(data, pieceSizeInBits, piecesPerBlock, pieceNum, packed, blockNum, v);
      blocks[blockNum] := curBlock;
      StoreBlock(before, blocks[..], blockNum);
    }
    assert blocks[..numBlocks] == blocks[..];
    r := BigInteger.FromBlocks(blocks, numBlocks, sign);
  }

  lemma PackedLength(data: seq<int>, p: nat, c: nat, total: nat)
    requires c > 0
    ensures |Packed(data, p, c, total)| == total
  {
  }

  lemma NothingPacked(packed: seq<nat>, p: nat, s: seq<Blk>)
    ensures Pieces(packed, p, 0) == 0 == Val(s, 0)
  {
  }

  lemma PiecesFillBlock(p: nat)
    requires p > 0 && N % p == 0
    ensures 0 < N / p && p * (N / p) == N
  {
    var q := N / p;
    assert N == p * q + N % p;
    if q <= 0 {
      MulMonotone(p, q, 0);
    }
  }

  lemma EnoughBlocks(n: nat, c: nat)
    requires c > 0
    ensures 0 <= (n + c - 1) / c
    ensures n <= c * ((n + c - 1) / c) < n + c
  {
    QuotientBound(n + c - 1, c);
    assert n + c - 1 == c * ((n + c - 1) / c) + (n + c - 1) % c;
  }

  lemma StillBehind(n: nat, c: nat, blocks: nat, b: nat)
    requires c > 0 && b < blocks && n <= c * blocks < n + c
    ensures 0 <= c * b < n && c * (b + 1) == c * b + c <= c * blocks
  {
    MulNonNegative(c, b);
    MulMonotone(c, b + 1, blocks);
    assert c * (b + 1) == c * b + c;
  }
}
