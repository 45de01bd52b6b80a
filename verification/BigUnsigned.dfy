/**
 Nonnegative integers of any size, stored in a growing array of blocks.

 Methods overwrite the receiver; operands may be the receiver itself.  No two
 objects share a block array, which is what Apart says of a receiver and an operand.
 */
module BigUnsigneds {
  import opened Exceptions
  import opened Powers
  import opened Bits
  import opened Blocks
  import opened BlockShifts
  import opened PartialProducts
  import opened TrialSubtraction
  import opened ShiftAmounts
  import opened NumberBits

  datatype CmpRes = Less | Equal | Greater

  class BigUnsigned {
    var cap: nat
    var len: nat
    var blk: array<Blk>

    /** The memory is consistent. */
    predicate Wf()
      reads this
    {
      cap == blk.Length && len <= cap
    }

    /** The memory is consistent and there is no leading zero block. */
    predicate Valid()
      reads this, blk
      ensures Valid() ==> Wf()
    {
      Wf() && Canonical(blk[..len])
    }

    /** The number stored. */
    ghost function Number(): nat
      requires Wf()
      reads this, blk
    {
      Value(blk[..len])
    }

    /** x is the receiver itself or a different object with its own array. */
    predicate Apart(x: BigUnsigned)
      reads this, x
    {
      x == this || x.blk != blk
    }

    lemma NumberIsPrefix()
      requires Wf()
      ensures Number() == Val(blk[..], len)
    {
      ValPrefix(blk[..], len);
      assert blk[..][..len] == blk[..len];
    }

    constructor ()
      ensures Valid() && fresh(blk)
      ensures Number() == 0
    {
      cap, len := 0, 0;
      blk := new Blk[0];
    }

    /** Copies an array of blocks and drops its leading zeros. */
    constructor FromBlocks(b: array<Blk>, blen: nat)
      requires blen <= b.Length
      ensures Valid() && fresh(blk)
      ensures Number() == Value(b[..blen])
    {
      cap, len := blen, blen;
      blk := new Blk[blen];
      new;
      for i := 0 to len
        modifies blk
        invariant blk[..i] == b[..i]
      {
        blk[i] := b[i];
      }
      ZapLeadingZeros();
    }

    constructor FromBlk(x: Blk)
      ensures Valid() && fresh(blk)
      ensures Number() == x
    {
      cap, len := if x == 0 then 0 else 1, if x == 0 then 0 else 1;
      blk := new Blk[if x == 0 then 0 else 1];
      new;
      if x != 0 {
        blk[0] := x;
        assert Val(blk[..1], 0) == 0;
      }
    }

    constructor Copy(x: BigUnsigned)
      requires x.Wf()
      ensures Wf() && fresh(blk)
      ensures blk[..len] == x.blk[..x.len]
      ensures Number() == x.Number() && (x.Valid() ==> Valid())
    {
      cap, len := x.len, x.len;
      blk := new Blk[x.len];
      new;
      for i := 0 to len
        modifies blk
        invariant blk[..i] == x.blk[..i]
      {
        blk[i] := x.blk[i];
      }
    }

    method Allocate(c: nat)
      requires cap == blk.Length
      modifies this`cap, this`blk
      ensures cap == blk.Length && c <= cap
      ensures if c > old(cap) then fresh(blk) else blk == old(blk)
    {
      if c > cap {
        cap := c;
        blk := new Blk[cap];
      }
    }

    method AllocateAndCopy(c: nat)
      requires Wf()
      modifies this`cap, this`blk
      ensures Wf() && c <= cap
      ensures if c > old(cap) then fresh(blk) else blk == old(blk)
      ensures blk[..len] == old(blk[..len])
    {
      if c > cap {
        var oldBlk := blk;
        cap := c;
        blk := new Blk[cap];
        for i := 0 to len
          modifies blk
          invariant blk[..i] == oldBlk[..i]
        {
          blk[i] := oldBlk[i];
        }
      }
    }

    /** Makes the receiver n zero blocks. */
    method MakeZeros(n: nat)
      requires Wf()
      modifies this, blk
      ensures Wf() && len == n && (blk == old(blk) || fresh(blk))
      ensures forall j :: 0 <= j < n ==> blk[j] == 0
    {
      len := n;
      Allocate(len);
      for i := 0 to len
        modifies blk
        invariant forall j :: 0 <= j < i ==> blk[j] == 0
      {
        blk[i] := 0;
      }
    }

    /** Adds a leading zero block: allocation first, then the longer length. */
    method AppendZeroBlock()
      requires Wf()
      modifies this, blk
      ensures Wf() && (blk == old(blk) || fresh(blk))
      ensures len == old(len) + 1
      ensures Number() == old(Number())
    {
      ghost var x := blk[..len];
      AllocateAndCopy(len + 1);
      assert blk[..len] == x;
      len := len + 1;
      blk[len - 1] := 0;
      assert blk[..len] == x + [0];
      AppendedZero(x, blk[..len]);
    }

    /** Drops every leading zero block. */
    method ZapLeadingZeros()
      requires Wf()
      modifies this`len
      ensures Valid()
      ensures len <= old(len)
      ensures forall j :: len <= j < old(len) ==> blk[j] == 0
      ensures Number() == old(Number())
    {
      while len > 0 && blk[len - 1] == 0
        invariant Wf() && len <= old(len)
        invariant forall j :: len <= j < old(len) ==> blk[j] == 0
        invariant Number() == old(Number())
      {
        ValPrefix(blk[..len], len - 1);
        assert blk[..len][..len - 1] == blk[..len - 1];
        len := len - 1;
      }
    }

    /** operator = */
    method Assign(x: BigUnsigned)
      requires Wf() && x.Wf() && Apart(x)
      modifies this, blk
      ensures Wf() && (blk == old(blk) || fresh(blk))
      ensures blk[..len] == old(x.blk[..x.len])
      ensures Number() == old(x.Number())
    {
      if this == x {
        return;
      }
      len := x.len;
      Allocate(len);
      for i := 0 to len
        modifies blk
        invariant blk[..i] == x.blk[..i]
      {
        blk[i] := x.blk[i];
      }
    }

    /** The loops of an addition: a2 is the longer input, and a carry may be left over. */
    method AddBlocks(a2: BigUnsigned, b2: BigUnsigned) returns (carryIn: bool)
      requires a2.Wf() && b2.Wf() && a2.blk != blk && b2.blk != blk
      requires b2.len <= a2.len <= blk.Length
      modifies blk
      ensures Val(blk[..], a2.len) + Carry(carryIn, a2.len) == a2.Number() + b2.Number()
    {
      hide Val, Weight, Carry;
      ghost var x, y := a2.blk[..a2.len], b2.blk[..b2.len];
      var i := 0;
      carryIn := false;
      NothingYet(blk[..], x, y);
      while i < b2.len
        invariant i <= b2.len
        invariant Val(blk[..], i) + Carry(carryIn, i) == Val(x, i) + Val(y, i)
      {
        ghost var before := blk[..];
        var temp := WrapAdd(a2.blk[i], b2.blk[i]);
        var carryOut := temp < a2.blk[i];
        if carryIn {
          temp := WrapAdd(temp, 1);
          carryOut := carryOut || temp == 0;
        }
        blk[i] := temp;
        StoreBlock(before, blk[..], i);
        AddColumn(x, y, carryIn, temp, carryOut, i);
        carryIn := carryOut;
        i := i + 1;
      }
      while i < a2.len && carryIn
        invariant b2.len <= i <= a2.len
        invariant Val(blk[..], i) + Carry(carryIn, i) == Val(x, i) + Val(y, i)
      {
        ghost var before := blk[..];
        var temp := WrapAdd(a2.blk[i], 1);
        carryIn := temp == 0;
        blk[i] := temp;
        StoreBlock(before, blk[..], i);
        AddColumn(x, y, true, temp, carryIn, i);
        i := i + 1;
      }
      while i < a2.len
        invariant b2.len <= i <= a2.len
        invariant carryIn ==> i == a2.len
        invariant Val(blk[..], i) + Carry(carryIn, i) == Val(x, i) + Val(y, i)
      {
        ghost var before := blk[..];
        blk[i] := a2.blk[i];
        StoreBlock(before, blk[..], i);
        AddColumn(x, y, false, blk[i], false, i);
        i := i + 1;
      }
      ValPadded(y, a2.len);
    }

    /** Adds two nonzero numbers, neither of which is the receiver; a2 is the longer. */
    method AddLonger(a2: BigUnsigned, b2: BigUnsigned)
      requires Wf() && a2.Valid() && b2.Valid()
      requires a2 != this && a2.blk != blk && b2 != this && b2.blk != blk
      requires 0 < b2.len <= a2.len
      modifies this, blk
      ensures Valid() && (blk == old(blk) || fresh(blk))
      ensures Number() == a2.Number() + b2.Number()
    {
      hide Val, Weight;
      CanonicalBounds(a2.blk[..a2.len]);
      len := a2.len + 1;
      Allocate(len);
      var carryIn := AddBlocks(a2, b2);
      if carryIn {
        ghost var before := blk[..];
        blk[a2.len] := 1;
        StoreBlock(before, blk[..], a2.len);
      } else {
        len := len - 1;
      }
      NumberIsPrefix();
      LargeIsCanonical(blk[..len]);
    }

    method AssignBlk(x: Blk)
      requires Wf()
      modifies this, blk
      ensures Valid() && (blk == old(blk) || fresh(blk))
      ensures Number() == x
    {
      var t := new BigUnsigned.FromBlk(x);
      Assign(t);
    }

    method Add(a: BigUnsigned, b: BigUnsigned)
      requires Wf() && a.Valid() && b.Valid() && Apart(a) && Apart(b)
      modifies this, blk
      ensures Valid() && (blk == old(blk) || fresh(blk))
      ensures Number() == old(a.Number()) + old(b.Number())
      decreases this == a || this == b
    {
      hide Val, Weight;
      if this == a || this == b {
        var tmpThis := new BigUnsigned();
        tmpThis.Add(a, b);
        Assign(tmpThis);
        return;
      }
      CanonicalZero(a.blk[..a.len]);
      CanonicalZero(b.blk[..b.len]);
      if a.len == 0 {
        Assign(b);
      } else if b.len == 0 {
        Assign(a);
      } else if a.len >= b.len {
        AddLonger(a, b);
      } else {
        AddLonger(b, a);
      }
    }

    /** The loops of a subtraction.  A borrow left over says that the result is negative. */
    method SubtractBlocks(a: BigUnsigned, b: BigUnsigned) returns (borrowIn: bool)
      requires a.Wf() && b.Wf() && a.blk != blk && b.blk != blk
      requires b.len <= a.len <= blk.Length
      modifies blk
      ensures Val(blk[..], a.len) + b.Number() == a.Number() + Carry(borrowIn, a.len)
    {
      hide Val, Weight, Carry;
      ghost var x, y := a.blk[..a.len], b.blk[..b.len];
      var i := 0;
      borrowIn := false;
      NothingYet(blk[..], x, y);
      while i < b.len
        invariant i <= b.len
        invariant Val(blk[..], i) + Val(y, i) == Val(x, i) + Carry(borrowIn, i)
      {
        ghost var before := blk[..];
        var temp := WrapSub(a.blk[i], b.blk[i]);
        var borrowOut := temp > a.blk[i];
        if borrowIn {
          borrowOut := borrowOut || temp == 0;
          temp := WrapSub(temp, 1);
        }
        blk[i] := temp;
        StoreBlock(before, blk[..], i);
        SubtractColumn(x, y, borrowIn, temp, borrowOut, i);
        borrowIn := borrowOut;
        i := i + 1;
      }
      while i < a.len && borrowIn
        invariant b.len <= i <= a.len
        invariant Val(blk[..], i) + Val(y, i) == Val(x, i) + Carry(borrowIn, i)
      {
        ghost var before := blk[..];
        borrowIn := a.blk[i] == 0;
        blk[i] := WrapSub(a.blk[i], 1);
        StoreBlock(before, blk[..], i);
        SubtractColumn(x, y, true, blk[i], borrowIn, i);
        i := i + 1;
      }
      if !borrowIn {
        while i < a.len
          invariant b.len <= i <= a.len
          invariant Val(blk[..], i) + Val(y, i) == Val(x, i) + Carry(false, i)
        {
          ghost var before := blk[..];
          blk[i] := a.blk[i];
          StoreBlock(before, blk[..], i);
          SubtractColumn(x, y, false, blk[i], false, i);
          i := i + 1;
        }
      }
      ValPadded(y, a.len);
    }

    /**
     A negative result is refused.  The receiver is then zero, unless the lengths
     already told or a temporary stood in for it: it is then as before.
     */
    method Subtract(a: BigUnsigned, b: BigUnsigned) returns (status: Status)
      requires Wf() && a.Valid() && b.Valid() && Apart(a) && Apart(b)
      modifies this, blk
      ensures Wf() && (blk == old(blk) || fresh(blk))
      ensures status == if old(a.Number()) < old(b.Number()) then Thrown(NegativeResult) else Done
      ensures status == Done ==> Valid() && Number() == old(a.Number()) - old(b.Number())
      ensures status == Thrown(NegativeResult) ==>
                if this == a || this == b || old(a.len) < old(b.len) then unchanged(this) && unchanged(old(blk))
                else len == 0
      decreases this == a || this == b
    {
      hide Val, Weight;
      if this == a || this == b {
        var tmpThis := new BigUnsigned();
        status := tmpThis.Subtract(a, b);
        if status == Done {
          Assign(tmpThis);
        }
        return;
      }
      CanonicalZero(b.blk[..b.len]);
      if b.len == 0 {
        Assign(a);
        return Done;
      } else if a.len < b.len {
        LongerIsLarger(a.blk[..a.len], b.blk[..b.len]);
        return Thrown(NegativeResult);
      }
      len := a.len;
      Allocate(len);
      var borrowIn := SubtractBlocks(a, b);
      NumberIsPrefix();
      ValBound(blk[..], len);
      if borrowIn {
        len := 0;
        return Thrown(NegativeResult);
      }
      ZapLeadingZeros();
      return Done;
    }

    // ---- one more and one less

    /** The blocks from k on still being those of x, only the number below k has changed. */
    lemma RestAgrees(x: seq<Blk>, k: nat)
      requires Wf() && |x| == len && k <= len && blk[k..len] == x[k..]
      ensures Number() - Value(x) == Val(blk[..], k) - Val(x, k)
    {
      forall j | k <= j < len ensures BlockAt(blk[..], j) == BlockAt(x, j) {
        assert blk[j] == blk[k..len][j - k] == x[k..][j - k];
      }
      ValAgree(blk[..], x, k, len);
      NumberIsPrefix();
    }

    method FinishIncrement(ghost x: seq<Blk>, i: nat, carry: bool)
      requires Wf() && |x| == len && Canonical(x)
      requires i <= len && (carry ==> i == len)
      requires Val(blk[..], i) + Carry(carry, i) == Val(x, i) + 1
      requires blk[i..len] == x[i..]
      modifies this, blk
      ensures Valid() && (blk == old(blk) || fresh(blk))
      ensures Number() == Value(x) + 1
    {
      hide Val, Weight;
      ghost var before := blk[..];
      if carry {
        AllocateAndCopy(len + 1);
        ghost var copied := blk[..];
        len := len + 1;
        blk[i] := 1;
        assert copied[..i] == before[..i];
        ValSame(before, copied, i);
        StoreBlock(copied, blk[..], i);
      } else {
        RestAgrees(x, i);
      }
      NumberIsPrefix();
      if |x| > 0 {
        CanonicalBounds(x);
      }
      NothingYet(blk[..], x, []);
      LargeIsCanonical(blk[..len]);
    }

    /** operator ++ */
    method Increment()
      requires Valid()
      modifies this, blk
      ensures Valid() && (blk == old(blk) || fresh(blk))
      ensures Number() == old(Number()) + 1
    {
      hide Val, Weight, Carry;
      ghost var x := blk[..len];
      var i, carry := 0, true;
      NothingYet(blk[..], x, []);
      while i < len && carry
        modifies blk
        invariant i <= len
        invariant Val(blk[..], i) + Carry(carry, i) == Val(x, i) + 1
        invariant blk[i..len] == x[i..]
      {
        ghost var before := blk[..];
        assert blk[i] == blk[i..len][0];
        blk[i] := WrapAdd(blk[i], 1);
        carry := blk[i] == 0;
        StoreBlock(before, blk[..], i);
        CarryColumn(x, blk[i], carry, i);
        i := i + 1;
      }
      FinishIncrement(x, i, carry);
    }

    /** Drops one leading zero block where the value tells that there is no other. */
    method DropLeadingZero()
      requires Wf() && len > 0
      requires len >= 2 ==> Weight(len - 2) <= Number()
      modifies this`len
      ensures Valid()
      ensures Number() == old(Number())
    {
      OneZapSuffices(blk[..len]);
      assert blk[..len][..len - 1] == blk[..len - 1];
      if blk[len - 1] == 0 {
        len := len - 1;
      }
    }

    /** operator --: the borrow stops inside the number, so the loop needs no bound. */
    method Decrement() returns (status: Status)
      requires Valid()
      modifies this, blk
      ensures Valid() && blk == old(blk)
      ensures status == if old(Number()) == 0 then Thrown(DecrementOfZero) else Done
      ensures Number() == if old(Number()) == 0 then 0 else old(Number()) - 1
    {
      hide Val, Weight, Carry;
      ghost var x := blk[..len];
      CanonicalZero(x);
      if len == 0 {
        return Thrown(DecrementOfZero);
      }
      var i, borrow := 0, true;
      NothingYet(blk[..], x, []);
      while borrow
        modifies blk
        invariant i <= len
        invariant Val(blk[..], i) + 1 == Val(x, i) + Carry(borrow, i)
        invariant blk[i..len] == x[i..]
        decreases len - i
      {
        ghost var before := blk[..];
        BorrowStopsInside(blk[..], x, i);
        assert blk[i] == blk[i..len][0];
        borrow := blk[i] == 0;
        blk[i] := WrapSub(blk[i], 1);
        StoreBlock(before, blk[..], i);
        BorrowColumn(x, blk[i], borrow, i);
        i := i + 1;
      }
      RestAgrees(x, i);
      CarryValue(false, i);
      if len >= 2 {
        OneLessIsLarge(x, Number());
      }
      DropLeadingZero();
      return Done;
    }

    lemma CarryStopsInside(x: seq<Blk>, k: nat, v: nat)
      requires k <= |x| <= blk.Length
      requires Value(x) + v < Weight(|x|)
      requires Val(blk[..], k) + Carry(true, k) == Val(x, k) + v
      ensures k < |x|
    {
    }

    lemma BorrowStopsInside(r: seq<Blk>, x: seq<Blk>, i: nat)
      requires i <= |x| && 0 < Value(x)
      requires Val(r, i) + 1 == Val(x, i) + Carry(true, i)
      ensures i < |x|
    {
      ValBound(r, i);
    }

    // ---- multiplication

    /** Adds b << (i blocks and i2 bits), which the caller knows to fit. */
    method AddShifted(b: BigUnsigned, i: nat, i2: nat)
      requires Wf() && b.Wf() && b.blk != blk
      requires i2 < N && i + b.len + 1 <= len
      requires Number() + Value(Shifted(b.blk[..b.len], i, i2)) < Weight(len)
      modifies blk
      ensures Number() == old(Number()) + Value(Shifted(b.blk[..b.len], i, i2))
    {
      hide Val, Weight, Carry, Shifted, ShiftedBlock;
      ghost var x, z := blk[..len], Shifted(b.blk[..b.len], i, i2);
      ShiftedAt(b.blk[..b.len], i, i2);
      ValSame(blk[..], x, i);
      var j, k, carryIn := 0, i, false;
      CarryValue(false, k);
      while j <= b.len
        invariant j <= b.len + 1 && k == i + j
        invariant Val(blk[..], k) + Carry(carryIn, k) == Val(x, k) + Val(z, k)
        invariant blk[k..len] == x[k..]
      {
        ghost var before := blk[..];
        assert blk[k] == blk[k..len][0];
        var temp := WrapAdd(blk[k], ShiftedBlock(b.blk[..b.len], j, i2));
        var carryOut := temp < blk[k];
        if carryIn {
          temp := WrapAdd(temp, 1);
          carryOut := carryOut || temp == 0;
        }
        blk[k] := temp;
        StoreBlock(before, blk[..], k);
        AddColumn(x, z, carryIn, temp, carryOut, k);
        carryIn := carryOut;
        j, k := j + 1, k + 1;
      }
      while carryIn
        invariant |z| <= k <= len
        invariant Val(blk[..], k) + Carry(carryIn, k) == Val(x, k) + Value(z)
        invariant blk[k..len] == x[k..]
        decreases len - k
      {
        ghost var before := blk[..];
        CarryStopsInside(x, k, Value(z));
        assert blk[k] == blk[k..len][0];
        blk[k] := WrapAdd(blk[k], 1);
        carryIn := blk[k] == 0;
        StoreBlock(before, blk[..], k);
        CarryColumn(x, blk[k], carryIn, k);
        k := k + 1;
      }
      CarryValue(false, k);
      RestAgrees(x, k);
    }

    /** For each 1-bit of block i of a, adds b shifted to its place. */
    method AddBlockTimes(a: BigUnsigned, b: BigUnsigned, i: nat)
      requires Wf() && a.Wf() && b.Wf() && a.blk != blk && b.blk != blk
      requires i < a.len && len == a.len + b.len
      requires Number() == Val(a.blk[..a.len], i) * b.Number()
      modifies blk
      ensures Number() == Val(a.blk[..a.len], i + 1) * b.Number()
    {
      hide Val, Weight, Shifted, LowPart, Pow, And;
      ghost var x, y := a.blk[..a.len], b.blk[..b.len];
      LowPartEnds(x, i);
      for i2 := 0 to N
        invariant Number() == LowPart(x, i, i2) * Value(y)
      {
        PartialStep(x, y, i, i2);
        MaskSelectsBit(x[i], i2);
        if And(a.blk[i], ShiftLeftBlk(1, i2)) != 0 {
          AddShifted(b, i, i2);
        }
      }
    }

    /** Shift-and-add over all blocks of a; neither operand is the receiver. */
    method MultiplyNonzero(a: BigUnsigned, b: BigUnsigned)
      requires Wf() && a.Valid() && b.Valid()
      requires a != this && a.blk != blk && b != this && b.blk != blk
      requires a.len > 0 && b.len > 0
      modifies this, blk
      ensures Valid() && (blk == old(blk) || fresh(blk))
      ensures Number() == a.Number() * b.Number()
    {
      hide Val, Weight;
      ghost var x, y := a.blk[..a.len], b.blk[..b.len];
      MakeZeros(a.len + b.len);
      ZeroBlocks(blk[..len]);
      ValEmpty(x);
      for i := 0 to a.len
        modifies blk
        invariant Number() == Val(x, i) * Value(y)
      {
        AddBlockTimes(a, b, i);
      }
      ProductIsLarge(x, y);
      DropLeadingZero();
    }

    method Multiply(a: BigUnsigned, b: BigUnsigned)
      requires Wf() && a.Valid() && b.Valid() && Apart(a) && Apart(b)
      modifies this, blk
      ensures Valid() && (blk == old(blk) || fresh(blk))
      ensures Number() == old(a.Number()) * old(b.Number())
      decreases this == a || this == b
    {
      hide Val, Weight;
      if this == a || this == b {
        var tmpThis := new BigUnsigned();
        tmpThis.Multiply(a, b);
        Assign(tmpThis);
        return;
      }
      CanonicalZero(a.blk[..a.len]);
      CanonicalZero(b.blk[..b.len]);
      if a.len == 0 || b.len == 0 {
        len := 0;
        ZeroBlocks(blk[..0]);
        return;
      }
      MultiplyNonzero(a, b);
    }

    // ---- division

    /**
     Subtracts b << (i blocks and i2 bits) into subtractBuf, from block i up to block k.
     */
    method SubtractShifted(b: BigUnsigned, i: nat, i2: nat, origLen: nat, subtractBuf: array<Blk>)
      returns (k: nat, borrowIn: bool)
      requires Wf() && b.Wf() && subtractBuf != blk && subtractBuf != b.blk
      requires i2 < N && len == origLen + 1 == subtractBuf.Length && i + b.len <= origLen
      modifies subtractBuf
      ensures i + b.len + 1 <= k <= len
      ensures borrowIn ==> origLen <= k
      ensures Window(subtractBuf[..], i, k) + Value(Shifted(b.blk[..b.len], i, i2))
           == Window(blk[..len], i, k) + Carry(borrowIn, k)
    {
      hide Val, Weight, Carry, Shifted, ShiftedBlock;
      ghost var x, z := blk[..len], Shifted(b.blk[..b.len], i, i2);
      ShiftedAt(b.blk[..b.len], i, i2);
      CarryValue(false, i);
      var j := 0;
      k, borrowIn := i, false;
      while j <= b.len
        invariant j <= b.len + 1 && k == i + j
        invariant Window(subtractBuf[..], i, k) + Val(z, k) == Window(x, i, k) + Carry(borrowIn, k)
      {
        ghost var before := subtractBuf[..];
        var temp := WrapSub(blk[k], ShiftedBlock(b.blk[..b.len], j, i2));
        var borrowOut := temp > blk[k];
        if borrowIn {
          borrowOut := borrowOut || temp == 0;
          temp := WrapSub(temp, 1);
        }
        subtractBuf[k] := temp;
        ValSame(before, subtractBuf[..], i);
        StoreBlock(before, subtractBuf[..], k);
        SubtractColumn(x, z, borrowIn, temp, borrowOut, k);
        borrowIn := borrowOut;
        j, k := j + 1, k + 1;
      }
      while k < origLen && borrowIn
        invariant |z| <= k <= len
        invariant Window(subtractBuf[..], i, k) + Value(z) == Window(x, i, k) + Carry(borrowIn, k)
      {
        ghost var before := subtractBuf[..];
        borrowIn := blk[k] == 0;
        subtractBuf[k] := WrapSub(blk[k], 1);
        ValSame(before, subtractBuf[..], i);
        StoreBlock(before, subtractBuf[..], k);
        BorrowColumn(x, subtractBuf[k], borrowIn, k);
        k := k + 1;
      }
    }

    /** Copies blocks i up to k of the buffer back. */
    method CopyBack(i: nat, k0: nat, subtractBuf: array<Blk>)
      requires Wf() && subtractBuf != blk && i <= k0 <= len <= subtractBuf.Length
      modifies blk
      ensures Number() == old(Number()) - Window(old(blk[..len]), i, k0) + Window(subtractBuf[..], i, k0)
    {
      hide Val, Weight;
      ghost var x, sub := blk[..len], subtractBuf[..];
      var k := k0;
      while k > i
        invariant i <= k <= k0
        invariant blk[..k] == x[..k] && blk[k0..len] == x[k0..]
        invariant forall j :: k <= j < k0 ==> blk[j] == sub[j]
      {
        k := k - 1;
        blk[k] := subtractBuf[k];
      }
      ValSame(blk[..], x, i);
      assert forall j :: i <= j < k0 ==> BlockAt(blk[..], j) == BlockAt(sub, j);
      ValAgree(blk[..], sub, i, k0);
      RestAgrees(x, k0);
    }

    /**
     Tries to subtract b << (i blocks and i2 bits); a subtraction that would go
     below zero leaves the receiver as it is.
     */
    method TrySubtract(b: BigUnsigned, i: nat, i2: nat, origLen: nat, subtractBuf: array<Blk>)
      returns (borrowIn: bool)
      requires Wf() && b.Wf() && b.blk != blk && subtractBuf != blk && subtractBuf != b.blk
      requires i2 < N && len == origLen + 1 == subtractBuf.Length && i + b.len <= origLen
      requires Number() < Weight(origLen)
      modifies blk, subtractBuf
      ensures borrowIn <==> old(Number()) < Value(Shifted(b.blk[..b.len], i, i2))
      ensures Number() == old(Number()) - if borrowIn then 0 else Value(Shifted(b.blk[..b.len], i, i2))
    {
      hide Val, Weight, Carry, Shifted;
      ghost var x, z := blk[..len], Value(Shifted(b.blk[..b.len], i, i2));
      var k;
      k, borrowIn := SubtractShifted(b, i, i2, origLen, subtractBuf);
      CarryValue(borrowIn, k);
      if borrowIn {
        SmallNumberStops(x, origLen, len);
        ValMonotone(x, origLen, k);
        BorrowMeansTooLarge(subtractBuf[..], x, i, k, z);
        ValMonotone(x, k, len);
      } else {
        NoBorrowMeansFits(subtractBuf[..], x, i, k, z);
        ValMonotone(x, k, len);
        CopyBack(i, k, subtractBuf);
      }
    }

    /** Finds the bits of block i of the quotient, from the highest down. */
    method QuotientBlock(b: BigUnsigned, q: BigUnsigned, i: nat, origLen: nat, subtractBuf: array<Blk>, ghost v: nat)
      requires Wf() && b.Wf() && q.Wf()
      requires b.blk != blk && q.blk != blk && q.blk != b.blk
      requires subtractBuf != blk && subtractBuf != b.blk && subtractBuf != q.blk
      requires len == origLen + 1 == subtractBuf.Length && i < q.len && i + b.len <= origLen
      requires v < Weight(origLen) && q.blk[i] == 0
      requires v == q.Number() * b.Number() + Number()
      requires Number() < b.Number() * Weight(i + 1)
      modifies blk, q.blk, subtractBuf
      ensures v == q.Number() * b.Number() + Number()
      ensures Number() < b.Number() * Weight(i)
      ensures forall j :: 0 <= j < i ==> q.blk[j] == old(q.blk[j])
    {
      hide Val, Weight, Carry, Shifted, Pow;
      ghost var y := b.blk[..b.len];
      ShiftEnds(b.Number(), i);
      PowPositive(2, N);
      var i2: nat := N;
      while i2 > 0
        invariant i2 <= N
        invariant v == q.Number() * b.Number() + Number()
        invariant Number() < b.Number() * Pow(2, i2) * Weight(i)
        invariant Pow(2, i2) > 0 && q.blk[i] % Pow(2, i2) == 0
        invariant forall j :: 0 <= j < i ==> q.blk[j] == old(q.blk[j])
      {
        i2 := i2 - 1;
        ghost var r, d := Number(), q.Number();
        MulNonNegative(d, b.Number());
        ShiftedValue(y, i, i2);
        QuotientBit(q.blk[i], i2);
        var borrowIn := TrySubtract(b, i, i2, origLen, subtractBuf);
        if !borrowIn {
          ghost var before := q.blk[..q.len];
          q.blk[i] := OrBlk(q.blk[i], ShiftLeftBlk(1, i2));
          BlockGrows(before, q.blk[..q.len], i, Pow(2, i2));
        }
        TrialStep(v, d, b.Number(), r, i2, Weight(i), q.Number(), Number(), !borrowIn);
      }
    }

    /** Finds the blocks of the quotient, from the highest down. */
    method QuotientBlocks(b: BigUnsigned, q: BigUnsigned, origLen: nat, subtractBuf: array<Blk>, ghost v: nat)
      requires Wf() && b.Wf() && q.Wf()
      requires b.blk != blk && q.blk != blk && q.blk != b.blk
      requires subtractBuf != blk && subtractBuf != b.blk && subtractBuf != q.blk
      requires len == origLen + 1 == subtractBuf.Length && q.len + b.len == origLen + 1
      requires v < Weight(origLen) && v == Number() < b.Number() * Weight(q.len)
      requires forall j :: 0 <= j < q.len ==> q.blk[j] == 0
      modifies blk, q.blk, subtractBuf
      ensures v == q.Number() * b.Number() + Number()
      ensures Number() < b.Number()
    {
      hide Val, Weight;
      ZeroBlocks(q.blk[..q.len]);
      var i: nat := q.len;
      while i > 0
        invariant i <= q.len
        invariant v == q.Number() * b.Number() + Number()
        invariant Number() < b.Number() * Weight(i)
        invariant forall j :: 0 <= j < i ==> q.blk[j] == 0
      {
        i := i - 1;
        q.blk[i] := 0;
        QuotientBlock(b, q, i, origLen, subtractBuf, v);
      }
      ShiftEnds(b.Number(), 0);
    }

    /** Shift-and-subtract division by a nonzero divisor no longer than the dividend. */
    method DivideLonger(b: BigUnsigned, q: BigUnsigned)
      requires Valid() && b.Valid() && q.Wf()
      requires b != this && q != this && q != b
      requires b.blk != blk && q.blk != blk && q.blk != b.blk
      requires 0 < b.len <= len
      modifies this, blk, q, q.blk
      ensures Valid() && (blk == old(blk) || fresh(blk))
      ensures q.Valid() && (q.blk == old(q.blk) || fresh(q.blk)) && q.blk != blk
      ensures old(Number()) == q.Number() * b.Number() + Number()
      ensures Number() < b.Number()
    {
      hide Val, Weight;
      ghost var x, y := blk[..len], b.blk[..b.len];
      var origLen := len;
      AppendZeroBlock();
      var subtractBuf := new Blk[len];
      q.MakeZeros(origLen - b.len + 1);
      ValBound(x, |x|);
      FirstTrial(x, y);
      QuotientBlocks(b, q, origLen, subtractBuf, Value(x));
      if q.len >= 2 {
        QuotientIsLarge(x, y, q.Number(), Number());
      }
      q.DropLeadingZero();
      ZapLeadingZeros();
    }

    /**
     Leaves the remainder in the receiver and the quotient in q.  Dividing by zero
     gives quotient zero and leaves the dividend.
     */
    method DivideWithRemainder(b: BigUnsigned, q: BigUnsigned) returns (status: Status)
      requires Valid() && b.Valid() && q.Wf()
      requires Apart(b) && Apart(q) && q.Apart(b)
      modifies this, blk, q, q.blk
      ensures Valid() && (blk == old(blk) || fresh(blk))
      ensures status == if q == this then Thrown(SameQuotientAndRemainder) else Done
      ensures q == this ==> unchanged(this) && unchanged(blk)
      ensures q != this ==> q.Valid() && (q.blk == old(q.blk) || fresh(q.blk)) && q.blk != blk
      ensures q != this ==> old(Number()) == q.Number() * old(b.Number()) + Number()
      ensures q != this && old(b.Number()) == 0 ==> q.Number() == 0
      ensures q != this && old(b.Number()) != 0 ==> Number() < old(b.Number())
      decreases this == b || q == b
    {
      hide Val, Weight;
      if this == q {
        return Thrown(SameQuotientAndRemainder);
      }
      if this == b || q == b {
        var tmpB := new BigUnsigned.Copy(b);
        status := DivideWithRemainder(tmpB, q);
        return;
      }
      CanonicalZero(b.blk[..b.len]);
      if b.len == 0 || len < b.len {
        if len < b.len {
          LongerIsLarger(blk[..len], b.blk[..b.len]);
        }
        q.len := 0;
        ZeroBlocks(q.blk[..0]);
        return Done;
      }
      DivideLonger(b, q);
      return Done;
    }

    // ---- shifts

    /** Writes a << (shiftBlocks blocks and shiftBits bits), with its leading block. */
    method WriteShifted(a: BigUnsigned, shiftBlocks: nat, shiftBits: nat)
      requires Wf() && a.Valid() && a != this && a.blk != blk
      requires shiftBits < N
      modifies this, blk
      ensures Wf() && (blk == old(blk) || fresh(blk))
      ensures blk[..len] == Shifted(a.blk[..a.len], shiftBlocks, shiftBits)
    {
      hide Val, Weight, Shifted, ShiftedBlock;
      ghost var x, z := a.blk[..a.len], Shifted(a.blk[..a.len], shiftBlocks, shiftBits);
      ShiftedAt(x, shiftBlocks, shiftBits);
      len := a.len + shiftBlocks + 1;
      Allocate(len);
      var i := 0;
      while i < shiftBlocks
        modifies blk
        invariant i <= shiftBlocks
        invariant forall k :: 0 <= k < i ==> blk[k] == z[k]
      {
        blk[i] := 0;
        i := i + 1;
      }
      var j := 0;
      while j <= a.len
        modifies blk
        invariant j <= a.len + 1 && i == shiftBlocks + j
        invariant forall k :: 0 <= k < i ==> blk[k] == z[k]
      {
        blk[i] := ShiftedBlock(a.blk[..a.len], j, shiftBits);
        j, i := j + 1, i + 1;
      }
    }

    /** ... and without it when it is zero. */
    method ShiftLeftBy(a: BigUnsigned, shiftBlocks: nat, shiftBits: nat)
      requires Wf() && a.Valid() && a != this && a.blk != blk
      requires shiftBits < N
      modifies this, blk
      ensures Wf() && (blk == old(blk) || fresh(blk))
      ensures Number() == Value(Shifted(a.blk[..a.len], shiftBlocks, shiftBits))
      ensures Canonical(blk[..len]) <==> a.Number() != 0 || shiftBlocks == 0
    {
      hide Val, Weight, Shifted;
      ghost var x, z := a.blk[..a.len], Shifted(a.blk[..a.len], shiftBlocks, shiftBits);
      ShiftedAt(x, shiftBlocks, shiftBits);
      CanonicalZero(x);
      WriteShifted(a, shiftBlocks, shiftBits);
      if a.len > 0 {
        LeftShiftIsLarge(x, shiftBlocks, shiftBits);
        DropLeadingZero();
      } else {
        ShiftedZero(x, shiftBlocks, shiftBits);
        ZeroBlocks(z);
        if blk[len - 1] == 0 {
          len := len - 1;
        }
        ZeroBlocks(blk[..len]);
      }
    }

    /** Writes the blocks of a << leftShiftBits from block rightShiftBlocks on. */
    method WriteHighBlocks(a: BigUnsigned, rightShiftBlocks: nat, leftShiftBits: nat)
      requires Wf() && a.Valid() && a != this && a.blk != blk
      requires leftShiftBits < N && rightShiftBlocks <= a.len
      modifies this, blk
      ensures Wf() && (blk == old(blk) || fresh(blk)) && len == a.len + 1 - rightShiftBlocks
      ensures |Shifted(a.blk[..a.len], 0, leftShiftBits)| == a.len + 1
      ensures blk[..len] == Shifted(a.blk[..a.len], 0, leftShiftBits)[rightShiftBlocks..]
    {
      hide Val, Weight, ShiftedBlock, Value, Canonical;
      ghost var x, z := a.blk[..a.len], Shifted(a.blk[..a.len], 0, leftShiftBits);
      ShiftedAt(x, 0, leftShiftBits);
      len := a.len + 1 - rightShiftBlocks;
      Allocate(len);
      var j, i := rightShiftBlocks, 0;
      while j <= a.len
        modifies blk
        invariant rightShiftBlocks <= j <= a.len + 1 && i == j - rightShiftBlocks
        invariant forall h :: 0 <= h < i ==> blk[h] == z[rightShiftBlocks + h]
      {
        blk[i] := ShiftedBlock(a.blk[..a.len], j, leftShiftBits);
        j, i := j + 1, i + 1;
      }
    }

    /** What remains of a << leftShiftBits without its rightShiftBlocks lowest blocks. */
    method ShiftRightBy(a: BigUnsigned, rightShiftBlocks: nat, leftShiftBits: nat)
      requires Wf() && a.Valid() && a != this && a.blk != blk
      requires leftShiftBits < N && rightShiftBlocks <= a.len
      modifies this, blk
      ensures Valid() && (blk == old(blk) || fresh(blk))
      ensures |Shifted(a.blk[..a.len], 0, leftShiftBits)| == a.len + 1
      ensures Number() == Value(Shifted(a.blk[..a.len], 0, leftShiftBits)[rightShiftBlocks..])
    {
      hide Val, Weight, ShiftedBlock, Value, Shifted;
      WriteHighBlocks(a, rightShiftBlocks, leftShiftBits);
      if rightShiftBlocks < a.len {
        RightShiftIsLarge(a.blk[..a.len], rightShiftBlocks, leftShiftBits);
      }
      DropLeadingZero();
    }

    /**
     A negative amount shifts right.  The result has no leading zero unless zero is
     shifted left by a whole block or more.
     */
    method BitShiftLeft(a: BigUnsigned, b: Int32) returns (status: Status)
      requires Wf() && a.Valid() && Apart(a)
      modifies this, blk
      ensures Wf() && (blk == old(blk) || fresh(blk))
      ensures status == if b == -0x8000_0000 then Thrown(PathologicalShift) else Done
      ensures status != Done ==> unchanged(this) && unchanged(blk)
      ensures status == Done ==> Number() == ShiftNumber(old(a.Number()), b)
      ensures status == Done ==> (Valid() <==> old(a.Number()) != 0 || b < N)
      decreases this == a, b < 0
    {
      hide Val, Weight, Shifted;
      if this == a {
        var tmpThis := new BigUnsigned();
        status := tmpThis.BitShiftLeft(a, b);
        if status == Done {
          Assign(tmpThis);
        }
        return;
      }
      if b < 0 {
        if b == -0x8000_0000 {
          return Thrown(PathologicalShift);
        }
        status := BitShiftRight(a, -b);
        return;
      }
      LeftShiftBlocks(a.blk[..a.len], b);
      SmallQuotient(b);
      ShiftLeftBy(a, b / N, b % N);
      return Done;
    }

    /** A negative amount shifts left. */
    method BitShiftRight(a: BigUnsigned, b: Int32) returns (status: Status)
      requires Wf() && a.Valid() && Apart(a)
      modifies this, blk
      ensures Wf() && (blk == old(blk) || fresh(blk))
      ensures status == if b == -0x8000_0000 then Thrown(PathologicalShift) else Done
      ensures status != Done ==> unchanged(this) && unchanged(blk)
      ensures status == Done ==> Number() == ShiftNumber(old(a.Number()), -b)
      ensures status == Done ==> (Valid() <==> old(a.Number()) != 0 || -b < N)
      decreases this == a, b < 0
    {
      hide Val, Weight, Shifted;
      if this == a {
        var tmpThis := new BigUnsigned();
        status := tmpThis.BitShiftRight(a, b);
        if status == Done {
          Assign(tmpThis);
        }
        return;
      }
      if b < 0 {
        if b == -0x8000_0000 {
          return Thrown(PathologicalShift);
        }
        status := BitShiftLeft(a, -b);
        return;
      }
      var rightShiftBlocks := (b + N - 1) / N;
      var leftShiftBits := N * rightShiftBlocks - b;
      RightShiftAmounts(b, rightShiftBlocks, leftShiftBits);
      RightShiftBlocks(a.blk[..a.len], b, rightShiftBlocks, leftShiftBits);
      if rightShiftBlocks >= a.len + 1 {
        len := 0;
        ZeroBlocks(blk[..0]);
        return Done;
      }
      ShiftRightBy(a, rightShiftBlocks, leftShiftBits);
      return Done;
    }

    // ---- blocks and bits

    function GetBlock(i: nat): Blk
      requires Wf()
      reads this, blk
    {
      if i >= len then 0 else blk[i]
    }

    /** Replaces block i; the number grows or shrinks as necessary. */
    method SetBlock(i: nat, newBlock: Blk)
      requires Valid()
      modifies this, blk
      ensures Valid() && (blk == old(blk) || fresh(blk))
      ensures OnlyBlockChanged(old(blk[..len]), blk[..len], i, newBlock)
    {
      hide Val, Weight, Value;
      ghost var x := blk[..len];
      if newBlock == 0 {
        if i < len {
          blk[i] := 0;
          ghost var zeroed := blk[..len];
          ZapLeadingZeros();
          forall j: nat ensures BlockAt(blk[..len], j) == BlockAt(zeroed, j) {
            assert j < |zeroed| ==> blk[j] == zeroed[j];
          }
          assert zeroed == x[i := 0];
          forall j: nat ensures BlockAt(blk[..len], j) == if j == i then 0 else BlockAt(x, j) {
            assert BlockAt(blk[..len], j) == BlockAt(zeroed, j);
          }
        }
      } else {
        if i >= len {
          ExtendTo(i);
        }
        blk[i] := newBlock;
      }
    }

    /** Grows to i + 1 blocks by adding zero blocks. */
    method ExtendTo(i: nat)
      requires Wf() && len <= i
      modifies this, blk
      ensures Wf() && (blk == old(blk) || fresh(blk))
      ensures len == i + 1
      ensures forall j :: 0 <= j < i ==> blk[j] == BlockAt(old(blk[..len]), j)
    {
      ghost var x := blk[..len];
      AllocateAndCopy(i + 1);
      for j := len to i
        modifies blk
        invariant blk[..len] == x
        invariant forall k :: len <= k < j ==> blk[k] == 0
      {
        blk[j] := 0;
      }
      len := i + 1;
      assert forall j :: 0 <= j < |x| ==> blk[j] == blk[..|x|][j];
    }

    method BitLength() returns (l: nat)
      requires Valid()
      ensures l == 0 <==> Number() == 0
      ensures l > 0 ==> Pow(2, l - 1) <= Number() < Pow(2, l)
    {
      hide Val, Weight, IsHighPart, Pow;
      CanonicalZero(blk[..len]);
      if len == 0 {
        return 0;
      }
      var leftmostBlock: nat := blk[len - 1];
      var leftmostBlockLen := 0;
      HighPartStarts(leftmostBlock);
      while leftmostBlock != 0
        invariant IsHighPart(leftmostBlock, blk[len - 1], leftmostBlockLen)
        invariant leftmostBlock == 0 ==> leftmostBlockLen > 0 && Pow(2, leftmostBlockLen - 1) <= blk[len - 1]
      {
        HighPartStep(leftmostBlock, blk[len - 1], leftmostBlockLen);
        leftmostBlock := leftmostBlock / 2;
        leftmostBlockLen := leftmostBlockLen + 1;
      }
      HighPartEnds(blk[len - 1], leftmostBlockLen);
      LengthOfNumber(blk[..len], leftmostBlockLen);
      return leftmostBlockLen + (len - 1) * N;
    }

    /** Bit bi of the number, false beyond its end. */
    function GetBit(bi: nat): (b: bool)
      requires Wf()
      reads this, blk
      ensures b == Bit(Number(), bi)
    {
      BitPlace(bi);
      BitOfNumber(blk[..len], bi / N, bi % N);
      MaskSelectsBit(BlockAt(blk[..len], bi / N), bi % N);
      And(GetBlock(bi / N), ShiftLeftBlk(1, bi % N)) != 0
    }

    /** Changes one bit of the number and no other. */
    method SetBit(bi: nat, newBit: bool)
      requires Valid()
      modifies this, blk
      ensures Valid() && (blk == old(blk) || fresh(blk))
      ensures Number() == WithBit(old(Number()), bi, newBit)
      ensures forall k :: Bit(Number(), k) == if k == bi then newBit else Bit(old(Number()), k)
    {
      hide Val, Weight, Bit, WithBit;
      ghost var x := blk[..len];
      BitPlace(bi);
      var blockI := bi / N;
      var block, mask := GetBlock(blockI), ShiftLeftBlk(1, bi % N);
      MaskedBlock(block, bi % N, newBit);
      block := if newBit then OrBlk(block, mask) else AndNotBlk(block, mask);
      SetBlock(blockI, block);
      ChangedBlockValue(x, blk[..len], blockI, block);
      SetBlockBit(x, blockI, bi % N, newBit, Number());
      forall k ensures Bit(Number(), k) == if k == bi then newBit else Bit(Value(x), k) {
        WithBitBits(Value(x), bi, newBit, k);
      }
    }

    // ---- comparison

    /** A longer number is larger; otherwise the highest block that differs decides. */
    method CompareTo(x: BigUnsigned) returns (r: CmpRes)
      requires Valid() && x.Valid()
      ensures r == Less <==> Number() < x.Number()
      ensures r == Equal <==> Number() == x.Number()
    {
      hide Val, Weight;
      ghost var s, t := blk[..len], x.blk[..x.len];
      if len < x.len {
        LongerIsLarger(s, t);
        return Less;
      } else if len > x.len {
        LongerIsLarger(t, s);
        return Greater;
      }
      var i: nat := len;
      while i > 0
        invariant i <= len
        invariant forall j :: i <= j < len ==> s[j] == t[j]
      {
        i := i - 1;
        if blk[i] == x.blk[i] {
          continue;
        } else if blk[i] > x.blk[i] {
          HigherBlockDecides(t, s, i);
          return Greater;
        } else {
          HigherBlockDecides(s, t, i);
          return Less;
        }
      }
      assert s == t;
      return Equal;
    }

    /** operator ==: same length and same blocks, which canonical form makes the same number. */
    method Equals(x: BigUnsigned) returns (same: bool)
      requires Valid() && x.Valid()
      ensures same <==> Number() == x.Number()
    {
      hide Val, Weight;
      if Number() == x.Number() {
        CanonicalUnique(blk[..len], x.blk[..x.len]);
      }
      if len != x.len {
        return false;
      }
      for i := 0 to len
        invariant blk[..i] == x.blk[..i]
      {
        if blk[i] != x.blk[i] {
          assert blk[..len][i] != x.blk[..len][i];
          return false;
        }
      }
      return true;
    }

    predicate IsZero()
      requires Valid()
      reads this, blk
      ensures IsZero() <==> Number() == 0
    {
      CanonicalZero(blk[..len]);
      len == 0
    }

    /** Conversion to an unsigned type of the given width. */
    method ConvertToPrimitive(bits: nat) returns (r: Result<nat>)
      requires Valid() && bits <= N
      ensures r == if Number() < Pow(2, bits) then Ok(Number()) else Err(TooBigForType)
    {
      hide Val, Weight;
      CanonicalZero(blk[..len]);
      PowMonotone(2, bits, N);
      if len == 0 {
        return Ok(0);
      } else if len == 1 {
        OneBlock(blk[..1]);
        var x := blk[0] % Pow(2, bits);
        if x == blk[0] {
          return Ok(x);
        }
        if blk[0] < Pow(2, bits) {
          DivisionUnique(blk[0], Pow(2, bits), 0, blk[0]);
        }
      } else {
        ManyBlocks(blk[..len]);
      }
      return Err(TooBigForType);
    }

    /** Conversion to unsigned short. */
    method ToUnsignedShort() returns (r: Result<nat>)
      requires Valid()
      ensures r == if Number() < 0x1_0000 then Ok(Number()) else Err(TooBigForType)
    {
      PowAdd(2, 8, 8);
      assert Pow(2, 8) == 0x100;
      r := ConvertToPrimitive(16);
    }

    // ---- operators that return a new number

    method Minus(x: BigUnsigned) returns (r: Result<BigUnsigned>)
      requires Valid() && x.Valid()
      ensures r.Ok? <==> x.Number() <= Number()
      ensures r.Err? ==> r.error == NegativeResult
      ensures r.Ok? ==> fresh(r.value) && fresh(r.value.blk) && r.value.Valid()
      ensures r.Ok? ==> r.value.Number() == Number() - x.Number()
    {
      var ans := new BigUnsigned();
      var status := ans.Subtract(this, x);
      return if status == Done then Ok(ans) else Err(status.error);
    }

    method Over(x: BigUnsigned) returns (r: Result<BigUnsigned>)
      requires Valid() && x.Valid()
      ensures x.Number() == 0 <==> r == Err(DivisionByZero)
      ensures x.Number() != 0 ==>
                && r.Ok? && fresh(r.value) && fresh(r.value.blk) && r.value.Valid()
                && r.value.Number() == Number() / x.Number()
    {
      if x.IsZero() {
        return Err(DivisionByZero);
      }
      var q := new BigUnsigned();
      var rem := new BigUnsigned.Copy(this);
      var _ := rem.DivideWithRemainder(x, q);
      DivisionUnique(Number(), x.Number(), q.Number(), rem.Number());
      return Ok(q);
    }

    method Modulo(x: BigUnsigned) returns (r: Result<BigUnsigned>)
      requires Valid() && x.Valid()
      ensures x.Number() == 0 <==> r == Err(DivisionByZero)
      ensures x.Number() != 0 ==>
                && r.Ok? && fresh(r.value) && fresh(r.value.blk) && r.value.Valid()
                && r.value.Number() == Number() % x.Number()
    {
      if x.IsZero() {
        return Err(DivisionByZero);
      }
      var q := new BigUnsigned();
      var rem := new BigUnsigned.Copy(this);
      var _ := rem.DivideWithRemainder(x, q);
      DivisionUnique(Number(), x.Number(), q.Number(), rem.Number());
      return Ok(rem);
    }

    /** operator %= */
    method ModuloAssign(x: BigUnsigned) returns (status: Status)
      requires Valid() && x.Valid() && Apart(x)
      modifies this, blk
      ensures Valid() && (blk == old(blk) || fresh(blk))
      ensures status == if old(x.Number()) == 0 then Thrown(DivisionByZero) else Done
      ensures Number() == if old(x.Number()) == 0 then old(Number()) else old(Number()) % old(x.Number())
    {
      if x.IsZero() {
        return Thrown(DivisionByZero);
      }
      var q := new BigUnsigned();
      ghost var v, d := Number(), x.Number();
      status := DivideWithRemainder(x, q);
      DivisionUnique(v, d, q.Number(), Number());
    }
  }
}
