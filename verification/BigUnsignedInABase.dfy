/** Nonnegative integers as digits of a chosen base, between BigUnsigned and text. */
module BigUnsignedInABases {
  import opened Exceptions
  import opened Powers
  import opened Blocks
  import opened Numerals
  import opened NumberBits
  import opened BigUnsigneds

  /** The number of bits of an unsigned int. */
  method BitLen(x0: nat) returns (l: nat)
    ensures l == 0 <==> x0 == 0
    ensures l > 0 ==> Pow(2, l - 1) <= x0 < Pow(2, l)
  {
    hide Pow, IsHighPart;
    var x := x0;
    l := 0;
    HighPartStarts(x0);
    while x > 0
      invariant IsHighPart(x, x0, l)
      invariant l == 0 ==> x == x0
      invariant x == 0 && l > 0 ==> 0 < x0 && Pow(2, l - 1) <= x0
    {
      HighPartStep(x, x0, l);
      x := x / 2;
      l := l + 1;
    }
    HighPartEnds(x0, l);
  }

  function CeilingDiv(a: nat, b: nat): int
    requires b > 0
  {
    (a + b - 1) / b
  }

  /** The room reserved for the digits of a number of bits bits is enough. */
  lemma RoomSuffices(x: nat, bits: nat, base: nat, l: nat, room: int)
    requires x < Pow(2, bits) && l >= 2 && Pow(2, l - 1) <= base
    requires room == CeilingDiv(bits, l - 1)
    ensures 0 <= room && x < Pow(base, room)
  {
    var m := l - 1;
    QuotientBound(bits + m - 1, m);
    assert bits + m - 1 == m * room + (bits + m - 1) % m;
    assert bits <= m * room;
    PowMonotone(2, bits, m * room);
    PowTimes(2, m, room);
    PowPositive(2, m);
    PowBaseMonotone(Pow(2, m), base, room);
  }

  lemma {:induction false} PowBaseMonotone(a: nat, b: nat, e: nat)
    requires a <= b
    ensures 0 <= Pow(a, e) <= Pow(b, e)
  {
    if e > 0 {
      PowBaseMonotone(a, b, e - 1);
      MulMonotone(a, Pow(a, e - 1), Pow(b, e - 1));
      MulMonotone(Pow(b, e - 1), a, b);
      MulNonNegative(a, Pow(a, e - 1));
    }
  }

  /** One more digit split off: x == number of the digits + rest * base^count. */
  lemma DigitSplit(x: int, ds: seq<Digit>, rest: nat, base: nat, q: nat, d: Digit)
    requires x == FromDigits(ds, base) + rest * Pow(base, |ds|)
    requires rest == q * base + d
    ensures x == FromDigits(ds + [d], base) + q * Pow(base, |ds| + 1)
  {
    AppendDigit(ds, d, base);
    SplitRest(q, base, d, Pow(base, |ds|));
  }

  lemma SplitRest(q: int, base: int, d: int, p: int)
    ensures (q * base + d) * p == q * (base * p) + d * p
  {
    MulAssociative(q, base, p);
  }

  /** While something is left to write there is room. */
  lemma RoomLeft(x: int, v: nat, rest: nat, base: nat, count: nat, room: nat)
    requires base >= 1 && rest > 0 && x == v + rest * Pow(base, count) && x < Pow(base, room)
    ensures count < room
  {
    PowPositive(base, count);
    MulMonotone(Pow(base, count), 1, rest);
    if room <= count {
      PowMonotone(base, room, count);
    }
  }

  class BigUnsignedInABase {
    var cap: nat
    var len: nat
    var blk: array<Digit>
    var base: Digit

    predicate Wf()
      reads this
    {
      cap == blk.Length && len <= cap
    }

    /** Every digit is below the base and there is no leading zero. */
    predicate Valid()
      reads this, blk
    {
      Wf() && DigitsBelow(blk[..len], base) && NoLeadingZero(blk[..len])
    }

    ghost function Number(): nat
      requires Wf()
      reads this, blk
    {
      FromDigits(blk[..len], base)
    }

    constructor (room: nat, base: Digit)
      ensures Wf() && fresh(blk) && len == room == blk.Length && this.base == base
    {
      cap, len := room, room;
      blk := new Digit[room];
      this.base := base;
    }

    method ZapLeadingZeros()
      requires Wf()
      modifies this`len
      ensures Wf() && blk[..len] == Trim(old(blk[..len]))
    {
      ghost var ds := blk[..len];
      while len > 0 && blk[len - 1] == 0
        invariant Wf() && len <= |ds| && blk[..len] == ds[..len]
        invariant Trim(blk[..len]) == Trim(ds)
      {
        assert blk[..len][..len - 1] == blk[..len - 1];
        len := len - 1;
      }
    }

    /** The digits of x, from the lowest, each the remainder of dividing what is left by the base. */
    static method FromUnsigned(x: BigUnsigned, base: Digit) returns (r: Result<BigUnsignedInABase>)
      requires x.Valid()
      ensures base < 2 ==> r == Err(BaseTooSmall)
      ensures base >= 2 ==> r.Ok? && fresh(r.value) && r.value.Valid() && r.value.base == base
      ensures base >= 2 ==> r.value.blk[..r.value.len] == ToDigits(x.Number(), base)
    {
      hide Val, Weight, Value, Canonical, FromDigits, ToDigits;
      if base < 2 {
        return Err(BaseTooSmall);
      }
      var maxBitLenOfX := x.len * N;
      var baseBits := BitLen(base);
      BaseHasTwoBits(base, baseBits);
      var maxDigitLenOfX := CeilingDiv(maxBitLenOfX, baseBits - 1);
      BlocksBoundValue(x.blk[..x.len]);
      RoomSuffices(x.Number(), maxBitLenOfX, base, baseBits, maxDigitLenOfX);
      var ans := new BigUnsignedInABase(maxDigitLenOfX, base);
      var digitNum := ans.WriteDigits(x);
      ans.len := digitNum;
      return Ok(ans);
    }

    static lemma BaseHasTwoBits(base: nat, l: nat)
      requires base >= 2 && (l > 0 ==> base < Pow(2, l))
      requires l == 0 <==> base == 0
      ensures l >= 2
    {
      assert Pow(2, 1) == 2;
    }

    /** Repeated division: never writes beyond the array. */
    method WriteDigits(x: BigUnsigned) returns (digitNum: nat)
      requires Wf() && x.Valid() && base >= 2
      requires x.Number() < Pow(base, blk.Length)
      modifies blk
      ensures digitNum <= blk.Length
      ensures blk[..digitNum] == ToDigits(x.Number(), base)
      ensures DigitsBelow(blk[..digitNum], base) && NoLeadingZero(blk[..digitNum])
    {
      hide Val, Weight, Value, Canonical, FromDigits, ToDigits, Pow;
      var x2 := new BigUnsigned.Copy(x);
      SmallBase(base);
      var buBase := new BigUnsigned.FromBlk(base);
      digitNum := 0;
      ghost var v := x.Number();
      NoDigits(v, blk[..0], base);
      while !x2.IsZero()
        invariant x2.Valid() && fresh(x2) && fresh(x2.blk) && buBase.Valid() && buBase.blk != x2.blk
                  && buBase.Number() == base
        invariant digitNum <= blk.Length && DigitsBelow(blk[..digitNum], base)
        invariant v == FromDigits(blk[..digitNum], base) + x2.Number() * Pow(base, digitNum)
        invariant x2.Number() == 0 ==> NoLeadingZero(blk[..digitNum])
        decreases x2.Number()
      {
        ghost var ds, rest := blk[..digitNum], x2.Number();
        RoomLeft(v, FromDigits(ds, base), rest, base, digitNum, blk.Length);
        var d := SplitDigit(x2, buBase);
        blk[digitNum] := d;
        assert blk[..digitNum + 1] == ds + [d];
        DigitSplit(v, ds, rest, base, x2.Number(), d);
        digitNum := digitNum + 1;
      }
      assert x2.Number() * Pow(base, digitNum) == 0;
      DigitsUnique(blk[..digitNum], base);
    }

    /** The last digit of x2, which x2 then loses. */
    static method SplitDigit(x2: BigUnsigned, buBase: BigUnsigned) returns (d: Digit)
      requires x2.Valid() && buBase.Valid() && x2 != buBase && x2.blk != buBase.blk
      requires x2.Number() > 0 && 2 <= buBase.Number() < 0x1_0000
      modifies x2, x2.blk
      ensures x2.Valid() && (x2.blk == old(x2.blk) || fresh(x2.blk))
      ensures old(x2.Number()) == x2.Number() * buBase.Number() + d && d < buBase.Number()
      ensures x2.Number() < old(x2.Number()) && (x2.Number() == 0 ==> d > 0)
    {
      hide Val, Weight, Value, Canonical;
      ghost var rest := x2.Number();
      var lastDigit := new BigUnsigned.Copy(x2);
      var _ := lastDigit.DivideWithRemainder(buBase, x2);
      Shrinks(rest, buBase.Number(), x2.Number(), lastDigit.Number());
      var digit := lastDigit.ToUnsignedShort();
      return digit.value;
    }

    static lemma SmallBase(base: Digit)
      ensures base < Radix()
    {
    }

    static lemma NoDigits(v: nat, ds: seq<Digit>, base: nat)
      requires |ds| == 0
      ensures FromDigits(ds, base) == 0 && v * Pow(base, 0) == v
    {
    }

    static lemma Shrinks(rest: nat, base: nat, q: nat, d: nat)
      requires rest > 0 && base >= 2 && rest == q * base + d && d < base
      ensures q < rest && (q == 0 ==> d > 0)
    {
      if q > 0 {
        MulMonotone(q, 2, base);
      }
    }

    /** Horner's rule from the highest digit down. */
    method ToUnsigned() returns (ans: BigUnsigned)
      requires Valid()
      ensures fresh(ans) && fresh(ans.blk) && ans.Valid() && ans.Number() == Number()
    {
      hide Val, Weight, Value, Canonical, FromDigits;
      ans := new BigUnsigned.FromBlk(0);
      SmallBase(base);
      var buBase := new BigUnsigned.FromBlk(base);
      var temp := new BigUnsigned();
      var digitNum: nat := len;
      ghost var ds := blk[..len];
      NoDigits(0, ds[len..], base);
      while digitNum > 0
        invariant digitNum <= len
        invariant ans.Valid() && fresh(ans) && fresh(ans.blk) && temp.Wf() && fresh(temp) && fresh(temp.blk)
        invariant buBase.Valid() && buBase.Number() == base
        invariant ans.blk != temp.blk && ans.blk != buBase.blk && temp.blk != buBase.blk
        invariant ans.Number() == FromDigits(ds[digitNum..], base)
      {
        digitNum := digitNum - 1;
        DigitAbove(ds, digitNum, base);
        TimesPlus(ans, buBase, temp, blk[digitNum]);
      }
      assert ds[0..] == ds;
    }

    static lemma DigitAbove(ds: seq<Digit>, i: nat, base: nat)
      requires i < |ds|
      ensures FromDigits(ds[i..], base) == ds[i] + base * FromDigits(ds[i + 1..], base)
    {
      DigitInFront(ds[i], ds[i + 1..], base);
      assert ds[i..] == [ds[i]] + ds[i + 1..];
    }

    /** ans = ans * base + digit, by way of temp. */
    static method TimesPlus(ans: BigUnsigned, buBase: BigUnsigned, temp: BigUnsigned, digit: Digit)
      requires ans.Valid() && buBase.Valid() && temp.Wf()
      requires ans != temp && ans.blk != temp.blk && buBase != temp && buBase.blk != temp.blk
      requires buBase != ans && buBase.blk != ans.blk
      modifies ans, ans.blk, temp, temp.blk
      ensures ans.Valid() && (ans.blk == old(ans.blk) || fresh(ans.blk))
      ensures temp.Wf() && (temp.blk == old(temp.blk) || fresh(temp.blk)) && ans.blk != temp.blk
      ensures ans.Number() == digit + buBase.Number() * old(ans.Number())
    {
      hide Val, Weight, Value, Canonical;
      temp.Multiply(ans, buBase);
      SmallBase(digit);
      var d := new BigUnsigned.FromBlk(digit);
      ans.Add(temp, d);
    }

    /** The digits of a text, read from its end; the last offending symbol is reported. */
    static method FromText(s: string, base: Digit) returns (r: Result<BigUnsignedInABase>)
      ensures base > 36 ==> r == Err(BaseTooLarge)
      ensures base <= 36 && r.Err? ==> ReadText(s, base) == Err(r.error)
      ensures base <= 36 && r.Ok? ==> fresh(r.value) && r.value.Valid() && r.value.base == base
      ensures base <= 36 && r.Ok? ==> ReadText(s, base) == Ok(r.value.Number())
    {
      if base > 36 {
        return Err(BaseTooLarge);
      }
      hide ReadText, SymbolDigit, FromDigits, Trim;
      var ans := new BigUnsignedInABase(|s|, base);
      assert s[..|s| - 0] == s;
      for digitNum := 0 to ans.len
        modifies ans.blk
        invariant forall i :: 0 <= i < digitNum ==> ans.blk[i] == SymbolDigit(s[|s| - 1 - i])
        invariant forall i :: 0 <= i < digitNum ==> ans.blk[i] < base
        invariant ReadText(s[..|s| - digitNum], base).Err? ==> ReadText(s, base) == ReadText(s[..|s| - digitNum], base)
      {
        var theSymbol := s[ans.len - 1 - digitNum];
        ReadStep(s, digitNum, base);
        if SymbolDigit(theSymbol) == 36 {
          return Err(BadSymbol);
        }
        ans.blk[digitNum] := SymbolDigit(theSymbol);
        if ans.blk[digitNum] >= base {
          return Err(DigitTooLarge);
        }
      }
      TextIsRead(s, ans.blk[..ans.len], base);
      ans.ZapLeadingZeros();
      return Ok(ans);
    }

    static lemma TextIsRead(s: string, ds: seq<Digit>, base: nat)
      requires |ds| == |s| && base <= 36 && DigitsBelow(ds, base)
      requires forall i :: 0 <= i < |ds| ==> ds[i] == SymbolDigit(s[|s| - 1 - i])
      ensures DigitsBelow(Trim(ds), base)
      ensures ReadText(s, base) == Ok(FromDigits(Trim(ds), base))
    {
      hide ReadText, FromDigits, SymbolDigit;
      assert ds == TextDigits(s);
      forall i | 0 <= i < |s| ensures SymbolDigit(s[i]) < 36 && SymbolDigit(s[i]) < base {
        var j := |s| - 1 - i;
        assert ds[j] == SymbolDigit(s[i]);
      }
      ReadTextAccepts(s, base);
      TrimKeepsNumber(ds, base);
    }

    static lemma ReadStep(s: string, k: nat, base: nat)
      requires k < |s|
      ensures s[..|s| - k][..|s| - k - 1] == s[..|s| - k - 1]
      ensures ReadText(s[..|s| - k], base)
           == var d := SymbolDigit(s[|s| - 1 - k]);
              if d == 36 then Err(BadSymbol)
              else if d >= base then Err(DigitTooLarge)
              else WithLowDigit(d, base, ReadText(s[..|s| - k - 1], base))
    {
      assert s[..|s| - k][..|s| - k - 1] == s[..|s| - k - 1];
    }

    /** The text of the digits, highest first; zero is written "0". */
    method ToText() returns (r: Result<string>)
      requires Valid()
      ensures base > 36 ==> r == Err(BaseTooLarge)
      ensures base < 2 ==> r == Ok("0") && Number() == 0
      ensures 2 <= base <= 36 ==> r == Ok(WriteNumber(Number(), base))
    {
      if base > 36 {
        return Err(BaseTooLarge);
      }
      hide ToDigits, FromDigits, DigitsText;
      if base >= 2 {
        DigitsUnique(blk[..len], base);
      }
      if len == 0 {
        NoDigitsText(blk[..len]);
        return Ok("0");
      }
      var s := new char[len];
      for symbolNumInString := 0 to len
        invariant forall i :: 0 <= i < symbolNumInString ==> s[i] == Symbol(blk[len - 1 - i])
      {
        var digitNum := len - 1 - symbolNumInString;
        var theDigit := blk[digitNum];
        if theDigit < 10 {
          s[symbolNumInString] := ('0' as int + theDigit) as char;
        } else {
          s[symbolNumInString] := ('A' as int + theDigit - 10) as char;
        }
      }
      SymbolsMakeText(s[..], blk[..len]);
      return Ok(s[..]);
    }

    static lemma NoDigitsText(ds: seq<Digit>)
      requires |ds| == 0
      ensures DigitsText(ds) == "0" && forall base: nat :: FromDigits(ds, base) == 0
    {
    }

    static lemma SymbolsMakeText(s: string, ds: seq<Digit>)
      requires |s| == |ds| > 0 && DigitsBelow(ds, 36)
      requires forall i :: 0 <= i < |s| ==> s[i] == Symbol(ds[|ds| - 1 - i])
      ensures s == DigitsText(ds)
    {
    }
  }
}
