/** Numbers written in a base: digits, symbols and text. */
module Numerals {
  import opened Exceptions
  import opened Powers

  /** A digit or a base: an unsigned short. */
  type Digit = x: int | 0 <= x < 0x1_0000 witness 0

  // ---- digits, least significant first

  function FromDigits(ds: seq<Digit>, base: nat): nat {
    if |ds| == 0 then 0
    else
      MulNonNegative(base, FromDigits(ds[1..], base));
      ds[0] + base * FromDigits(ds[1..], base)
  }

  function ToDigits(x: nat, base: nat): seq<Digit>
    requires 2 <= base < 0x1_0000
  {
    if x == 0 then []
    else
      QuotientSmaller(x, base);
      [x % base] + ToDigits(x / base, base)
  }

  predicate DigitsBelow(ds: seq<Digit>, base: nat) {
    forall i :: 0 <= i < |ds| ==> ds[i] < base
  }

  predicate NoLeadingZero(ds: seq<Digit>) {
    |ds| > 0 ==> ds[|ds| - 1] != 0
  }

  /** Drops the leading zeros. */
  function Trim(ds: seq<Digit>): (t: seq<Digit>)
    ensures NoLeadingZero(t) && t <= ds
    ensures forall i :: |t| <= i < |ds| ==> ds[i] == 0
  {
    if |ds| > 0 && ds[|ds| - 1] == 0 then Trim(ds[..|ds| - 1]) else ds
  }

  lemma QuotientSmaller(x: nat, base: nat)
    requires x > 0 && base >= 2
    ensures 0 <= x / base < x
    ensures x == base * (x / base) + x % base
    ensures x / base == 0 ==> x % base == x
  {
    QuotientBound(x, base);
    assert x == base * (x / base) + x % base;
    assert x / base == 0 ==> base * (x / base) == 0;
    if x / base == x {
      MulMonotone(x, 2, base);
    }
  }

  lemma {:induction false} DigitsAreDigits(x: nat, base: nat)
    requires 2 <= base < 0x1_0000
    ensures DigitsBelow(ToDigits(x, base), base) && NoLeadingZero(ToDigits(x, base))
    ensures FromDigits(ToDigits(x, base), base) == x
    ensures |ToDigits(x, base)| == 0 <==> x == 0
  {
    if x > 0 {
      hide FromDigits;
      QuotientSmaller(x, base);
      DigitsAreDigits(x / base, base);
      DigitInFront(x % base, ToDigits(x / base, base), base);
    }
  }

  lemma DigitInFront(d: Digit, ds: seq<Digit>, base: nat)
    ensures FromDigits([d] + ds, base) == d + base * FromDigits(ds, base)
    ensures d < base && DigitsBelow(ds, base) ==> DigitsBelow([d] + ds, base)
    ensures NoLeadingZero(ds) && (|ds| == 0 ==> d != 0) ==> NoLeadingZero([d] + ds)
  {
    assert ([d] + ds)[1..] == ds;
  }

  lemma {:induction false} DigitsUnique(ds: seq<Digit>, base: nat)
    requires 2 <= base < 0x1_0000 && DigitsBelow(ds, base) && NoLeadingZero(ds)
    ensures ToDigits(FromDigits(ds, base), base) == ds
    ensures |ds| > 0 ==> FromDigits(ds, base) > 0
  {
    if |ds| > 0 {
      var rest := ds[1..];
      DigitsUnique(rest, base);
      var v := FromDigits(rest, base);
      if |rest| > 0 {
        MulMonotone(base, 1, v);
      }
      assert base * v == v * base;
      DivisionUnique(FromDigits(ds, base), base, v, ds[0]);
      assert ds == [ds[0]] + rest;
    }
  }

  lemma {:induction false} TrimKeepsNumber(ds: seq<Digit>, base: nat)
    ensures FromDigits(Trim(ds), base) == FromDigits(ds, base)
  {
    if |ds| > 0 && ds[|ds| - 1] == 0 {
      TrimKeepsNumber(ds[..|ds| - 1], base);
      AppendDigit(ds[..|ds| - 1], 0, base);
      assert ds == ds[..|ds| - 1] + [0];
    }
  }

  lemma {:induction false} AppendDigit(ds: seq<Digit>, d: Digit, base: nat)
    ensures FromDigits(ds + [d], base) == FromDigits(ds, base) + d * Pow(base, |ds|)
  {
    if |ds| == 0 {
      assert FromDigits([d], base) == d + base * 0;
      assert ds + [d] == [d];
    } else {
      var t, p := ds[1..], Pow(base, |ds| - 1);
      AppendDigit(t, d, base);
      DigitInFront(ds[0], t + [d], base);
      assert ds + [d] == [ds[0]] + (t + [d]);
      DistributeDigit(base, FromDigits(t, base), d, p);
    }
  }

  lemma DistributeDigit(b: int, v: int, d: int, p: int)
    ensures b * (v + d * p) == b * v + d * (b * p)
  {
    MulAssociative(d, b, p);
    MulAssociative(b, d, p);
  }

  // ---- symbols

  function Symbol(d: Digit): char
    requires d < 36
  {
    if d < 10 then ('0' as int + d) as char else ('A' as int + d - 10) as char
  }

  /** The digit of a symbol; 36 stands for none. */
  function SymbolDigit(c: char): Digit {
    if '0' <= c <= '9' then c as int - '0' as int
    else if 'A' <= c <= 'Z' then c as int - 'A' as int + 10
    else if 'a' <= c <= 'z' then c as int - 'a' as int + 10
    else 36
  }

  function UpperChar(c: char): char {
    if 'a' <= c <= 'z' then (c as int - 'a' as int + 'A' as int) as char else c
  }

  function Upper(s: string): string {
    seq(|s|, i requires 0 <= i < |s| => UpperChar(s[i]))
  }

  function StripZeros(s: string): string {
    if |s| > 0 && s[0] == '0' then StripZeros(s[1..]) else s
  }

  // ---- text, most significant symbol first

  function DigitsText(ds: seq<Digit>): string
    requires DigitsBelow(ds, 36)
  {
    if |ds| == 0 then "0" else seq(|ds|, i requires 0 <= i < |ds| => Symbol(ds[|ds| - 1 - i]))
  }

  predicate TextValid(s: string, base: nat) {
    forall i :: 0 <= i < |s| ==> SymbolDigit(s[i]) < 36 && SymbolDigit(s[i]) < base
  }

  function TextDigits(s: string): seq<Digit> {
    seq(|s|, i requires 0 <= i < |s| => SymbolDigit(s[|s| - 1 - i]))
  }

  /** The lowest digit d joins the number of the digits above it. */
  function WithLowDigit(d: Digit, base: nat, upper: Result<nat>): Result<nat> {
    match upper
    case Err(e) => Err(e)
    case Ok(v) => Ok(LowDigitPlus(d, base, v))
  }

  function LowDigitPlus(d: Digit, base: nat, v: nat): nat {
    MulNonNegative(base, v);
    d + base * v
  }

  /** What reading a text yields: its number, or the complaint about its last offending symbol. */
  function ReadText(s: string, base: nat): Result<nat>
  {
    if |s| == 0 then Ok(0)
    else
      var d := SymbolDigit(s[|s| - 1]);
      if d == 36 then Err(BadSymbol)
      else if d >= base then Err(DigitTooLarge)
      else WithLowDigit(d, base, ReadText(s[..|s| - 1], base))
  }

  function WriteNumber(x: nat, base: nat): string
    requires 2 <= base <= 36
  {
    DigitsAreDigits(x, base);
    DigitsText(ToDigits(x, base))
  }

  /** A text is accepted exactly when all its symbols are digits below the base. */
  lemma {:induction false} ReadTextAccepts(s: string, base: nat)
    ensures ReadText(s, base).Ok? <==> TextValid(s, base)
    ensures ReadText(s, base).Ok? ==> ReadText(s, base).value == FromDigits(TextDigits(s), base)
  {
    if |s| > 0 {
      var t := s[..|s| - 1];
      ReadTextAccepts(t, base);
      assert TextDigits(s)[1..] == TextDigits(t);
      if TextValid(s, base) {
        assert forall i :: 0 <= i < |t| ==> t[i] == s[i];
      } else if TextValid(t, base) {
        assert forall i :: 0 <= i < |t| ==> t[i] == s[i];
      }
    }
  }

  lemma SymbolRoundTrip(d: Digit)
    requires d < 36
    ensures SymbolDigit(Symbol(d)) == d
  {
  }

  lemma SymbolOfDigit(c: char)
    requires SymbolDigit(c) < 36
    ensures Symbol(SymbolDigit(c)) == UpperChar(c)
  {
  }

  /** The symbols of the digits: 0 to 9, then A to Z, either case when read; no others. */
  lemma SymbolsOfDigits(d: Digit, c: char)
    ensures d < 10 ==> Symbol(d) == ('0' as int + d) as char
    ensures 10 <= d < 36 ==> Symbol(d) == ('A' as int + d - 10) as char
    ensures d < 10 ==> SymbolDigit(('0' as int + d) as char) == d
    ensures 10 <= d < 36 ==>
              SymbolDigit(('A' as int + d - 10) as char) == d && SymbolDigit(('a' as int + d - 10) as char) == d
    ensures SymbolDigit(c) <= 36
    ensures SymbolDigit(c) < 36 <==> '0' <= c <= '9' || 'A' <= c <= 'Z' || 'a' <= c <= 'z'
  {
  }

  /** The complaint is about the last offending symbol: not a digit at all, or too large for the base. */
  lemma {:induction false} ReadTextComplains(s: string, base: nat, i: nat)
    requires i < |s| && !(SymbolDigit(s[i]) < 36 && SymbolDigit(s[i]) < base)
    requires forall j :: i < j < |s| ==> SymbolDigit(s[j]) < 36 && SymbolDigit(s[j]) < base
    ensures ReadText(s, base) == Err(if SymbolDigit(s[i]) == 36 then BadSymbol else DigitTooLarge)
  {
    if i < |s| - 1 {
      ReadTextComplains(s[..|s| - 1], base, i);
    }
  }

  /** Reading what was written gives the number back. */
  lemma ReadWrite(x: nat, base: nat)
    requires 2 <= base <= 36
    ensures ReadText(WriteNumber(x, base), base) == Ok(x)
  {
    hide ReadText, ToDigits;
    var ds := ToDigits(x, base);
    var s := WriteNumber(x, base);
    DigitsAreDigits(x, base);
    ReadTextAccepts(s, base);
    if x > 0 {
      forall i | 0 <= i < |ds| ensures TextDigits(s)[i] == ds[i] {
        SymbolRoundTrip(ds[i]);
      }
      assert TextDigits(s) == ds;
    } else {
      assert TextDigits("0") == [0];
    }
  }

  /** Writing what was read gives the text in upper case without leading zeros. */
  lemma WriteRead(s: string, base: nat)
    requires 2 <= base <= 36 && TextValid(s, base)
    ensures ReadText(s, base).Ok?
    ensures WriteNumber(ReadText(s, base).value, base) == if StripZeros(s) == "" then "0" else Upper(StripZeros(s))
  {
    hide ReadText, FromDigits, ToDigits, SymbolDigit;
    ReadTextAccepts(s, base);
    StripIsTrim(s);
    StripValid(s, base);
    var t := StripZeros(s);
    var ds := TextDigits(t);
    TrimKeepsNumber(TextDigits(s), base);
    ValidTextBack(t, base);
    DigitsUnique(ds, base);
  }

  /** A valid text is the writing of its digits, but for the case of its letters. */
  lemma ValidTextBack(t: string, base: nat)
    requires base <= 36 && TextValid(t, base)
    ensures DigitsBelow(TextDigits(t), base)
    ensures DigitsText(TextDigits(t)) == if t == "" then "0" else Upper(t)
  {
    var ds := TextDigits(t);
    if t != "" {
      forall i | 0 <= i < |t| ensures DigitsText(ds)[i] == Upper(t)[i] {
        assert ds[|t| - 1 - i] == SymbolDigit(t[i]);
        SymbolOfDigit(t[i]);
      }
      assert DigitsText(ds) == Upper(t);
    }
  }

  lemma {:induction false} StripValid(s: string, base: nat)
    requires TextValid(s, base)
    ensures TextValid(StripZeros(s), base)
  {
    if |s| > 0 && s[0] == '0' {
      StripValid(s[1..], base);
    }
  }

  lemma {:induction false} StripIsTrim(s: string)
    ensures TextDigits(StripZeros(s)) == Trim(TextDigits(s))
  {
    if |s| > 0 {
      var ds := TextDigits(s);
      assert ds[..|s| - 1] == TextDigits(s[1..]);
      assert ds[|s| - 1] == SymbolDigit(s[0]);
      if s[0] == '0' {
        StripIsTrim(s[1..]);
      }
    }
  }

  // ---- signed text

  function WriteInteger(x: int): string {
    if x < 0 then "-" + WriteNumber(-x, 10) else WriteNumber(x, 10)
  }

  /** A sign, if any, and then a number; a sign alone reads as zero. */
  function ReadInteger(s: string): Result<int> {
    if |s| > 0 && s[0] == '-' then
      match ReadText(s[1..], 10)
      case Ok(v) => Ok(-(v as int))
      case Err(e) => Err(e)
    else if |s| > 0 && s[0] == '+' then
      match ReadText(s[1..], 10)
      case Ok(v) => Ok(v)
      case Err(e) => Err(e)
    else
      match ReadText(s, 10)
      case Ok(v) => Ok(v)
      case Err(e) => Err(e)
  }

  /** A written number begins with a digit, not with a sign. */
  lemma WrittenStart(n: nat)
    ensures WriteNumber(n, 10) != "" && WriteNumber(n, 10)[0] != '-' && WriteNumber(n, 10)[0] != '+'
  {
    hide ToDigits, FromDigits;
    DigitsAreDigits(n, 10);
    var ds := ToDigits(n, 10);
    if |ds| > 0 {
      assert WriteNumber(n, 10)[0] == Symbol(ds[|ds| - 1]);
    }
  }

  lemma ReadWriteInteger(x: int)
    ensures ReadInteger(WriteInteger(x)) == Ok(x)
  {
    hide WriteNumber, ReadText;
    var n: nat := if x < 0 then -x else x;
    var s := WriteNumber(n, 10);
    ReadWrite(n, 10);
    WrittenStart(n);
    assert ("-" + s)[1..] == s;
  }

  /** What a text of digits stands for: itself without leading zeros, "0" if nothing remains. */
  function Stripped(t: string): string {
    if StripZeros(t) == "" then "0" else StripZeros(t)
  }

  /** Writing what was read of a signed text: a plus sign goes, a minus sign stays except before zero. */
  lemma WriteReadInteger(t: string)
    requires forall i :: 0 <= i < |t| ==> '0' <= t[i] <= '9'
    ensures ReadInteger(t).Ok? && WriteInteger(ReadInteger(t).value) == Stripped(t)
    ensures ReadInteger("+" + t).Ok? && WriteInteger(ReadInteger("+" + t).value) == Stripped(t)
    ensures ReadInteger("-" + t).Ok?
    ensures WriteInteger(ReadInteger("-" + t).value) == if StripZeros(t) == "" then "0" else "-" + StripZeros(t)
  {
    hide WriteNumber, ReadText, StripZeros, ReadInteger, WriteInteger;
    DigitsReadBack(t);
    ReadSigned(t);
    WriteSigned(ReadText(t, 10).value);
  }

  lemma WriteSigned(v: nat)
    ensures WriteInteger(v) == WriteNumber(v, 10)
    ensures WriteInteger(-(v as int)) == if v == 0 then WriteNumber(v, 10) else "-" + WriteNumber(v, 10)
  {
    hide WriteNumber;
    assert -(-(v as int)) == v;
  }

  /** The sign is read first; digits have none. */
  lemma ReadSigned(t: string)
    requires ReadText(t, 10).Ok?
    ensures ReadInteger("+" + t) == Ok(ReadText(t, 10).value)
    ensures ReadInteger("-" + t) == Ok(-(ReadText(t, 10).value as int))
    ensures (t != "" ==> t[0] != '+' && t[0] != '-') ==> ReadInteger(t) == Ok(ReadText(t, 10).value)
  {
    hide ReadText;
    var plus, minus := "+" + t, "-" + t;
    assert plus[0] == '+' && plus[1..] == t;
    assert minus[0] == '-' && minus[1..] == t;
  }

  /** Writing what was read of decimal digits. */
  lemma DigitsReadBack(t: string)
    requires forall i :: 0 <= i < |t| ==> '0' <= t[i] <= '9'
    ensures ReadText(t, 10).Ok? && WriteNumber(ReadText(t, 10).value, 10) == Stripped(t)
    ensures ReadText(t, 10).value == 0 <==> StripZeros(t) == ""
  {
    hide WriteNumber, ReadText, StripZeros;
    WriteRead(t, 10);
    StripKeepsDigits(t);
    UpperKeepsDigits(StripZeros(t));
    ZeroText(ReadText(t, 10).value, StripZeros(t));
  }

  lemma UpperKeepsDigits(t: string)
    requires forall i :: 0 <= i < |t| ==> '0' <= t[i] <= '9'
    ensures Upper(t) == t
  {
  }

  lemma {:induction false} StripKeepsDigits(t: string)
    requires forall i :: 0 <= i < |t| ==> '0' <= t[i] <= '9'
    ensures forall i :: 0 <= i < |StripZeros(t)| ==> '0' <= StripZeros(t)[i] <= '9'
    ensures StripZeros(t) != "" ==> StripZeros(t)[0] != '0'
  {
    if |t| > 0 && t[0] == '0' {
      StripKeepsDigits(t[1..]);
    }
  }

  /** Only zero is written "0". */
  lemma ZeroText(v: nat, stripped: string)
    requires WriteNumber(v, 10) == if stripped == "" then "0" else stripped
    requires stripped != "" ==> stripped[0] != '0'
    ensures v == 0 <==> stripped == ""
  {
    hide ReadText;
    ReadWrite(v, 10);
    ReadWrite(0, 10);
    assert WriteNumber(0, 10) == "0";
  }

  /** A signed text is accepted exactly when what follows the sign, if any, is decimal digits. */
  lemma ReadIntegerAccepts(s: string)
    ensures ReadInteger(s).Ok? <==> TextValid(if s != "" && (s[0] == '-' || s[0] == '+') then s[1..] else s, 10)
  {
    hide ReadText;
    ReadTextAccepts(s, 10);
    if s != "" {
      ReadTextAccepts(s[1..], 10);
    }
  }
}
