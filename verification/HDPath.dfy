/** Key derivation paths such as "m/44'/0'/0'/0/5". */
module HDPath {
  import opened Exceptions
  import opened Powers
  import opened Bits
  import opened Numerals

  const HARDENED: nat := 0x8000_0000

  predicate IsDigit(c: char) {
    '0' <= c <= '9'
  }

  /** One level of a path. */
  datatype Level = Level(index: nat, hardened: bool) {
    predicate Valid() {
      index < HARDENED
    }

    function Number(): nat {
      if hardened then index + HARDENED else index
    }

    function Text(): string {
      WriteNumber(index, 10) + if hardened then "'" else ""
    }
  }

  predicate LevelsValid(ls: seq<Level>) {
    forall l :: l in ls ==> l.Valid()
  }

  function Numbers(ls: seq<Level>): seq<nat> {
    seq(|ls|, i requires 0 <= i < |ls| => ls[i].Number())
  }

  /** The levels joined by slashes. */
  function Render(ls: seq<Level>): string
    requires |ls| > 0
  {
    if |ls| == 1 then ls[0].Text() else ls[0].Text() + "/" + Render(ls[1..])
  }

  function Prepend(v: nat, r: Result<seq<nat>>): Result<seq<nat>> {
    match r
    case Ok(vs) => Ok([v] + vs)
    case Err(e) => Err(e)
  }

  function Append(vs: seq<nat>, r: Result<seq<nat>>): Result<seq<nat>> {
    match r
    case Ok(us) => Ok(vs + us)
    case Err(e) => Err(e)
  }

  /** Whether a quote is the end of the path or is followed by a slash and a digit. */
  predicate QuoteFollowed(s: string)
    requires |s| > 0
  {
    |s| == 1 || (|s| > 2 && s[1] == '/' && IsDigit(s[2]))
  }

  function Skip(s: string, k: nat): string {
    if k <= |s| then s[k..] else ""
  }

  /** What is read from the text s while n is the number begun. */
  function Parse(s: string, n: nat): Result<seq<nat>>
    decreases |s|
  {
    if s == "" then Ok([])
    else if s[0] == 'm' then Parse(Skip(s, 2), n)
    else if IsDigit(s[0]) then
      var n' := n * 10 + SymbolDigit(s[0]);
      if n' >= HARDENED then Err(PathError)
      else if |s| == 1 then Prepend(n', Ok([]))
      else Parse(s[1..], n')
    else if s[0] == '\'' then
      if QuoteFollowed(s) then Prepend(Or(n, HARDENED), Parse(Skip(s, 2), 0)) else Err(PathError)
    else if s[0] == '/' then
      if |s| > 1 && IsDigit(s[1]) then Prepend(n, Parse(s[1..], 0)) else Err(PathError)
    else Err(PathError)
  }

  /** The loop over the text. */
  method ParsePath(path: string) returns (r: Result<seq<nat>>)
    ensures r == if path == "" then Err(PathError) else Parse(path, 0)
  {
    if path == "" {
      return Err(PathError);
    }
    var pathVector: seq<nat> := [];
    var i, n: nat := 0, 0;
    AppendNothing([], Parse(path, 0));
    while i < |path|
      invariant n < HARDENED
      invariant Append(pathVector, Parse(Skip(path, i), n)) == Parse(path, 0)
    {
      ghost var s := Skip(path, i);
      assert Skip(path, i + 1) == s[1..] && Skip(path, i + 2) == Skip(s, 2);
      var c := path[i];
      if c == 'm' {
        i := i + 2;
      } else if '0' <= c <= '9' {
        n := n * 10 + (c as int - '0' as int);
        if n >= HARDENED {
          return Err(PathError);
        }
        i := i + 1;
        if i >= |path| {
          AppendPrepend(pathVector, n, Ok([]));
          pathVector := pathVector + [n];
        }
      } else if c == '\'' {
        if i + 1 < |path| {
          if i + 2 >= |path| || path[i + 1] != '/' || path[i + 2] < '0' || path[i + 2] > '9' {
            return Err(PathError);
          }
        }
        AppendPrepend(pathVector, Or(n, HARDENED), Parse(Skip(s, 2), 0));
        n := Or(n, HARDENED);
        pathVector := pathVector + [n];
        n := 0;
        i := i + 2;
      } else if c == '/' {
        if i + 1 >= |path| || path[i + 1] < '0' || path[i + 1] > '9' {
          return Err(PathError);
        }
        AppendPrepend(pathVector, n, Parse(s[1..], 0));
        pathVector := pathVector + [n];
        n := 0;
        i := i + 1;
      } else {
        return Err(PathError);
      }
    }
    assert pathVector + [] == pathVector;
    return Ok(pathVector);
  }

  lemma AppendNothing(vs: seq<nat>, r: Result<seq<nat>>)
    requires vs == []
    ensures Append(vs, r) == r
  {
    if r.Ok? {
      assert vs + r.value == r.value;
    }
  }

  lemma AppendPrepend(vs: seq<nat>, v: nat, r: Result<seq<nat>>)
    ensures Append(vs, Prepend(v, r)) == Append(vs + [v], r)
  {
    if r.Ok? {
      assert vs + ([v] + r.value) == vs + [v] + r.value;
    }
  }

  // ---- one step of reading

  lemma ParseEmpty(n: nat)
    ensures Parse("", n) == Ok([])
  {
  }

  lemma ParseMaster(s: string, n: nat)
    requires s != "" && s[0] == 'm'
    ensures Parse(s, n) == Parse(Skip(s, 2), n)
  {
  }

  lemma ParseDigit(s: string, n: nat)
    requires s != "" && IsDigit(s[0])
    ensures Parse(s, n) == var n' := n * 10 + SymbolDigit(s[0]);
      if n' >= HARDENED then Err(PathError) else if |s| == 1 then Prepend(n', Ok([])) else Parse(s[1..], n')
  {
  }

  lemma ParseHardened(s: string, n: nat)
    requires s != "" && s[0] == '\''
    ensures Parse(s, n) == if QuoteFollowed(s) then Prepend(Or(n, HARDENED), Parse(Skip(s, 2), 0)) else Err(PathError)
  {
  }

  lemma ParseSlash(v: nat, rest: string)
    requires rest != "" && IsDigit(rest[0])
    ensures Parse("/" + rest, v) == Prepend(v, Parse(rest, 0))
  {
    assert ("/" + rest)[1..] == rest;
  }

  // ---- numbers inside a path

  predicate AllDigits(w: string) {
    forall i :: 0 <= i < |w| ==> IsDigit(w[i])
  }

  /** The number begun as n and continued by the digits w. */
  function Accumulate(n: nat, w: string): nat
    decreases w
  {
    if w == "" then n else Accumulate(n * 10 + SymbolDigit(w[0]), w[1..])
  }

  lemma {:induction false} AccumulateGrows(n: nat, w: string)
    ensures n <= Accumulate(n, w)
    decreases w
  {
    if w != "" {
      AccumulateGrows(n * 10 + SymbolDigit(w[0]), w[1..]);
    }
  }

  lemma {:induction false} AccumulateMonotone(n: nat, k: nat, w: string)
    requires n <= k
    ensures Accumulate(n, w) <= Accumulate(k, w)
    ensures n < k ==> Accumulate(n, w) < Accumulate(k, w)
    decreases w
  {
    if w != "" {
      AccumulateMonotone(n * 10 + SymbolDigit(w[0]), k * 10 + SymbolDigit(w[0]), w[1..]);
    }
  }

  lemma {:induction false} AccumulateLast(n: nat, w: string, c: char)
    ensures Accumulate(n, w + [c]) == Accumulate(n, w) * 10 + SymbolDigit(c)
    decreases w
  {
    if w == "" {
      assert w + [c] == [c];
    } else {
      AccumulateLast(n * 10 + SymbolDigit(w[0]), w[1..], c);
      assert (w + [c])[1..] == w[1..] + [c];
    }
  }

  lemma {:induction false} AccumulateReads(w: string)
    requires ReadText(w, 10).Ok?
    ensures Accumulate(0, w) == ReadText(w, 10).value
  {
    if w != "" {
      var t := w[..|w| - 1];
      AccumulateReads(t);
      AccumulateLast(0, t, w[|w| - 1]);
      assert w == t + [w[|w| - 1]];
    }
  }

  lemma WrittenNumber(x: nat)
    ensures AllDigits(WriteNumber(x, 10)) && |WriteNumber(x, 10)| > 0
    ensures Accumulate(0, WriteNumber(x, 10)) == x
  {
    var w := WriteNumber(x, 10);
    ReadWrite(x, 10);
    ReadTextAccepts(w, 10);
    AccumulateReads(w);
    DigitsAreDigits(x, 10);
  }

  lemma {:induction false} ParseDigits(w: string, rest: string, n: nat)
    requires AllDigits(w) && rest != "" && n < HARDENED
    ensures Parse(w + rest, n) == if Accumulate(n, w) >= HARDENED then Err(PathError) else Parse(rest, Accumulate(n, w))
    decreases w
  {
    hide Parse;
    if w == "" {
      assert w + rest == rest;
    } else {
      var n' := n * 10 + SymbolDigit(w[0]);
      AccumulateGrows(n', w[1..]);
      assert (w + rest)[0] == w[0] && (w + rest)[1..] == w[1..] + rest;
      ParseDigit(w + rest, n);
      if n' < HARDENED {
        ParseDigits(w[1..], rest, n');
      }
    }
  }

  lemma {:induction false} ParseLastDigits(w: string, n: nat)
    requires AllDigits(w) && w != "" && n < HARDENED
    ensures Parse(w, n) == if Accumulate(n, w) >= HARDENED then Err(PathError) else Prepend(Accumulate(n, w), Ok([]))
    decreases w
  {
    var n' := n * 10 + SymbolDigit(w[0]);
    AccumulateGrows(n', w[1..]);
    if |w| > 1 && n' < HARDENED {
      ParseLastDigits(w[1..], n');
    }
  }

  // ---- round trip

  lemma HardenedBit(n: nat)
    requires n < HARDENED
    ensures Or(n, HARDENED) == n + HARDENED
  {
    PowAdd(2, 8, 8);
    PowAdd(2, 16, 8);
    PowAdd(2, 24, 7);
    assert Pow(2, 8) == 0x100 && Pow(2, 7) == 0x80;
    OrDisjoint(n, 1, 31);
  }

  /** What reading a level yields when its index continues the number n. */
  function LevelRead(l: Level, n: nat, rest: string): Result<seq<nat>> {
    var v := Accumulate(n, WriteNumber(l.index, 10));
    if v >= HARDENED then Err(PathError)
    else Prepend(if l.hardened then v + HARDENED else v, Parse(rest, 0))
  }

  /** After a level comes the end or a slash and another level. */
  function AfterLevel(rest: string): string {
    if rest == "" then "" else "/" + rest
  }

  lemma ParseLevel(l: Level, n: nat, rest: string)
    requires n < HARDENED && (rest == "" || IsDigit(rest[0]))
    ensures Parse(l.Text() + AfterLevel(rest), n) == LevelRead(l, n, rest)
  {
    hide WriteNumber, Parse, Accumulate;
    var w := WriteNumber(l.index, 10);
    WrittenNumber(l.index);
    ParseEmpty(0);
    if l.hardened {
      var q := "'" + AfterLevel(rest);
      Associate(w, "'", AfterLevel(rest));
      ParseDigits(w, q, n);
      if Accumulate(n, w) < HARDENED {
        ParseQuote(Accumulate(n, w), rest);
      }
    } else {
      NothingAfter(w);
      if rest == "" {
        ParseLastDigits(w, n);
      } else {
        ParseDigits(w, AfterLevel(rest), n);
        ParseSlash(Accumulate(n, w), rest);
      }
    }
  }

  lemma NothingAfter(w: string)
    ensures w + "" == w
  {
  }

  lemma ParseQuote(v: nat, rest: string)
    requires v < HARDENED && (rest == "" || IsDigit(rest[0]))
    ensures Parse("'" + AfterLevel(rest), v) == Prepend(v + HARDENED, Parse(rest, 0))
  {
    hide Parse;
    var q := "'" + AfterLevel(rest);
    HardenedBit(v);
    assert QuoteFollowed(q);
    assert Skip(q, 2) == rest;
    ParseHardened(q, v);
  }

  /** What follows the first level. */
  function OtherLevels(ls: seq<Level>): string {
    if |ls| <= 1 then "" else Render(ls[1..])
  }

  lemma RenderStarts(ls: seq<Level>)
    requires |ls| > 0
    ensures |Render(ls)| > 0 && IsDigit(Render(ls)[0])
    ensures Render(ls) == ls[0].Text() + AfterLevel(OtherLevels(ls))
    ensures OtherLevels(ls) == "" || IsDigit(OtherLevels(ls)[0])
  {
    hide WriteNumber;
    LevelStarts(ls[0]);
    if |ls| > 1 {
      LevelStarts(ls[1]);
      Associate(ls[0].Text(), "/", Render(ls[1..]));
    } else {
      assert ls[0].Text() + "" == ls[0].Text();
    }
  }

  lemma LevelStarts(l: Level)
    ensures |l.Text()| > 0 && IsDigit(l.Text()[0])
  {
    WrittenNumber(l.index);
  }

  lemma Associate(a: string, b: string, c: string)
    ensures a + b + c == a + (b + c)
  {
  }

  /** Reading the rendering of a list of levels gives the list. */
  lemma {:induction false} ParseRender(ls: seq<Level>)
    requires |ls| > 0 && LevelsValid(ls)
    ensures Parse(Render(ls), 0) == Ok(Numbers(ls))
  {
    hide WriteNumber, Parse;
    assert ls[0] in ls;
    ParseEmpty(0);
    RenderStarts(ls);
    WrittenNumber(ls[0].index);
    ParseLevel(ls[0], 0, OtherLevels(ls));
    if |ls| > 1 {
      ParseRender(ls[1..]);
      assert Numbers(ls) == [ls[0].Number()] + Numbers(ls[1..]);
    } else {
      assert Numbers(ls) == [ls[0].Number()] + [];
    }
  }

  /** A lone number: 2^31 is the limit and the hardened bit. */
  lemma LoneLevelReads(i: nat)
    ensures Parse(WriteNumber(i, 10), 0) == if i < 0x8000_0000 then Ok([i]) else Err(PathError)
    ensures Parse(WriteNumber(i, 10) + "'", 0) == if i < 0x8000_0000 then Ok([i + 0x8000_0000]) else Err(PathError)
    ensures Level(i, false).Text() == WriteNumber(i, 10) && Level(i, true).Text() == WriteNumber(i, 10) + "'"
  {
    hide WriteNumber, Parse, Accumulate;
    ParseLevel(Level(i, false), 0, "");
    ParseLevel(Level(i, true), 0, "");
    WrittenNumber(i);
    ParseEmpty(0);
    NothingAfter(WriteNumber(i, 10));
    NothingAfter(WriteNumber(i, 10) + "'");
    assert [i] + [] == [i] && [i + 0x8000_0000] + [] == [i + 0x8000_0000];
  }

  /** With or without the leading "m/". */
  lemma PathRoundTrip(ls: seq<Level>)
    requires |ls| > 0 && LevelsValid(ls)
    ensures Parse(Render(ls), 0) == Ok(Numbers(ls))
    ensures Parse("m/" + Render(ls), 0) == Ok(Numbers(ls))
  {
    ParseRender(ls);
    assert Skip("m/" + Render(ls), 2) == Render(ls);
  }

  // ---- extending a path

  /** mainPath followed by further levels, as the path builders write it. */
  function Extend(mainPath: string, ls: seq<Level>): string
    requires |ls| > 0
  {
    mainPath + "/" + Render(ls)
  }

  /**
   Whether reading s from n ends in a finished level: on a digit, on a quote, or on a
   last 'm' with no number begun.  An 'm' swallows the character after it, so elsewhere
   it may leave a number unfinished or swallow the end of the text.
   */
  predicate EndsInLevel(s: string, n: nat)
    decreases |s|
  {
    if s == "" then false
    else if s[0] == 'm' then (if |s| == 1 then n == 0 else EndsInLevel(Skip(s, 2), n))
    else if IsDigit(s[0]) then |s| == 1 || EndsInLevel(s[1..], n * 10 + SymbolDigit(s[0]))
    else if s[0] == '\'' then |s| == 1 || EndsInLevel(Skip(s, 2), 0)
    else EndsInLevel(s[1..], 0)
  }

  lemma PrependEqual(v: nat, r: Result<seq<nat>>, vs: seq<nat>)
    ensures Prepend(v, r) == Ok([v] + vs) <==> r == Ok(vs)
  {
    if r.Ok? && [v] + r.value == [v] + vs {
      assert r.value == ([v] + r.value)[1..] == ([v] + vs)[1..] == vs;
    }
  }

  /** After a begun number a level is read as a different one, or not at all. */
  lemma BegunNumberSpoils(n: nat, ls: seq<Level>)
    requires 0 < n < HARDENED && |ls| > 0 && LevelsValid(ls)
    ensures Parse(Render(ls), n) != Ok(Numbers(ls))
  {
    hide WriteNumber;
    RenderStarts(ls);
    ParseLevel(ls[0], n, OtherLevels(ls));
    WrittenNumber(ls[0].index);
    AccumulateMonotone(0, n, WriteNumber(ls[0].index, 10));
    assert Numbers(ls)[0] == ls[0].Number();
  }

  /** An accepted path extended by levels reads as the path and the levels exactly when it ends in a level. */
  lemma {:induction false} ParseExtended(s: string, n: nat, ls: seq<Level>)
    requires s != "" && n < HARDENED && Parse(s, n).Ok? && |ls| > 0 && LevelsValid(ls)
    ensures Parse(Extend(s, ls), n) == Ok(Parse(s, n).value + Numbers(ls)) <==> EndsInLevel(s, n)
    decreases |s|
  {
    hide Render, Numbers;
    if s[0] == 'm' {
      if |s| <= 2 {
        hide Parse;
        ParseMaster(s, n);
        ParseEmpty(n);
        ExtendedMaster(s, n, ls);
        assert [] + Numbers(ls) == Numbers(ls);
        assert !EndsInLevel("", n);
      } else {
        assert Skip(Extend(s, ls), 2) == Extend(Skip(s, 2), ls);
        ParseExtended(Skip(s, 2), n, ls);
      }
    } else if |s| == 1 {
      ExtendedAtEnd(s, n, ls);
    } else if IsDigit(s[0]) {
      assert Extend(s, ls)[1..] == Extend(s[1..], ls);
      ParseExtended(s[1..], n * 10 + SymbolDigit(s[0]), ls);
    } else if s[0] == '\'' {
      ExtendedQuote(s, n, ls);
      ParseExtended(Skip(s, 2), 0, ls);
      ParseIsPrepend(Or(n, HARDENED), Parse(Skip(s, 2), 0), Parse(Extend(Skip(s, 2), ls), 0), Numbers(ls));
    } else {
      assert Extend(s, ls)[1..] == Extend(s[1..], ls) && Extend(s, ls)[1] == s[1];
      ParseExtended(s[1..], 0, ls);
      ParseIsPrepend(n, Parse(s[1..], 0), Parse(Extend(s[1..], ls), 0), Numbers(ls));
    }
  }

  /** An 'm' at the very end swallows the slash of the extension, one before the end the last character. */
  lemma ExtendedMaster(s: string, n: nat, ls: seq<Level>)
    requires 1 <= |s| <= 2 && s[0] == 'm' && n < HARDENED && |ls| > 0 && LevelsValid(ls)
    ensures Parse(Extend(s, ls), n) == Ok(Numbers(ls)) <==> |s| == 1 && n == 0
  {
    hide Render, Numbers, Parse;
    ParseRender(ls);
    RenderStarts(ls);
    ParseMaster(Extend(s, ls), n);
    if |s| == 1 {
      assert Skip(Extend(s, ls), 2) == Render(ls);
      if n > 0 {
        BegunNumberSpoils(n, ls);
      }
    } else {
      assert Skip(Extend(s, ls), 2) == "/" + Render(ls);
      ParseSlash(n, Render(ls));
      assert |[n] + Numbers(ls)| != |Numbers(ls)|;
    }
  }

  /** A digit or a quote at the end finishes its level. */
  lemma ExtendedAtEnd(s: string, n: nat, ls: seq<Level>)
    requires |s| == 1 && s[0] != 'm' && n < HARDENED && Parse(s, n).Ok? && |ls| > 0 && LevelsValid(ls)
    ensures Parse(Extend(s, ls), n) == Ok(Parse(s, n).value + Numbers(ls))
    ensures EndsInLevel(s, n)
  {
    hide Render, Numbers, Parse, Or;
    ParseRender(ls);
    RenderStarts(ls);
    ParseEmpty(0);
    ParseOne(s, n);
    if IsDigit(s[0]) {
      var n' := n * 10 + SymbolDigit(s[0]);
      ParseDigit(s, n);
      ParseDigit(Extend(s, ls), n);
      assert Extend(s, ls)[1..] == "/" + Render(ls);
      ParseSlash(n', Render(ls));
      assert [n'] + [] + Numbers(ls) == [n'] + Numbers(ls);
    } else {
      ParseHardened(s, n);
      ExtendedQuote(s, n, ls);
      assert [Or(n, HARDENED)] + [] + Numbers(ls) == [Or(n, HARDENED)] + Numbers(ls);
    }
  }

  lemma ParseOne(s: string, n: nat)
    requires |s| == 1 && Parse(s, n).Ok? && s[0] != 'm'
    ensures IsDigit(s[0]) || s[0] == '\''
  {
  }

  lemma ParseIsPrepend(v: nat, r: Result<seq<nat>>, r': Result<seq<nat>>, us: seq<nat>)
    requires r.Ok?
    ensures Prepend(v, r).Ok?
    ensures Prepend(v, r') == Ok(Prepend(v, r).value + us) <==> r' == Ok(r.value + us)
  {
    assert [v] + r.value + us == [v] + (r.value + us);
    PrependEqual(v, r', r.value + us);
  }

  lemma ExtendedQuote(s: string, n: nat, ls: seq<Level>)
    requires s != "" && s[0] == '\'' && QuoteFollowed(s) && |ls| > 0
    ensures Parse(Extend(s, ls), n)
         == Prepend(Or(n, HARDENED), if |s| == 1 then Parse(Render(ls), 0) else Parse(Extend(Skip(s, 2), ls), 0))
  {
    hide Render, Parse, Extend, Or;
    RenderStarts(ls);
    QuoteInExtension(s, ls);
    ParseHardened(Extend(s, ls), n);
  }

  lemma QuoteInExtension(s: string, ls: seq<Level>)
    requires s != "" && QuoteFollowed(s) && |ls| > 0 && Render(ls) != "" && IsDigit(Render(ls)[0])
    ensures Extend(s, ls) != "" && Extend(s, ls)[0] == s[0] && QuoteFollowed(Extend(s, ls))
    ensures Skip(Extend(s, ls), 2) == if |s| == 1 then Render(ls) else Extend(Skip(s, 2), ls)
  {
    hide Render;
    var q := Extend(s, ls);
    assert q[0] == s[0];
    if |s| == 1 {
      assert Skip(q, 2) == Render(ls);
    } else {
      assert q[1] == s[1] && q[2] == s[2];
      assert Skip(q, 2) == Extend(Skip(s, 2), ls);
    }
  }

  /** Main path, change and address index. */
  function FullBip44Path(mainPath: string, change: nat, addressIndex: nat): string {
    mainPath + "/" + WriteNumber(change, 10) + "/" + WriteNumber(addressIndex, 10)
  }

  lemma FullPathIsExtension(mainPath: string, change: nat, addressIndex: nat)
    ensures FullBip44Path(mainPath, change, addressIndex)
            == Extend(mainPath, [Level(change, false), Level(addressIndex, false)])
  {
    hide WriteNumber;
    var a, b := WriteNumber(change, 10), WriteNumber(addressIndex, 10);
    var ls := [Level(change, false), Level(addressIndex, false)];
    assert ls[1..] == [ls[1]];
    assert ls[0].Text() == a + "" == a && ls[1].Text() == b + "" == b;
    assert Render([ls[1]]) == b && Render(ls) == a + "/" + b;
    assert mainPath + "/" + a + "/" + b == mainPath + "/" + (a + "/" + b);
  }

  /**
   The full path of an accepted main path reads as the main path, change and index
   exactly when the main path ends in a level.
   */
  lemma FullPathReads(mainPath: string, change: nat, addressIndex: nat)
    requires mainPath != "" && Parse(mainPath, 0).Ok? && change < HARDENED && addressIndex < HARDENED
    ensures Parse(FullBip44Path(mainPath, change, addressIndex), 0)
            == Ok(Parse(mainPath, 0).value + [change, addressIndex])
       <==> EndsInLevel(mainPath, 0)
  {
    hide Parse;
    var ls := [Level(change, false), Level(addressIndex, false)];
    FullPathIsExtension(mainPath, change, addressIndex);
    ParseExtended(mainPath, 0, ls);
    assert Numbers(ls) == [change, addressIndex];
  }

  /** Every accepted path without the letter m ends in a level, and so does such a path after "m/". */
  lemma {:induction false} PlainPathEndsInLevel(s: string, n: nat)
    requires s != "" && Parse(s, n).Ok? && forall i :: 0 <= i < |s| ==> s[i] != 'm'
    ensures EndsInLevel(s, n)
    ensures EndsInLevel("m/" + s, n)
    decreases |s|
  {
    assert Skip("m/" + s, 2) == s;
    if |s| > 1 {
      if IsDigit(s[0]) {
        PlainPathEndsInLevel(s[1..], n * 10 + SymbolDigit(s[0]));
      } else if s[0] == '\'' {
        PlainPathEndsInLevel(Skip(s, 2), 0);
      } else {
        PlainPathEndsInLevel(s[1..], 0);
      }
    }
  }

  // ---- which texts are accepted

  /** The text between slashes. */
  function Split(s: string): (pieces: seq<string>)
    ensures |pieces| > 0
  {
    if s == "" then [""]
    else
      var rest := Split(s[1..]);
      if s[0] == '/' then [""] + rest else [[s[0]] + rest[0]] + rest[1..]
  }

  predicate IsHardened(piece: string) {
    piece != "" && piece[|piece| - 1] == '\''
  }

  /** A piece without the quote at its end. */
  function Digits(piece: string): string {
    if IsHardened(piece) then piece[..|piece| - 1] else piece
  }

  /** A piece is a level: a number below 2^31, perhaps no digit at all, and perhaps a quote. */
  predicate IsLevel(piece: string) {
    ReadText(Digits(piece), 10).Ok? && ReadText(Digits(piece), 10).value < HARDENED
  }

  function LevelNumber(piece: string): nat
    requires IsLevel(piece)
  {
    ReadText(Digits(piece), 10).value + if IsHardened(piece) then HARDENED else 0
  }

  predicate StartsWithDigit(piece: string) {
    piece != "" && IsDigit(piece[0])
  }

  /** Every piece is a level, and only the first may have no digit. */
  predicate PathAccepted(pieces: seq<string>) {
    && (forall i :: 0 <= i < |pieces| ==> IsLevel(pieces[i]))
    && (forall i :: 1 <= i < |pieces| ==> StartsWithDigit(pieces[i]))
  }

  function LevelNumbers(pieces: seq<string>): seq<nat>
    requires PathAccepted(pieces)
  {
    seq(|pieces|, i requires 0 <= i < |pieces| => LevelNumber(pieces[i]))
  }

  /** The number of a piece whose digits continue n. */
  function FirstLevel(n: nat, piece: string): Result<nat> {
    var v := Accumulate(n, Digits(piece));
    if AllDigits(Digits(piece)) && v < HARDENED then Ok(v + if IsHardened(piece) then HARDENED else 0)
    else Err(PathError)
  }

  function ReadPieces(pieces: seq<string>, n: nat): Result<seq<nat>>
    requires |pieces| > 0
  {
    match FirstLevel(n, pieces[0])
    case Err(e) => Err(e)
    case Ok(v) =>
      if |pieces| == 1 then Ok([v])
      else if StartsWithDigit(pieces[1]) then Prepend(v, ReadPieces(pieces[1..], 0))
      else Err(PathError)
  }

  lemma DigitInFrontOfPiece(c: char, w: string, n: nat)
    requires IsDigit(c)
    ensures FirstLevel(n, [c] + w) == FirstLevel(n * 10 + SymbolDigit(c), w)
  {
    var p := [c] + w;
    assert p[0] == c && p[1..] == w;
    assert w != "" ==> p[|p| - 1] == w[|w| - 1];
    assert Digits(p) == [c] + Digits(w);
    assert Digits(p)[1..] == Digits(w);
    assert forall i :: 0 <= i < |Digits(w)| ==> Digits(p)[i + 1] == Digits(w)[i];
  }

  lemma BadFirstSymbol(c: char, w: string, n: nat)
    requires !IsDigit(c) && (c == '\'' ==> w != "")
    ensures FirstLevel(n, [c] + w).Err?
  {
    assert Digits([c] + w)[0] == c;
  }

  lemma EmptyPiece(n: nat)
    requires n < HARDENED
    ensures FirstLevel(n, "") == Ok(n) && FirstLevel(n, "'") == Ok(n + HARDENED)
  {
    assert Digits("'") == "";
  }

  lemma SplitStep(s: string)
    requires s != ""
    ensures s[0] == '/' ==> Split(s) == [""] + Split(s[1..])
    ensures s[0] != '/' ==> Split(s) == [[s[0]] + Split(s[1..])[0]] + Split(s[1..])[1..]
    ensures StartsWithDigit(Split(s)[0]) <==> IsDigit(s[0])
    ensures Split("") == [""]
  {
  }

  lemma ReadPiecesStep(pieces: seq<string>, n: nat)
    requires |pieces| > 0
    ensures ReadPieces(pieces, n) ==
            match FirstLevel(n, pieces[0])
            case Err(e) => Err(e)
            case Ok(v) =>
              if |pieces| == 1 then Ok([v])
              else if StartsWithDigit(pieces[1]) then Prepend(v, ReadPieces(pieces[1..], 0))
              else Err(PathError)
  {
  }

  lemma FirstLevelFails(n: nat, piece: string)
    ensures FirstLevel(n, piece).Err? ==> FirstLevel(n, piece) == Err(PathError)
    ensures n >= HARDENED ==> FirstLevel(n, piece).Err?
  {
    AccumulateGrows(n, Digits(piece));
  }

  lemma ParseOther(s: string, n: nat)
    requires s != "" && s[0] != 'm' && !IsDigit(s[0]) && s[0] != '\''
    ensures Parse(s, n)
         == if s[0] == '/' && |s| > 1 && IsDigit(s[1]) then Prepend(n, Parse(s[1..], 0)) else Err(PathError)
  {
  }

  /** Reading a text without the letter m is reading its pieces. */
  lemma {:induction false} ParseIsReadPieces(s: string, n: nat)
    requires s != "" && n < HARDENED && forall i :: 0 <= i < |s| ==> s[i] != 'm'
    ensures Parse(s, n) == ReadPieces(Split(s), n)
    decreases |s|
  {
    hide Parse, Split, ReadPieces, FirstLevel, Or, Accumulate;
    var rest := Split(s[1..]);
    SplitStep(s);
    EmptyPiece(n);
    ReadPiecesStep(Split(s), n);
    FirstLevelFails(n, Split(s)[0]);
    if IsDigit(s[0]) {
      var n' := n * 10 + SymbolDigit(s[0]);
      ParseDigit(s, n);
      DigitInFrontOfPiece(s[0], rest[0], n);
      FirstLevelFails(n', rest[0]);
      if n' < HARDENED && |s| == 1 {
        EmptyPiece(n');
        assert [n'] + [] == [n'];
      } else if n' < HARDENED {
        ParseIsReadPieces(s[1..], n');
        ReadPiecesStep(rest, n');
        assert Split(s)[1..] == rest[1..];
      }
    } else if s[0] == '\'' {
      ParseHardened(s, n);
      HardenedBit(n);
      ParseEmpty(0);
      if |s| > 1 && s[1] == '/' {
        var more := s[2..];
        assert s[1..][1..] == more == Skip(s, 2);
        SplitStep(s[1..]);
        assert [s[0]] + "" == "'" && rest[1..] == Split(more);
        assert Split(s)[1..] == Split(more);
        if more != "" {
          SplitStep(more);
          ParseIsReadPieces(more, 0);
        }
      } else if |s| > 1 {
        SplitStep(s[1..]);
        BadFirstSymbol(s[0], rest[0], n);
      } else {
        assert [s[0]] + "" == "'" && s[1..] == "";
        assert [n + HARDENED] + [] == [n + HARDENED];
      }
    } else if s[0] == '/' {
      ParseOther(s, n);
      if |s| > 1 {
        SplitStep(s[1..]);
        ParseIsReadPieces(s[1..], 0);
      }
    } else {
      BadFirstSymbol(s[0], rest[0], n);
      ParseOther(s, n);
    }
  }

  lemma LevelIsFirstLevel(piece: string)
    ensures FirstLevel(0, piece).Ok? <==> IsLevel(piece)
    ensures IsLevel(piece) ==> FirstLevel(0, piece) == Ok(LevelNumber(piece))
  {
    var w := Digits(piece);
    ReadTextAccepts(w, 10);
    assert AllDigits(w) <==> TextValid(w, 10);
    if TextValid(w, 10) {
      AccumulateReads(w);
    }
  }

  lemma {:induction false} PiecesRead(pieces: seq<string>)
    requires |pieces| > 0
    ensures ReadPieces(pieces, 0).Ok? <==> PathAccepted(pieces)
    ensures PathAccepted(pieces) ==>
              ReadPieces(pieces, 0) == Ok(LevelNumbers(pieces))
  {
    hide IsLevel, LevelNumber, FirstLevel;
    LevelIsFirstLevel(pieces[0]);
    if |pieces| > 1 {
      var rest := pieces[1..];
      PiecesRead(rest);
      AcceptedFurther(pieces);
      if PathAccepted(pieces) {
        assert [LevelNumber(pieces[0])] + LevelNumbers(rest) == LevelNumbers(pieces);
      }
    } else if PathAccepted(pieces) {
      assert [LevelNumber(pieces[0])] == LevelNumbers(pieces);
    }
  }

  lemma AcceptedFurther(pieces: seq<string>)
    requires |pieces| > 1
    ensures PathAccepted(pieces) <==> IsLevel(pieces[0]) && StartsWithDigit(pieces[1]) && PathAccepted(pieces[1..])
  {
    hide IsLevel;
    var rest := pieces[1..];
    if IsLevel(pieces[0]) && StartsWithDigit(pieces[1]) && PathAccepted(rest) {
      forall i | 0 <= i < |pieces| ensures IsLevel(pieces[i]) && (i > 0 ==> StartsWithDigit(pieces[i])) {
        assert i > 0 ==> pieces[i] == rest[i - 1];
      }
    }
  }

  /**
   A text without the letter m, after "m/" or not, is accepted exactly when all its pieces
   are levels and all but the first have a digit, and it yields their numbers.
   */
  lemma PlainPathReads(s: string)
    requires s != "" && forall i :: 0 <= i < |s| ==> s[i] != 'm'
    ensures Parse(s, 0).Ok? <==> PathAccepted(Split(s))
    ensures PathAccepted(Split(s)) ==> Parse(s, 0) == Ok(LevelNumbers(Split(s)))
    ensures Parse("m/" + s, 0) == Parse(s, 0)
  {
    hide ReadPieces, Split;
    ParseIsReadPieces(s, 0);
    PiecesRead(Split(s));
    assert Skip("m/" + s, 2) == s;
  }

  /** A path may begin with a slash or be a lone quote; the missing number reads as zero. */
  lemma EmptyFirstLevel()
    ensures Parse("/5", 0) == Ok([0, 5])
    ensures Parse("'", 0) == Ok([HARDENED])
  {
    ParseEmpty(0);
    ParseSlash(0, "5");
    assert "/" + "5" == "/5";
    ParseDigit("5", 0);
    ParseQuote(0, "");
    assert "'" + AfterLevel("") == "'";
    assert [5] + [] == [5] && [0] + [5] == [0, 5] && [0 + HARDENED] + [] == [HARDENED];
  }

  /** An 'm' after a digit is accepted and silently loses the level; the extension then reads wrongly. */
  lemma MasterInsideLosesLevel()
    ensures Parse("1m", 0) == Ok([])
    ensures Parse("1m/5", 0) == Ok([15])
    ensures Parse(FullBip44Path("1m", 0, 5), 0) != Ok([0, 5])
  {
    var s := "1m";
    assert s[1..] == "m" && Skip("m", 2) == "";
    assert Parse("m", 1) == Ok([]);
    assert EndsInLevel(s, 0) == EndsInLevel("m", 1);
    assert "1m/5"[1..] == "m/5" && Skip("m/5", 2) == "5" && Parse("5", 1) == Ok([15] + []);
    assert [15] + [] == [15];
    FullPathReads("1m", 0, 5);
    assert [] + [0, 5] == [0, 5];
  }
}
