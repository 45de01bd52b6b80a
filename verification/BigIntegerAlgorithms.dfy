/** Greatest common divisors, modular inverses and modular powers. */
module BigIntegerAlgorithms {
  import opened Exceptions
  import opened Powers
  import opened Bits
  import opened Blocks
  import opened NumberTheory
  import opened BigUnsigneds
  import opened BigIntegers

  /** Euclid's algorithm with the two numbers taking turns as the dividend. */
  method Gcd(a0: BigUnsigned, b0: BigUnsigned) returns (g: BigUnsigned)
    requires a0.Valid() && b0.Valid()
    ensures g.Valid() && fresh(g) && fresh(g.blk)
    ensures IsGcd(g.Number(), a0.Number(), b0.Number())
  {
    hide Val, Weight, Value, BigUnsigned.Number, BigUnsigned.Valid, IsGcd, CommonDivisor;
    var a := new BigUnsigned.Copy(a0);
    var b := new BigUnsigned.Copy(b0);
    var trash := new BigUnsigned();
    ghost var x, y := a.Number(), b.Number();
    while true
      invariant a.Valid() && b.Valid() && trash.Wf()
      invariant fresh(a.blk) && fresh(b.blk) && fresh(trash.blk)
      invariant a.blk != b.blk && a.blk != trash.blk && b.blk != trash.blk
      invariant SameCommonDivisors(x, y, a.Number(), b.Number())
      decreases b.Number()
    {
      if b.IsZero() {
        GcdWithZero(a.Number(), x, y);
        return a;
      }
      ReduceDividend(a, b, trash, x, y);
      if a.IsZero() {
        GcdWithZero(b.Number(), x, y);
        return b;
      }
      ReduceDividend(b, a, trash, x, y);
    }
  }

  /** a %= b, after which the two change places. */
  method ReduceDividend(a: BigUnsigned, b: BigUnsigned, trash: BigUnsigned, ghost x: int, ghost y: int)
    requires a.Valid() && b.Valid() && trash.Wf() && b.Number() > 0
    requires a.blk != b.blk && a.blk != trash.blk && b.blk != trash.blk
    requires SameCommonDivisors(x, y, a.Number(), b.Number())
    modifies a, a.blk, trash, trash.blk
    ensures a.Valid() && trash.Wf() && a.blk != trash.blk
    ensures a.blk == old(a.blk) || fresh(a.blk)
    ensures trash.blk == old(trash.blk) || fresh(trash.blk)
    ensures a.Number() < b.Number()
    ensures SameCommonDivisors(x, y, b.Number(), a.Number())
  {
    hide Val, Weight, Value, BigUnsigned.Number, BigUnsigned.Valid, CommonDivisor;
    ghost var u := a.Number();
    var _ := a.DivideWithRemainder(b, trash);
    RemainderKeepsDivisors(u, b.Number(), trash.Number(), a.Number());
    SwapDivisors(a.Number(), b.Number());
  }

  /** Two integers that share nothing. */
  ghost predicate Pair(x: BigInteger, y: BigInteger)
    reads x.mag, y.mag
  {
    x != y && x.mag != y.mag && x.mag.blk != y.mag.blk
  }

  /** All seven working variables share nothing. */
  ghost predicate Separate(m: BigInteger, n: BigInteger, r1: BigInteger, s1: BigInteger, r2: BigInteger,
                           s2: BigInteger, q: BigInteger)
    reads m.mag, n.mag, r1.mag, s1.mag, r2.mag, s2.mag, q.mag
  {
    && Pair(m, n) && Pair(m, r1) && Pair(m, s1) && Pair(m, r2) && Pair(m, s2) && Pair(m, q)
    && Pair(n, r1) && Pair(n, s1) && Pair(n, r2) && Pair(n, s2) && Pair(n, q)
    && Pair(r1, s1) && Pair(r1, r2) && Pair(r1, s2) && Pair(r1, q)
    && Pair(s1, r2) && Pair(s1, s2) && Pair(s1, q)
    && Pair(r2, s2) && Pair(r2, q)
    && Pair(s2, q)
  }

  /** x -= q * y */
  method SubtractProduct(x: BigInteger, q: BigInteger, y: BigInteger)
    requires x.Valid() && q.Valid() && y.Valid() && Pair(x, q) && Pair(x, y)
    modifies x, x.mag, x.mag.blk
    ensures x.Valid() && (x.mag.blk == old(x.mag.blk) || fresh(x.mag.blk))
    ensures x.Int() == old(x.Int()) - q.Int() * y.Int()
  {
    hide Val, Weight, Value, BigUnsigned.Number, BigUnsigned.Valid, BigInteger.Int, BigInteger.Valid;
    var t := q.Times(y);
    x.Subtract(x, t);
  }

  /** (r1, s1) -= q * (r2, s2) */
  method SubtractProducts(r1: BigInteger, s1: BigInteger, r2: BigInteger, s2: BigInteger, q: BigInteger)
    requires r1.Valid() && s1.Valid() && r2.Valid() && s2.Valid() && q.Valid()
    requires Pair(r1, s1) && Pair(r1, r2) && Pair(r1, s2) && Pair(r1, q) && Pair(s1, r2) && Pair(s1, s2) && Pair(s1, q)
    modifies r1, r1.mag, r1.mag.blk, s1, s1.mag, s1.mag.blk
    ensures r1.Valid() && (r1.mag.blk == old(r1.mag.blk) || fresh(r1.mag.blk))
    ensures s1.Valid() && (s1.mag.blk == old(s1.mag.blk) || fresh(s1.mag.blk)) && Pair(r1, s1)
    ensures r1.Int() == old(r1.Int()) - q.Int() * r2.Int()
    ensures s1.Int() == old(s1.Int()) - q.Int() * s2.Int()
  {
    hide Val, Weight, Value, BigUnsigned.Number, BigUnsigned.Valid, Canonical, Signed, BigInteger.Int, BigInteger.Valid;
    SubtractProduct(r1, q, r2);
    SubtractProduct(s1, q, s2);
  }

  /** m %= n with quotient q, and the same combination on the coefficients. */
  method HalfStep(m: BigInteger, n: BigInteger, r1: BigInteger, s1: BigInteger, r2: BigInteger, s2: BigInteger,
                  q: BigInteger)
    requires m.Valid() && n.Valid() && r1.Valid() && s1.Valid() && r2.Valid() && s2.Valid() && q.Valid()
    requires Separate(m, n, r1, s1, r2, s2, q)
    modifies m, m.mag, m.mag.blk, r1, r1.mag, r1.mag.blk, s1, s1.mag, s1.mag.blk, q, q.mag, q.mag.blk
    ensures m.Valid() && r1.Valid() && s1.Valid() && q.Valid()
    ensures m.mag.blk == old(m.mag.blk) || fresh(m.mag.blk)
    ensures q.mag.blk == old(q.mag.blk) || fresh(q.mag.blk)
    ensures r1.mag.blk == old(r1.mag.blk) || fresh(r1.mag.blk)
    ensures s1.mag.blk == old(s1.mag.blk) || fresh(s1.mag.blk)
    ensures Separate(m, n, r1, s1, r2, s2, q)
    ensures FloorDivision(old(m.Int()), n.Int(), q.Int(), m.Int())
    ensures r1.Int() == old(r1.Int()) - q.Int() * r2.Int()
    ensures s1.Int() == old(s1.Int()) - q.Int() * s2.Int()
  {
    hide Val, Weight, Value, BigUnsigned.Number, BigUnsigned.Valid, Canonical;
    hide Signed, BigInteger.Int, BigInteger.Valid, FloorDivision;
    var _ := m.DivideWithRemainder(n, q);
    SubtractProducts(r1, s1, r2, s2, q);
  }

  /** What every half-step keeps: the coefficients belong to m and n, and no common divisor is lost. */
  ghost predicate EuclidState(m0: int, n0: int, m: int, n: int, r1: int, s1: int, r2: int, s2: int) {
    && r1 * m0 + s1 * n0 == m
    && r2 * m0 + s2 * n0 == n
    && SameCommonDivisors(m0, n0, m, n)
  }

  /** One half-step: the remainder is smaller than the divisor and inherits its side of zero. */
  lemma EuclidStep(m0: int, n0: int, m: int, n: int, r1: int, s1: int, r2: int, s2: int, q: int, r: int)
    requires EuclidState(m0, n0, m, n, r1, s1, r2, s2)
    requires n != 0 && FloorDivision(m, n, q, r)
    ensures EuclidState(m0, n0, r, n, r1 - q * r2, s1 - q * s2, r2, s2)
    ensures Abs(r) < Abs(n) && (n > 0 ==> r >= 0)
  {
    assert q * n == n * q;
    Combine(r1, s1, r2, s2, q, m0, n0);
    RemainderKeepsDivisors(m, n, q, r);
  }

  lemma Combine(r1: int, s1: int, r2: int, s2: int, q: int, m0: int, n0: int)
    ensures (r1 - q * r2) * m0 + (s1 - q * s2) * n0 == (r1 * m0 + s1 * n0) - q * (r2 * m0 + s2 * n0)
  {
    assert q * (r2 * m0 + s2 * n0) == q * r2 * m0 + q * s2 * n0;
  }

  lemma SwapState(m0: int, n0: int, m: int, n: int, r1: int, s1: int, r2: int, s2: int)
    requires EuclidState(m0, n0, m, n, r1, s1, r2, s2)
    ensures EuclidState(m0, n0, n, m, r2, s2, r1, s1)
  {
    SwapDivisors(m, n);
  }

  lemma EuclidEnds(m0: int, n0: int, m: int, r1: int, s1: int, r2: int, s2: int)
    requires EuclidState(m0, n0, m, 0, r1, s1, r2, s2)
    ensures IsGcd(m, m0, n0) && r1 * m0 + s1 * n0 == m
  {
    GcdWithZero(m, m0, n0);
  }

  /** A half-step with what it keeps. */
  method EuclidHalfStep(m: BigInteger, n: BigInteger, r1: BigInteger, s1: BigInteger, r2: BigInteger, s2: BigInteger,
                        q: BigInteger, ghost x: int, ghost y: int)
    requires m.Valid() && n.Valid() && r1.Valid() && s1.Valid() && r2.Valid() && s2.Valid() && q.Valid()
    requires Separate(m, n, r1, s1, r2, s2, q)
    requires EuclidState(x, y, m.Int(), n.Int(), r1.Int(), s1.Int(), r2.Int(), s2.Int())
    requires n.Int() != 0
    modifies m, m.mag, m.mag.blk, r1, r1.mag, r1.mag.blk, s1, s1.mag, s1.mag.blk, q, q.mag, q.mag.blk
    ensures m.Valid() && r1.Valid() && s1.Valid() && q.Valid()
    ensures m.mag.blk == old(m.mag.blk) || fresh(m.mag.blk)
    ensures q.mag.blk == old(q.mag.blk) || fresh(q.mag.blk)
    ensures r1.mag.blk == old(r1.mag.blk) || fresh(r1.mag.blk)
    ensures s1.mag.blk == old(s1.mag.blk) || fresh(s1.mag.blk)
    ensures Separate(n, m, r2, s2, r1, s1, q)
    ensures EuclidState(x, y, n.Int(), m.Int(), r2.Int(), s2.Int(), r1.Int(), s1.Int())
    ensures Abs(m.Int()) < Abs(n.Int()) && (n.Int() > 0 ==> m.Int() >= 0)
  {
    hide Val, Weight, Value, BigUnsigned.Number, BigUnsigned.Valid, Canonical;
    hide Signed, BigInteger.Int, BigInteger.Valid, FloorDivision, EuclidState;
    ghost var v, c, d := m.Int(), r1.Int(), s1.Int();
    HalfStep(m, n, r1, s1, r2, s2, q);
    EuclidStep(x, y, v, n.Int(), c, d, r2.Int(), s2.Int(), q.Int(), m.Int());
    SwapState(x, y, m.Int(), n.Int(), r1.Int(), s1.Int(), r2.Int(), s2.Int());
  }

  /** Two half-steps, the second only if the first leaves a remainder. */
  method EuclidRound(m: BigInteger, n: BigInteger, r1: BigInteger, s1: BigInteger, r2: BigInteger, s2: BigInteger,
                     q: BigInteger, ghost x: int, ghost y: int) returns (divides: bool)
    requires m.Valid() && n.Valid() && r1.Valid() && s1.Valid() && r2.Valid() && s2.Valid() && q.Valid()
    requires Separate(m, n, r1, s1, r2, s2, q)
    requires EuclidState(x, y, m.Int(), n.Int(), r1.Int(), s1.Int(), r2.Int(), s2.Int())
    requires n.Int() != 0 && (y > 0 ==> n.Int() > 0)
    modifies m, m.mag, m.mag.blk, n, n.mag, n.mag.blk, q, q.mag, q.mag.blk
    modifies r1, r1.mag, r1.mag.blk, s1, s1.mag, s1.mag.blk, r2, r2.mag, r2.mag.blk, s2, s2.mag, s2.mag.blk
    ensures m.Valid() && n.Valid() && r1.Valid() && s1.Valid() && r2.Valid() && s2.Valid() && q.Valid()
    ensures forall v :: v in {m, n, r1, s1, r2, s2, q} ==> v.mag.blk == old(v.mag.blk) || fresh(v.mag.blk)
    ensures Separate(m, n, r1, s1, r2, s2, q)
    ensures EuclidState(x, y, m.Int(), n.Int(), r1.Int(), s1.Int(), r2.Int(), s2.Int())
    ensures divides ==> n.Int() == old(n.Int()) && IsGcd(n.Int(), x, y) && r2.Int() * x + s2.Int() * y == n.Int()
    ensures !divides ==> Abs(n.Int()) < Abs(old(n.Int()))
    ensures !divides && y > 0 ==> m.Int() > 0 && n.Int() >= 0
  {
    hide Val, Weight, Value, BigUnsigned.Number, BigUnsigned.Valid, Canonical;
    hide Signed, BigInteger.Int, BigInteger.Valid, EuclidState, IsGcd;
    EuclidHalfStep(m, n, r1, s1, r2, s2, q, x, y);
    m.SignTells();
    if m.sign == Zero {
      EuclidEnds(x, y, n.Int(), r2.Int(), s2.Int(), r1.Int(), s1.Int());
      SwapState(x, y, n.Int(), m.Int(), r2.Int(), s2.Int(), r1.Int(), s1.Int());
      return true;
    }
    EuclidHalfStep(n, m, r2, s2, r1, s1, q, x, y);
    return false;
  }

  /** The loop of extended Euclid: the result is m with r1 and s1, or n with r2 and s2. */
  method EuclidLoop(m: BigInteger, n: BigInteger, r1: BigInteger, s1: BigInteger, r2: BigInteger, s2: BigInteger,
                    q: BigInteger, ghost x: int, ghost y: int) returns (inN: bool)
    requires m.Valid() && n.Valid() && r1.Valid() && s1.Valid() && r2.Valid() && s2.Valid() && q.Valid()
    requires Separate(m, n, r1, s1, r2, s2, q)
    requires EuclidState(x, y, m.Int(), n.Int(), r1.Int(), s1.Int(), r2.Int(), s2.Int())
    requires m.Int() == x && n.Int() == y
    modifies m, m.mag, m.mag.blk, n, n.mag, n.mag.blk, q, q.mag, q.mag.blk
    modifies r1, r1.mag, r1.mag.blk, s1, s1.mag, s1.mag.blk, r2, r2.mag, r2.mag.blk, s2, s2.mag, s2.mag.blk
    ensures m.Valid() && n.Valid() && r1.Valid() && s1.Valid() && r2.Valid() && s2.Valid() && q.Valid()
    ensures forall v :: v in {m, n, r1, s1, r2, s2, q} ==> v.mag.blk == old(v.mag.blk) || fresh(v.mag.blk)
    ensures inN ==> IsGcd(n.Int(), x, y) && r2.Int() * x + s2.Int() * y == n.Int()
    ensures !inN ==> IsGcd(m.Int(), x, y) && r1.Int() * x + s1.Int() * y == m.Int()
    ensures y > 0 ==> if inN then n.Int() > 0 else m.Int() > 0
    ensures y == 0 ==> !inN && m.Int() == x
  {
    hide Val, Weight, Value, BigUnsigned.Number, BigUnsigned.Valid, Canonical;
    hide Signed, BigInteger.Int, BigInteger.Valid, IsGcd, EuclidState, Pair, Separate, Abs;
    while true
      invariant m.Valid() && n.Valid() && r1.Valid() && s1.Valid() && r2.Valid() && s2.Valid() && q.Valid()
      invariant forall v :: v in {m, n, r1, s1, r2, s2, q} ==> v.mag.blk == old(v.mag.blk) || fresh(v.mag.blk)
      invariant Separate(m, n, r1, s1, r2, s2, q)
      invariant EuclidState(x, y, m.Int(), n.Int(), r1.Int(), s1.Int(), r2.Int(), s2.Int())
      invariant y > 0 ==> n.Int() > 0 || (n.Int() == 0 && m.Int() > 0)
      invariant y == 0 ==> n.Int() == 0 && m.Int() == x
      decreases Abs(n.Int())
    {
      n.SignTells();
      if n.sign == Zero {
        EuclidEnds(x, y, m.Int(), r1.Int(), s1.Int(), r2.Int(), s2.Int());
        return false;
      }
      var divides := EuclidRound(m, n, r1, s1, r2, s2, q, x, y);
      if divides {
        return true;
      }
    }
  }

  method EuclidVariables(m0: BigInteger, n0: BigInteger)
    returns (m: BigInteger, n: BigInteger, r1: BigInteger, s1: BigInteger, r2: BigInteger, s2: BigInteger,
             q: BigInteger)
    requires m0.Valid() && n0.Valid()
    ensures m.Valid() && n.Valid() && r1.Valid() && s1.Valid() && r2.Valid() && s2.Valid() && q.Valid()
    ensures fresh(m) && fresh(n) && fresh(r1) && fresh(s1) && fresh(r2) && fresh(s2) && fresh(q)
    ensures fresh(m.mag) && fresh(n.mag) && fresh(r1.mag) && fresh(s1.mag) && fresh(r2.mag) && fresh(s2.mag)
            && fresh(q.mag)
    ensures fresh(m.mag.blk) && fresh(n.mag.blk) && fresh(r1.mag.blk) && fresh(s1.mag.blk)
    ensures fresh(r2.mag.blk) && fresh(s2.mag.blk) && fresh(q.mag.blk)
    ensures Separate(m, n, r1, s1, r2, s2, q)
    ensures m.Int() == m0.Int() && n.Int() == n0.Int()
    ensures r1.Int() == 1 && s1.Int() == 0 && r2.Int() == 0 && s2.Int() == 1
  {
    hide Val, Weight, Value, BigUnsigned.Number, BigUnsigned.Valid, Canonical, Signed, BigInteger.Int, BigInteger.Valid;
    r1, s1, r2, s2 := UnitCoefficients();
    m, n, q := CopiesAndQuotient(m0, n0);
  }

  method CopiesAndQuotient(m0: BigInteger, n0: BigInteger) returns (m: BigInteger, n: BigInteger, q: BigInteger)
    requires m0.Valid() && n0.Valid()
    ensures m.Valid() && n.Valid() && q.Valid() && Pair(m, n) && Pair(m, q) && Pair(n, q)
    ensures fresh(m) && fresh(m.mag) && fresh(m.mag.blk) && fresh(n) && fresh(n.mag) && fresh(n.mag.blk)
    ensures fresh(q) && fresh(q.mag) && fresh(q.mag.blk)
    ensures m.Int() == m0.Int() && n.Int() == n0.Int()
  {
    hide Val, Weight, Value, BigUnsigned.Number, BigUnsigned.Valid, Canonical, Signed, BigInteger.Int, BigInteger.Valid;
    m := new BigInteger.Copy(m0);
    n := new BigInteger.Copy(n0);
    q := new BigInteger();
  }

  method UnitCoefficients() returns (r1: BigInteger, s1: BigInteger, r2: BigInteger, s2: BigInteger)
    ensures r1.Valid() && s1.Valid() && r2.Valid() && s2.Valid()
    ensures fresh(r1) && fresh(s1) && fresh(r2) && fresh(s2)
    ensures fresh(r1.mag) && fresh(s1.mag) && fresh(r2.mag) && fresh(s2.mag)
    ensures fresh(r1.mag.blk) && fresh(s1.mag.blk) && fresh(r2.mag.blk) && fresh(s2.mag.blk)
    ensures Pair(r1, s1) && Pair(r1, r2) && Pair(r1, s2) && Pair(s1, r2) && Pair(s1, s2) && Pair(r2, s2)
    ensures r1.Int() == 1 && s1.Int() == 0 && r2.Int() == 0 && s2.Int() == 1
  {
    hide Val, Weight, Value, BigUnsigned.Number, BigUnsigned.Valid, Canonical, Signed, BigInteger.Int, BigInteger.Valid;
    r1, s1 := Coefficients(1, 0);
    r2, s2 := Coefficients(0, 1);
  }

  method Coefficients(x: Blk, y: Blk) returns (r: BigInteger, s: BigInteger)
    ensures r.Valid() && s.Valid() && Pair(r, s)
    ensures fresh(r) && fresh(r.mag) && fresh(r.mag.blk) && fresh(s) && fresh(s.mag) && fresh(s.mag.blk)
    ensures r.Int() == x && s.Int() == y
  {
    hide Val, Weight, Value, BigUnsigned.Number, BigUnsigned.Valid, Canonical, Signed, BigInteger.Int, BigInteger.Valid;
    r := new BigInteger.FromBlk(x);
    s := new BigInteger.FromBlk(y);
  }

  /** Copies the operands, sets up the working variables and runs the loop. */
  method EuclidFromStart(m0: BigInteger, n0: BigInteger) returns (g: BigInteger, r: BigInteger, s: BigInteger)
    requires m0.Valid() && n0.Valid()
    ensures fresh(g) && fresh(g.mag) && fresh(g.mag.blk) && fresh(r) && fresh(r.mag) && fresh(r.mag.blk)
    ensures fresh(s) && fresh(s.mag) && fresh(s.mag.blk)
    ensures g.Valid() && r.Valid() && s.Valid()
    ensures r.Int() * m0.Int() + s.Int() * n0.Int() == g.Int()
    ensures IsGcd(g.Int(), m0.Int(), n0.Int())
    ensures n0.Int() > 0 ==> g.Int() > 0
    ensures n0.Int() == 0 ==> g.Int() == m0.Int()
  {
    hide Val, Weight, Value, BigUnsigned.Number, BigUnsigned.Valid, Canonical;
    hide Signed, BigInteger.Int, BigInteger.Valid, IsGcd, EuclidState, Pair, Separate;
    ghost var x, y := m0.Int(), n0.Int();
    var m, n, r1, s1, r2, s2, q := EuclidVariables(m0, n0);
    EuclidStarts(x, y);
    var inN := EuclidLoop(m, n, r1, s1, r2, s2, q, x, y);
    if inN {
      return n, r2, s2;
    }
    return m, r1, s1;
  }

  /**
   Extended Euclid: g is a greatest common divisor of m and n up to sign, and
   r and s combine m and n to g.  With n > 0 the divisor g is positive.
   */
  method ExtendedEuclidean(m0: BigInteger, n0: BigInteger, g: BigInteger, r: BigInteger, s: BigInteger)
    returns (status: Status)
    requires m0.Valid() && n0.Valid() && g.mag.Wf() && r.mag.Wf() && s.mag.Wf()
    requires g.Apart(r) && g.Apart(s) && r.Apart(s)
    modifies g, g.mag, g.mag.blk, r, r.mag, r.mag.blk, s, s.mag, s.mag.blk
    ensures status == if g == r || g == s || r == s then Thrown(AliasedOutputs) else Done
    ensures status == Done ==> g.Valid() && r.Valid() && s.Valid()
    ensures status == Done ==> r.Int() * old(m0.Int()) + s.Int() * old(n0.Int()) == g.Int()
    ensures status == Done ==> IsGcd(g.Int(), old(m0.Int()), old(n0.Int()))
    ensures status == Done && old(n0.Int()) > 0 ==> g.Int() > 0
    ensures status == Done && old(n0.Int()) == 0 ==> g.Int() == old(m0.Int())
  {
    hide Val, Weight, Value, BigUnsigned.Number, BigUnsigned.Valid, Canonical;
    hide Signed, BigInteger.Int, BigInteger.Valid, IsGcd, EuclidState;
    if g == r || g == s || r == s {
      return Thrown(AliasedOutputs);
    }
    var g', r', s' := EuclidFromStart(m0, n0);
    Output(g, r, s, g', r', s');
    return Done;
  }

  lemma EuclidStarts(m: int, n: int)
    ensures EuclidState(m, n, m, n, 1, 0, 0, 1)
  {
  }

  method Output(g: BigInteger, r: BigInteger, s: BigInteger, g': BigInteger, r': BigInteger, s': BigInteger)
    requires g.mag.Wf() && r.mag.Wf() && s.mag.Wf() && g'.Valid() && r'.Valid() && s'.Valid()
    requires Pair(g, r) && Pair(g, s) && Pair(r, s)
    requires Pair(g, g') && Pair(g, r') && Pair(g, s') && Pair(r, g') && Pair(r, r') && Pair(r, s')
    requires Pair(s, g') && Pair(s, r') && Pair(s, s')
    modifies g, g.mag, g.mag.blk, r, r.mag, r.mag.blk, s, s.mag, s.mag.blk
    ensures g.Valid() && r.Valid() && s.Valid()
    ensures g.Int() == g'.Int() && r.Int() == r'.Int() && s.Int() == s'.Int()
  {
    hide Val, Weight, Value, BigUnsigned.Number, BigUnsigned.Valid, Canonical, Signed, BigInteger.Int, BigInteger.Valid;
    r.Assign(r');
    s.Assign(s');
    g.Assign(g');
  }

  /** The inverse of x modulo n, or an exception when there is none. */
  method Modinv(x: BigInteger, n: BigUnsigned) returns (result: Result<BigUnsigned>)
    requires x.Valid() && n.Valid()
    ensures result.Ok? <==> n.Number() > 0 && Coprime(x.Int(), n.Number())
    ensures result.Ok? ==> result.value.Valid() && result.value.Number() < n.Number()
    ensures result.Ok? ==> result.value.Number() * x.Int() % n.Number() == 1 % n.Number()
    ensures result.Err? ==> result.error == if n.Number() == 0 && x.Int() == 1 then DivisionByZero else CommonFactor
  {
    hide Val, Weight, Value, BigUnsigned.Number, BigUnsigned.Valid, Canonical;
    hide Signed, BigInteger.Int, BigInteger.Valid, IsGcd;
    var g, r, s, m := GcdVariables(n);
    ghost var v, w := x.Int(), n.Number();
    var _ := ExtendedEuclidean(x, m, g, r, s);
    var one := new BigInteger.FromBlk(1);
    var isOne := g.Equals(one);
    if !isOne {
      GcdNotOne(g.Int(), v, w);
      return Err(CommonFactor);
    }
    if w > 0 {
      InverseFromBezout(v, w, r.Int(), s.Int());
    }
    var inverse := r.Modulo(m);
    if inverse.Err? {
      return Err(inverse.error);
    }
    inverse.value.SignTells();
    return Ok(inverse.value.mag);
  }

  method GcdVariables(n: BigUnsigned) returns (g: BigInteger, r: BigInteger, s: BigInteger, m: BigInteger)
    requires n.Valid()
    ensures g.Valid() && r.Valid() && s.Valid() && m.Valid() && m.Int() == n.Number()
    ensures Pair(g, r) && Pair(g, s) && Pair(r, s) && Pair(g, m) && Pair(r, m) && Pair(s, m)
    ensures fresh(g) && fresh(r) && fresh(s) && fresh(m)
    ensures fresh(g.mag) && fresh(r.mag) && fresh(s.mag) && fresh(m.mag)
    ensures fresh(g.mag.blk) && fresh(r.mag.blk) && fresh(s.mag.blk) && fresh(m.mag.blk)
  {
    hide Val, Weight, Value, BigUnsigned.Number, BigUnsigned.Valid, Canonical, Signed, BigInteger.Int, BigInteger.Valid;
    g := new BigInteger();
    r := new BigInteger();
    s := new BigInteger();
    m := new BigInteger.FromUnsigned(n);
  }

  lemma GcdNotOne(g: int, x: int, n: nat)
    requires IsGcd(g, x, n) && g != 1 && (n > 0 ==> g > 0)
    ensures !(n > 0 && Coprime(x, n))
  {
    if n > 0 && Coprime(x, n) {
      GcdUnique(g, 1, x, n);
    }
  }

  /** base^exponent modulo modulus by repeated squaring; exponent 0 gives 1 for every modulus. */
  method Modexp(base: BigInteger, exponent: BigUnsigned, modulus: BigUnsigned) returns (result: Result<BigUnsigned>)
    requires base.Valid() && exponent.Valid() && modulus.Valid()
    ensures modulus.Number() == 0 <==> result == Err(DivisionByZero)
    ensures modulus.Number() != 0 ==> result.Ok? && result.value.Valid()
    ensures modulus.Number() != 0 ==>
              result.value.Number() == ModularPower(base.Int(), exponent.Number(), modulus.Number())
  {
    hide Val, Weight, Value, BigUnsigned.Number, BigUnsigned.Valid, Canonical;
    hide Signed, BigInteger.Int, BigInteger.Valid, ModularPower;
    var wide := new BigInteger.FromUnsigned(modulus);
    var reduced := base.Modulo(wide);
    if reduced.Err? {
      return Err(reduced.error);
    }
    reduced.value.SignTells();
    var ans := PowerLoop(reduced.value.mag, exponent, modulus, base.Int());
    return Ok(ans);
  }

  /** For each bit of the exponent, most to least significant. */
  method PowerLoop(base2: BigUnsigned, exponent: BigUnsigned, modulus: BigUnsigned, ghost b: int)
    returns (ans: BigUnsigned)
    requires base2.Valid() && exponent.Valid() && modulus.Valid() && modulus.Number() > 0
    requires base2.Number() % modulus.Number() == b % modulus.Number()
    ensures fresh(ans) && fresh(ans.blk) && ans.Valid()
    ensures ans.Number() == ModularPower(b, exponent.Number(), modulus.Number())
  {
    hide Val, Weight, Value, Canonical, Bit, PowerState, ModularPower;
    ans := new BigUnsigned.FromBlk(1);
    ghost var e, m := exponent.Number(), modulus.Number();
    var i := exponent.BitLength();
    ghost var l := i;
    PowStarts(b, e, m, i);
    while i > 0
      invariant i <= l
      invariant ans.Valid() && fresh(ans) && fresh(ans.blk)
      invariant PowerState(b, e, m, i, ans.Number())
    {
      i := i - 1;
      PowMonotone(2, i, l - 1);
      ghost var a := ans.Number();
      SquareThenMultiply(ans, base2, modulus, exponent.GetBit(i));
      PowerStep(b, e, m, i, a, base2.Number(), ans.Number());
    }
    PowEnds(b, e, m, ans.Number());
  }

  /** Squares, and multiplies if the bit is 1, reducing each time. */
  method SquareThenMultiply(ans: BigUnsigned, base2: BigUnsigned, modulus: BigUnsigned, bit: bool)
    requires ans.Valid() && base2.Valid() && modulus.Valid() && modulus.Number() > 0
    requires ans != base2 && ans.blk != base2.blk && ans != modulus && ans.blk != modulus.blk
    modifies ans, ans.blk
    ensures ans.Valid() && (ans.blk == old(ans.blk) || fresh(ans.blk))
    ensures var a, m := old(ans.Number()), modulus.Number();
            ans.Number() == if bit then a * a % m * base2.Number() % m else a * a % m
  {
    hide Val, Weight, Value, Canonical;
    ans.Multiply(ans, ans);
    var _ := ans.ModuloAssign(modulus);
    if bit {
      ans.Multiply(ans, base2);
      var _ := ans.ModuloAssign(modulus);
    }
  }

  /** What modexp returns: the residue, except that exponent 0 is not reduced. */
  function ModularPower(b: int, e: nat, m: nat): nat
    requires m > 0
  {
    if e == 0 then 1 else Pow(b, e) % m
  }

  /** The result is congruent to the power always, and the reduced residue unless both exponent is 0 and modulus 1. */
  lemma ModularPowerReduced(b: int, e: nat, m: nat)
    requires m > 0
    ensures ModularPower(b, e, m) % m == Pow(b, e) % m
    ensures ModularPower(b, e, m) < m <==> e > 0 || m > 1
  {
    if e > 0 {
      ModMod(Pow(b, e), m);
    }
  }

  ghost predicate PowerState(b: int, e: nat, m: nat, i: nat, ans: nat)
    requires m > 0
  {
    PowPositive(2, i);
    QuotientBound(e, Pow(2, i));
    ans == ModularPower(b, e / Pow(2, i), m)
  }

  lemma PowStarts(b: int, e: nat, m: nat, l: nat)
    requires m > 0 && (l == 0 <==> e == 0) && (l > 0 ==> e < Pow(2, l))
    ensures PowerState(b, e, m, l, 1)
  {
    PowPositive(2, l);
    DivisionUnique(e, Pow(2, l), 0, e);
  }

  lemma PowEnds(b: int, e: nat, m: nat, ans: nat)
    requires m > 0 && PowerState(b, e, m, 0, ans)
    ensures ans == ModularPower(b, e, m)
  {
    assert e / 1 == e;
  }

  lemma PowerStep(b: int, e: nat, m: nat, i: nat, a: nat, c: nat, ans: nat)
    requires m > 0 && c % m == b % m
    requires Pow(2, i) <= e
    requires PowerState(b, e, m, i + 1, a)
    requires ans == if Bit(e, i) then a * a % m * c % m else a * a % m
    ensures PowerState(b, e, m, i, ans)
  {
    hide Pow, Bit;
    HighBitsStep(e, i);
    var k := e / Pow(2, i + 1);
    ModularPowerReduced(b, k, m);
    SquareAndMultiply(b, k, m, a, c, Bit(e, i));
    ModMod(a * a, m);
    ModMod(a * a % m * c, m);
    QuotientAtLeast(e, e / Pow(2, i), e % Pow(2, i), Pow(2, i), 1);
  }
}
