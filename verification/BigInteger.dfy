/** Signed integers of any size: a sign and a magnitude. */
module BigIntegers {
  import opened Exceptions
  import opened Powers
  import opened Blocks
  import opened BigUnsigneds

  datatype Sign = Negative | Zero | Positive

  function SignValue(s: Sign): int {
    match s
    case Negative => -1
    case Zero => 0
    case Positive => 1
  }

  function Opposite(s: Sign): Sign {
    match s
    case Negative => Positive
    case Zero => Zero
    case Positive => Negative
  }

  /** The integer with a given sign and magnitude. */
  function Signed(s: Sign, m: nat): int {
    match s
    case Negative => -(m as int)
    case Zero => 0
    case Positive => m
  }

  function Abs(x: int): nat {
    if x < 0 then -x else x
  }

  /** x == y * q + r with the remainder on the divisor's side of zero: floor division. */
  predicate FloorDivision(x: int, y: int, q: int, r: int) {
    && x == y * q + r
    && (y > 0 ==> 0 <= r < y)
    && (y < 0 ==> y < r <= 0)
    && (y == 0 ==> q == 0)
  }

  /** Quotient and remainder are determined. */
  lemma FloorDivisionUnique(x: int, y: int, q: int, r: int, q': int, r': int)
    requires FloorDivision(x, y, q, r) && FloorDivision(x, y, q', r')
    ensures q == q' && r == r'
  {
    assert y * (q - q') == r' - r;
    if y > 0 {
      if q < q' { MulMonotone(y, q - q', -1); } else if q' < q { MulMonotone(y, 1, q - q'); }
    } else if y < 0 {
      assert (-y) * (q' - q) == r' - r;
      if q' < q { MulMonotone(-y, q' - q, -1); } else if q < q' { MulMonotone(-y, 1, q' - q); }
    }
  }

  /** The remainder of floor division. */
  function FloorMod(x: int, y: int): int
    requires y != 0
  {
    if y > 0 then x % y else -((-x) % (-y))
  }

  lemma FloorModIsRemainder(x: int, y: int, q: int, r: int)
    requires y != 0 && FloorDivision(x, y, q, r)
    ensures r == FloorMod(x, y)
  {
    if y > 0 {
      DivisionUnique(x, y, q, r);
    } else {
      assert -x == q * -y + -r;
      DivisionUnique(-x, -y, q, -r);
    }
  }

  /**
   Magnitudes to signed numbers: same signs divide directly; for different signs the
   dividend's magnitude goes down by one before, the quotient's up by one and the
   remainder becomes (b - 1) - R after.
   */
  lemma SameSignDivision(s: Sign, a: nat, b: nat, q: nat, r: nat)
    requires s != Zero && b > 0 && a == q * b + r && r < b
    ensures FloorDivision(Signed(s, a), Signed(s, b), q, Signed(s, r))
  {
    assert -(b as int) * q == -(q * b);
  }

  lemma DifferentSignDivision(s: Sign, a: nat, b: nat, q: nat, r: nat)
    requires s != Zero && b > 0 && a > 0 && a - 1 == q * b + r && r < b
    ensures FloorDivision(Signed(Opposite(s), a), Signed(s, b), -((q + 1) as int), Signed(s, b - r - 1))
  {
    assert (q + 1) * b == q * b + b;
    assert -(b as int) * -((q + 1) as int) == (q + 1) * b;
    assert b * -((q + 1) as int) == -((q + 1) * b);
  }

  lemma SignedProduct(s: Sign, t: Sign, m: nat, n: nat)
    requires s != Zero && t != Zero
    ensures m * n >= 0
    ensures Signed(if s == t then Positive else Negative, m * n) == Signed(s, m) * Signed(t, n)
  {
    MulNonNegative(m, n);
  }

  class BigInteger {
    var sign: Sign
    const mag: BigUnsigned

    /** No leading zero block in the magnitude, and sign zero exactly for magnitude zero. */
    predicate Valid()
      reads this, mag, mag.blk
      ensures Valid() ==> mag.Valid()
    {
      mag.Valid() && (sign == Zero <==> mag.len == 0)
    }

    /** The integer stored. */
    ghost function Int(): int
      requires mag.Wf()
      reads this, mag, mag.blk
    {
      Signed(sign, mag.Number())
    }

    /** x is the receiver itself or shares nothing with it. */
    predicate Apart(x: BigInteger)
      reads this, mag, x, x.mag
    {
      x == this || (x.mag != mag && x.mag.blk != mag.blk)
    }

    lemma SignTells()
      requires Valid()
      ensures sign == Zero <==> Int() == 0
      ensures sign == Positive <==> Int() > 0
      ensures sign == Negative <==> Int() < 0
      ensures mag.Number() == Abs(Int())
    {
      CanonicalZero(mag.blk[..mag.len]);
    }

    constructor ()
      ensures Valid() && fresh(mag) && fresh(mag.blk)
      ensures Int() == 0
    {
      sign := Zero;
      mag := new BigUnsigned();
      new;
      hide Val, Weight, Value;
      CanonicalZero(mag.blk[..mag.len]);
    }

    constructor Copy(x: BigInteger)
      requires x.Valid()
      ensures Valid() && fresh(mag) && fresh(mag.blk)
      ensures Int() == x.Int()
    {
      sign := x.sign;
      mag := new BigUnsigned.Copy(x.mag);
      new;
      hide Val, Weight;
      x.SignTells();
      CanonicalZero(mag.blk[..mag.len]);
    }

    /** The nonnegative integer of a BigUnsigned. */
    constructor FromUnsigned(x: BigUnsigned)
      requires x.Valid()
      ensures Valid() && fresh(mag) && fresh(mag.blk)
      ensures Int() == x.Number()
    {
      var m := new BigUnsigned.Copy(x);
      mag := m;
      sign := if m.len == 0 then Zero else Positive;
      new;
      hide Val, Weight;
      CanonicalZero(mag.blk[..mag.len]);
    }

    constructor FromBlk(x: Blk)
      ensures Valid() && fresh(mag) && fresh(mag.blk)
      ensures Int() == x
    {
      var m := new BigUnsigned.FromBlk(x);
      mag := m;
      sign := if m.len == 0 then Zero else Positive;
      new;
      hide Val, Weight;
      CanonicalZero(mag.blk[..mag.len]);
    }

    /** A magnitude and a sign; sign zero is refused for a nonzero magnitude. */
    static method FromSigned(x: BigUnsigned, s: Sign) returns (r: Result<BigInteger>)
      requires x.Valid()
      ensures r.Err? <==> s == Zero && x.Number() != 0
      ensures r.Err? ==> r.error == ZeroSignForNonzero
      ensures r.Ok? ==> fresh(r.value) && fresh(r.value.mag) && fresh(r.value.mag.blk) && r.value.Valid()
      ensures r.Ok? ==> r.value.Int() == Signed(s, x.Number())
    {
      hide Val, Weight;
      var ans := new BigInteger.FromUnsigned(x);
      if s == Zero {
        if !ans.mag.IsZero() {
          return Err(ZeroSignForNonzero);
        }
        ans.sign := Zero;
      } else {
        ans.sign := if ans.mag.IsZero() then Zero else s;
      }
      return Ok(ans);
    }

    /** An array of blocks and a sign. */
    static method FromBlocks(b: array<Blk>, blen: nat, s: Sign) returns (r: Result<BigInteger>)
      requires blen <= b.Length
      ensures r.Err? <==> s == Zero && Value(b[..blen]) != 0
      ensures r.Err? ==> r.error == ZeroSignForNonzero
      ensures r.Ok? ==> fresh(r.value) && fresh(r.value.mag) && fresh(r.value.mag.blk) && r.value.Valid()
      ensures r.Ok? ==> r.value.Int() == Signed(s, Value(b[..blen]))
    {
      hide Val, Weight;
      var m := new BigUnsigned.FromBlocks(b, blen);
      r := FromSigned(m, s);
    }

    /** operator = */
    method Assign(x: BigInteger)
      requires mag.Wf() && x.Valid() && Apart(x)
      modifies this, mag, mag.blk
      ensures Valid() && (mag.blk == old(mag.blk) || fresh(mag.blk))
      ensures Int() == old(x.Int())
    {
      hide Val, Weight;
      if this == x {
        return;
      }
      sign := x.sign;
      mag.Assign(x.mag);
    }

    method AssignZero()
      requires mag.Wf()
      modifies this, mag, mag.blk
      ensures Valid() && (mag.blk == old(mag.blk) || fresh(mag.blk))
      ensures Int() == 0
    {
      hide Val, Weight;
      mag.AssignBlk(0);
      sign := Zero;
      CanonicalZero(mag.blk[..mag.len]);
    }

    method CompareTo(x: BigInteger) returns (r: CmpRes)
      requires Valid() && x.Valid()
      ensures r == Less <==> Int() < x.Int()
      ensures r == Equal <==> Int() == x.Int()
    {
      hide Val, Weight;
      SignTells();
      x.SignTells();
      if SignValue(sign) < SignValue(x.sign) {
        return Less;
      } else if SignValue(sign) > SignValue(x.sign) {
        return Greater;
      }
      match sign {
        case Zero =>
          r := Equal;
        case Positive =>
          r := mag.CompareTo(x.mag);
        case Negative =>
          r := mag.CompareTo(x.mag);
          r := if r == Less then Greater else if r == Greater then Less else Equal;
      }
    }

    /** operator == */
    method Equals(x: BigInteger) returns (same: bool)
      requires Valid() && x.Valid()
      ensures same <==> Int() == x.Int()
    {
      hide Val, Weight;
      SignTells();
      x.SignTells();
      if sign != x.sign {
        return false;
      }
      same := mag.Equals(x.mag);
    }

    method Add(a: BigInteger, b: BigInteger)
      requires mag.Wf() && a.Valid() && b.Valid() && Apart(a) && Apart(b)
      modifies this, mag, mag.blk
      ensures Valid() && (mag.blk == old(mag.blk) || fresh(mag.blk))
      ensures Int() == old(a.Int()) + old(b.Int())
      decreases this == a || this == b
    {
      hide Val, Weight;
      if this == a || this == b {
        var tmpThis := new BigInteger();
        tmpThis.Add(a, b);
        Assign(tmpThis);
        return;
      }
      a.SignTells();
      b.SignTells();
      if a.sign == Zero {
        Assign(b);
      } else if b.sign == Zero {
        Assign(a);
      } else if a.sign == b.sign {
        sign := a.sign;
        mag.Add(a.mag, b.mag);
        CanonicalZero(mag.blk[..mag.len]);
      } else {
        SubtractMagnitudes(a.mag, b.mag, a.sign, b.sign);
      }
    }

    /** The larger magnitude minus the smaller, with the sign that belongs to the larger. */
    method SubtractMagnitudes(a: BigUnsigned, b: BigUnsigned, aSign: Sign, bSign: Sign)
      requires mag.Wf() && a.Valid() && b.Valid()
      requires a != mag && a.blk != mag.blk && b != mag && b.blk != mag.blk
      requires aSign != Zero && bSign == Opposite(aSign)
      modifies this, mag, mag.blk
      ensures Valid() && (mag.blk == old(mag.blk) || fresh(mag.blk))
      ensures Int() == Signed(aSign, a.Number()) + Signed(bSign, b.Number())
    {
      hide Val, Weight;
      var cmp := a.CompareTo(b);
      match cmp {
        case Equal =>
          AssignZero();
        case Greater =>
          sign := aSign;
          var _ := mag.Subtract(a, b);
          CanonicalZero(mag.blk[..mag.len]);
        case Less =>
          sign := bSign;
          var _ := mag.Subtract(b, a);
          CanonicalZero(mag.blk[..mag.len]);
      }
    }

    method Subtract(a: BigInteger, b: BigInteger)
      requires mag.Wf() && a.Valid() && b.Valid() && Apart(a) && Apart(b)
      modifies this, mag, mag.blk
      ensures Valid() && (mag.blk == old(mag.blk) || fresh(mag.blk))
      ensures Int() == old(a.Int()) - old(b.Int())
      decreases this == a || this == b
    {
      hide Val, Weight;
      if this == a || this == b {
        var tmpThis := new BigInteger();
        tmpThis.Subtract(a, b);
        Assign(tmpThis);
        return;
      }
      a.SignTells();
      b.SignTells();
      if a.sign == Zero {
        mag.Assign(b.mag);
        sign := Opposite(b.sign);
      } else if b.sign == Zero {
        Assign(a);
      } else if a.sign != b.sign {
        sign := a.sign;
        mag.Add(a.mag, b.mag);
        CanonicalZero(mag.blk[..mag.len]);
      } else {
        SubtractMagnitudes(a.mag, b.mag, a.sign, Opposite(b.sign));
      }
    }

    method Multiply(a: BigInteger, b: BigInteger)
      requires mag.Wf() && a.Valid() && b.Valid() && Apart(a) && Apart(b)
      modifies this, mag, mag.blk
      ensures Valid() && (mag.blk == old(mag.blk) || fresh(mag.blk))
      ensures Int() == old(a.Int()) * old(b.Int())
      decreases this == a || this == b
    {
      hide Val, Weight;
      if this == a || this == b {
        var tmpThis := new BigInteger();
        tmpThis.Multiply(a, b);
        Assign(tmpThis);
        return;
      }
      a.SignTells();
      b.SignTells();
      if a.sign == Zero || b.sign == Zero {
        AssignZero();
        return;
      }
      sign := if a.sign == b.sign then Positive else Negative;
      mag.Multiply(a.mag, b.mag);
      SignedProduct(a.sign, b.sign, a.mag.Number(), b.mag.Number());
      CanonicalZero(mag.blk[..mag.len]);
    }

    /** The opposite of a. */
    method Negate(a: BigInteger)
      requires mag.Wf() && a.Valid() && Apart(a)
      modifies this, mag, mag.blk
      ensures Valid() && (mag.blk == old(mag.blk) || fresh(mag.blk))
      ensures Int() == -old(a.Int())
      decreases this == a
    {
      hide Val, Weight;
      if this == a {
        var tmpThis := new BigInteger();
        tmpThis.Negate(a);
        Assign(tmpThis);
        return;
      }
      mag.Assign(a.mag);
      sign := Opposite(a.sign);
    }

    /** operator ++ */
    method Increment()
      requires Valid()
      modifies this, mag, mag.blk
      ensures Valid() && (mag.blk == old(mag.blk) || fresh(mag.blk))
      ensures Int() == old(Int()) + 1
    {
      hide Val, Weight;
      SignTells();
      if sign == Negative {
        var _ := mag.Decrement();
        if mag.IsZero() {
          sign := Zero;
        }
      } else {
        mag.Increment();
        sign := Positive;
      }
      CanonicalZero(mag.blk[..mag.len]);
    }

    /** operator -- */
    method Decrement()
      requires Valid()
      modifies this, mag, mag.blk
      ensures Valid() && (mag.blk == old(mag.blk) || fresh(mag.blk))
      ensures Int() == old(Int()) - 1
    {
      hide Val, Weight;
      SignTells();
      if sign == Positive {
        var _ := mag.Decrement();
        if mag.IsZero() {
          sign := Zero;
        }
      } else {
        mag.Increment();
        sign := Negative;
      }
      CanonicalZero(mag.blk[..mag.len]);
    }

    /** Floor division: the remainder stays in the receiver, the quotient goes to q. */
    method DivideWithRemainder(b: BigInteger, q: BigInteger) returns (status: Status)
      requires Valid() && b.Valid() && q.mag.Wf()
      requires Apart(b) && Apart(q) && q.Apart(b)
      modifies this, mag, mag.blk, q, q.mag, q.mag.blk
      ensures Valid() && (mag.blk == old(mag.blk) || fresh(mag.blk))
      ensures status == if q == this then Thrown(SameQuotientAndRemainder) else Done
      ensures q == this ==> unchanged(this) && unchanged(mag) && unchanged(mag.blk)
      ensures q != this ==> q.Valid() && (q.mag.blk == old(q.mag.blk) || fresh(q.mag.blk)) && q.mag.blk != mag.blk
      ensures q != this ==> FloorDivision(old(Int()), old(b.Int()), q.Int(), Int())
      decreases this == b || q == b
    {
      hide Val, Weight;
      if this == q {
        return Thrown(SameQuotientAndRemainder);
      }
      if this == b || q == b {
        var tmpB := new BigInteger.Copy(b);
        status := DivideWithRemainder(tmpB, q);
        return;
      }
      SignTells();
      b.SignTells();
      if b.sign == Zero || sign == Zero {
        q.AssignZero();
        return Done;
      }
      if sign == b.sign {
        DivideSameSign(b, q);
      } else {
        DivideDifferentSign(b, q);
      }
      return Done;
    }

    method DivideSameSign(b: BigInteger, q: BigInteger)
      requires Valid() && b.Valid() && q.mag.Wf() && q != this && b != this && b != q
      requires Apart(b) && Apart(q) && q.Apart(b)
      requires sign == b.sign != Zero
      modifies this, mag, mag.blk, q, q.mag, q.mag.blk
      ensures Valid() && (mag.blk == old(mag.blk) || fresh(mag.blk))
      ensures q.Valid() && (q.mag.blk == old(q.mag.blk) || fresh(q.mag.blk)) && q.mag.blk != mag.blk
      ensures FloorDivision(old(Int()), b.Int(), q.Int(), Int())
    {
      hide Val, Weight;
      b.SignTells();
      ghost var m := mag.Number();
      q.sign := Positive;
      var _ := mag.DivideWithRemainder(b.mag, q.mag);
      SameSignDivision(b.sign, m, b.mag.Number(), q.mag.Number(), mag.Number());
      SettleSigns(b, q);
    }

    method DivideDifferentSign(b: BigInteger, q: BigInteger)
      requires Valid() && b.Valid() && q.mag.Wf() && q != this && b != this && b != q
      requires Apart(b) && Apart(q) && q.Apart(b)
      requires sign != Zero && b.sign == Opposite(sign)
      modifies this, mag, mag.blk, q, q.mag, q.mag.blk
      ensures Valid() && (mag.blk == old(mag.blk) || fresh(mag.blk))
      ensures q.Valid() && (q.mag.blk == old(q.mag.blk) || fresh(q.mag.blk)) && q.mag.blk != mag.blk
      ensures FloorDivision(old(Int()), b.Int(), q.Int(), Int())
    {
      hide Val, Weight;
      SignTells();
      b.SignTells();
      ghost var m, n := mag.Number(), b.mag.Number();
      q.sign := Negative;
      DivideRoundingUp(b.mag, q.mag);
      DifferentSignDivision(b.sign, m, n, q.mag.Number() - 1, n - mag.Number() - 1);
      SettleSigns(b, q);
    }

    /** Divides the magnitude less one, then corrects quotient and remainder. */
    method DivideRoundingUp(b: BigUnsigned, q: BigUnsigned)
      requires mag.Valid() && b.Valid() && q.Wf() && b != mag && q != mag && q != b
      requires b.blk != mag.blk && q.blk != mag.blk && q.blk != b.blk
      requires mag.Number() > 0 && b.Number() > 0
      modifies mag, mag.blk, q, q.blk
      ensures mag.Valid() && (mag.blk == old(mag.blk) || fresh(mag.blk))
      ensures q.Valid() && (q.blk == old(q.blk) || fresh(q.blk)) && q.blk != mag.blk
      ensures 0 < q.Number() && mag.Number() < b.Number()
      ensures old(mag.Number()) - 1 == (q.Number() - 1) * b.Number() + (b.Number() - mag.Number() - 1)
    {
      hide Val, Weight, Value;
      var _ := mag.Decrement();
      var _ := mag.DivideWithRemainder(b, q);
      q.Increment();
      ComplementRemainder(b);
    }

    /** The magnitude R becomes (b - 1) - R. */
    method ComplementRemainder(b: BigUnsigned)
      requires mag.Valid() && b.Valid() && b != mag && b.blk != mag.blk
      requires mag.Number() < b.Number()
      modifies mag, mag.blk
      ensures mag.Valid() && (mag.blk == old(mag.blk) || fresh(mag.blk))
      ensures mag.Number() == b.Number() - old(mag.Number()) - 1
    {
      hide Val, Weight;
      var _ := mag.Subtract(b, mag);
      var _ := mag.Decrement();
    }

    /** The remainder takes the divisor's sign; zeros take sign zero. */
    method SettleSigns(b: BigInteger, q: BigInteger)
      requires mag.Valid() && q.mag.Valid() && q != this && b != this && b != q
      requires q.sign != Zero && b.sign != Zero
      modifies this`sign, q`sign
      ensures Valid() && q.Valid()
      ensures Int() == Signed(b.sign, mag.Number())
      ensures q.Int() == Signed(old(q.sign), q.mag.Number())
    {
      hide Val, Weight;
      sign := b.sign;
      if mag.IsZero() {
        sign := Zero;
      }
      if q.mag.IsZero() {
        q.sign := Zero;
      }
    }

    // ---- operators that return a new integer

    method Times(x: BigInteger) returns (ans: BigInteger)
      requires Valid() && x.Valid()
      ensures fresh(ans) && fresh(ans.mag) && fresh(ans.mag.blk) && ans.Valid()
      ensures ans.Int() == Int() * x.Int()
    {
      ans := new BigInteger();
      ans.Multiply(this, x);
    }

    method Modulo(x: BigInteger) returns (r: Result<BigInteger>)
      requires Valid() && x.Valid()
      ensures x.Int() == 0 <==> r == Err(DivisionByZero)
      ensures x.Int() != 0 ==>
                r.Ok? && fresh(r.value) && fresh(r.value.mag) && fresh(r.value.mag.blk) && r.value.Valid()
      ensures x.Int() != 0 ==> r.value.Int() == FloorMod(Int(), x.Int())
    {
      hide Val, Weight;
      x.SignTells();
      if x.sign == Zero {
        return Err(DivisionByZero);
      }
      var q := new BigInteger();
      var rem := new BigInteger.Copy(this);
      var _ := rem.DivideWithRemainder(x, q);
      FloorModIsRemainder(Int(), x.Int(), q.Int(), rem.Int());
      return Ok(rem);
    }
  }
}
