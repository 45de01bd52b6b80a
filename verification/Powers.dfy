/** Integer powers and the few product facts the rest of the project needs. */
module Powers {

  /** b^e for any integer b. */
  function Pow(b: int, e: nat): int {
    if e == 0 then 1 else b * Pow(b, e - 1)
  }

  lemma PowPositive(b: int, e: nat)
    requires b > 0
    ensures Pow(b, e) > 0
  {
    if e > 0 {
      PowPositive(b, e - 1);
    }
  }

  lemma {:induction false} PowAdd(b: int, x: nat, y: nat)
    ensures Pow(b, x + y) == Pow(b, x) * Pow(b, y)
  {
    if x > 0 {
      PowAdd(b, x - 1, y);
      assert x + y - 1 == (x - 1) + y;
      MulAssociative(b, Pow(b, x - 1), Pow(b, y));
    }
  }

  lemma {:induction false} PowTimes(b: int, x: nat, y: nat)
    ensures 0 <= x * y
    ensures Pow(Pow(b, x), y) == Pow(b, x * y)
  {
    MulNonNegative(x, y);
    if y == 0 {
      assert x * y == 0;
    } else {
      assert x * y == x * (y - 1) + x;
      PowTimes(b, x, y - 1);
      PowAdd(b, x, x * (y - 1));
    }
  }

  lemma {:induction false} PowMonotone(b: int, x: nat, y: nat)
    requires b >= 1 && x <= y
    ensures 1 <= Pow(b, x) <= Pow(b, y)
  {
    PowPositive(b, x);
    PowPositive(b, y - x);
    PowAdd(b, x, y - x);
    MulMonotone(Pow(b, x), 1, Pow(b, y - x));
  }

  // Products, one step at a time: the solver is only asked about these shapes here.

  lemma MulNonNegative(x: int, y: int)
    requires x >= 0 && y >= 0
    ensures x * y >= 0
  {
  }

  lemma MulAssociative(x: int, y: int, z: int)
    ensures x * (y * z) == (x * y) * z
  {
  }

  lemma MulMonotone(x: int, y: int, z: int)
    requires x >= 0 && y <= z
    ensures x * y <= x * z
    ensures y * x <= z * x
  {
  }

  lemma MulStrictlyMonotone(x: int, y: int, z: int)
    requires x > 0 && y < z
    ensures x * y < x * z
    ensures y * x < z * x
  {
  }

  /** The quotient and remainder of a division are determined by their defining equation. */
  lemma DivisionUnique(x: int, d: int, q: int, r: int)
    requires d > 0 && x == q * d + r && 0 <= r < d
    ensures x / d == q && x % d == r
  {
    var q', r' := x / d, x % d;
    assert x == d * q' + r';
    assert d * (q - q') == r' - r;
    if q' < q {
      MulMonotone(d, 1, q - q');
    } else if q < q' {
      MulMonotone(d, q - q', -1);
    }
  }

  lemma QuotientAtLeast(x: int, q: int, r: int, d: int, w: int)
    requires d > 0 && x == q * d + r && r < d
    requires w * d <= x
    ensures w <= q
  {
    assert (q + 1) * d == q * d + d;
    if q < w {
      MulMonotone(d, q + 1, w);
    }
  }

  lemma QuotientBound(x: nat, d: nat)
    requires d > 0
    ensures 0 <= x / d <= x
  {
    var q := x / d;
    assert x == d * q + x % d;
    if q < 0 {
      MulMonotone(d, q, -1);
    }
    MulMonotone(q, 1, d);
  }
}
