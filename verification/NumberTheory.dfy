/** Divisibility, greatest common divisors and residues of integers. */
module NumberTheory {
  import opened Powers
  import opened Bits

  function Times(x: int, y: int): int {
    x * y
  }

  ghost predicate Divides(d: int, x: int) {
    exists k :: Times(d, k) == x
  }

  ghost predicate CommonDivisor(d: int, x: int, y: int) {
    Divides(d, x) && Divides(d, y)
  }

  /** A common divisor that every common divisor divides; its sign is open. */
  ghost predicate IsGcd(g: int, x: int, y: int) {
    CommonDivisor(g, x, y) && forall d :: CommonDivisor(d, x, y) ==> Divides(d, g)
  }

  ghost predicate SameCommonDivisors(x: int, y: int, u: int, v: int) {
    forall d :: CommonDivisor(d, x, y) <==> CommonDivisor(d, u, v)
  }

  ghost predicate Coprime(x: int, y: int) {
    IsGcd(1, x, y)
  }

  lemma DividesCombination(d: int, x: int, y: int, q: int)
    requires Divides(d, x) && Divides(d, y)
    ensures Divides(d, x + q * y) && Divides(d, x - q * y)
  {
    var k :| Times(d, k) == x;
    var l :| Times(d, l) == y;
    MulAssociative(q, d, l);
    assert d * (q * l) == q * y;
    assert Times(d, k + q * l) == x + q * y;
    assert Times(d, k - q * l) == x - q * y;
  }

  /** Euclid's step keeps the common divisors. */
  lemma RemainderKeepsDivisors(x: int, y: int, q: int, r: int)
    requires x == q * y + r
    ensures SameCommonDivisors(x, y, r, y)
  {
    forall d ensures CommonDivisor(d, x, y) <==> CommonDivisor(d, r, y) {
      if CommonDivisor(d, x, y) {
        DividesCombination(d, x, y, q);
      }
      if CommonDivisor(d, r, y) {
        DividesCombination(d, r, y, q);
      }
    }
  }

  lemma SwapDivisors(x: int, y: int)
    ensures SameCommonDivisors(x, y, y, x)
  {
  }

  /** Next to zero a number is its own greatest common divisor. */
  lemma GcdWithZero(g: int, x: int, y: int)
    requires SameCommonDivisors(x, y, g, 0)
    ensures IsGcd(g, x, y)
  {
    assert Times(g, 1) == g && Times(g, 0) == 0;
    assert CommonDivisor(g, g, 0);
  }

  lemma DividesBound(d: int, x: int)
    requires Divides(d, x) && d > 0 && x > 0
    ensures d <= x
  {
    var k :| Times(d, k) == x;
    if k <= 0 {
      MulMonotone(d, k, 0);
    } else {
      MulMonotone(d, 1, k);
    }
  }

  /** Positive greatest common divisors are equal. */
  lemma GcdUnique(g: int, h: int, x: int, y: int)
    requires IsGcd(g, x, y) && IsGcd(h, x, y) && g > 0 && h > 0
    ensures g == h
  {
    DividesBound(g, h);
    DividesBound(h, g);
  }

  // ---- residues

  /** A product depends on the residues of its factors only. */
  lemma ModTimes(x: int, y: int, m: int)
    requires m > 0
    ensures (x % m) * (y % m) % m == x * y % m
    ensures (x % m) * y % m == x * y % m
  {
    ModTimesLeft(x, y, m);
    ModTimesLeft(y, x % m, m);
    assert (x % m) * y == y * (x % m) && (x % m) * (y % m) == (y % m) * (x % m);
  }

  lemma ModTimesLeft(x: int, y: int, m: int)
    requires m > 0
    ensures (x % m) * y % m == x * y % m
  {
    var u, r := x / m, x % m;
    assert x == u * m + r;
    assert x * y == r * y + (u * y) * m;
    AddMultiple(r * y, u * y, m);
  }

  lemma AddMultiple(x: int, k: int, m: int)
    requires m > 0
    ensures (x + k * m) % m == x % m
  {
    assert x == m * (x / m) + x % m;
    assert (x / m + k) * m == m * (x / m) + k * m;
    DivisionUnique(x + k * m, m, x / m + k, x % m);
  }

  lemma ModMod(x: int, m: int)
    requires m > 0
    ensures x % m % m == x % m
  {
    DivisionUnique(x % m, m, 0, x % m);
  }

  /** One step of square-and-multiply. */
  lemma SquareAndMultiply(b: int, k: nat, m: int, ans: int, c: int, bit: bool)
    requires m > 0 && ans % m == Pow(b, k) % m && c % m == b % m
    ensures ans * ans % m == Pow(b, 2 * k) % m
    ensures bit ==> ans * ans % m * c % m == Pow(b, 2 * k + 1) % m
  {
    var p := Pow(b, k);
    PowAdd(b, k, k);
    ModTimes(ans, ans, m);
    ModTimes(p, p, m);
    var sq := ans * ans % m;
    ModMod(ans * ans, m);
    ModTimes(sq, c, m);
    ModTimes(Pow(b, 2 * k), b, m);
    assert Pow(b, 2 * k + 1) == Pow(b, 2 * k) * b;
  }

  /** The bits of e above i, and one more. */
  lemma HighBitsStep(e: nat, i: nat)
    ensures Pow(2, i) > 0 && Pow(2, i + 1) > 0
    ensures e / Pow(2, i) >= 0 && e / Pow(2, i + 1) >= 0
    ensures e / Pow(2, i) == 2 * (e / Pow(2, i + 1)) + BitValue(Bit(e, i))
  {
    PowPositive(2, i);
    BitIsShifted(e, i);
    QuotientBound(e, Pow(2, i));
    HalfQuotient(e, Pow(2, i));
    assert Pow(2, i + 1) == 2 * Pow(2, i);
  }

  lemma HalfQuotient(e: nat, p: nat)
    requires p > 0
    ensures e / (2 * p) == e / p / 2
  {
    var k, r := e / p, e % p;
    var h, b := k / 2, k % 2;
    assert e == p * k + r && k == 2 * h + b;
    assert p * k == h * (2 * p) + b * p;
    MulMonotone(p, b, 1);
    MulMonotone(p, 0, b);
    DivisionUnique(e, 2 * p, h, b * p + r);
  }

  /** An inverse modulo n from Bezout's identity. */
  lemma InverseFromBezout(x: int, n: int, r: int, s: int)
    requires n > 0 && r * x + s * n == 1
    ensures (r % n) * x % n == 1 % n
  {
    AddMultiple(r * x, s, n);
    ModTimes(r, x, n);
  }

  /** Only a number prime to n has an inverse. */
  lemma InverseMeansCoprime(x: int, n: int, y: int)
    requires n > 0 && y * x % n == 1 % n
    ensures Coprime(x, n)
  {
    assert y * x == n * (y * x / n) + 1 % n;
    assert 1 == n * (1 / n) + 1 % n;
    var t := y * x / n - 1 / n;
    assert n * t == n * (y * x / n) - n * (1 / n);
    assert 1 == y * x - t * n;
    forall d | CommonDivisor(d, x, n) ensures Divides(d, 1) {
      assert Times(d, 0) == 0;
      DividesCombination(d, 0, x, y);
      DividesCombination(d, y * x, n, t);
    }
    assert Times(1, x) == x && Times(1, n) == n;
  }
}
