/** The arithmetic facts the engines rely on: Euclid's gcd, divisibility,
    modular products and powers, and denominators that divide a power of ten. */
module NumberTheory {
  import opened Digits

  predicate Divides(d: nat, n: nat)
  {
    if d == 0 then n == 0 else n % d == 0
  }

  /** Euclid's algorithm, as the recursive BigInt::gcd computes it. */
  function Gcd(a: nat, b: nat): nat
    decreases b
  {
    if b == 0 then a else Gcd(b, a % b)
  }

  function Pow(b: int, e: nat): int
  {
    if e == 0 then 1 else b * Pow(b, e - 1)
  }

  /** A denominator whose fraction has a finite decimal expansion. */
  ghost predicate DividesPowerOfTen(d: nat)
  {
    exists k: nat :: Divides(d, Pow10(k))
  }

  // ---------------------------------------------------------------------
  // Division with remainder

  lemma {:induction false} DivModUnique(n: int, d: int, q: int, r: int)
    requires d > 0 && n == q * d + r && 0 <= r < d
    ensures q == n / d && r == n % d
  {
    var q', r' := n / d, n % d;
    assert n == q' * d + r';
    if q > q' {
      MulMonoStep(q', q, d);
      assert false;
    } else if q < q' {
      MulMonoStep(q, q', d);
      assert false;
    }
  }

  lemma {:induction false} DivParts(v: int, d: int)
    requires d > 0
    ensures (v / d) * d + v % d == v && 0 <= v % d < d
    ensures v >= 0 ==> v / d >= 0
  {
  }

  lemma {:induction false} MulMonoStep(a: int, b: int, d: int)
    requires a < b && d >= 0
    ensures a * d + d <= b * d
  {
    var k := b - a - 1;
    assert k * d >= 0;
    assert b * d == a * d + d + k * d;
  }

  lemma {:induction false} DividesIntro(d: nat, n: nat, k: nat)
    requires n == d * k
    ensures Divides(d, n)
  {
    if d > 0 {
      DivModUnique(n, d, k, 0);
    }
  }

  lemma {:induction false} DividesElim(d: nat, n: nat)
    requires d > 0 && Divides(d, n)
    ensures n == d * (n / d)
  {
  }

  lemma {:induction false} DividesTrans(a: nat, b: nat, c: nat)
    requires Divides(a, b) && Divides(b, c)
    ensures Divides(a, c)
  {
    if a > 0 && b > 0 {
      DividesElim(a, b);
      DividesElim(b, c);
      assert c == a * ((b / a) * (c / b));
      DividesIntro(a, c, (b / a) * (c / b));
    }
  }

  lemma {:induction false} DividesMul(d: nat, n: nat, m: nat)
    requires Divides(d, n)
    ensures Divides(d, n * m)
  {
    if d > 0 {
      DividesElim(d, n);
      assert n * m == d * ((n / d) * m);
      DividesIntro(d, n * m, (n / d) * m);
    }
  }

  lemma {:induction false} DividesMulBoth(d: nat, n: nat, m: nat)
    requires Divides(d, n)
    ensures Divides(d * m, n * m)
  {
    if d > 0 {
      DividesElim(d, n);
      assert n * m == (d * m) * (n / d);
      DividesIntro(d * m, n * m, n / d);
    }
  }

  lemma {:induction false} DividesLinear(d: nat, a: nat, b: nat)
    requires d > 0 && b > 0 && Divides(d, a) && Divides(d, b)
    ensures Divides(d, a % b)
  {
    DividesElim(d, a);
    DividesElim(d, b);
    var x, y, q := a / d, b / d, a / b;
    assert a == q * b + a % b;
    assert a % b == d * (x - q * y);
    var k := x - q * y;
    if k < 0 {
      MulMonoStep(k, 0, d);
    }
    DividesIntro(d, a % b, k);
  }

  lemma {:induction false} DividesFromRemainder(d: nat, a: nat, b: nat)
    requires d > 0 && b > 0 && Divides(d, b) && Divides(d, a % b)
    ensures Divides(d, a)
  {
    DividesElim(d, b);
    DividesElim(d, a % b);
    var q := a / b;
    assert a == q * b + a % b;
    assert a == d * (q * (b / d) + (a % b) / d);
    DividesIntro(d, a, q * (b / d) + (a % b) / d);
  }

  lemma {:induction false} DividesLessEq(d: nat, n: nat)
    requires Divides(d, n) && n > 0
    ensures d <= n
  {
    DividesElim(d, n);
    assert n / d != 0;
    MulMonoStep(0, n / d, d);
  }

  // ---------------------------------------------------------------------
  // Euclid's gcd

  lemma {:induction false} GcdPositive(a: nat, b: nat)
    requires a > 0 || b > 0
    ensures Gcd(a, b) > 0
    decreases b
  {
    if b > 0 {
      GcdPositive(b, a % b);
    }
  }

  /** The result of Euclid's algorithm divides both arguments. */
  lemma {:induction false} GcdDivides(a: nat, b: nat)
    ensures Divides(Gcd(a, b), a) && Divides(Gcd(a, b), b)
    decreases b
  {
    if b > 0 {
      GcdDivides(b, a % b);
      GcdPositive(b, a % b);
      DividesFromRemainder(Gcd(a, b), a, b);
    }
  }

  /** ... and every common divisor divides it, so it is the greatest. */
  lemma {:induction false} GcdGreatest(a: nat, b: nat, d: nat)
    requires Divides(d, a) && Divides(d, b)
    ensures Divides(d, Gcd(a, b))
    decreases b
  {
    if b > 0 {
      DividesLinear(d, a, b);
      GcdGreatest(b, a % b, d);
    }
  }

  lemma {:induction false} ModScale(k: nat, a: nat, b: nat)
    requires k > 0 && b > 0
    ensures (k * a) % (k * b) == k * (a % b)
  {
    var q, r := a / b, a % b;
    assert a == q * b + r;
    assert k * a == q * (k * b) + k * r;
    MulMonoStep(r, b, k);
    DivModUnique(k * a, k * b, q, k * r);
  }

  lemma {:induction false} GcdScale(k: nat, a: nat, b: nat)
    requires k > 0
    ensures Gcd(k * a, k * b) == k * Gcd(a, b)
    decreases b
  {
    if b > 0 {
      ModScale(k, a, b);
      GcdScale(k, b, a % b);
    }
  }

  /** Dividing both numbers by their gcd leaves a coprime pair. */
  lemma {:induction false} GcdQuotientsCoprime(a: nat, b: nat)
    requires Gcd(a, b) > 0
    ensures Divides(Gcd(a, b), a) && Divides(Gcd(a, b), b)
    ensures Gcd(a / Gcd(a, b), b / Gcd(a, b)) == 1
  {
    var g := Gcd(a, b);
    GcdDivides(a, b);
    DividesElim(g, a);
    DividesElim(g, b);
    GcdScale(g, a / g, b / g);
    assert g * Gcd(a / g, b / g) == g * 1;
  }

  lemma {:induction false} GcdZeroLeft(b: nat)
    ensures Gcd(0, b) == b
  {
    if b > 0 {
      assert 0 % b == 0;
    }
  }

  // ---------------------------------------------------------------------
  // Modular products and powers

  lemma {:induction false} ModAddMultiple(x: int, k: int, n: int)
    requires n > 0
    ensures (x + k * n) % n == x % n
  {
    var q, r := x / n, x % n;
    assert x + k * n == (q + k) * n + r;
    DivModUnique(x + k * n, n, q + k, r);
  }

  lemma {:induction false} ModMulRight(u: int, v: int, n: int)
    requires n > 0
    ensures (u * (v % n)) % n == (u * v) % n
  {
    var q := v / n;
    assert v == q * n + v % n;
    assert u * v == u * (v % n) + (u * q) * n;
    ModAddMultiple(u * (v % n), u * q, n);
  }

  lemma {:induction false} ModMulBoth(u: int, v: int, n: int)
    requires n > 0
    ensures ((u % n) * (v % n)) % n == (u * v) % n
  {
    ModMulRight(u % n, v, n);
    ModMulRight(v, u, n);
    assert (u % n) * v == v * (u % n);
    assert u * v == v * u;
  }

  lemma {:induction false} PowAdd(b: int, i: nat, j: nat)
    ensures Pow(b, i + j) == Pow(b, i) * Pow(b, j)
  {
    if j > 0 {
      PowAdd(b, i, j - 1);
      assert Pow(b, i + j) == b * Pow(b, i + j - 1);
      assert b * (Pow(b, i) * Pow(b, j - 1)) == Pow(b, i) * (b * Pow(b, j - 1));
    }
  }

  lemma {:induction false} PowSquare(b: int, e: nat)
    ensures Pow(b * b, e) == Pow(b, 2 * e)
  {
    if e > 0 {
      PowSquare(b, e - 1);
      var p := Pow(b, 2 * e - 2);
      assert Pow(b * b, e) == (b * b) * p;
      assert Pow(b, 2 * e - 1) == b * p;
      assert Pow(b, 2 * e) == b * (b * p);
    }
  }

  lemma {:induction false} PowMul(b: int, i: nat, j: nat)
    ensures Pow(b, i * j) == Pow(Pow(b, i), j)
  {
    if j > 0 {
      PowMul(b, i, j - 1);
      assert i * j == i * (j - 1) + i;
      PowAdd(b, i * (j - 1), i);
      assert Pow(Pow(b, i), j) == Pow(b, i) * Pow(Pow(b, i), j - 1);
    }
  }

  lemma {:induction false} PowNonNegative(b: int, e: nat)
    requires b >= 0
    ensures Pow(b, e) >= 0
  {
    if e > 0 {
      PowNonNegative(b, e - 1);
    }
  }

  lemma {:induction false} PowMod(b: int, e: nat, n: int)
    requires n > 0
    ensures Pow(b % n, e) % n == Pow(b, e) % n
  {
    if e > 0 {
      PowMod(b, e - 1, n);
      var x, y, c := Pow(b % n, e - 1), Pow(b, e - 1), b % n;
      assert Pow(b % n, e) == c * x;
      assert Pow(b, e) == b * y;
      ModMulRight(c, x, n);
      ModMulRight(c, y, n);
      assert c * (x % n) == c * (y % n);
      ModMulRight(y, b, n);
      assert y * c == c * y && y * b == b * y;
    }
  }

  // ---------------------------------------------------------------------
  // Small primes 2 and 5, and powers of ten

  lemma {:induction false} Pow10IsPow(k: nat)
    ensures Pow10(k) == Pow(10, k)
  {
    if k > 0 {
      Pow10IsPow(k - 1);
    }
  }

  /** An odd number that divides 2m divides m. */
  lemma {:induction false} OddDividesDouble(d: nat, m: nat)
    requires d % 2 == 1 && Divides(d, 2 * m)
    ensures Divides(d, m)
  {
    DividesElim(d, 2 * m);
    var k := 2 * m / d;
    assert 2 * m == d * k;
    ModMulBoth(d, k, 2);
    assert (d * k) % 2 == 0;
    assert k % 2 == 0;
    assert m == d * (k / 2);
    DividesIntro(d, m, k / 2);
  }

  /** A number not divisible by 5 that divides 5m divides m. */
  lemma {:induction false} FiveFreeDividesQuintuple(d: nat, m: nat)
    requires d % 5 != 0 && Divides(d, 5 * m)
    ensures Divides(d, m)
  {
    DividesElim(d, 5 * m);
    var k := 5 * m / d;
    assert 5 * m == d * k;
    ModMulBoth(d, k, 5);
    assert (d * k) % 5 == 0;
    var x, y := d % 5, k % 5;
    assert (x * y) % 5 == 0;
    assert y == 0 by {
      if x == 1 {} else if x == 2 {} else if x == 3 {} else {}
    }
    assert m == d * (k / 5);
    DividesIntro(d, m, k / 5);
  }

  /** A number coprime to 10 that divides a power of ten is 1. */
  lemma {:induction false} CoprimeToTenDividesPow10(d: nat, k: nat)
    requires d % 2 == 1 && d % 5 != 0 && Divides(d, Pow10(k))
    ensures d == 1
  {
    if k == 0 {
      DividesLessEq(d, 1);
    } else {
      assert Pow10(k) == 2 * (5 * Pow10(k - 1));
      OddDividesDouble(d, 5 * Pow10(k - 1));
      FiveFreeDividesQuintuple(d, Pow10(k - 1));
      CoprimeToTenDividesPow10(d, k - 1);
    }
  }

  lemma {:induction false} TwoDividesTen(m: nat, k: nat)
    requires Divides(m, Pow10(k))
    ensures Divides(2 * m, Pow10(k + 1)) && Divides(5 * m, Pow10(k + 1))
  {
    DividesMulBoth(m, Pow10(k), 2);
    DividesMulBoth(m, Pow10(k), 5);
    DividesMul(2 * m, Pow10(k) * 2, 5);
    DividesMul(5 * m, Pow10(k) * 5, 2);
    assert Pow10(k + 1) == Pow10(k) * 2 * 5 == Pow10(k) * 5 * 2;
  }
}
