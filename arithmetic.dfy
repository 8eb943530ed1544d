/**
 * Exact integer arithmetic on naturals that every part of the model shares:
 * powers, divisibility, greatest common divisors and primality, together with
 * the facts about Euclidean division the proofs lean on.
 */
module Arithmetic {

  /** b to the power e, the value of Python's `b ** e` on naturals. */
  function Pow(b: nat, e: nat): nat
  {
    if e == 0 then 1 else b * Pow(b, e - 1)
  }

  /** d divides x (only positive divisors are considered). */
  predicate Divides(d: nat, x: int)
  {
    d > 0 && x % d == 0
  }

  /** Greatest common divisor by Euclid's algorithm; Gcd(a, 0) == a. */
  function Gcd(a: nat, b: nat): nat
    decreases b
  {
    if b == 0 then a else Gcd(b, a % b)
  }

  predicate IsPrime(n: nat)
  {
    n >= 2 && forall k :: 2 <= k < n ==> !Divides(k, n)
  }

  // ---------------------------------------------------------------------
  // Euclidean division

  /** A product of naturals is zero only when a factor is. */
  lemma ProductZero(a: nat, b: nat)
    ensures a * b == 0 <==> a == 0 || b == 0
  {
    if a > 0 && b > 0 {
      MulAtLeast(a, b);
    }
  }

  lemma MulAtLeast(k: int, m: int)
    requires k >= 1 && m > 0
    ensures k * m >= m
  {
  }

  /** A quotient and a remainder in [0, m) are the ones `/` and `%` give. */
  lemma DivModUnique(c: int, m: int, q: int, r: int)
    requires m > 0 && 0 <= r < m && c == q * m + r
    ensures c / m == q && c % m == r
  {
    var q0, r0 := c / m, c % m;
    assert c == q0 * m + r0;
    if q0 < q {
      assert (q - q0) * m == r0 - r;
      MulAtLeast(q - q0, m);
    } else if q0 > q {
      assert (q0 - q) * m == r - r0;
      MulAtLeast(q0 - q, m);
    }
  }

  /** Adding a multiple of m does not change the remainder. */
  lemma ModOfMultiple(c: int, k: int, m: int)
    requires m > 0
    ensures (c + k * m) % m == c % m
  {
    assert c + k * m == (c / m + k) * m + c % m;
    DivModUnique(c + k * m, m, c / m + k, c % m);
  }

  /** The left factor of a product may be reduced modulo m. */
  lemma ModMulLeft(x: int, y: int, m: int)
    requires m > 0
    ensures (x * y) % m == ((x % m) * y) % m
  {
    assert x * y == (x % m) * y + ((x / m) * y) * m;
    ModOfMultiple((x % m) * y, (x / m) * y, m);
  }

  /** Both factors of a product may be reduced modulo m. */
  lemma ModMul(x: int, y: int, m: int)
    requires m > 0
    ensures (x * y) % m == ((x % m) * (y % m)) % m
  {
    ModMulLeft(x, y, m);
    ModMulLeft(y, x % m, m);
    assert (x % m) * y == y * (x % m);
    assert (y % m) * (x % m) == (x % m) * (y % m);
  }

  /** Multiplying congruent numbers by the same factor keeps them congruent. */
  lemma ModMulCongruent(x: int, y: int, y': int, m: int)
    requires m > 0 && y % m == y' % m
    ensures (x * y) % m == (x * y') % m
  {
    ModMul(x, y, m);
    ModMul(x, y', m);
  }

  /** Adding the same number to congruent numbers keeps them congruent. */
  lemma ModAddCongruent(u: int, v: int, c: int, m: int)
    requires m > 0 && u % m == v % m
    ensures (u + c) % m == (v + c) % m
  {
    assert u + c == (u % m + c) + (u / m) * m;
    ModOfMultiple(u % m + c, u / m, m);
    assert v + c == (v % m + c) + (v / m) * m;
    ModOfMultiple(v % m + c, v / m, m);
  }

  /** Congruent numbers differ by a multiple of m. */
  lemma CongruentDifference(x: int, y: int, m: int)
    requires m > 0 && x % m == y % m
    ensures Divides(m, x - y)
  {
    assert x - y == (x / m - y / m) * m;
    DivModUnique(x - y, m, x / m - y / m, 0);
  }

  // ---------------------------------------------------------------------
  // Powers

  lemma {:induction false} PowAdd(b: nat, x: nat, y: nat)
    ensures Pow(b, x + y) == Pow(b, x) * Pow(b, y)
    decreases x
  {
    if x > 0 {
      PowAdd(b, x - 1, y);
      var p, q := Pow(b, x - 1), Pow(b, y);
      assert Pow(b, x + y) == b * Pow(b, (x - 1) + y);
      MulAssoc(b, p, q);
    }
  }

  lemma MulSwap(a: int, b: int, c: int)
    ensures (a * b) * c == (a * c) * b
  {
  }

  lemma MulAssoc(a: int, b: int, c: int)
    ensures a * (b * c) == (a * b) * c
  {
  }

  /** x * y == x * (y - 1) + x. */
  lemma MulPredecessor(x: int, y: int)
    ensures x * y == x * (y - 1) + x
  {
  }

  lemma {:induction false} PowMul(b: nat, x: nat, y: nat)
    ensures Pow(b, x * y) == Pow(Pow(b, x), y)
    decreases y
  {
    if y > 0 {
      var k := x * (y - 1);
      MulPredecessor(x, y);
      PowAdd(b, k, x);
      PowMul(b, x, y - 1);
      var p, q := Pow(b, k), Pow(b, x);
      assert Pow(b, x * y) == p * q;
      assert Pow(Pow(b, x), y) == q * Pow(q, y - 1);
    }
  }

  lemma {:induction false} PowMod(b: nat, e: nat, m: nat)
    requires m > 0
    ensures Pow(b % m, e) % m == Pow(b, e) % m
    decreases e
  {
    if e > 0 {
      PowMod(b, e - 1, m);
      calc {
        Pow(b % m, e) % m;
        ((b % m) * Pow(b % m, e - 1)) % m;
        { ModMulCongruent(b % m, Pow(b % m, e - 1), Pow(b, e - 1), m); }
        ((b % m) * Pow(b, e - 1)) % m;
        { ModMulLeft(b, Pow(b, e - 1), m); }
        (b * Pow(b, e - 1)) % m;
      }
    }
  }

  lemma {:induction false} PowPositive(b: nat, e: nat)
    requires b > 0
    ensures Pow(b, e) > 0
    decreases e
  {
    if e > 0 {
      PowPositive(b, e - 1);
    }
  }

  /** Powers of a base of at least 2 grow strictly with the exponent. */
  lemma {:induction false} PowStrictlyIncreasing(b: nat, x: nat, y: nat)
    requires b >= 2 && x < y
    ensures Pow(b, x) < Pow(b, y)
    decreases y - x
  {
    PowPositive(b, y - 1);
    if x < y - 1 {
      PowStrictlyIncreasing(b, x, y - 1);
    }
    assert Pow(b, y) == b * Pow(b, y - 1);
  }

  // ---------------------------------------------------------------------
  // Divisibility and greatest common divisors

  lemma DividesLinear(d: nat, x: int, y: int, k: int)
    requires Divides(d, x) && Divides(d, y)
    ensures Divides(d, x + k * y)
  {
    var i, j := x / d, y / d;
    assert x == i * d && y == j * d;
    assert x + k * y == (i + k * j) * d;
    DivModUnique(x + k * y, d, i + k * j, 0);
  }

  /** A multiple of d is its quotient times d. */
  lemma DividesQuotient(d: nat, x: int)
    requires Divides(d, x)
    ensures x == (x / d) * d
  {
  }

  lemma DividesMultiple(d: nat, x: int, k: int)
    requires Divides(d, x)
    ensures Divides(d, k * x)
  {
    DividesLinear(d, 0, x, k);
  }

  /** A common divisor of x and m divides x % m. */
  lemma DividesRemainder(d: nat, x: int, m: int)
    requires m > 0 && Divides(d, x) && Divides(d, m)
    ensures Divides(d, x % m)
  {
    DividesLinear(d, x, m, -(x / m));
    assert x + (-(x / m)) * m == x % m;
  }

  /** A positive number's divisors are no larger than it. */
  lemma DivisorBound(d: nat, x: int)
    requires Divides(d, x) && x > 0
    ensures d <= x
  {
    var i := x / d;
    assert x == i * d;
    MulAtLeast(i, d);
  }

  lemma {:induction false} GcdDivides(a: nat, b: nat)
    requires a > 0 || b > 0
    ensures Divides(Gcd(a, b), a) && Divides(Gcd(a, b), b)
    decreases b
  {
    if b > 0 {
      GcdDivides(b, a % b);
      DividesLinear(Gcd(a, b), a % b, b, a / b);
      assert a % b + (a / b) * b == a;
    }
  }

  /** Bezout's identity, by the extended Euclidean recursion. */
  lemma {:induction false} Bezout(a: nat, b: nat) returns (s: int, t: int)
    ensures s * a + t * b == Gcd(a, b)
    decreases b
  {
    if b == 0 {
      s, t := 1, 0;
    } else {
      var s', t' := Bezout(b, a % b);
      var q := a / b;
      s, t := t', s' - t' * q;
      assert a % b == a - q * b;
      BezoutAlgebra(s', t', a, b, q);
    }
  }

  /** The back-substitution step of the extended Euclidean algorithm. */
  lemma BezoutAlgebra(s: int, t: int, a: int, b: int, q: int)
    ensures t * a + (s - t * q) * b == s * b + t * (a - q * b)
  {
  }

  lemma GcdGreatest(d: nat, a: nat, b: nat)
    requires Divides(d, a) && Divides(d, b)
    ensures Divides(d, Gcd(a, b))
  {
    var s, t := Bezout(a, b);
    DividesMultiple(d, a, s);
    DividesLinear(d, s * a, b, t);
  }

  lemma GcdSymmetric(a: nat, b: nat)
    ensures Gcd(a, b) == Gcd(b, a)
  {
    if a > 0 || b > 0 {
      GcdDivides(a, b);
      GcdDivides(b, a);
      GcdGreatest(Gcd(a, b), b, a);
      GcdGreatest(Gcd(b, a), a, b);
      GcdPositive(a, b);
      GcdPositive(b, a);
      DivisorBound(Gcd(a, b), Gcd(b, a));
      DivisorBound(Gcd(b, a), Gcd(a, b));
    }
  }

  lemma GcdPositive(a: nat, b: nat)
    requires a > 0 || b > 0
    ensures Gcd(a, b) > 0
  {
    GcdDivides(a, b);
  }

  /** Multiplying s * k + t * a == 1 through by b. */
  lemma ScaleCombination(s: int, k: int, t: int, a: int, b: int)
    requires s * k + t * a == 1
    ensures b == t * (a * b) + (s * b) * k
  {
    calc {
      b;
      (s * k + t * a) * b;
      (s * k) * b + (t * a) * b;
      { assert (s * k) * b == (s * b) * k; assert (t * a) * b == t * (a * b); }
      t * (a * b) + (s * b) * k;
    }
  }

  /** A divisor coprime to one factor of a product divides the other. */
  lemma CoprimeDividesProduct(k: nat, a: nat, b: int)
    requires Gcd(k, a) == 1 && Divides(k, a * b)
    ensures Divides(k, b)
  {
    var s, t := Bezout(k, a);
    ScaleCombination(s, k, t, a, b);
    DivModUnique((s * b) * k, k, s * b, 0);
    DividesLinear(k, (s * b) * k, a * b, t);
  }

  // ---------------------------------------------------------------------
  // Primes

  /** A prime either divides a number or is coprime to it. */
  lemma PrimeDividesOrCoprime(p: nat, a: nat)
    requires IsPrime(p)
    ensures Divides(p, a) || Gcd(a, p) == 1
  {
    var g := Gcd(a, p);
    GcdDivides(a, p);
    DivisorBound(g, p);
    if g != 1 {
      assert 2 <= g && Divides(g, p);
      assert g == p;
    }
  }

  /** Euclid's lemma. */
  lemma EuclidLemma(p: nat, a: nat, b: int)
    requires IsPrime(p) && Divides(p, a * b)
    ensures Divides(p, a) || Divides(p, b)
  {
    PrimeDividesOrCoprime(p, a);
    if !Divides(p, a) {
      GcdSymmetric(a, p);
      CoprimeDividesProduct(p, a, b);
    }
  }

  /** Two different primes are coprime. */
  lemma DistinctPrimesCoprime(p: nat, q: nat)
    requires IsPrime(p) && IsPrime(q) && p != q
    ensures Gcd(q, p) == 1 && !Divides(p, q)
  {
    if Divides(p, q) {
      DivisorBound(p, q);
    }
    PrimeDividesOrCoprime(p, q);
  }
}
