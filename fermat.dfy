/**
 * Why textbook RSA decrypts what it encrypts: Fermat's little theorem, proved
 * from the binomial theorem, and its combination over two distinct primes.
 */
module Fermat {
  import opened Arithmetic

  /** n choose k, by Pascal's rule. */
  function Binom(n: nat, k: nat): nat
  {
    if k == 0 then 1 else if n == 0 then 0 else Binom(n - 1, k - 1) + Binom(n - 1, k)
  }

  /** The partial binomial sum: the sum of Binom(n, k) * x^k for k = 0 .. j. */
  function BinomSum(n: nat, x: nat, j: nat): nat
  {
    (if j == 0 then 0 else BinomSum(n, x, j - 1)) + Binom(n, j) * Pow(x, j)
  }

  lemma {:induction false} BinomAbove(n: nat, k: nat)
    requires k > n
    ensures Binom(n, k) == 0
    decreases n
  {
    if n > 0 {
      BinomAbove(n - 1, k - 1);
      BinomAbove(n - 1, k);
    }
  }

  lemma {:induction false} BinomDiagonal(n: nat)
    ensures Binom(n, n) == 1
    decreases n
  {
    if n > 0 {
      BinomDiagonal(n - 1);
      BinomAbove(n - 1, n);
    }
  }

  /** Pascal's rule lifted to the partial sums. */
  lemma {:induction false} PascalSum(n: nat, x: nat, j: nat)
    ensures BinomSum(n + 1, x, j + 1) == x * BinomSum(n, x, j) + BinomSum(n, x, j + 1)
    decreases j
  {
    var cj, cj1 := Binom(n, j), Binom(n, j + 1);
    var pw := Pow(x, j);
    assert Pow(x, j + 1) == x * pw;
    assert Binom(n + 1, j + 1) == cj + cj1;
    var b, c := BinomSum(n, x, j), BinomSum(n, x, j + 1);
    assert c == b + cj1 * (x * pw);
    assert BinomSum(n + 1, x, j + 1) == BinomSum(n + 1, x, j) + (cj + cj1) * (x * pw);
    if j == 0 {
      assert pw == 1;
      assert Binom(n + 1, 0) == cj == 1;
      assert BinomSum(n + 1, x, 0) == 1 && b == 1;
      PascalAlgebra(x, 0, 1, cj, cj1, pw);
    } else {
      PascalSum(n, x, j - 1);
      var a := BinomSum(n, x, j - 1);
      assert b == a + cj * pw;
      assert BinomSum(n + 1, x, j) == x * a + b;
      PascalAlgebra(x, a, b, cj, cj1, pw);
    }
  }

  lemma PascalAlgebra(x: int, a: int, b: int, cj: int, cj1: int, pw: int)
    ensures x * a + b + (cj + cj1) * (x * pw) == x * (a + cj * pw) + (b + cj1 * (x * pw))
  {
  }

  /** The binomial theorem for (x + 1)^n. */
  lemma {:induction false} BinomialTheorem(n: nat, x: nat)
    ensures Pow(x + 1, n) == BinomSum(n, x, n)
    decreases n
  {
    if n == 0 {
      assert Pow(x, 0) == 1;
    } else {
      BinomialTheorem(n - 1, x);
      BinomAbove(n - 1, n);
      PascalSum(n - 1, x, n - 1);
      calc {
        Pow(x + 1, n);
        (x + 1) * BinomSum(n - 1, x, n - 1);
        x * BinomSum(n - 1, x, n - 1) + BinomSum(n - 1, x, n - 1);
        x * BinomSum(n - 1, x, n - 1) + BinomSum(n - 1, x, n);
        BinomSum(n, x, n);
      }
    }
  }

  /** k * C(n, k) == n * C(n - 1, k - 1). */
  lemma {:induction false} BinomAbsorption(n: nat, k: nat)
    requires n >= 1 && k >= 1
    ensures k * Binom(n, k) == n * Binom(n - 1, k - 1)
    decreases n
  {
    if n == 1 {
      if k > 1 {
        BinomAbove(0, k - 1);
        BinomAbove(0, k);
      }
    } else if k == 1 {
      BinomAbsorption(n - 1, 1);
    } else {
      BinomAbsorption(n - 1, k - 1);
      BinomAbsorption(n - 1, k);
      var a1, a2 := Binom(n - 1, k - 1), Binom(n - 1, k);
      var b1, b2 := Binom(n - 2, k - 2), Binom(n - 2, k - 1);
      assert Binom(n, k) == a1 + a2;
      assert a1 == b1 + b2;
      AbsorptionAlgebra(n, k, a1, a2, b1, b2);
    }
  }

  lemma AbsorptionAlgebra(n: int, k: int, a1: int, a2: int, b1: int, b2: int)
    requires a1 == b1 + b2
    requires (k - 1) * a1 == (n - 1) * b1 && k * a2 == (n - 1) * b2
    ensures k * (a1 + a2) == n * a1
  {
    calc {
      k * (a1 + a2);
      (k - 1) * a1 + a1 + k * a2;
      (n - 1) * b1 + a1 + (n - 1) * b2;
      (n - 1) * (b1 + b2) + a1;
      n * a1;
    }
  }

  /** A prime p divides C(p, k) for 0 < k < p. */
  lemma PrimeDividesBinom(p: nat, k: nat)
    requires IsPrime(p) && 0 < k < p
    ensures Divides(p, Binom(p, k))
  {
    BinomAbsorption(p, k);
    var c := Binom(p - 1, k - 1);
    DivModUnique(p * c, p, c, 0);
    EuclidLemma(p, k, Binom(p, k));
    if Divides(p, k) {
      DivisorBound(p, k);
    }
  }

  /** Below the top term, the binomial sum for a prime p is 1 modulo p. */
  lemma {:induction false} BinomSumBelowPrime(p: nat, x: nat, j: nat)
    requires IsPrime(p) && j < p
    ensures BinomSum(p, x, j) % p == 1
    decreases j
  {
    if j == 0 {
      assert Pow(x, 0) == 1;
      DivModUnique(1, p, 0, 1);
    } else {
      BinomSumBelowPrime(p, x, j - 1);
      PrimeDividesBinom(p, j);
      var b, w := Binom(p, j), Pow(x, j);
      var c := b / p;
      DividesQuotient(p, b);
      MulSwap(c, p, w);
      assert BinomSum(p, x, j) == BinomSum(p, x, j - 1) + (c * w) * p;
      ModOfMultiple(BinomSum(p, x, j - 1), c * w, p);
    }
  }

  /** (x + 1)^p and x^p + 1 agree modulo a prime p. */
  lemma FreshmansDream(p: nat, x: nat)
    requires IsPrime(p)
    ensures Pow(x + 1, p) % p == (Pow(x, p) + 1) % p
  {
    BinomialTheorem(p, x);
    BinomSumBelowPrime(p, x, p - 1);
    BinomDiagonal(p);
    DivModUnique(1, p, 0, 1);
    assert BinomSum(p, x, p) == BinomSum(p, x, p - 1) + Pow(x, p);
    ModAddCongruent(BinomSum(p, x, p - 1), 1, Pow(x, p), p);
  }

  /** Fermat's little theorem: a^p and a agree modulo a prime p. */
  lemma {:induction false} FermatLittle(p: nat, a: nat)
    requires IsPrime(p)
    ensures Pow(a, p) % p == a % p
    decreases a
  {
    if a == 0 {
      assert Pow(0, p) == 0 * Pow(0, p - 1);
    } else {
      FermatLittle(p, a - 1);
      FreshmansDream(p, a - 1);
      ModAddCongruent(Pow(a - 1, p), a - 1, 1, p);
    }
  }

  /** a^(1 + j * (p - 1)) and a agree modulo a prime p, for every j. */
  lemma {:induction false} FermatPower(p: nat, a: nat, j: nat)
    requires IsPrime(p)
    ensures Pow(a, 1 + j * (p - 1)) % p == a % p
    decreases j
  {
    if j == 0 {
      assert Pow(a, 1) == a * Pow(a, 0);
    } else {
      FermatPower(p, a, j - 1);
      var rest := Pow(a, (j - 1) * (p - 1));
      assert 1 + j * (p - 1) == p + (j - 1) * (p - 1);
      PowAdd(a, p, (j - 1) * (p - 1));
      PowAdd(a, 1, (j - 1) * (p - 1));
      assert Pow(a, 1) == a * Pow(a, 0);
      FermatLittle(p, a);
      assert Pow(a, p) * rest == rest * Pow(a, p);
      ModMulCongruent(rest, Pow(a, p), a, p);
      assert rest * a == a * rest;
    }
  }

  /** What two distinct primes both divide, their product divides. */
  lemma CrtCombine(p: nat, q: nat, z: int)
    requires IsPrime(p) && IsPrime(q) && p != q
    requires Divides(p, z) && Divides(q, z)
    ensures Divides(p * q, z)
  {
    var i := z / p;
    assert z == p * i;
    DistinctPrimesCoprime(q, p);
    EuclidLemma(q, p, i);
    var j := i / q;
    assert i == j * q;
    assert z == j * (p * q);
    DivModUnique(z, p * q, j, 0);
  }

  /** A number congruent to m < p * q modulo both p and q leaves remainder m. */
  lemma CrtUnique(p: nat, q: nat, x: nat, m: nat)
    requires IsPrime(p) && IsPrime(q) && p != q
    requires x % p == m % p && x % q == m % q && m < p * q
     ensures x % (p * q) == m
  {
    var z := x - m;
    CongruentDifference(x, m, p);
    CongruentDifference(x, m, q);
    CrtCombine(p, q, z);
    var n := p * q;
    var k := z / n;
    DividesQuotient(n, z);
    assert x == m + k * n;
    ModOfMultiple(m, k, n);
    DivModUnique(m, n, 0, m);
  }

  /** An exponent that is 1 plus a multiple of p - 1 acts as 1 modulo p. */
  lemma FermatExponent(p: nat, a: nat, x: nat, j: nat)
    requires IsPrime(p) && x == 1 + j * (p - 1)
    ensures Pow(a, x) % p == a % p
  {
    FermatPower(p, a, j);
  }

  /** e * d == 1 + j * (p - 1) == 1 + j' * (q - 1) for some j, j'. */
  lemma ExponentForms(p: nat, q: nat, ed: nat) returns (j: nat, j': nat)
    requires p >= 2 && q >= 2 && ed % ((p - 1) * (q - 1)) == 1
    ensures ed == 1 + j * (p - 1) && ed == 1 + j' * (q - 1)
  {
    var phi := (p - 1) * (q - 1);
    MulAtLeast(p - 1, q - 1);
    var k := ed / phi;
    assert ed == k * phi + 1;
    j, j' := k * (q - 1), k * (p - 1);
    assert k * phi == j * (p - 1) == j' * (q - 1);
  }

  /**
   * The RSA identity: when e * d leaves remainder 1 modulo (p - 1) * (q - 1),
   * m^(e * d) mod p * q gives back every m below p * q.
   */
  lemma RsaIdentity(p: nat, q: nat, e: nat, d: nat, m: nat)
    requires IsPrime(p) && IsPrime(q) && p != q
    requires (e * d) % ((p - 1) * (q - 1)) == 1
    requires m < p * q
    ensures Pow(m, e * d) % (p * q) == m
  {
    var ed := e * d;
    var j, j' := ExponentForms(p, q, ed);
    FermatExponent(p, m, ed, j);
    FermatExponent(q, m, ed, j');
    CrtUnique(p, q, Pow(m, ed), m);
  }
}
