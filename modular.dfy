/**
 * The two primitives the scripts take from Python's built-in three-argument
 * `pow`: modular exponentiation `pow(b, e, m)` and the modular inverse
 * `pow(a, -1, m)`, which raises ValueError when no inverse exists.
 */
module ModularArithmetic {
  import opened Wrappers
  import opened Arithmetic

  /** x is an inverse of a modulo m: a * x and 1 leave the same remainder. */
  predicate IsInverse(a: nat, x: nat, m: nat)
  {
    m > 0 && (a * x) % m == 1 % m
  }

  /**
   * The reference meaning of `pow(a, -1, m)`: the inverse of a in [0, m),
   * or None, the ValueError case, when there is none.
   */
  function InverseOf(a: nat, m: nat): (r: Option<nat>)
    requires m >= 1
    ensures r.Some? <==> Gcd(a, m) == 1
    ensures r.Some? ==> r.value < m && IsInverse(a, r.value, m)
    ensures r.None? ==> forall x :: !IsInverse(a, x, m)
  {
    InverseSearchComplete(a, m);
    InverseSearch(a, m, 0)
  }

  /** The first inverse of a modulo m at or after x. */
  function InverseSearch(a: nat, m: nat, x: nat): (r: Option<nat>)
    requires m >= 1
    ensures r.Some? ==> x <= r.value < m && IsInverse(a, r.value, m)
    ensures r.None? ==> forall y :: x <= y < m ==> !IsInverse(a, y, m)
    decreases m - x
  {
    if x >= m then None
    else if IsInverse(a, x, m) then Some(x)
    else InverseSearch(a, m, x + 1)
  }

  /** A search that finds nothing in [0, m) rules out every inverse. */
  lemma NoInverseFound(a: nat, m: nat)
    requires m >= 1 && InverseSearch(a, m, 0).None?
    ensures forall x :: !IsInverse(a, x, m)
  {
    forall x | IsInverse(a, x, m)
      ensures false
    {
      ReduceInverse(a, x, m);
    }
  }

  lemma InverseSearchComplete(a: nat, m: nat)
    requires m >= 1
    ensures InverseSearch(a, m, 0).Some? <==> Gcd(a, m) == 1
    ensures InverseSearch(a, m, 0).None? ==> forall x :: !IsInverse(a, x, m)
  {
    if InverseSearch(a, m, 0).Some? {
      InverseImpliesCoprime(a, InverseSearch(a, m, 0).value, m);
    } else {
      NoInverseFound(a, m);
      if Gcd(a, m) == 1 {
        var s, t := Bezout(a, m);
        NegateProduct(t, m);
        InverseFromCombination(a, m, s, -t);
      }
    }
  }

  lemma NegateProduct(t: int, m: int)
    ensures (-t) * m == -(t * m)
  {
  }

  /** s * a == 1 + k * m makes s mod m an inverse of a. */
  lemma InverseFromCombination(a: nat, m: nat, s: int, k: int)
    requires m >= 1 && s * a - 1 == k * m
    ensures IsInverse(a, s % m, m)
  {
    var x := s % m;
    assert s == (s / m) * m + x;
    assert a * x == 1 + (k - a * (s / m)) * m;
    ModOfMultiple(1, k - a * (s / m), m);
  }

  /** For m >= 2 an inverse is a plain `(a * x) % m == 1`. */
  lemma InverseAboveOne(a: nat, x: nat, m: nat)
    requires m >= 2
    ensures IsInverse(a, x, m) <==> (a * x) % m == 1
  {
  }

  /** An inverse reduced modulo m is still an inverse, now in [0, m). */
  lemma ReduceInverse(a: nat, x: nat, m: nat)
    requires IsInverse(a, x, m)
    ensures x % m < m && IsInverse(a, x % m, m)
  {
    var r := x % m;
    assert r % m == x % m by {
      DivModUnique(r, m, 0, r);
    }
    ModMulCongruent(a, x, r, m);
  }

  /** Only a number coprime to m has an inverse modulo m. */
  lemma InverseImpliesCoprime(a: nat, x: nat, m: nat)
    requires IsInverse(a, x, m)
    ensures Gcd(a, m) == 1
  {
    if m > 1 {
      var g := Gcd(a, m);
      GcdDivides(a, m);
      var ax := a * x;
      DividesMultiple(g, a, x);
      assert x * a == ax;
      DividesRemainder(g, ax, m);
      DivModUnique(1, m, 0, 1);
      DivisorBound(g, 1);
    }
  }

  /** Inverses in [0, m) are unique. */
  lemma InverseUnique(a: nat, x: nat, y: nat, m: nat)
    requires IsInverse(a, x, m) && IsInverse(a, y, m) && x < m && y < m
    ensures x == y
  {
    var ax, ay := a * x, a * y;
    ModMulCongruent(x, ay, 1, m);
    ModMulCongruent(y, ax, 1, m);
    assert x * ay == y * ax;
    DivModUnique(x, m, 0, x);
    DivModUnique(y, m, 0, y);
  }

  /** Any inverse in [0, m) is the one `pow(a, -1, m)` returns. */
  lemma InverseOfIs(a: nat, x: nat, m: nat)
    requires x < m && IsInverse(a, x, m)
    ensures InverseOf(a, m) == Some(x)
  {
    InverseUnique(a, x, InverseOf(a, m).value, m);
  }

  // ---------------------------------------------------------------------
  // The algorithms

  /** `pow(b, e, m)` by right-to-left square-and-multiply. */
  method ModPow(b: nat, e: nat, m: nat) returns (r: nat)
    requires m >= 1
    ensures r == Pow(b, e) % m
  {
    var base: nat, exp: nat := b % m, e;
    r := 1 % m;
    PowMod(b, e, m);
    ModMulLeft(1, Pow(base, exp), m);
    while exp > 0
      invariant r < m && base < m
      invariant (r * Pow(base, exp)) % m == Pow(b, e) % m
      decreases exp
    {
      var r': nat := if exp % 2 == 1 then (r * base) % m else r;
      var base': nat := (base * base) % m;
      SquareAndMultiplyStep(r, base, exp, m, r', base');
      r, base, exp := r', base', exp / 2;
    }
    assert Pow(base, exp) == 1;
    DivModUnique(r * Pow(base, exp), m, 0, r);
  }

  /** One round of square-and-multiply keeps r * base^exp fixed modulo m. */
  lemma SquareAndMultiplyStep(r: nat, base: nat, exp: nat, m: nat, r': nat, base': nat)
    requires m >= 1 && exp > 0
    requires r' == if exp % 2 == 1 then (r * base) % m else r
    requires base' == (base * base) % m
    ensures r' < m || r' == r
    ensures base' < m
    ensures (r' * Pow(base', exp / 2)) % m == (r * Pow(base, exp)) % m
  {
    var k := exp / 2;
    var sq := Pow(base * base, k);
    var sqm := Pow((base * base) % m, k);
    PowSplit(base, exp);
    PowMod(base * base, k, m);
    if exp % 2 == 1 {
      var r' := (r * base) % m;
      ModMulCongruent(r', sqm, sq, m);
      ModMulLeft(r * base, sq, m);
      ProductRegroup(r, base, sq);
    } else {
      ModMulCongruent(r, sqm, sq, m);
    }
  }

  /** base^exp == (base * base)^(exp / 2) * base^(exp % 2). */
  lemma PowSplit(base: nat, exp: nat)
    ensures Pow(base, exp) == Pow(base * base, exp / 2) * (if exp % 2 == 1 then base else 1)
  {
    var k := exp / 2;
    assert exp == 2 * k + exp % 2;
    PowAdd(base, 2 * k, exp % 2);
    PowMul(base, 2, k);
    assert Pow(base, 2) == base * base;
    assert Pow(base, exp % 2) == if exp % 2 == 1 then base else 1;
  }

  lemma ProductRegroup(r: nat, base: nat, sq: nat)
    ensures (r * base) * sq == r * (sq * base)
  {
  }

  /**
   * `pow(a, -1, m)` by the extended Euclidean algorithm: the Bezout
   * coefficient of a, reduced modulo m, when the remainders end at 1.
   */
  method ModInverse(a: nat, m: nat) returns (r: Option<nat>)
    requires m >= 1
    ensures r == InverseOf(a, m)
  {
    var r0: nat, r1: nat := m, a % m;
    var t0: int, t1: int := 0, 1;
    ghost var k0: int, k1: int := -1, a / m;
    while r1 != 0
      invariant Gcd(r0, r1) == Gcd(a, m)
      invariant t0 * a - r0 == k0 * m
      invariant t1 * a - r1 == k1 * m
      decreases r1
    {
      var quotient := r0 / r1;
      EuclidStep(a, m, r0, r1, t0, t1, k0, k1, quotient);
      r0, r1 := r1, r0 % r1;
      t0, t1 := t1, t0 - quotient * t1;
      k0, k1 := k1, k0 - quotient * k1;
    }
    if r0 == 1 {
      InverseFromCombination(a, m, t0, k0);
      InverseOfIs(a, t0 % m, m);
      r := Some(t0 % m);
    } else {
      r := None;
    }
  }

  /** The remainder and coefficient updates of one Euclidean step. */
  lemma EuclidStep(a: nat, m: nat, r0: nat, r1: nat, t0: int, t1: int, k0: int, k1: int, quotient: int)
    requires r1 > 0 && quotient == r0 / r1
    requires t0 * a - r0 == k0 * m && t1 * a - r1 == k1 * m
    ensures r0 % r1 == r0 - quotient * r1
    ensures (t0 - quotient * t1) * a - r0 % r1 == (k0 - quotient * k1) * m
  {
    assert r0 % r1 == r0 - quotient * r1;
    calc {
      (t0 - quotient * t1) * a - (r0 - quotient * r1);
      (t0 * a - r0) - quotient * (t1 * a - r1);
      k0 * m - quotient * (k1 * m);
      (k0 - quotient * k1) * m;
    }
  }
}
