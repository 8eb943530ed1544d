/**
 * The attacker's side: trial division of N up to its integer square root,
 * then the private exponent recomputed from the factors.
 */
module Attacker {
  import opened Wrappers
  import opened Arithmetic
  import opened ModularArithmetic
  import opened KeyGenerator

  /** The integer square root, standing for the float bound `int(n ** 0.5)`. */
  function ISqrt(n: nat): (r: nat)
    ensures r * r <= n < (r + 1) * (r + 1)
  {
    if n < 4 then (if n == 0 then 0 else 1)
    else
      var h := ISqrt(n / 4);
      ISqrtStep(n, h);
      if (2 * h + 1) * (2 * h + 1) <= n then 2 * h + 1 else 2 * h
  }

  /** From the root h of n / 4, 2h and 2h + 2 bracket the root of n. */
  lemma ISqrtStep(n: nat, h: nat)
    requires h * h <= n / 4 < (h + 1) * (h + 1)
    ensures (2 * h) * (2 * h) <= n < (2 * h + 2) * (2 * h + 2)
  {
    var quarter := n / 4;
    assert (2 * h) * (2 * h) == 4 * (h * h);
    assert (2 * h + 2) * (2 * h + 2) == 4 * ((h + 1) * (h + 1));
    assert n < 4 * quarter + 4;
  }

  /** The bounds of ISqrt determine it. */
  lemma ISqrtUnique(n: nat, r: nat)
    requires r * r <= n < (r + 1) * (r + 1)
    ensures ISqrt(n) == r
  {
    var s := ISqrt(n);
    if s < r {
      SquareMonotone(s + 1, r);
    } else if s > r {
      SquareMonotone(r + 1, s);
    }
  }

  lemma SquareMonotone(a: nat, b: nat)
    requires a <= b
    ensures a * a <= b * b
  {
    assert a * a <= a * b <= b * b;
  }

  /** A divisor no larger than the root of n. */
  lemma BelowRoot(n: nat, k: nat)
    requires k * k <= n
    ensures k <= ISqrt(n)
  {
    var r := ISqrt(n);
    if k > r {
      SquareMonotone(r + 1, k);
    }
  }

  /** The outcome of the search: the first divisor with its cofactor, or nothing. */
  datatype Factoring = Factors(p: nat, q: nat) | Unfactored

  /** The loop `for i in range(from, limit + 1)`, stopping at the first i dividing n. */
  function SearchFrom(n: nat, from: nat, limit: nat): (r: Factoring)
    requires from >= 2
    ensures r.Factors? ==>
      from <= r.p <= limit && Divides(r.p, n) && r.q == n / r.p &&
      forall k :: from <= k < r.p ==> !Divides(k, n)
    ensures r.Unfactored? ==> forall k :: from <= k <= limit ==> !Divides(k, n)
    decreases limit + 1 - from
  {
    if from > limit then Unfactored
    else if n % from == 0 then Factors(from, n / from)
    else SearchFrom(n, from + 1, limit)
  }

  /** Trial division of n by 2 .. ISqrt(n), as both scripts do it. */
  function TrialDivision(n: nat): (r: Factoring)
    ensures r.Factors? ==> 2 <= r.p <= r.q && r.p * r.q == n
  {
    FoundPairBounds(n);
    SearchFrom(n, 2, ISqrt(n))
  }

  /** The search bound keeps the found divisor below its cofactor. */
  lemma FoundPairBounds(n: nat)
    ensures var r := SearchFrom(n, 2, ISqrt(n));
      r.Factors? ==> 2 <= r.p <= r.q && r.p * r.q == n
  {
    var r := SearchFrom(n, 2, ISqrt(n));
    if r.Factors? {
      SquareMonotone(r.p, ISqrt(n));
      CofactorBound(n, r.p);
    }
  }

  /** The cofactor of a divisor p with p * p <= n is no smaller than p. */
  lemma CofactorBound(n: nat, p: nat)
    requires Divides(p, n) && p * p <= n
    ensures p * (n / p) == n && p <= n / p
  {
    var q := n / p;
    if q < p {
      MulStrict(p, q, p);
    }
  }

  lemma MulStrict(k: nat, a: nat, b: nat)
    requires k > 0 && a < b
    ensures k * a < k * b
  {
  }

  /** A divisor of a divisor of n divides n. */
  lemma DividesTransitive(k: nat, p: nat, n: nat)
    requires Divides(k, p) && Divides(p, n)
    ensures Divides(k, n)
  {
    var j, l := p / k, n / p;
    assert n == k * (j * l);
    DividesMultiple(k, k, j * l);
  }

  /** What a reported pair satisfies: p is the least divisor of n from 2 on, hence prime. */
  lemma TrialDivisionSound(n: nat)
    requires TrialDivision(n).Factors?
    ensures var r := TrialDivision(n);
      r.p * r.q == n && 2 <= r.p <= r.q && r.p <= ISqrt(n) && IsPrime(r.p) &&
      forall k :: 2 <= k < r.p ==> !Divides(k, n)
  {
    var r := TrialDivision(n);
    forall k | 2 <= k < r.p
      ensures !Divides(k, r.p)
    {
      if Divides(k, r.p) {
        DividesTransitive(k, r.p, n);
      }
    }
  }

  /** The cofactor n / k of a divisor k divides n too. */
  lemma Cofactor(n: nat, k: nat)
    requires n > 0 && Divides(k, n)
    ensures n / k >= 1 && k * (n / k) == n && Divides(n / k, n)
  {
    var j := n / k;
    assert n == k * j;
    DivModUnique(n, j, k, 0);
  }

  /** A composite n >= 2 has a divisor from 2 through its root. */
  lemma CompositeHasSmallDivisor(n: nat, k: nat)
    requires 2 <= k < n && Divides(k, n)
    ensures exists s: nat :: 2 <= s <= ISqrt(n) && Divides(s, n)
  {
    Cofactor(n, k);
    var j := n / k;
    assert j != 1;
    if k <= j {
      SquareMonotone(k, j);
      BelowRoot(n, k);
    } else {
      SquareMonotone(j, k);
      BelowRoot(n, j);
    }
  }

  /** Nothing is reported exactly when n is below 2 or prime. */
  lemma TrialDivisionComplete(n: nat)
    ensures TrialDivision(n).Unfactored? <==> n < 2 || IsPrime(n)
  {
    var r := TrialDivision(n);
    if r.Factors? {
      MulStrict(r.p, 1, r.q);
      assert Divides(r.p, n) && r.p < n;
    } else if n >= 2 && !IsPrime(n) {
      var k :| 2 <= k < n && Divides(k, n);
      CompositeHasSmallDivisor(n, k);
    }
  }

  /** The least divisor from 2 on of a product of two primes p <= q is p. */
  lemma SemiprimeFactoring(p: nat, q: nat)
    requires IsPrime(p) && IsPrime(q) && p <= q
    ensures TrialDivision(p * q) == Factors(p, q)
  {
    var n := p * q;
    MulStrict(p, 1, q);
    DividesMultiple(p, p, q);
    assert Divides(p, n);
    assert !IsPrime(n);
    TrialDivisionComplete(n);
    TrialDivisionSound(n);
    var r := TrialDivision(n);
    EuclidLemma(r.p, p, q);
    if Divides(r.p, p) {
      PrimeDivisorOfPrime(r.p, p);
    } else {
      PrimeDivisorOfPrime(r.p, q);
    }
    assert r.p == p;
    DivModUnique(n, p, q, 0);
  }

  /** The only divisor from 2 on of a prime is itself. */
  lemma PrimeDivisorOfPrime(k: nat, p: nat)
    requires IsPrime(p) && k >= 2 && Divides(k, p)
    ensures k == p
  {
    DivisorBound(k, p);
  }

  /** The script's loop over i, leaving the loop at the first divisor. */
  method Factor(n: nat) returns (r: Factoring)
    ensures r == TrialDivision(n)
  {
    r := Unfactored;
    var limit := ISqrt(n);
    var i := 2;
    while i <= limit
      invariant i >= 2
      invariant SearchFrom(n, i, limit) == TrialDivision(n)
      decreases limit as int - i
    {
      if n % i == 0 {
        r := Factors(i, n / i);
        break;
      }
      i := i + 1;
    }
  }

  /** φ from the found factors and d' = e^-1 mod φ, `pow(e, -1, phi_n)`; None where Python raises ValueError. */
  function RecoverExponent(p: nat, q: nat, e: nat): (r: Option<nat>)
    requires p >= 2 && q >= 2
    ensures r.Some? <==> Gcd(e, Totient(p, q)) == 1
    ensures r.Some? ==> r.value < Totient(p, q) && IsInverse(e, r.value, Totient(p, q))
  {
    InverseOf(e, Totient(p, q))
  }

  /** How the attack ends. `compromised`: the recovered exponent is the owner's d. */
  datatype AttackOutcome =
    | FactoringFailed
    | InverseFailed(p: nat, q: nat, phi: nat)
    | KeyRecovered(p: nat, q: nat, phi: nat, recovered: nat, compromised: bool)

  /**
   * The attack on (N, e), judged against the owner's exponent d: it fails to
   * factor exactly when N is below 2 or prime, fails to invert exactly when
   * e is not coprime to the recomputed φ, and otherwise recovers the inverse.
   */
  function Attack(pub: PublicKey, d: nat): (o: AttackOutcome)
    ensures o.FactoringFailed? <==> pub.n < 2 || IsPrime(pub.n)
    ensures !o.FactoringFailed? ==>
      2 <= o.p <= o.q && o.p * o.q == pub.n && IsPrime(o.p) && o.phi == Totient(o.p, o.q)
    ensures o.InverseFailed? <==> !o.FactoringFailed? && Gcd(pub.e, o.phi) != 1
    ensures o.KeyRecovered? ==>
      o.recovered < o.phi && IsInverse(pub.e, o.recovered, o.phi) && (o.compromised <==> o.recovered == d)
  {
    TrialDivisionComplete(pub.n);
    match TrialDivision(pub.n)
    case Unfactored => FactoringFailed
    case Factors(p, q) =>
      TrialDivisionSound(pub.n);
      match RecoverExponent(p, q, pub.e)
      case None => InverseFailed(p, q, Totient(p, q))
      case Some(d') => KeyRecovered(p, q, Totient(p, q), d', d' == d)
  }

  /** The attack as the script runs it, with the factoring loop and the extended Euclidean algorithm. */
  method BreakKey(pub: PublicKey, d: nat) returns (o: AttackOutcome)
    ensures o == Attack(pub, d)
  {
    var factors := Factor(pub.n);
    if factors.Unfactored? {
      return FactoringFailed;
    }
    var p, q := factors.p, factors.q;
    var phi := Totient(p, q);
    var inverse := ModInverse(pub.e, phi);
    assert inverse == RecoverExponent(p, q, pub.e);
    match inverse
    case None => o := InverseFailed(p, q, phi);
    case Some(d') => o := KeyRecovered(p, q, phi, d', d' == d);
  }

  /** The recovered exponent inverts e modulo φ in the plain sense whenever φ >= 2. */
  lemma RecoveredExponentInverts(p: nat, q: nat, e: nat)
    requires p >= 2 && q >= 2 && Totient(p, q) >= 2
    requires RecoverExponent(p, q, e).Some?
    ensures (e * RecoverExponent(p, q, e).value) % Totient(p, q) == 1
  {
    InverseAboveOne(e, RecoverExponent(p, q, e).value, Totient(p, q));
  }

  /** Any d with e * d == 1 modulo φ is recovered reduced modulo φ. */
  lemma RecoverKnownExponent(p: nat, q: nat, e: nat, d: nat)
    requires p >= 2 && q >= 2 && Totient(p, q) >= 2
    requires (e * d) % Totient(p, q) == 1
    ensures RecoverExponent(p, q, e) == Some(d % Totient(p, q))
  {
    var phi := Totient(p, q);
    InverseAboveOne(e, d, phi);
    ReduceInverse(e, d, phi);
    InverseOfIs(e, d % phi, phi);
  }

  lemma TotientSymmetric(p: nat, q: nat)
    requires p >= 1 && q >= 1
    ensures Totient(p, q) == Totient(q, p)
  {
  }

  lemma ReducedUnchanged(d: nat, m: nat)
    requires m >= 1
    ensures d % m == d <==> d < m
  {
  }

  /** The attack on N = p * q for primes p <= q and an e that d inverts modulo φ. */
  lemma AttackOnSemiprime(pub: PublicKey, d: nat, p: nat, q: nat)
    requires IsPrime(p) && IsPrime(q) && p <= q && pub.n == p * q
    requires Totient(p, q) >= 2 && (pub.e * d) % Totient(p, q) == 1
    ensures var phi := Totient(p, q);
      Attack(pub, d) == KeyRecovered(p, q, phi, d % phi, d < phi)
  {
    SemiprimeFactoring(p, q);
    RecoverKnownExponent(p, q, pub.e, d);
    ReducedUnchanged(d, Totient(p, q));
  }

  /**
   * Against any valid key the attack factors N into its two primes, smaller
   * first, and recovers d mod φ; it matches the owner's d exactly when d < φ.
   */
  lemma AttackOnValidKey(key: PrivateKey)
    requires Valid(key)
    ensures var lo, hi := if key.p < key.q then key.p else key.q, if key.p < key.q then key.q else key.p;
      var phi := Totient(key.p, key.q);
      Attack(PublicOf(key), key.d) == KeyRecovered(lo, hi, phi, key.d % phi, key.d < phi)
  {
    var p, q, pub, d := key.p, key.q, PublicOf(key), key.d;
    TotientOfDistinctPrimes(p, q);
    TotientSymmetric(p, q);
    var phi := Totient(p, q);
    assert (pub.e * d) % phi == 1;
    if p < q {
      AttackOnSemiprime(pub, d, p, q);
    } else {
      assert pub.n == q * p;
      AttackOnSemiprime(pub, d, q, p);
    }
  }

  /** A key made from two distinct primes and a usable e is completely compromised. */
  lemma AttackOnGeneratedKey(p: nat, q: nat, e: nat)
    requires IsPrime(p) && IsPrime(q) && p != q
    requires Gcd(e, Totient(p, q)) == 1
    ensures GenerateKey(p, q, e).Success?
    ensures var key := GenerateKey(p, q, e).value;
      var lo, hi := if p < q then p else q, if p < q then q else p;
      Attack(PublicOf(key), key.d) == KeyRecovered(lo, hi, Totient(p, q), key.d, true)
  {
    GeneratedKeyValid(p, q, e);
    AttackOnValidKey(GenerateKey(p, q, e).value);
  }

  /** For N = 187 and e = 3 the search finds 11 and 17, φ = 160 and d' = d = 107. */
  lemma DemoAttack()
    ensures TrialDivision(187) == Factors(11, 17)
    ensures Attack(PublicKey(187, 3), 107) == KeyRecovered(11, 17, 160, 107, true)
  {
    DemoPrimes();
    SemiprimeFactoring(11, 17);
    DemoKeyDerivation();
    AttackOnValidKey(DemoKey);
  }
}
