/**
 * Key derivation as the key-pair script performs it: N = p * q,
 * phi = (p - 1) * (q - 1), the private exponent d, and the CRT terms
 * dmp1 = d mod (p - 1), dmq1 = d mod (q - 1), iqmp = q^-1 mod p that it hands
 * to the library's private-numbers record. The public key is the (N, e) part.
 */
module KeyGenerator {
  import opened Wrappers
  import opened Arithmetic
  import opened ModularArithmetic

  /** The public numbers (N, e). */
  datatype PublicKey = PublicKey(n: nat, e: nat)

  /** The private numbers, with the public numbers they were built with. */
  datatype PrivateKey = PrivateKey(
    p: nat, q: nat, d: nat,
    dmp1: nat, dmq1: nat, iqmp: nat,
    publicNumbers: PublicKey)

  datatype KeyError =
    | InvalidExponent    // e has no inverse modulo phi
    | NoCrtCoefficient   // q has no inverse modulo p: `pow(q, -1, p)` raises

  /** The public exponent of the scripts' key. */
  const DemoExponent: nat := 3
  /** The private exponent the scripts hard-code instead of computing it. */
  const DemoPrivateExponent: nat := 107

  /** The private key both scripts construct from p = 11, q = 17, e = 3, d = 107. */
  const DemoKey: PrivateKey := PrivateKey(11, 17, 107, 7, 11, 2, PublicKey(187, 3))

  /** phi(N) for N = p * q. */
  function Totient(p: nat, q: nat): (phi: nat)
    requires p >= 1 && q >= 1
    ensures phi == 0 <==> p == 1 || q == 1
  {
    ProductZero(p - 1, q - 1);
    (p - 1) * (q - 1)
  }

  /** The relations between a private key's numbers: N = p * q and the CRT terms. */
  predicate Consistent(k: PrivateKey)
  {
    && k.p >= 2 && k.q >= 2
    && k.publicNumbers.n == k.p * k.q
    && k.dmp1 == k.d % (k.p - 1)
    && k.dmq1 == k.d % (k.q - 1)
    && k.iqmp < k.p && IsInverse(k.q, k.iqmp, k.p)
  }

  /** A key fit for textbook RSA: distinct primes and e * d == 1 modulo phi. */
  predicate Valid(k: PrivateKey)
  {
    && Consistent(k)
    && IsPrime(k.p) && IsPrime(k.q) && k.p != k.q
    && (k.publicNumbers.e * k.d) % Totient(k.p, k.q) == 1
  }

  /**
   * The private numbers built from p, q, e and a supplied d, as the scripts
   * do; fails when `pow(q, -1, p)` has no answer.
   */
  function DeriveKey(p: nat, q: nat, e: nat, d: nat): (r: Result<PrivateKey, KeyError>)
    requires p >= 2 && q >= 2
    ensures r.Success? <==> Gcd(q, p) == 1
    ensures r.Failure? ==> r.error == NoCrtCoefficient
    ensures r.Success? ==>
              && Consistent(r.value)
              && r.value.p == p && r.value.q == q && r.value.d == d
              && r.value.publicNumbers == PublicKey(p * q, e)
              && r.value.dmp1 < p - 1 && r.value.dmq1 < q - 1
  {
    match InverseOf(q, p)
    case None => Failure(NoCrtCoefficient)
    case Some(iqmp) => Success(PrivateKey(p, q, d, d % (p - 1), d % (q - 1), iqmp, PublicKey(p * q, e)))
  }

  /**
   * Key generation with d computed as the inverse of e modulo phi; fails
   * with InvalidExponent exactly when e and phi are not coprime.
   */
  function GenerateKey(p: nat, q: nat, e: nat): (r: Result<PrivateKey, KeyError>)
    requires p >= 2 && q >= 2
    ensures r == Failure(InvalidExponent) <==> Gcd(e, Totient(p, q)) != 1
    ensures r == Failure(NoCrtCoefficient) <==> Gcd(e, Totient(p, q)) == 1 && Gcd(q, p) != 1
    ensures r.Success? <==> Gcd(e, Totient(p, q)) == 1 && Gcd(q, p) == 1
    ensures r.Success? ==>
              && Consistent(r.value)
              && r.value.p == p && r.value.q == q
              && r.value.publicNumbers == PublicKey(p * q, e)
              && r.value.d < Totient(p, q) && IsInverse(e, r.value.d, Totient(p, q))
    ensures r.Success? ==>
              forall x: nat :: x < Totient(p, q) && IsInverse(e, x, Totient(p, q)) ==> x == r.value.d
  {
    MulAtLeast(p - 1, q - 1);
    match InverseOf(e, Totient(p, q))
    case None => Failure(InvalidExponent)
    case Some(d) =>
      assert forall x: nat :: x < Totient(p, q) && IsInverse(e, x, Totient(p, q)) ==> x == d by {
        forall x: nat | x < Totient(p, q) && IsInverse(e, x, Totient(p, q)) {
          InverseUnique(e, x, d, Totient(p, q));
        }
      }
      DeriveKey(p, q, e, d)
  }

  /** The public half of a private key: `private_key.public_key()`. */
  function PublicOf(k: PrivateKey): (pub: PublicKey)
    ensures Consistent(k) ==> pub.n == k.p * k.q
  {
    k.publicNumbers
  }

  /**
   * From distinct primes and an e coprime to phi, generation succeeds and
   * yields a valid key: e * d == 1 modulo phi and every CRT term exists.
   */
  lemma GeneratedKeyValid(p: nat, q: nat, e: nat)
    requires IsPrime(p) && IsPrime(q) && p != q
    requires Gcd(e, Totient(p, q)) == 1
    ensures GenerateKey(p, q, e).Success?
    ensures Valid(GenerateKey(p, q, e).value)
  {
    DistinctPrimesCoprime(p, q);
    TotientOfDistinctPrimes(p, q);
    DivModUnique(1, Totient(p, q), 0, 1);
  }

  lemma TotientOfDistinctPrimes(p: nat, q: nat)
    requires IsPrime(p) && IsPrime(q) && p != q
    ensures Totient(p, q) >= 2
  {
    if p < q {
      MulAtLeast(q - 1, p - 1);
    } else {
      MulAtLeast(p - 1, q - 1);
    }
  }

  /**
   * The printed coprimality test `phi % e != 0` agrees with gcd(e, phi) == 1
   * when e is prime.
   */
  lemma PrimeExponentCoprimeTest(e: nat, phi: nat)
    requires IsPrime(e)
    ensures (phi % e != 0) <==> Gcd(e, phi) == 1
  {
    PrimeDividesOrCoprime(e, phi);
    GcdSymmetric(e, phi);
    if phi % e == 0 {
      GcdGreatest(e, e, phi);
      GcdPositive(e, phi);
      DivisorBound(e, Gcd(e, phi));
    }
  }

  lemma DemoPrimes()
    ensures IsPrime(11) && IsPrime(17)
  {
    forall k | 2 <= k < 11
      ensures !Divides(k, 11)
    {
      assert k in {2, 3, 4, 5, 6, 7, 8, 9, 10};
    }
    forall k | 2 <= k < 17
      ensures !Divides(k, 17)
    {
      assert k in {2, 3, 4, 5, 6, 7, 8, 9, 10, 11, 12, 13, 14, 15, 16};
    }
  }

  /**
   * For p = 11, q = 17, e = 3: N = 187, phi = 160, the computed d is the
   * hard-coded 107, dmp1 = 7, dmq1 = 11, iqmp = 2, and the key is valid.
   */
  lemma DemoKeyDerivation()
    ensures Totient(11, 17) == 160 && 11 * 17 == 187
    ensures DeriveKey(11, 17, DemoExponent, DemoPrivateExponent) == Success(DemoKey)
    ensures GenerateKey(11, 17, DemoExponent) == Success(DemoKey)
    ensures Valid(DemoKey)
    ensures PublicOf(DemoKey) == PublicKey(187, 3)
  {
    InverseOfIs(17, 2, 11);
    InverseOfIs(3, 107, 160);
    DemoPrimes();
  }
}
