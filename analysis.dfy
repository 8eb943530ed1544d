/**
 * The security verdict the public-key inspection script prints: a modulus
 * below 1000 is called extremely weak and is factored on the spot; any
 * other modulus is only reported with its bit length.
 */
module PublicKeyAnalysis {
  import opened Arithmetic
  import opened KeyGenerator
  import opened ByteCodec
  import opened Attacker

  /** Moduli below this are judged extremely weak. */
  const WeakModulusBound: nat := 1000

  datatype Assessment =
    | ExtremelyWeak(bits: nat, factors: Factoring)
    | ReasonablySecure(bits: nat)

  /** The analysis step: bit length, the weak-key threshold and, below it, the factoring loop. */
  method AssessPublicKey(pub: PublicKey) returns (a: Assessment)
    ensures a.bits == BitLength(pub.n)
    ensures a.ExtremelyWeak? <==> pub.n < WeakModulusBound
    ensures a.ExtremelyWeak? ==> a.factors == TrialDivision(pub.n)
    ensures a.ExtremelyWeak? && a.factors.Factors? ==>
      a.factors.p * a.factors.q == pub.n && 2 <= a.factors.p <= a.factors.q && IsPrime(a.factors.p)
    ensures a.ExtremelyWeak? && a.factors.Unfactored? ==> pub.n < 2 || IsPrime(pub.n)
  {
    var n := pub.n;
    var bits := BitLength(n);
    if n < WeakModulusBound {
      var factors := Factor(n);
      if factors.Factors? {
        TrialDivisionSound(n);
      } else {
        TrialDivisionComplete(n);
      }
      a := ExtremelyWeak(bits, factors);
    } else {
      a := ReasonablySecure(bits);
    }
  }

  /** The key in the demonstration: 187 has 8 bits and is reported as 11 x 17. */
  lemma DemoAssessment()
    ensures BitLength(187) == 8
    ensures TrialDivision(187) == Factors(11, 17)
    ensures 187 < WeakModulusBound
  {
    assert Pow(2, 7) == 128 && Pow(2, 8) == 256;
    BitLengthUnique(187, 8);
    DemoAttack();
  }
}
