# Textbook RSA on an 8-bit modulus, modelled in Dafny

The repository is three teaching scripts built around the toy RSA key
p = 11, q = 17, N = 187, e = 3, d = 107:

- `generate-8bit-RSA-keyPair.py` derives the private numbers N, φ, dmp1,
  dmq1 and iqmp and projects out the public key (N, e).
- `Shor-classicalEdition-8bit.py` encrypts and decrypts the number 42, then
  the text "Hi" through its big-endian byte value. Because that value is too
  large for N, 72 is substituted. The script then plays the attacker: it
  factors N by trial division and recomputes d from the factors.
- `extract-8bit-RSA-publicKeyMaterial.py` reports the modulus's bit length.
  It calls any modulus below 1000 extremely weak and factors it with the
  same loop.

The model keeps the scripts' integer arithmetic exactly and leaves out
their printing, files and library objects. The modules are:

- `Arithmetic` (arithmetic.dfy): powers, divisibility, gcd, Bezout, primes
  and Euclid's lemma.
- `ModularArithmetic` (modular.dfy): Python's `pow(b, e, m)` as a
  square-and-multiply loop, and `pow(a, -1, m)` as the extended Euclidean
  algorithm. Each is proved against a recursive reference definition.
- `Fermat` (fermat.dfy): the binomial theorem, Fermat's little theorem, the
  Chinese-remainder combination and the general RSA identity
  m^(ed) ≡ m (mod pq).
- `KeyGenerator` (keygen.dfy): the private-key numbers and the public-key
  projection.
- `ByteCodec` (bytes.dfy): `int.from_bytes(…, 'big')`, `to_bytes` and
  `bit_length`.
- `CryptoEngine` (engine.dfy): encryption, decryption and the text
  demonstration with its fallback.
- `Attacker` (attacker.dfy): the integer square root, trial division and
  recovery of the private exponent.
- `PublicKeyAnalysis` (analysis.dfy): the weak-key verdict.

Python exceptions become `Option`/`Result` values (`Wrappers`, in
wrappers.dfy). `pow(a, -1, m)` raising `ValueError` becomes `None`.
`to_bytes` raising `OverflowError` becomes `None`.

Two points where the model follows the scripts rather than textbook RSA:

- Textbook RSA rejects a message or ciphertext that is not below N. The
  scripts call `pow` without any such check, so `Encrypt` and `Decrypt`
  accept every natural number and reduce it modulo N. Only the text
  demonstration guards the input, by substituting 72.
- Textbook RSA computes d as the inverse of e modulo φ. Both scripts
  hard-code `d = 107` instead. `DeriveKey` models the scripts, with d
  supplied. `GenerateKey` computes d as e⁻¹ mod φ and then builds the key
  the same way. `DemoKeyDerivation` proves the two agree for (11, 17, 3):
  both give the same key.

## Model

| member | source | states |
|---|---|---|
| ModularArithmetic.ModPow | fighting-information-leakage/code/Shor-classicalEdition-8bit.py:62 | square-and-multiply returns exactly b^e mod m, the reference power reduced modulo m |
| ModularArithmetic.InverseOf | fighting-information-leakage/code/Shor-classicalEdition-8bit.py:177 | `pow(a, -1, m)` exists iff gcd(a, m) = 1; when it does it lies in [0, m) and inverts a; when it does not, no number inverts a modulo m |
| ModularArithmetic.ModInverse | fighting-information-leakage/code/Shor-classicalEdition-8bit.py:177 | the extended Euclidean loop returns exactly InverseOf(a, m), including the no-inverse case behind the ValueError |
| ModularArithmetic.InverseUnique | fighting-information-leakage/code/generate-8bit-RSA-keyPair.py:44-46 | two inverses of a in [0, m) are equal |
| ModularArithmetic.InverseImpliesCoprime | fighting-information-leakage/code/Shor-classicalEdition-8bit.py:183-184 | a number that has an inverse modulo m is coprime to m |
| ModularArithmetic.InverseOfIs | fighting-information-leakage/code/generate-8bit-RSA-keyPair.py:44-46 | any inverse in [0, m) is what `pow(a, -1, m)` returns |
| Arithmetic.DistinctPrimesCoprime | fighting-information-leakage/code/generate-8bit-RSA-keyPair.py:58 | distinct primes are coprime, so q has an inverse modulo p |
| Fermat.FermatLittle | fighting-information-leakage/code/Shor-classicalEdition-8bit.py:62-71 | a^p ≡ a (mod p) for every prime p |
| Fermat.RsaIdentity | fighting-information-leakage/code/Shor-classicalEdition-8bit.py:62-71 | for distinct primes p, q and e·d ≡ 1 mod (p−1)(q−1), m^(ed) mod pq = m for every m < pq |
| KeyGenerator.Totient | fighting-information-leakage/code/generate-8bit-RSA-keyPair.py:37 | φ = (p−1)(q−1) is zero exactly when a factor is 1 |
| KeyGenerator.DeriveKey | fighting-information-leakage/code/generate-8bit-RSA-keyPair.py:22-59 | the private numbers from p, q, e and the supplied d: N = pq, dmp1 = d mod (p−1) in [0, p−1), dmq1 = d mod (q−1) in [0, q−1), iqmp in [0, p) inverting q mod p; fails exactly when gcd(q, p) ≠ 1 |
| KeyGenerator.GenerateKey | fighting-information-leakage/code/generate-8bit-RSA-keyPair.py:34-59 | with d = e⁻¹ mod φ: fails with InvalidExponent exactly when gcd(e, φ) ≠ 1; fails with NoCrtCoefficient exactly when gcd(e, φ) = 1 but q has no inverse modulo p (gcd(q, p) ≠ 1, e.g. p = q); succeeds exactly when both gcds are 1, and then d is in [0, φ), inverts e, is the only such value, and the CRT numbers are consistent |
| KeyGenerator.PublicOf | fighting-information-leakage/code/generate-8bit-RSA-keyPair.py:59 | the public key is the pair (N, e) from the private numbers, with N = pq |
| KeyGenerator.GeneratedKeyValid | fighting-information-leakage/code/generate-8bit-RSA-keyPair.py:22-60 | for distinct primes and e coprime to φ, generation succeeds and e·d mod φ = 1 |
| KeyGenerator.TotientOfDistinctPrimes | fighting-information-leakage/code/generate-8bit-RSA-keyPair.py:37 | φ ≥ 2 for distinct primes |
| KeyGenerator.PrimeExponentCoprimeTest | fighting-information-leakage/code/generate-8bit-RSA-keyPair.py:39 | for prime e, the printed test φ mod e ≠ 0 holds iff gcd(e, φ) = 1 |
| KeyGenerator.DemoPrimes | fighting-information-leakage/code/generate-8bit-RSA-keyPair.py:22-23 | 11 and 17 are prime |
| KeyGenerator.DemoKeyDerivation | fighting-information-leakage/code/generate-8bit-RSA-keyPair.py:22-64 | N = 187, φ = 160, and the hard-coded d = 107 is the computed inverse of 3; the key has dmp1 = 7, dmq1 = 11, iqmp = 2, is valid, and its public key is (187, 3) |
| ByteCodec.BitLength | fighting-information-leakage/code/extract-8bit-RSA-publicKeyMaterial.py:52 | `n.bit_length()` is k with n < 2^k and, for k > 0, 2^(k−1) ≤ n |
| ByteCodec.BitLengthUnique | fighting-information-leakage/code/extract-8bit-RSA-publicKeyMaterial.py:52 | those two bounds determine the bit length, so it is the least k with n < 2^k |
| ByteCodec.FromBytes | fighting-information-leakage/code/Shor-classicalEdition-8bit.py:89 | the big-endian value of a byte string is below 256^length |
| ByteCodec.FromBytesIsPositional | fighting-information-leakage/code/Shor-classicalEdition-8bit.py:89 | the big-endian value equals the sum of b[k]·256^(len−1−k) |
| ByteCodec.FromBytesInjective | fighting-information-leakage/code/Shor-classicalEdition-8bit.py:89 | equally long byte strings with the same value are equal |
| ByteCodec.LeadingZero | fighting-information-leakage/code/Shor-classicalEdition-8bit.py:111 | the first byte is zero iff the value fits in one byte fewer |
| ByteCodec.ToBytes | fighting-information-leakage/code/Shor-classicalEdition-8bit.py:111 | `to_bytes(length, 'big')` succeeds iff n < 256^length and then gives length bytes whose value is n |
| ByteCodec.MinimalLengthBounds | fighting-information-leakage/code/Shor-classicalEdition-8bit.py:111 | n fits in (bit_length + 7) // 8 bytes, and a positive n does not fit in one byte fewer |
| ByteCodec.IntToBytes | fighting-information-leakage/code/Shor-classicalEdition-8bit.py:111 | the minimal encoding has (bit_length + 7) // 8 bytes, reads back as n, is empty iff n = 0, and has no leading zero byte |
| ByteCodec.BytesRoundTrip | fighting-information-leakage/code/Shor-classicalEdition-8bit.py:89-111 | the minimal encoding of a byte string's value gives the string back whenever it is empty or starts with a nonzero byte |
| CryptoEngine.Encrypt | fighting-information-leakage/code/Shor-classicalEdition-8bit.py:62 | the ciphertext m^e mod N lies in [0, N) |
| CryptoEngine.Decrypt | fighting-information-leakage/code/Shor-classicalEdition-8bit.py:66 | the plaintext c^d mod N lies in [0, N) |
| CryptoEngine.RoundTrip | fighting-information-leakage/code/Shor-classicalEdition-8bit.py:62-71 | for a valid key, decryption undoes encryption on every m in [0, N) |
| CryptoEngine.EncryptInjective | fighting-information-leakage/code/Shor-classicalEdition-8bit.py:62 | for a valid key, distinct messages in [0, N) have distinct ciphertexts |
| CryptoEngine.GeneratedRoundTrip | fighting-information-leakage/code/Shor-classicalEdition-8bit.py:62-71 | the round trip holds for every key generated from distinct primes and a coprime e |
| CryptoEngine.RawDemo | fighting-information-leakage/code/Shor-classicalEdition-8bit.py:58-71 | under (187, 3), 42 encrypts to 36, and 36 decrypts to 42 |
| CryptoEngine.ExchangeText | fighting-information-leakage/code/Shor-classicalEdition-8bit.py:85-115 | 72 is substituted iff the text's value is ≥ N; otherwise the encrypted number is the text's value, below N. The ciphertext and plaintext are RSA of that number. For a valid key the number comes back, and when N > 72 the decrypted bytes match iff the fallback was taken or the text has no leading zero byte |
| CryptoEngine.ExchangeOutcome | fighting-information-leakage/code/Shor-classicalEdition-8bit.py:102-115 | a fitting number decrypts to itself and re-encodes to its bytes iff they have no leading zero |
| CryptoEngine.DemoTextValue | fighting-information-leakage/code/Shor-classicalEdition-8bit.py:81-93 | "Hi" = [0x48, 0x69] has value 18537 by both readings, which is ≥ 187 |
| CryptoEngine.FallbackDemo | fighting-information-leakage/code/Shor-classicalEdition-8bit.py:96-106 | 72 encrypts to 183 under (187, 3), and 183 decrypts back to 72 |
| CryptoEngine.FallbackBytes | fighting-information-leakage/code/Shor-classicalEdition-8bit.py:97-115 | the decrypted 72 re-encodes as the single byte 72, the encoding of the substituted text "H" |
| Attacker.ISqrt | fighting-information-leakage/code/Shor-classicalEdition-8bit.py:164 | the bound r satisfies r² ≤ n < (r + 1)² |
| Attacker.ISqrtUnique | fighting-information-leakage/code/Shor-classicalEdition-8bit.py:164 | that bracket determines r, so it is the largest r with r² ≤ n |
| Attacker.SearchFrom | fighting-information-leakage/code/Shor-classicalEdition-8bit.py:164-168 | a reported i is in range, divides n, is paired with n // i, and no smaller candidate divides n; with no report, no candidate in range divides n |
| Attacker.TrialDivision | fighting-information-leakage/code/extract-8bit-RSA-publicKeyMaterial.py:86-89 | any reported pair has p·q = N and 2 ≤ p ≤ q |
| Attacker.TrialDivisionSound | fighting-information-leakage/code/extract-8bit-RSA-publicKeyMaterial.py:86-91 | the reported p is at most ⌊√N⌋, is the least divisor of N that is ≥ 2, and is prime |
| Attacker.TrialDivisionComplete | fighting-information-leakage/code/Shor-classicalEdition-8bit.py:163-168 | nothing is reported iff N < 2 or N is prime |
| Attacker.SemiprimeFactoring | fighting-information-leakage/code/Shor-classicalEdition-8bit.py:163-168 | for primes p ≤ q, trial division of pq reports exactly (p, q) |
| Attacker.Factor | fighting-information-leakage/code/extract-8bit-RSA-publicKeyMaterial.py:86-91 | the loop with its early exit computes exactly TrialDivision(N) |
| Attacker.RecoverExponent | fighting-information-leakage/code/Shor-classicalEdition-8bit.py:170-177 | with φ = (p−1)(q−1), d′ exists iff gcd(e, φ) = 1; d′ is in [0, φ) and inverts e modulo φ |
| Attacker.RecoveredExponentInverts | fighting-information-leakage/code/Shor-classicalEdition-8bit.py:177 | for φ ≥ 2, (e·d′) mod φ = 1 |
| Attacker.RecoverKnownExponent | fighting-information-leakage/code/Shor-classicalEdition-8bit.py:172-182 | any d with e·d mod φ = 1 is recovered as d mod φ |
| Attacker.Attack | fighting-information-leakage/code/Shor-classicalEdition-8bit.py:161-186 | factoring fails exactly when N < 2 or N is prime; otherwise the reported p ≤ q are N's factors with p prime and φ = (p−1)(q−1); inversion fails exactly when gcd(e, φ) ≠ 1; otherwise the recovered d′ is in [0, φ), inverts e modulo φ, and the key is reported compromised exactly when d′ = d |
| Attacker.BreakKey | fighting-information-leakage/code/Shor-classicalEdition-8bit.py:161-186 | the attack run with the factoring loop and the Euclidean loop ends exactly as the reference Attack: factoring failed, inverse failed, or the exponent recovered and compared with d |
| Attacker.AttackOnSemiprime | fighting-information-leakage/code/Shor-classicalEdition-8bit.py:161-182 | on N = pq (primes p ≤ q) the attack finds (p, q) and φ and recovers d mod φ. It reports full compromise iff d < φ |
| Attacker.AttackOnValidKey | fighting-information-leakage/code/Shor-classicalEdition-8bit.py:161-182 | against any valid key the attack finds both primes, smaller first, and recovers d mod φ. It reports full compromise iff d < φ |
| Attacker.AttackOnGeneratedKey | fighting-information-leakage/code/Shor-classicalEdition-8bit.py:161-180 | for any two distinct primes, in either order, and any e coprime to φ, key generation succeeds and the attack on its public key finds the primes (smaller first), recomputes φ, and recovers exactly the generated d, so the key is compromised |
| Attacker.DemoAttack | fighting-information-leakage/code/Shor-classicalEdition-8bit.py:161-180 | for (187, 3) the attack finds 11 and 17, φ = 160 and d′ = d = 107, and takes the "completely compromised" branch |
| PublicKeyAnalysis.AssessPublicKey | fighting-information-leakage/code/extract-8bit-RSA-publicKeyMaterial.py:79-93 | reports bit_length(N) and calls N extremely weak iff N < 1000. Only then does it factor N. A reported pair multiplies to N with 2 ≤ p ≤ q and p prime; no report means N < 2 or N prime |
| PublicKeyAnalysis.DemoAssessment | fighting-information-leakage/code/extract-8bit-RSA-publicKeyMaterial.py:51-52 | bit_length(187) = 8, 187 is below the threshold, and its reported factors are 11 × 17 |

## Left out

- PEM serialisation, PEM parsing and `public_numbers()` are left out. They are calls into the `cryptography` library, so the model takes (N, e) as given.
- File reads and writes of the key files are left out. They are I/O.
- Library validation of the key is left out: `RSAPrivateNumbers(...).private_key()` and `public_key()`. Only the integer fields passed to it are modelled, as the `PrivateKey` datatype.
- The OAEP padding attempt is left out. Its outcome depends on the library's SHA-256 and MGF1 internals.
- UTF-8 is not modelled. `ExchangeText` takes the text as its bytes and compares decrypted bytes with the text's bytes; for valid UTF-8, equal texts are equal bytes. The `decode` failure and the `chr` fallback in the `except` branch are left out.
- The library's CRT decryption path, which uses dmp1, dmq1 and iqmp, is left out. The scripts only hand these numbers over, so the model states their defining relations and not the library's decryption with them.
- Console output, the narration strings and the guard that catches `NameError` when OAEP is unavailable are left out.
- Attacker.ISqrt: the loop bound `int(N ** 0.5)` is a floating-point square root, replaced by the exact integer square root. The two can differ only for values far beyond the moduli these scripts use.
- ModularArithmetic.ModPow: requires m ≥ 1. Python's `pow` with modulus 0 raises instead, and every call in the scripts uses N ≥ 1.
- Attacker.RecoverExponent: requires both factors to be at least 2, which trial division guarantees. Python's `pow(e, -1, 0)` error for a zero modulus never arises.
- CryptoEngine.ExchangeText: the fallback value 72 is below N only when N > 72, so the guaranteed return of the fallback is stated under that condition. It holds for N = 187.
