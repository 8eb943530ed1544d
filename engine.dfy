/**
 * Textbook RSA on integers and on short byte strings: the raw
 * demonstration with 42 and the text demonstration with its
 * "message too large" fallback to 72.
 */
module CryptoEngine {
  import opened Arithmetic
  import opened ModularArithmetic
  import opened Fermat
  import opened KeyGenerator
  import opened ByteCodec

  /** c = m^e mod N, `pow(m, e, N)`; no check that m < N is made. */
  function Encrypt(pub: PublicKey, m: nat): (c: nat)
    requires pub.n >= 1
    ensures c < pub.n
  {
    Pow(m, pub.e) % pub.n
  }

  /** m = c^d mod N, `pow(c, d, N)`. */
  function Decrypt(key: PrivateKey, c: nat): (m: nat)
    requires key.publicNumbers.n >= 1
    ensures m < key.publicNumbers.n
  {
    Pow(c, key.d) % key.publicNumbers.n
  }

  /** Decryption undoes encryption on every message in [0, N). */
  lemma RoundTrip(key: PrivateKey, m: nat)
    requires Valid(key) && m < key.publicNumbers.n
    ensures Decrypt(key, Encrypt(PublicOf(key), m)) == m
  {
    var n, e, d := key.publicNumbers.n, key.publicNumbers.e, key.d;
    PowMod(Pow(m, e), d, n);
    PowMul(m, e, d);
    RsaIdentity(key.p, key.q, e, d, m);
  }

  /** Encryption is injective on [0, N): distinct messages never collide. */
  lemma EncryptInjective(key: PrivateKey, m1: nat, m2: nat)
    requires Valid(key) && m1 < key.publicNumbers.n && m2 < key.publicNumbers.n
    requires Encrypt(PublicOf(key), m1) == Encrypt(PublicOf(key), m2)
    ensures m1 == m2
  {
    RoundTrip(key, m1);
    RoundTrip(key, m2);
  }

  /** The same round trip for a key whose d is computed from p, q and e. */
  lemma GeneratedRoundTrip(p: nat, q: nat, e: nat, m: nat)
    requires IsPrime(p) && IsPrime(q) && p != q
    requires Gcd(e, Totient(p, q)) == 1 && m < p * q
    ensures GenerateKey(p, q, e).Success?
    ensures var key := GenerateKey(p, q, e).value;
      Decrypt(key, Encrypt(PublicOf(key), m)) == m
  {
    GeneratedKeyValid(p, q, e);
    RoundTrip(GenerateKey(p, q, e).value, m);
  }

  /** The raw demonstration: 42 encrypts to 36 under (187, 3) and 36 decrypts to 42. */
  lemma RawDemo()
    ensures Encrypt(PublicKey(187, 3), 42) == 36
    ensures Decrypt(DemoKey, 36) == 42
  {
    assert Pow(42, 3) == 74088;
    var c := Encrypt(PublicKey(187, 3), 42);
    assert c == 36;
    DemoKeyDerivation();
    RoundTrip(DemoKey, 42);
  }

  /** The stand-in encrypted when the text does not fit: 72, ASCII 'H'. */
  const FallbackMessage: Byte := 72

  /** What one run of the text demonstration computes. */
  datatype TextExchange = TextExchange(
    fallback: bool,          // whether the text was replaced by FallbackMessage
    message: nat,            // the number that was encrypted
    expected: seq<Byte>,     // the bytes of the text it stands for
    ciphertext: nat,
    decrypted: nat,
    decryptedBytes: seq<Byte>,
    matches: bool)           // decrypted bytes equal the expected bytes

  /**
   * The text demonstration: encode the text big-endian, substitute 72 when
   * the value is not below N, encrypt, decrypt, re-encode minimally and
   * compare with the text.
   */
  method ExchangeText(key: PrivateKey, text: seq<Byte>) returns (x: TextExchange)
    requires key.publicNumbers.n >= 1
    ensures x.fallback <==> FromBytes(text) >= key.publicNumbers.n
    ensures x.fallback ==> x.message == FallbackMessage && x.expected == [FallbackMessage]
    ensures !x.fallback ==> x.message == FromBytes(text) < key.publicNumbers.n && x.expected == text
    ensures x.ciphertext == Encrypt(PublicOf(key), x.message)
    ensures x.decrypted == Decrypt(key, x.ciphertext)
    ensures x.decryptedBytes == IntToBytes(x.decrypted)
    ensures x.matches <==> x.decryptedBytes == x.expected
    ensures Valid(key) && x.message < key.publicNumbers.n ==> x.decrypted == x.message
    ensures Valid(key) && key.publicNumbers.n > FallbackMessage ==>
      (x.matches <==> x.fallback || text == [] || text[0] != 0)
  {
    var n := key.publicNumbers.n;
    var expected := text;
    var message := FromBytes(text);
    var fallback := false;
    if message >= n {
      fallback := true;
      message := FallbackMessage;
      expected := [FallbackMessage];
    }
    var ciphertext := ModPow(message, key.publicNumbers.e, n);
    var decrypted := ModPow(ciphertext, key.d, n);
    var decryptedBytes := IntToBytes(decrypted);
    if Valid(key) && message < n {
      if fallback {
        assert FromBytes(expected) == message by {
          assert expected[..0] == [];
        }
      }
      ExchangeOutcome(key, message, expected);
    }
    x := TextExchange(fallback, message, expected, ciphertext, decrypted,
                      decryptedBytes, decryptedBytes == expected);
  }

  /** One exchange of a fitting message: it comes back, and re-encodes to its bytes iff they have no leading zero. */
  lemma ExchangeOutcome(key: PrivateKey, message: nat, expected: seq<Byte>)
    requires Valid(key) && message < key.publicNumbers.n && FromBytes(expected) == message
    ensures Decrypt(key, Encrypt(PublicOf(key), message)) == message
    ensures IntToBytes(message) == expected <==> expected == [] || expected[0] != 0
  {
    RoundTrip(key, message);
    if expected == [] || expected[0] != 0 {
      BytesRoundTrip(expected);
    }
  }

  /** "Hi" is the bytes 0x48 0x69, worth 18537, too large for N = 187. */
  lemma DemoTextValue()
    ensures FromBytes([0x48, 0x69]) == 18537
    ensures PositionalValue([0x48, 0x69]) == 18537
    ensures FromBytes([0x48, 0x69]) >= DemoKey.publicNumbers.n
  {
    FromBytesIsPositional([0x48, 0x69]);
  }

  /** The fallback 72 encrypts to 183 and decrypts back to 72. */
  lemma FallbackDemo()
    ensures Encrypt(PublicKey(187, 3), FallbackMessage) == 183
    ensures Decrypt(DemoKey, 183) == FallbackMessage
  {
    assert Pow(72, 3) == 373248;
    var c := Encrypt(PublicKey(187, 3), FallbackMessage);
    assert c == 183;
    DemoKeyDerivation();
    RoundTrip(DemoKey, FallbackMessage);
  }

  /** The decrypted 72 re-encodes as the single byte 72, the bytes of "H". */
  lemma FallbackBytes()
    ensures IntToBytes(FallbackMessage) == [FallbackMessage]
  {
    var bs: seq<Byte> := [FallbackMessage];
    assert FromBytes(bs) == FallbackMessage by {
      assert bs[..0] == [];
    }
    BytesRoundTrip(bs);
  }
}
