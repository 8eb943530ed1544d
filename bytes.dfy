/**
 * Conversions between naturals and big-endian byte strings:
 * `int.from_bytes(bs, 'big')`, `n.to_bytes(length, 'big')` and
 * `n.bit_length()`, which fixes the minimal length `(bit_length + 7) // 8`.
 */
module ByteCodec {
  import opened Wrappers
  import opened Arithmetic

  type Byte = x: nat | x < 256

  /** `n.bit_length()`: the least k with n < 2^k. */
  function BitLength(n: nat): (k: nat)
    ensures n < Pow(2, k)
    ensures k > 0 ==> Pow(2, k - 1) <= n
  {
    if n == 0 then 0
    else
      var k' := BitLength(n / 2);
      assert Pow(2, k' + 1) == 2 * Pow(2, k');
      assert k' > 0 ==> Pow(2, k') == 2 * Pow(2, k' - 1);
      k' + 1
  }

  /** The bounds of BitLength determine it. */
  lemma BitLengthUnique(n: nat, k: nat)
    requires n < Pow(2, k) && (k > 0 ==> Pow(2, k - 1) <= n)
    ensures BitLength(n) == k
  {
    var b := BitLength(n);
    if b < k {
      PowStrictlyIncreasing(2, b, k - 1);
    } else if b > k {
      PowStrictlyIncreasing(2, k, b - 1);
    }
  }

  /** `int.from_bytes(bs, 'big')`, read by Horner's rule. */
  function FromBytes(bs: seq<Byte>): (v: nat)
    ensures v < Pow(256, |bs|)
  {
    if bs == [] then 0
    else
      var init := FromBytes(bs[..|bs| - 1]);
      assert Pow(256, |bs|) == 256 * Pow(256, |bs| - 1);
      init * 256 + bs[|bs| - 1]
  }

  /** The positional value: the sum of bs[k] * 256^(|bs| - 1 - k). */
  function PositionalValue(bs: seq<Byte>): nat
  {
    if bs == [] then 0 else bs[0] * Pow(256, |bs| - 1) + PositionalValue(bs[1..])
  }

  /** Reading from the most significant byte. */
  lemma {:induction false} FromBytesHead(bs: seq<Byte>)
    requires |bs| >= 1
    ensures FromBytes(bs) == bs[0] * Pow(256, |bs| - 1) + FromBytes(bs[1..])
    decreases |bs|
  {
    var n := |bs|;
    if n == 1 {
      assert bs[..0] == [] && bs[1..] == [];
    } else {
      var init, tail := bs[..n - 1], bs[1..];
      FromBytesHead(init);
      assert init[1..] == tail[..n - 2];
      var head, last, w := bs[0], bs[n - 1], Pow(256, n - 2);
      var middle := FromBytes(tail[..n - 2]);
      assert FromBytes(init) == head * w + middle;
      assert FromBytes(tail) == middle * 256 + last;
      HornerStep(head, w, middle, last);
    }
  }

  lemma HornerStep(head: nat, w: nat, middle: nat, last: nat)
    ensures (head * w + middle) * 256 + last == head * (256 * w) + (middle * 256 + last)
  {
  }

  /** Horner's rule computes the positional value. */
  lemma {:induction false} FromBytesIsPositional(bs: seq<Byte>)
    ensures FromBytes(bs) == PositionalValue(bs)
    decreases |bs|
  {
    if bs != [] {
      FromBytesHead(bs);
      FromBytesIsPositional(bs[1..]);
    }
  }

  /** A leading zero byte leaves a value that fits in one byte fewer. */
  lemma LeadingZero(bs: seq<Byte>)
    requires |bs| >= 1
    ensures bs[0] == 0 <==> FromBytes(bs) < Pow(256, |bs| - 1)
  {
    FromBytesHead(bs);
  }

  /** LeadingZero for a string that may be empty. */
  lemma LeadingZeroWhenNonEmpty(bs: seq<Byte>)
    ensures bs != [] ==> (bs[0] == 0 <==> FromBytes(bs) < Pow(256, |bs| - 1))
  {
    if bs != [] {
      LeadingZero(bs);
    }
  }

  /** Values of equally long byte strings determine the bytes. */
  lemma {:induction false} FromBytesInjective(a: seq<Byte>, b: seq<Byte>)
    requires |a| == |b| && FromBytes(a) == FromBytes(b)
    ensures a == b
    decreases |a|
  {
    if a != [] {
      var n := |a|;
      var va, vb := FromBytes(a[..n - 1]), FromBytes(b[..n - 1]);
      DivModUnique(FromBytes(a), 256, va, a[n - 1]);
      DivModUnique(FromBytes(b), 256, vb, b[n - 1]);
      FromBytesInjective(a[..n - 1], b[..n - 1]);
      assert a == a[..n - 1] + [a[n - 1]];
      assert b == b[..n - 1] + [b[n - 1]];
    }
  }

  /** The last `length` base-256 digits of n, most significant first. */
  function Digits(n: nat, length: nat): (bs: seq<Byte>)
    ensures |bs| == length
    ensures n < Pow(256, length) ==> FromBytes(bs) == n
  {
    if length == 0 then []
    else
      var bs := Digits(n / 256, length - 1) + [n % 256];
      assert bs[..length - 1] == Digits(n / 256, length - 1);
      assert Pow(256, length) == 256 * Pow(256, length - 1);
      bs
  }

  /** `n.to_bytes(length, 'big')`; None where Python raises OverflowError. */
  function ToBytes(n: nat, length: nat): (r: Option<seq<Byte>>)
    ensures r.Some? <==> n < Pow(256, length)
    ensures r.Some? ==> |r.value| == length && FromBytes(r.value) == n
  {
    if n < Pow(256, length) then Some(Digits(n, length)) else None
  }

  /** 256^k == 2^(8 * k). */
  lemma BytePowers(k: nat)
    ensures Pow(256, k) == Pow(2, 8 * k)
  {
    PowMul(2, 8, k);
  }

  /** The number of bytes the decryption step asks for. */
  function MinimalLength(n: nat): nat
  {
    (BitLength(n) + 7) / 8
  }

  /** The bit count k needs (k + 7) / 8 bytes: at least k bits, fewer than k + 8. */
  lemma ByteCount(k: nat)
    ensures k <= 8 * ((k + 7) / 8)
    ensures k > 0 ==> (k + 7) / 8 >= 1 && 8 * ((k + 7) / 8 - 1) <= k - 1
  {
  }

  /** Conversely, a bit count in (8(n - 1), 8n] asks for exactly n bytes. */
  lemma ByteCountExact(k: nat, n: nat)
    requires n >= 1 && 8 * (n - 1) < k <= 8 * n
    ensures (k + 7) / 8 == n
  {
    DivModUnique(k + 7, 8, n, k + 7 - 8 * n);
  }

  /** n fits in MinimalLength(n) bytes and, when positive, not in one fewer. */
  lemma MinimalLengthBounds(n: nat)
    ensures n < Pow(256, MinimalLength(n))
    ensures n > 0 ==> MinimalLength(n) >= 1 && Pow(256, MinimalLength(n) - 1) <= n
  {
    var k := BitLength(n);
    var len := MinimalLength(n);
    ByteCount(k);
    BytePowers(len);
    if k < 8 * len {
      PowStrictlyIncreasing(2, k, 8 * len);
    }
    if n > 0 {
      var low := 8 * (len - 1);
      BytePowers(len - 1);
      if low < k - 1 {
        PowStrictlyIncreasing(2, low, k - 1);
      }
    }
  }

  /**
   * `n.to_bytes((n.bit_length() + 7) // 8, 'big')`: the shortest big-endian
   * encoding of n; zero becomes the empty string.
   */
  function IntToBytes(n: nat): (bs: seq<Byte>)
    ensures |bs| == MinimalLength(n)
    ensures FromBytes(bs) == n
    ensures bs == [] <==> n == 0
    ensures bs != [] ==> bs[0] != 0
  {
    MinimalLengthBounds(n);
    var bs := ToBytes(n, MinimalLength(n)).value;
    LeadingZeroWhenNonEmpty(bs);
    bs
  }

  /** A value with exactly n significant bytes has minimal length n. */
  lemma MinimalLengthExact(v: nat, n: nat)
    requires n >= 1 && Pow(256, n - 1) <= v < Pow(256, n)
    ensures MinimalLength(v) == n
  {
    var k := BitLength(v);
    var high, low := 8 * n, 8 * (n - 1);
    BytePowers(n);
    BytePowers(n - 1);
    if k > high {
      PowStrictlyIncreasing(2, high, k - 1);
    }
    if k < low {
      PowStrictlyIncreasing(2, k, low);
    }
    ByteCountExact(k, n);
  }

  /** The minimal encoding reads back every byte string without a leading zero. */
  lemma BytesRoundTrip(bs: seq<Byte>)
    requires bs == [] || bs[0] != 0
    ensures IntToBytes(FromBytes(bs)) == bs
  {
    var v := FromBytes(bs);
    if bs != [] {
      LeadingZero(bs);
      MinimalLengthExact(v, |bs|);
    }
    FromBytesInjective(IntToBytes(v), bs);
  }
}
