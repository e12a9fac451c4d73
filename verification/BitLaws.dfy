/**
 What bits and bytes mean, apart from how they are computed: numbers are their bits, encodings are
 quotients by powers of 256, and the multiplicative hash of two words loses neither of them.
 */
module BitLaws {
  import opened Base
  import Arithmetic
  import TraceHash

  const FNV_INVERSE: nat := 899433627

  // ----- bits -----

  /** Shifting right is dividing by a power of two. */
  lemma {:induction false} ShrIsQuotient(n: nat, k: nat)
    ensures Shr(n, k) == n / Pow2(k)
  {
    if k > 0 {
      ShrIsQuotient(n, k - 1);
      QuotientOfQuotient(n, Pow2(k - 1), 2);
    }
  }

  lemma QuotientOfQuotient(n: nat, d: nat, e: nat)
    requires d > 0 && e > 0
    ensures d * e > 0 && n / d / e == n / (d * e)
  {
    Arithmetic.MulMonotone(0, d, e);
    Arithmetic.DivMod(n, d);
    Arithmetic.DivMod(n / d, e);
    var q, r := n / d / e, (n / d) % e * d + n % d;
    assert n == (q * e + (n / d) % e) * d + n % d == q * (d * e) + r;
    Arithmetic.MulMonotone((n / d) % e, e - 1, d);
    Arithmetic.QuotientUnique(n, d * e, q, r);
  }

  /** A number is determined by its bits. */
  lemma {:induction false} BitsDetermine(x: nat, y: nat)
    requires forall k: nat :: Shr(x, k) % 2 == Shr(y, k) % 2
    ensures x == y
    decreases x + y
  {
    assert Shr(x, 0) % 2 == Shr(y, 0) % 2;
    if x > 0 || y > 0 {
      forall k: nat
        ensures Shr(x / 2, k) % 2 == Shr(y / 2, k) % 2
      {
        ShrHalf(x, k);
        ShrHalf(y, k);
      }
      BitsDetermine(x / 2, y / 2);
    }
  }

  /** Every bit of x is the sum, modulo two, of the bits of a and b. */
  ghost predicate BitSum(x: nat, a: nat, b: nat) {
    forall k: nat :: Shr(x, k) % 2 == (Shr(a, k) + Shr(b, k)) % 2
  }

  lemma XorIsBitSum(a: nat, b: nat)
    ensures BitSum(Xor(a, b), a, b)
  {
    forall k: nat
      ensures Shr(Xor(a, b), k) % 2 == (Shr(a, k) + Shr(b, k)) % 2
    {
      XorBits(a, b, k);
    }
  }

  lemma BitSumUnique(x: nat, y: nat, a: nat, b: nat)
    requires BitSum(x, a, b) && BitSum(y, a, b)
    ensures x == y
  {
    forall k: nat
      ensures Shr(x, k) % 2 == Shr(y, k) % 2
    {
    }
    BitsDetermine(x, y);
  }

  lemma BitSumIffXor(x: nat, a: nat, b: nat)
    ensures BitSum(x, a, b) <==> x == Xor(a, b)
  {
    XorIsBitSum(a, b);
    if BitSum(x, a, b) {
      BitSumUnique(x, Xor(a, b), a, b);
    }
  }

  /** The exclusive or with one number fixed loses nothing of the other. */
  lemma XorInjective(a: nat, b: nat, c: nat)
    ensures Xor(a, b) == Xor(a, c) ==> b == c
    ensures Xor(b, a) == Xor(c, a) ==> b == c
  {
    if Xor(a, b) == Xor(a, c) || Xor(b, a) == Xor(c, a) {
      forall k: nat
        ensures Shr(b, k) % 2 == Shr(c, k) % 2
      {
        XorBits(a, b, k);
        XorBits(a, c, k);
        XorBits(b, a, k);
        XorBits(c, a, k);
        SameParity(Shr(a, k), Shr(b, k), Shr(c, k));
      }
      BitsDetermine(b, c);
    }
  }

  lemma SameParity(a: nat, b: nat, c: nat)
    requires (a + b) % 2 == (a + c) % 2
    ensures b % 2 == c % 2
  {
  }

  /** Combining byte strings combines every bit of every byte. */
  lemma XorBytesBits(a: Bytes, b: Bytes, i: nat)
    requires |a| == |b| && i < |a|
    ensures BitSum(XorBytes(a, b)[i], a[i], b[i])
  {
    XorIsBitSum(a[i], b[i]);
  }

  lemma XorBytesInjective(a: Bytes, b: Bytes, c: Bytes)
    requires |a| == |b| == |c| && XorBytes(a, b) == XorBytes(a, c)
    ensures b == c
  {
    forall i | 0 <= i < |b|
      ensures b[i] == c[i]
    {
      assert XorBytes(a, b)[i] == XorBytes(a, c)[i];
      XorInjective(a[i], b[i], c[i]);
    }
  }

  // ----- bytes -----

  /** Byte k of an encoding is the k-th digit to the base 256, from the right end or from the left. */
  lemma {:induction false} LittleEndianByte(n: nat, width: nat, k: nat)
    requires k < width
    ensures Pow256(k) > 0 && LittleEndian(n, width)[k] == n / Pow256(k) % 256
  {
    if k > 0 {
      LittleEndianByte(n / 256, width - 1, k - 1);
      QuotientOfQuotient(n, 256, Pow256(k - 1));
    }
  }

  lemma {:induction false} BigEndianByte(n: nat, width: nat, k: nat)
    requires k < width
    ensures Pow256(k) > 0 && BigEndian(n, width)[width - 1 - k] == n / Pow256(k) % 256
  {
    if k > 0 {
      BigEndianByte(n / 256, width - 1, k - 1);
      QuotientOfQuotient(n, 256, Pow256(k - 1));
    }
  }

  /** Reading bytes and writing the number again gives the bytes back. */
  lemma {:induction false} LittleEndianOfValue(b: Bytes)
    ensures LittleEndian(FromLittleEndian(b), |b|) == b && FromLittleEndian(b) < Pow256(|b|)
  {
    if b != [] {
      LittleEndianOfValue(b[1..]);
      var rest := FromLittleEndian(b[1..]);
      Arithmetic.QuotientUnique(b[0] + 256 * rest, 256, rest, b[0]);
    }
  }

  lemma {:induction false} BigEndianOfValue(b: Bytes)
    ensures BigEndian(FromBigEndian(b), |b|) == b && FromBigEndian(b) < Pow256(|b|)
  {
    if b != [] {
      BigEndianOfValue(b[..|b| - 1]);
      var rest := FromBigEndian(b[..|b| - 1]);
      Arithmetic.QuotientUnique(256 * rest + b[|b| - 1], 256, rest, b[|b| - 1]);
    }
  }

  lemma LittleEndianInjective(a: Bytes, b: Bytes)
    requires |a| == |b| && FromLittleEndian(a) == FromLittleEndian(b)
    ensures a == b
  {
    LittleEndianOfValue(a);
    LittleEndianOfValue(b);
  }

  // ----- the multiplicative hash of two words -----

  /** It is 16777619 times the number whose bits are the sums of the bits, modulo 2^32. */
  lemma FnvValue(a: Uint32, b: Uint32, x: nat)
    requires BitSum(x, a, b)
    ensures TraceHash.Fnv1a32(a, b) == x * 16777619 % 0x1_0000_0000
  {
    BitSumIffXor(x, a, b);
  }

  /** The prime is odd, so multiplying by it can be undone modulo 2^32. */
  lemma MultiplyBack(x: Uint32)
    ensures (x * 16777619 % TWO_32) * FNV_INVERSE % TWO_32 == x
  {
    var m := x * 16777619;
    Arithmetic.DivMod(m, TWO_32);
    var q, r := m / TWO_32, m % TWO_32;
    assert 16777619 * FNV_INVERSE == 3513497 * TWO_32 + 1;
    assert r * FNV_INVERSE == (3513497 * x - q * FNV_INVERSE) * TWO_32 + x;
    Arithmetic.QuotientUnique(r * FNV_INVERSE, TWO_32, 3513497 * x - q * FNV_INVERSE, x);
  }

  lemma XorOfWords(a: Uint32, b: Uint32)
    ensures Xor(a, b) < TWO_32
  {
    assert Pow2(8) == 0x100 && Pow2(16) == 0x1_0000 && Pow2(24) == 0x100_0000 && Pow2(32) == TWO_32;
    XorBound(a, b, 32);
  }

  /** With one word fixed, different other words hash differently. */
  lemma FnvInjective(a: Uint32, b: Uint32, c: Uint32)
    ensures TraceHash.Fnv1a32(a, b) == TraceHash.Fnv1a32(a, c) ==> b == c
    ensures TraceHash.Fnv1a32(b, a) == TraceHash.Fnv1a32(c, a) ==> b == c
  {
    XorOfWords(a, b);
    XorOfWords(a, c);
    XorOfWords(b, a);
    XorOfWords(c, a);
    MultiplyBack(Xor(a, b));
    MultiplyBack(Xor(a, c));
    MultiplyBack(Xor(b, a));
    MultiplyBack(Xor(c, a));
    XorInjective(a, b, c);
  }
}
