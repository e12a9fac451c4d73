/** Byte strings, fixed-width integers and the encodings the rest of the model shares. */
module Base {

  type Byte = n: int | 0 <= n < 256
  type Bytes = seq<Byte>

  type Hash32 = s: Bytes | |s| == 32 witness seq(32, _ => 0)
  type Hash64 = s: Bytes | |s| == 64 witness seq(64, _ => 0)

  /** One DAG cell. */
  type Cell = s: Bytes | |s| == 256 witness seq(256, _ => 0)

  const TWO_32: int := 0x1_0000_0000
  const TWO_63: int := 0x8000_0000_0000_0000
  const TWO_64: int := 0x1_0000_0000_0000_0000

  type Uint32 = n: int | 0 <= n < TWO_32
  type Uint64 = n: int | 0 <= n < TWO_64

  datatype Option<+T> = None | Some(value: T)
  datatype Result<+T> = Ok(value: T) | Err(message: string)

  function ZeroBytes(n: nat): (b: Bytes)
    ensures |b| == n
  {
    seq(n, _ => 0)
  }

  const ZERO_HASH: Hash32 := ZeroBytes(32)

  /** The hash functions, left uninterpreted: every theorem quantifies over them. */
  datatype HashSuite = HashSuite(
    blake3: Bytes -> Hash32,
    sha3x512: Bytes -> Hash64,
    sha3x256: Bytes -> Hash32,
    keccak512: Bytes -> Hash64,
    sha256: Bytes -> Hash32,
    keyedXof: (Bytes, Bytes) -> Cell)

  /** Two inputs that a hash function does not tell apart. */
  predicate Collision<T(==)>(h: Bytes -> T, x: Bytes, y: Bytes) {
    x != y && h(x) == h(y)
  }

  lemma TakeOneMore<T>(s: seq<T>, k: nat)
    requires k < |s|
    ensures s[..k + 1] == s[..k] + [s[k]]
  {
  }

  /** Bitwise exclusive or of two naturals. */
  function Xor(a: nat, b: nat): nat
    decreases a + b
  {
    if a == 0 then b
    else if b == 0 then a
    else 2 * Xor(a / 2, b / 2) + (a % 2 + b % 2) % 2
  }

  lemma {:induction false} XorBound(a: nat, b: nat, bits: nat)
    requires a < Pow2(bits) && b < Pow2(bits)
    ensures Xor(a, b) < Pow2(bits)
    decreases a + b
  {
    if a > 0 && b > 0 {
      XorBound(a / 2, b / 2, bits - 1);
    }
  }

  function Pow2(k: nat): (p: nat)
    ensures p > 0
  {
    if k == 0 then 1 else 2 * Pow2(k - 1)
  }

  function XorByte(a: Byte, b: Byte): Byte {
    assert Pow2(4) == 16 && Pow2(6) == 64 && Pow2(8) == 256;
    XorBound(a, b, 8);
    Xor(a, b)
  }

  /** Two equally long byte strings combined bit by bit. */
  function XorBytes(a: Bytes, b: Bytes): (r: Bytes)
    requires |a| == |b|
    ensures |r| == |a|
  {
    seq(|a|, i requires 0 <= i < |a| => XorByte(a[i], b[i]))
  }

  /** n shifted right by k bits. */
  function Shr(n: nat, k: nat): nat {
    if k == 0 then n else Shr(n, k - 1) / 2
  }

  /** The low-order `width` bytes of n, least significant first. */
  function LittleEndian(n: nat, width: nat): (b: Bytes)
    ensures |b| == width
  {
    if width == 0 then [] else [n % 256] + LittleEndian(n / 256, width - 1)
  }

  function FromLittleEndian(b: Bytes): nat {
    if b == [] then 0 else b[0] + 256 * FromLittleEndian(b[1..])
  }

  /** The low-order `width` bytes of n, most significant first. */
  function BigEndian(n: nat, width: nat): (b: Bytes)
    ensures |b| == width
  {
    if width == 0 then [] else BigEndian(n / 256, width - 1) + [n % 256]
  }

  function FromBigEndian(b: Bytes): nat {
    if b == [] then 0 else 256 * FromBigEndian(b[..|b| - 1]) + b[|b| - 1]
  }

  function Pow256(k: nat): nat {
    if k == 0 then 1 else 256 * Pow256(k - 1)
  }

  lemma {:induction false} ShrHalf(n: nat, k: nat)
    ensures Shr(n, k + 1) == Shr(n / 2, k)
  {
    if k > 0 {
      ShrHalf(n, k - 1);
    }
  }

  lemma ParitySum(a: nat, b: nat)
    ensures (a % 2 + b % 2) % 2 == (a + b) % 2
  {
  }

  lemma HalfOf(q: nat, r: nat)
    requires r < 2
    ensures (2 * q + r) / 2 == q && (2 * q + r) % 2 == r
  {
  }

  lemma XorWithZero(a: nat, b: nat)
    requires a == 0 || b == 0
    ensures Xor(a, b) % 2 == (a + b) % 2 && Xor(a, b) / 2 == Xor(a / 2, b / 2)
  {
  }

  lemma XorHalf(a: nat, b: nat)
    requires a > 0 && b > 0
    ensures Xor(a, b) % 2 == (a % 2 + b % 2) % 2 && Xor(a, b) / 2 == Xor(a / 2, b / 2)
  {
    var q, r := Xor(a / 2, b / 2), (a % 2 + b % 2) % 2;
    assert Xor(a, b) == 2 * q + r;
    HalfOf(q, r);
  }

  lemma XorSplits(a: nat, b: nat)
    ensures Xor(a, b) % 2 == (a + b) % 2 && Xor(a, b) / 2 == Xor(a / 2, b / 2)
  {
    ParitySum(a, b);
    if a > 0 && b > 0 {
      XorHalf(a, b);
    } else {
      XorWithZero(a, b);
    }
  }

  /** Each bit of the exclusive or is the sum of the two bits. */
  lemma {:induction false} XorBits(a: nat, b: nat, k: nat)
    ensures Shr(Xor(a, b), k) % 2 == (Shr(a, k) + Shr(b, k)) % 2
  {
    hide Xor;
    XorSplits(a, b);
    if k > 0 {
      ShrHalf(Xor(a, b), k - 1);
      ShrHalf(a, k - 1);
      ShrHalf(b, k - 1);
      XorBits(a / 2, b / 2, k - 1);
    }
  }

  lemma {:induction false} LittleEndianRoundTrip(n: nat, width: nat)
    requires n < Pow256(width)
    ensures FromLittleEndian(LittleEndian(n, width)) == n
  {
    if width > 0 {
      assert LittleEndian(n, width)[1..] == LittleEndian(n / 256, width - 1);
      LittleEndianRoundTrip(n / 256, width - 1);
    }
  }
}
