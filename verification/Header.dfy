/** Block headers, their encodings and hashes. */
module Header {
  import opened Base
  import Arithmetic
  import ChainSpec
  import Compact
  import Solution
  import Target

  type Int64 = n: int | -TWO_63 <= n < TWO_63

  datatype BlockHeader = BlockHeader(
    version: Uint32,
    algorithmVersion: Uint32,
    height: Uint64,
    parentHash: Hash32,
    timestamp: Int64,
    target: Hash32,
    nonce: Uint64,
    epochSeed: Hash32,
    dagSizeBytes: Uint64,
    dagMerkleRoot: Hash32,
    txRoot: Hash32,
    stateRoot: Hash32)

  datatype Block = Block(
    header: BlockHeader,
    transactions: seq<string>,
    solution: Option<Solution.ColossusXSolution>,
    compact: Option<Compact.CompactSolution>)

  const ZERO_HEADER: BlockHeader :=
    BlockHeader(0, 0, 0, ZERO_HASH, 0, ZERO_HASH, 0, ZERO_HASH, 0, ZERO_HASH, ZERO_HASH, ZERO_HASH)
  const ZERO_BLOCK: Block := Block(ZERO_HEADER, [], None, None)

  /** The fields in order, each with its fixed width; the nonce is left out. */
  function MiningFields(h: BlockHeader): (fields: seq<Bytes>)
    ensures |fields| == 11
  {
    [BigEndian(h.version, 4), BigEndian(h.algorithmVersion, 4), BigEndian(h.height, 8), h.parentHash,
     BigEndian(ChainSpec.Wrap64(h.timestamp), 8), h.target, h.epochSeed, BigEndian(h.dagSizeBytes, 8),
     h.dagMerkleRoot, h.txRoot, h.stateRoot]
  }

  function Fields(h: BlockHeader): (fields: seq<Bytes>)
    ensures |fields| == 12
  {
    MiningFields(h) + [BigEndian(h.nonce, 8)]
  }

  function Concat(parts: seq<Bytes>): Bytes {
    if parts == [] then [] else parts[0] + Concat(parts[1..])
  }

  function EncodeForMining(h: BlockHeader): Bytes {
    Concat(MiningFields(h))
  }

  function Encode(h: BlockHeader): Bytes {
    EncodeForMining(h) + BigEndian(h.nonce, 8)
  }

  /** The hash a block is stored under. */
  function HeaderHash(hs: HashSuite, h: BlockHeader): Hash32 {
    hs.sha256(Encode(h))
  }

  // ----- headers are determined by their encoding -----

  ghost predicate SameShape(a: seq<Bytes>, b: seq<Bytes>) {
    |a| == |b| && forall i :: 0 <= i < |a| ==> |a[i]| == |b[i]|
  }

  lemma {:induction false} ConcatInjective(a: seq<Bytes>, b: seq<Bytes>)
    requires SameShape(a, b) && Concat(a) == Concat(b)
    ensures a == b
  {
    if a != [] {
      var ca, cb := Concat(a), Concat(b);
      assert ca[..|a[0]|] == a[0] && cb[..|a[0]|] == b[0];
      assert ca[|a[0]|..] == Concat(a[1..]) && cb[|a[0]|..] == Concat(b[1..]);
      ConcatInjective(a[1..], b[1..]);
      Reassemble(a);
      Reassemble(b);
    }
  }

  lemma Reassemble<T>(s: seq<T>)
    requires s != []
    ensures s == [s[0]] + s[1..]
  {
  }

  lemma BigEndianOfParts(high: Bytes, low: Byte)
    ensures FromBigEndian(high + [low]) == 256 * FromBigEndian(high) + low
  {
    assert (high + [low])[..|high|] == high;
  }

  lemma {:induction false} BigEndianRoundTrip(n: nat, width: nat)
    requires n < Pow256(width)
    ensures FromBigEndian(BigEndian(n, width)) == n
  {
    if width > 0 {
      BigEndianRoundTrip(n / 256, width - 1);
      hide Pow256;
      BigEndianOfParts(BigEndian(n / 256, width - 1), n % 256);
      Arithmetic.DivMod(n, 256);
    }
  }

  lemma BigEndianInjective(m: nat, n: nat, width: nat)
    requires m < Pow256(width) && n < Pow256(width) && BigEndian(m, width) == BigEndian(n, width)
    ensures m == n
  {
    BigEndianRoundTrip(m, width);
    BigEndianRoundTrip(n, width);
  }

  lemma {:induction false} ConcatSnoc(parts: seq<Bytes>, last: Bytes)
    ensures Concat(parts + [last]) == Concat(parts) + last
  {
    if parts == [] {
      assert parts + [last] == [last];
    } else {
      assert (parts + [last])[1..] == parts[1..] + [last];
      ConcatSnoc(parts[1..], last);
    }
  }

  /** Two headers with one encoding are one header, so equal block hashes mean equal headers or a collision. */
  lemma EncodeInjective(a: BlockHeader, b: BlockHeader)
    requires Encode(a) == Encode(b)
    ensures a == b
  {
    ConcatSnoc(MiningFields(a), BigEndian(a.nonce, 8));
    ConcatSnoc(MiningFields(b), BigEndian(b.nonce, 8));
    ConcatInjective(Fields(a), Fields(b));
    var x, y := Fields(a), Fields(b);
    FieldsDecide(a, b, x, y);
  }

  lemma FieldsDecide(a: BlockHeader, b: BlockHeader, x: seq<Bytes>, y: seq<Bytes>)
    requires x == Fields(a) && y == Fields(b) && x == y
    ensures a == b
  {
    FieldsByName(a);
    FieldsByName(b);
    Target.SixtyFourBits();
    assert Pow256(4) == TWO_32;
    hide BigEndian, Pow256, Fields, MiningFields;
    BigEndianInjective(a.version, b.version, 4);
    BigEndianInjective(a.algorithmVersion, b.algorithmVersion, 4);
    BigEndianInjective(a.height, b.height, 8);
    BigEndianInjective(ChainSpec.Wrap64(a.timestamp), ChainSpec.Wrap64(b.timestamp), 8);
    SameTimestamp(a.timestamp, b.timestamp);
    BigEndianInjective(a.dagSizeBytes, b.dagSizeBytes, 8);
    BigEndianInjective(a.nonce, b.nonce, 8);
  }

  lemma FieldsByName(h: BlockHeader)
    ensures var x := Fields(h);
            && x[0] == BigEndian(h.version, 4) && x[1] == BigEndian(h.algorithmVersion, 4)
            && x[2] == BigEndian(h.height, 8) && x[3] == h.parentHash
            && x[4] == BigEndian(ChainSpec.Wrap64(h.timestamp), 8) && x[5] == h.target && x[6] == h.epochSeed
            && x[7] == BigEndian(h.dagSizeBytes, 8) && x[8] == h.dagMerkleRoot && x[9] == h.txRoot
            && x[10] == h.stateRoot && x[11] == BigEndian(h.nonce, 8)
  {
    hide BigEndian;
  }

  lemma SameTimestamp(a: Int64, b: Int64)
    requires ChainSpec.Wrap64(a) == ChainSpec.Wrap64(b)
    ensures a == b
  {
  }

  /** Filling in the mined nonce does not change what was mined on, but does change the block hash input. */
  lemma NonceNotMined(h: BlockHeader, nonce: Uint64)
    ensures EncodeForMining(h.(nonce := nonce)) == EncodeForMining(h)
    ensures Encode(h.(nonce := nonce)) == Encode(h) <==> nonce == h.nonce
  {
    if Encode(h.(nonce := nonce)) == Encode(h) {
      EncodeInjective(h.(nonce := nonce), h);
    }
  }

  // ----- where each field is -----

  function Offset(parts: seq<Bytes>, i: nat): nat
    requires i <= |parts|
  {
    if i == 0 then 0 else Offset(parts, i - 1) + |parts[i - 1]|
  }

  lemma {:induction false} ConcatPrefix(parts: seq<Bytes>, i: nat)
    requires i <= |parts|
    ensures Offset(parts, i) <= |Concat(parts)| && Concat(parts)[..Offset(parts, i)] == Concat(parts[..i])
  {
    if i == 0 {
      assert parts[..0] == [];
    } else {
      ConcatSplit(parts, i);
      ConcatLength(parts, i);
    }
  }

  lemma {:induction false} ConcatSplit(parts: seq<Bytes>, i: nat)
    requires i <= |parts|
    ensures Concat(parts) == Concat(parts[..i]) + Concat(parts[i..])
  {
    if i == 0 {
      assert parts[..0] == [] && parts[0..] == parts;
    } else {
      ConcatSplit(parts[1..], i - 1);
      assert parts[1..][..i - 1] == parts[..i][1..] && parts[1..][i - 1..] == parts[i..];
    }
  }

  lemma {:induction false} ConcatLength(parts: seq<Bytes>, i: nat)
    requires i <= |parts|
    ensures |Concat(parts[..i])| == Offset(parts, i)
  {
    if i == 0 {
      assert parts[..0] == [];
    } else {
      ConcatLength(parts, i - 1);
      assert parts[..i] == parts[..i - 1] + [parts[i - 1]];
      ConcatSnoc(parts[..i - 1], parts[i - 1]);
    }
  }

  lemma FieldAt(parts: seq<Bytes>, i: nat)
    requires i < |parts|
    ensures Offset(parts, i) <= Offset(parts, i + 1) <= |Concat(parts)|
    ensures Concat(parts)[Offset(parts, i)..Offset(parts, i + 1)] == parts[i]
  {
    ConcatPrefix(parts, i);
    ConcatPrefix(parts, i + 1);
    assert parts[..i + 1] == parts[..i] + [parts[i]];
    ConcatSnoc(parts[..i], parts[i]);
    assert Concat(parts)[..Offset(parts, i + 1)][Offset(parts, i)..] == parts[i];
  }

  /** Where each field of a mined header starts: the offsets any other implementation has to use. */
  function MiningOffset(i: nat): nat
    requires i <= 11
  {
    [0, 4, 8, 16, 48, 56, 88, 120, 128, 160, 192, 224][i]
  }

  lemma {:induction false} OffsetsAreFixed(h: BlockHeader, i: nat)
    requires i <= 11
    ensures Offset(MiningFields(h), i) == MiningOffset(i)
  {
    if i > 0 {
      OffsetsAreFixed(h, i - 1);
      FieldWidth(h, i - 1);
    }
  }

  lemma FieldWidth(h: BlockHeader, i: nat)
    requires i < 11
    ensures |MiningFields(h)[i]| == MiningOffset(i + 1) - MiningOffset(i)
  {
    var fields := MiningFields(h);
    assert |fields[0]| == |fields[1]| == 4;
    assert |fields[2]| == |fields[4]| == |fields[7]| == 8;
    assert |fields[3]| == |fields[5]| == |fields[6]| == |fields[8]| == |fields[9]| == |fields[10]| == 32;
  }

  lemma FieldAtOffset(h: BlockHeader, i: nat)
    requires i < 11
    ensures |EncodeForMining(h)| == 224
    ensures EncodeForMining(h)[MiningOffset(i)..MiningOffset(i + 1)] == MiningFields(h)[i]
  {
    OffsetsAreFixed(h, i);
    OffsetsAreFixed(h, i + 1);
    OffsetsAreFixed(h, 11);
    FieldAt(MiningFields(h), i);
    ConcatLength(MiningFields(h), 11);
    assert MiningFields(h)[..11] == MiningFields(h);
  }

  /** The layout of a header: 224 bytes are mined on, and only the hashed form ends with the nonce. */
  lemma HeaderLayout(h: BlockHeader)
    ensures |EncodeForMining(h)| == 224 && Encode(h)[..224] == EncodeForMining(h)
    ensures Encode(h)[224..] == BigEndian(h.nonce, 8)
    ensures var e := EncodeForMining(h);
            && e[0..4] == BigEndian(h.version, 4) && e[4..8] == BigEndian(h.algorithmVersion, 4)
            && e[8..16] == BigEndian(h.height, 8) && e[16..48] == h.parentHash
            && e[48..56] == BigEndian(ChainSpec.Wrap64(h.timestamp), 8) && e[56..88] == h.target
            && e[88..120] == h.epochSeed
            && e[120..128] == BigEndian(h.dagSizeBytes, 8) && e[128..160] == h.dagMerkleRoot
            && e[160..192] == h.txRoot && e[192..224] == h.stateRoot
  {
    hide EncodeForMining, BigEndian;
    FieldAtOffset(h, 0); FieldAtOffset(h, 1); FieldAtOffset(h, 2); FieldAtOffset(h, 3);
    FieldAtOffset(h, 4); FieldAtOffset(h, 5); FieldAtOffset(h, 6); FieldAtOffset(h, 7);
    FieldAtOffset(h, 8); FieldAtOffset(h, 9); FieldAtOffset(h, 10);
  }
}
