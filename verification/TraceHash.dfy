/** The data-dependent walk over the DAG behind a ColossusX hash. */
module TraceHash {
  import opened Base

  const FNV_PRIME: Uint32 := 0x0100_0193
  const AUDIT_CELL_COUNT: Uint32 := 32

  function Fnv1a32(a: Uint32, b: Uint32): Uint32 {
    (Xor(a, b) * FNV_PRIME) % TWO_32
  }

  /** The little-endian word at an offset. */
  function Word(b: Bytes, at: nat): Uint32
    requires at + 4 <= |b|
  {
    var b0: int, b1: int, b2: int, b3: int := b[at], b[at + 1], b[at + 2], b[at + 3];
    b0 + 0x100 * b1 + 0x1_0000 * b2 + 0x100_0000 * b3
  }

  /** A word is four bytes, least significant first. */
  lemma WordIsLittleEndian(b: Bytes, at: nat)
    requires at + 4 <= |b|
    ensures Word(b, at) == FromLittleEndian(b[at..at + 4])
  {
    var w := b[at..at + 4];
    assert w[1..][1..] == w[2..] && w[2..][1..] == w[3..] && w[3..][1..] == [];
    assert FromLittleEndian(w[3..]) == b[at + 3];
    assert FromLittleEndian(w[2..]) == b[at + 2] + 256 * FromLittleEndian(w[3..]);
    assert FromLittleEndian(w[1..]) == b[at + 1] + 256 * FromLittleEndian(w[2..]);
  }

  function Words(words: seq<Uint32>): (b: Bytes)
    ensures |b| == 4 * |words|
  {
    if words == [] then [] else Words(words[..|words| - 1]) + LittleEndian(words[|words| - 1], 4)
  }

  /** Word i of the mix after folding in the first `blocks` 64-byte blocks of a cell. */
  function MixWord(mix: Hash64, cell: Bytes, blocks: nat, i: nat): Uint32
    requires i < 16 && 64 * blocks <= |cell|
  {
    if blocks == 0 then Word(mix, 4 * i)
    else Fnv1a32(MixWord(mix, cell, blocks - 1, i), Word(cell, 64 * (blocks - 1) + 4 * i))
  }

  function MixWords(mix: Hash64, cell: Bytes, blocks: nat): (words: seq<Uint32>)
    requires 64 * blocks <= |cell|
    ensures |words| == 16
  {
    seq(16, i requires 0 <= i < 16 => MixWord(mix, cell, blocks, i))
  }

  /** What a round hashes: the sixteen words, with all whole blocks of the cell folded in. */
  function RoundInput(mix: Hash64, cell: Bytes): (input: Bytes)
    ensures |input| == 64
  {
    Words(MixWords(mix, cell, |cell| / 64))
  }

  function RoundMix(hs: HashSuite, mix: Hash64, cell: Bytes): Hash64 {
    hs.sha3x512(RoundInput(mix, cell))
  }

  /** The round function as it runs: block by block over sixteen words in place. */
  method ColossusXRoundMix(hs: HashSuite, mix: Hash64, cell: Bytes) returns (next: Hash64)
    ensures next == RoundMix(hs, mix, cell)
  {
    var words := new Uint32[16](i requires 0 <= i < 16 => Word(mix, 4 * i));
    var q := 0;
    assert words[..] == MixWords(mix, cell, 0);
    while 64 * q + 64 <= |cell|
      invariant 64 * q <= |cell|
      invariant words[..] == MixWords(mix, cell, q)
    {
      MixBlock(words, mix, cell, q);
      q := q + 1;
    }
    assert q == |cell| / 64;
    var folded := FoldWords(words);
    next := hs.sha3x512(folded[..]);
  }

  /** Folds one 64-byte block into the sixteen words, each with its own part of the block. */
  method MixBlock(words: array<Uint32>, ghost mix: Hash64, cell: Bytes, q: nat)
    requires words.Length == 16 && 64 * q + 64 <= |cell|
    requires words[..] == MixWords(mix, cell, q)
    modifies words
    ensures words[..] == MixWords(mix, cell, q + 1)
  {
    var i := 0;
    while i < 16
      invariant 0 <= i <= 16
      invariant forall k :: 0 <= k < 16 ==> words[k] == MixWord(mix, cell, if k < i then q + 1 else q, k)
    {
      words[i] := Fnv1a32(words[i], Word(cell, 64 * q + 4 * i));
      i := i + 1;
    }
  }

  method FoldWords(words: array<Uint32>) returns (folded: array<Byte>)
    requires words.Length == 16
    ensures folded.Length == 64 && folded[..] == Words(words[..])
  {
    folded := new Byte[64](_ => 0);
    var i := 0;
    while i < 16
      invariant 0 <= i <= 16
      invariant folded[..4 * i] == Words(words[..i])
    {
      PutUint32(folded, 4 * i, words[i]);
      assert words[..i + 1][..i] == words[..i];
      i := i + 1;
    }
    assert folded[..] == folded[..64] && words[..] == words[..16];
  }

  method PutUint32(buf: array<Byte>, at: nat, v: Uint32)
    requires at + 4 <= buf.Length
    modifies buf
    ensures buf[..at + 4] == old(buf[..at]) + LittleEndian(v, 4)
    ensures buf[at + 4..] == old(buf[at + 4..])
  {
    var bytes := LittleEndian(v, 4);
    buf[at], buf[at + 1], buf[at + 2], buf[at + 3] := bytes[0], bytes[1], bytes[2], bytes[3];
  }

  // ----- the walk -----

  function NonceBytes(nonce: Uint64): (b: Bytes)
    ensures |b| == 8
  {
    LittleEndian(nonce, 8)
  }

  /** The eight bytes appended for a nonce give the nonce back. */
  lemma NonceRoundTrip(nonce: Uint64)
    ensures FromLittleEndian(NonceBytes(nonce)) == nonce
  {
    assert Pow256(4) == TWO_32;
    assert Pow256(8) == TWO_64;
    LittleEndianRoundTrip(nonce, 8);
  }

  function InitialHash(hs: HashSuite, header: Bytes, nonce: Uint64): Hash64 {
    hs.sha3x512(header + NonceBytes(nonce))
  }

  /** The cell a round reads: decided by the round number and the mix alone. */
  function ReadIndex(mix: Hash64, round: nat, nodeCount: nat): (index: nat)
    requires nodeCount > 0
    ensures index < nodeCount && index < TWO_32
  {
    var f := Fnv1a32(round % TWO_32, Word(mix, 0));
    QuotientRemainder(f, nodeCount);
    f % nodeCount
  }

  lemma QuotientRemainder(f: Uint32, n: nat)
    requires n > 0
    ensures f % n < n && f % n <= f
  {
    if f < n {
      assert f % n == f;
    }
  }

  /** The mix after the first `rounds` rounds over the given DAG. */
  function MixAt(hs: HashSuite, cells: seq<Bytes>, initial: Hash64, rounds: nat): Hash64
    requires cells != []
  {
    if rounds == 0 then initial
    else
      var mix := MixAt(hs, cells, initial, rounds - 1);
      RoundMix(hs, mix, cells[ReadIndex(mix, rounds - 1, |cells|)])
  }

  function AccessedAt(hs: HashSuite, cells: seq<Bytes>, initial: Hash64, round: nat): (index: nat)
    requires cells != []
    ensures index < |cells| && index < TWO_32
  {
    ReadIndex(MixAt(hs, cells, initial, round), round, |cells|)
  }

  function Accessed(hs: HashSuite, cells: seq<Bytes>, initial: Hash64, rounds: nat): (accessed: seq<Uint32>)
    requires cells != []
    ensures |accessed| == rounds
  {
    seq(rounds, k requires 0 <= k < rounds => AccessedAt(hs, cells, initial, k))
  }

  datatype Trace = Trace(
    initialHash: Hash64,
    mixDigest: Hash64,
    accessed: seq<Uint32>,
    result: Hash32,
    solutionHash: Hash32)

  function PowOf(hs: HashSuite, initial: Hash64, mix: Hash64): Hash32 {
    hs.blake3(initial + mix)
  }

  function SolutionHashOf(hs: HashSuite, initial: Hash64, mix: Hash64, nonce: Uint64): Hash32 {
    hs.blake3(initial + mix + NonceBytes(nonce))
  }

  function TraceOf(hs: HashSuite, cells: seq<Bytes>, rounds: nat, header: Bytes, nonce: Uint64): Trace
    requires cells != []
  {
    var initial := InitialHash(hs, header, nonce);
    var mix := MixAt(hs, cells, initial, rounds);
    Trace(initial, mix, Accessed(hs, cells, initial, rounds), PowOf(hs, initial, mix),
          SolutionHashOf(hs, initial, mix, nonce))
  }

  const EMPTY_TRACE: Trace := Trace(ZeroBytes(64), ZeroBytes(64), [], ZERO_HASH, ZERO_HASH)

  lemma WalkStep(hs: HashSuite, cells: seq<Bytes>, initial: Hash64, round: nat)
    requires cells != []
    ensures var mix := MixAt(hs, cells, initial, round);
            var index := ReadIndex(mix, round, |cells|);
            MixAt(hs, cells, initial, round + 1) == RoundMix(hs, mix, cells[index]) &&
            Accessed(hs, cells, initial, round + 1) == Accessed(hs, cells, initial, round) + [index]
  {
  }

  method Walk(hs: HashSuite, rounds: nat, initial: Hash64, cells: seq<Bytes>)
    returns (mix: Hash64, accessed: seq<Uint32>)
    requires cells != []
    ensures mix == MixAt(hs, cells, initial, rounds) && accessed == Accessed(hs, cells, initial, rounds)
  {
    mix, accessed := initial, [];
    var round := 0;
    while round < rounds
      invariant 0 <= round <= rounds
      invariant mix == MixAt(hs, cells, initial, round) && accessed == Accessed(hs, cells, initial, round)
    {
      WalkStep(hs, cells, initial, round);
      var f := Fnv1a32(round % TWO_32, Word(mix, 0));
      QuotientRemainder(f, |cells|);
      var index := f % |cells|;
      accessed := accessed + [index];
      mix := ColossusXRoundMix(hs, mix, cells[index]);
      round := round + 1;
    }
  }

  /** The walk as it runs. An empty DAG gives the all-zero trace. */
  method ColossusXTraceHash(hs: HashSuite, rounds: nat, header: Bytes, nonce: Uint64, cells: seq<Bytes>)
    returns (trace: Trace)
    ensures trace == if cells == [] then EMPTY_TRACE else TraceOf(hs, cells, rounds, header, nonce)
  {
    hide LittleEndian, MixAt, Accessed;
    if |cells| == 0 {
      return EMPTY_TRACE;
    }
    var initial: Hash64 := hs.sha3x512(header + NonceBytes(nonce));
    var mix: Hash64, accessed := Walk(hs, rounds, initial, cells);
    var finalInput: Bytes := initial + mix;
    var pow := hs.blake3(finalInput);
    var solutionHash := hs.blake3(finalInput + NonceBytes(nonce));
    trace := Trace(initial, mix, accessed, pow, solutionHash);
  }

  // ----- audit cells -----

  function AuditIndexAt(hs: HashSuite, solutionHash: Hash32, cellCount: nat, i: Uint32): (index: nat)
    requires cellCount > 0
    ensures index < cellCount && index < TWO_32
  {
    var w := Word(hs.sha3x256(solutionHash + LittleEndian(i, 4)), 0);
    QuotientRemainder(w, cellCount);
    w % cellCount
  }

  function AuditIndices(hs: HashSuite, solutionHash: Hash32, cellCount: nat, count: Uint32): (indices: seq<Uint32>)
    requires cellCount > 0
    ensures |indices| == count
  {
    seq(count, i requires 0 <= i < count => AuditIndexAt(hs, solutionHash, cellCount, i))
  }

  method ColossusXAuditIndices(hs: HashSuite, pow: Hash32, cellCount: nat, count: Uint32) returns (indices: seq<Uint32>)
    ensures cellCount == 0 ==> indices == []
    ensures cellCount > 0 ==> indices == AuditIndices(hs, pow, cellCount, count)
  {
    if cellCount == 0 || count == 0 {
      return [];
    }
    indices := [];
    var i := 0;
    while i < count
      invariant 0 <= i <= count
      invariant indices == AuditIndices(hs, pow, cellCount, i)
    {
      var sum := hs.sha3x256(pow + LittleEndian(i, 4));
      var idx := Word(sum, 0);
      QuotientRemainder(idx, cellCount);
      indices := indices + [idx % cellCount];
      i := i + 1;
    }
  }
}
