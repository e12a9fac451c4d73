/**
 What the walk is, said a second time and independently: a chain of mixes, each hashed from the one
 before and from the cell that its first word picks. Nothing the walk hashes is lost on the way, and the
 audit draws are free of each other.
 */
module TraceLaws {
  import opened Base
  import opened BitLaws
  import opened TraceHash

  lemma FourBytesBound()
    ensures Pow256(4) == TWO_32
  {
  }

  // ----- one round -----

  /** The sixteen words come back from the bytes they are hashed as. */
  lemma {:induction false} WordsComeBack(words: seq<Uint32>, i: nat)
    requires i < |words|
    ensures FromLittleEndian(Words(words)[4 * i..4 * i + 4]) == words[i]
  {
    var init, last := words[..|words| - 1], words[|words| - 1];
    if i == |words| - 1 {
      assert Words(words)[4 * i..4 * i + 4] == LittleEndian(last, 4);
      FourBytesBound();
      LittleEndianRoundTrip(last, 4);
    } else {
      assert Words(words)[4 * i..4 * i + 4] == Words(init)[4 * i..4 * i + 4];
      WordsComeBack(init, i);
    }
  }

  /** What stands at word i of the hashed input. */
  lemma RoundInputWord(mix: Hash64, cell: Bytes, i: nat)
    requires i < 16
    ensures FromLittleEndian(RoundInput(mix, cell)[4 * i..4 * i + 4]) == MixWord(mix, cell, |cell| / 64, i)
  {
    WordsComeBack(MixWords(mix, cell, |cell| / 64), i);
  }

  /** The words of a cell that meet word i of the mix, one from each block. */
  function Column(cell: Bytes, i: nat): (words: seq<Uint32>)
    requires i < 16
    ensures |words| == |cell| / 64
  {
    seq(|cell| / 64, q requires 0 <= q < |cell| / 64 => Word(cell, 64 * q + 4 * i))
  }

  /** Folding words into one another, the first one first. */
  function Fold(f: (Uint32, Uint32) -> Uint32, word: Uint32, words: seq<Uint32>): Uint32
    decreases |words|
  {
    if words == [] then word else Fold(f, f(word, words[0]), words[1..])
  }

  lemma {:induction false} FoldSnoc(f: (Uint32, Uint32) -> Uint32, word: Uint32, words: seq<Uint32>, last: Uint32)
    ensures Fold(f, word, words + [last]) == f(Fold(f, word, words), last)
    decreases |words|
  {
    if words == [] {
      assert words + [last] == [last];
    } else {
      assert (words + [last])[1..] == words[1..] + [last];
      FoldSnoc(f, f(word, words[0]), words[1..], last);
    }
  }

  /** The number four little-endian bytes stand for. */
  function WordValue(b: Bytes): Uint32
    requires |b| == 4
  {
    LittleEndianOfValue(b);
    FourBytesBound();
    FromLittleEndian(b)
  }

  lemma {:induction false} MixWordIsFold(mix: Hash64, cell: Bytes, blocks: nat, i: nat)
    requires i < 16 && 64 * blocks <= |cell|
    ensures MixWord(mix, cell, blocks, i) == Fold(Fnv1a32, Word(mix, 4 * i), Column(cell, i)[..blocks])
  {
    if blocks > 0 {
      var column := Column(cell, i);
      MixWordIsFold(mix, cell, blocks - 1, i);
      FoldSnoc(Fnv1a32, Word(mix, 4 * i), column[..blocks - 1], column[blocks - 1]);
      assert column[..blocks] == column[..blocks - 1] + [column[blocks - 1]];
    }
  }

  /**
   One round: the first word of the mix and the round number pick a cell, and the next mix is the
   SHA3-512 digest of sixteen words, each folded with the words of the cell below it.
   */
  ghost predicate IsRound(hs: HashSuite, cells: seq<Bytes>, round: nat, mix: Hash64, read: nat, next: Hash64) {
    && cells != [] && read == Fnv1a32(round % 0x1_0000_0000, WordValue(mix[..4])) % |cells|
    && exists input: Bytes :: IsRoundInput(mix, cells[read], input) && next == hs.sha3x512(input)
  }

  ghost predicate IsRoundInput(mix: Hash64, cell: Bytes, input: Bytes) {
    |input| == 64 &&
    forall i :: 0 <= i < 16 ==>
      WordValue(input[4 * i..4 * i + 4]) == Fold(Fnv1a32, WordValue(mix[4 * i..4 * i + 4]), Column(cell, i))
  }

  lemma RoundInputIs(mix: Hash64, cell: Bytes)
    ensures IsRoundInput(mix, cell, RoundInput(mix, cell))
  {
    forall i | 0 <= i < 16
      ensures WordValue(RoundInput(mix, cell)[4 * i..4 * i + 4])
           == Fold(Fnv1a32, WordValue(mix[4 * i..4 * i + 4]), Column(cell, i))
    {
      hide Fold, Fnv1a32, FromLittleEndian, Word, MixWord;
      RoundInputWord(mix, cell, i);
      MixWordIsFold(mix, cell, |cell| / 64, i);
      WordIsLittleEndian(mix, 4 * i);
      assert Column(cell, i)[..|cell| / 64] == Column(cell, i);
    }
  }

  /** Sixteen words determine the sixty-four bytes. */
  lemma SameWordsSameBytes(a: Bytes, b: Bytes)
    requires |a| == |b| == 64
    requires forall i :: 0 <= i < 16 ==>
      WordValue(a[4 * i..4 * i + 4]) == WordValue(b[4 * i..4 * i + 4])
    ensures a == b
  {
    forall k | 0 <= k < 64
      ensures a[k] == b[k]
    {
      var i := k / 4;
      LittleEndianInjective(a[4 * i..4 * i + 4], b[4 * i..4 * i + 4]);
      assert a[4 * i..4 * i + 4][k - 4 * i] == b[4 * i..4 * i + 4][k - 4 * i];
    }
  }

  lemma RoundIs(hs: HashSuite, cells: seq<Bytes>, round: nat, mix: Hash64, read: nat, next: Hash64)
    requires cells != []
    ensures IsRound(hs, cells, round, mix, read, next) <==>
              read == ReadIndex(mix, round, |cells|) && next == RoundMix(hs, mix, cells[read])
  {
    WordIsLittleEndian(mix, 0);
    QuotientRemainder(Fnv1a32(round % TWO_32, Word(mix, 0)), |cells|);
    if read == ReadIndex(mix, round, |cells|) {
      hide RoundInput, IsRoundInput;
      RoundInputIs(mix, cells[read]);
      forall input: Bytes | IsRoundInput(mix, cells[read], input)
        ensures input == RoundInput(mix, cells[read])
      {
        RoundInputUnique(mix, cells[read], input, RoundInput(mix, cells[read]));
      }
    }
  }

  lemma RoundInputUnique(mix: Hash64, cell: Bytes, a: Bytes, b: Bytes)
    requires IsRoundInput(mix, cell, a) && IsRoundInput(mix, cell, b)
    ensures a == b
  {
    hide Fold, Column, WordValue;
    forall i | 0 <= i < 16
      ensures WordValue(a[4 * i..4 * i + 4]) == WordValue(b[4 * i..4 * i + 4])
    {
      assert WordValue(a[4 * i..4 * i + 4])
          == Fold(Fnv1a32, WordValue(mix[4 * i..4 * i + 4]), Column(cell, i));
    }
    SameWordsSameBytes(a, b);
  }

  // ----- the whole walk -----

  function Join(a: Bytes, b: Bytes): Bytes {
    a + b
  }

  /** A walk over the DAG: its mixes from the first to the last, and what is made of them in the end. */
  ghost predicate IsWalk(hs: HashSuite, cells: seq<Bytes>, rounds: nat, header: Bytes, nonceBytes: Bytes,
                         mixes: seq<Hash64>, t: Trace)
  {
    && |mixes| == rounds + 1 && |t.accessed| == rounds
    && mixes[0] == hs.sha3x512(header + nonceBytes)
    && (forall k :: 0 <= k < rounds ==> IsRound(hs, cells, k, mixes[k], t.accessed[k], mixes[k + 1]))
    && t.initialHash == mixes[0] && t.mixDigest == mixes[rounds]
    && t.result == hs.blake3(Join(mixes[0], mixes[rounds]))
    && t.solutionHash == hs.blake3(Join(Join(mixes[0], mixes[rounds]), nonceBytes))
  }

  function Mixes(hs: HashSuite, cells: seq<Bytes>, initial: Hash64, rounds: nat): (mixes: seq<Hash64>)
    requires cells != []
    ensures |mixes| == rounds + 1
  {
    seq(rounds + 1, k requires 0 <= k <= rounds => MixAt(hs, cells, initial, k))
  }

  lemma NonceBytesUnique(nonce: Uint64, b: Bytes)
    ensures |b| == 8 && FromLittleEndian(b) == nonce <==> b == NonceBytes(nonce)
  {
    NonceRoundTrip(nonce);
    if |b| == 8 && FromLittleEndian(b) == nonce {
      LittleEndianInjective(b, NonceBytes(nonce));
    }
  }

  /** The computed trace is the one walk there is; the nonce enters as eight little-endian bytes. */
  lemma TraceIsTheWalk(hs: HashSuite, cells: seq<Bytes>, rounds: nat, header: Bytes, nonce: Uint64, b: Bytes, t: Trace)
    requires cells != [] && |b| == 8 && FromLittleEndian(b) == nonce
    ensures t == TraceOf(hs, cells, rounds, header, nonce) <==>
              exists mixes :: IsWalk(hs, cells, rounds, header, b, mixes, t)
  {
    NonceBytesUnique(nonce, b);
    var initial := InitialHash(hs, header, nonce);
    if t == TraceOf(hs, cells, rounds, header, nonce) {
      WalkOfMixes(hs, cells, rounds, header, nonce);
    }
    if mixes :| IsWalk(hs, cells, rounds, header, b, mixes, t) {
      WalkIsMixes(hs, cells, rounds, header, b, mixes, t, rounds);
      assert t.accessed == Accessed(hs, cells, initial, rounds);
    }
  }

  lemma WalkOfMixes(hs: HashSuite, cells: seq<Bytes>, rounds: nat, header: Bytes, nonce: Uint64)
    requires cells != []
    ensures var initial := InitialHash(hs, header, nonce);
            IsWalk(hs, cells, rounds, header, NonceBytes(nonce), Mixes(hs, cells, initial, rounds),
                   TraceOf(hs, cells, rounds, header, nonce))
  {
    hide RoundMix, ReadIndex, IsRound;
    var initial := InitialHash(hs, header, nonce);
    forall k | 0 <= k < rounds
      ensures IsRound(hs, cells, k, Mixes(hs, cells, initial, rounds)[k],
                      Accessed(hs, cells, initial, rounds)[k], Mixes(hs, cells, initial, rounds)[k + 1])
    {
      var mix := MixAt(hs, cells, initial, k);
      RoundIs(hs, cells, k, mix, ReadIndex(mix, k, |cells|), MixAt(hs, cells, initial, k + 1));
    }
  }

  lemma {:induction false} WalkIsMixes(hs: HashSuite, cells: seq<Bytes>, rounds: nat, header: Bytes, b: Bytes,
                                       mixes: seq<Hash64>, t: Trace, done: nat)
    requires cells != [] && done <= rounds && IsWalk(hs, cells, rounds, header, b, mixes, t)
    ensures mixes[done] == MixAt(hs, cells, mixes[0], done)
    ensures forall k :: 0 <= k < done ==> t.accessed[k] == AccessedAt(hs, cells, mixes[0], k)
  {
    hide RoundMix, ReadIndex, IsRound;
    if done > 0 {
      WalkIsMixes(hs, cells, rounds, header, b, mixes, t, done - 1);
      RoundIs(hs, cells, done - 1, mixes[done - 1], t.accessed[done - 1], mixes[done]);
    }
  }

  // ----- nothing is lost -----

  ghost predicate FoldsApart(mix: Hash64, other: Hash64, c: Bytes, d: Bytes, blocks: nat, i: nat)
    requires i < 16 && 64 * blocks <= |c| && 64 * blocks <= |d|
  {
    MixWord(mix, c, blocks, i) != MixWord(other, d, blocks, i)
  }

  /** Two folds that have come apart stay apart over equal words. */
  lemma {:induction false} StaysApart(mix: Hash64, other: Hash64, c: Bytes, d: Bytes, from: nat, to: nat, i: nat)
    requires i < 16 && from <= to && 64 * to <= |c| && 64 * to <= |d|
    requires FoldsApart(mix, other, c, d, from, i)
    requires forall q :: from <= q < to ==> Word(c, 64 * q + 4 * i) == Word(d, 64 * q + 4 * i)
    ensures FoldsApart(mix, other, c, d, to, i)
  {
    hide Fnv1a32, Word;
    if from < to {
      StaysApart(mix, other, c, d, from, to - 1, i);
      FnvInjective(Word(c, 64 * (to - 1) + 4 * i), MixWord(mix, c, to - 1, i), MixWord(other, d, to - 1, i));
    }
  }

  lemma {:induction false} StaysTogether(mix: Hash64, c: Bytes, d: Bytes, blocks: nat, i: nat)
    requires i < 16 && 64 * blocks <= |c| && 64 * blocks <= |d|
    requires forall q :: 0 <= q < blocks ==> Word(c, 64 * q + 4 * i) == Word(d, 64 * q + 4 * i)
    ensures MixWord(mix, c, blocks, i) == MixWord(mix, d, blocks, i)
  {
    if blocks > 0 {
      StaysTogether(mix, c, d, blocks - 1, i);
    }
  }

  lemma InputsApart(mix: Hash64, other: Hash64, c: Bytes, d: Bytes, i: nat)
    requires i < 16 && |c| == |d| && FoldsApart(mix, other, c, d, |c| / 64, i)
    ensures RoundInput(mix, c) != RoundInput(other, d)
  {
    RoundInputWord(mix, c, i);
    RoundInputWord(other, d, i);
  }

  /** A cell with one other word in its whole blocks hashes to another mix, or shows a SHA3-512 collision. */
  lemma OneWordMatters(hs: HashSuite, mix: Hash64, c: Bytes, d: Bytes, block: nat, i: nat)
    requires |c| == |d| && 64 * block + 64 <= |c| && i < 16
    requires var at := 64 * block + 4 * i;
             c[at..at + 4] != d[at..at + 4] && c[..at] == d[..at] && c[at + 4..] == d[at + 4..]
    ensures RoundMix(hs, mix, c) != RoundMix(hs, mix, d)
         || Collision(hs.sha3x512, RoundInput(mix, c), RoundInput(mix, d))
  {
    var at := 64 * block + 4 * i;
    forall q | 0 <= q < |c| / 64 && q != block
      ensures Word(c, 64 * q + 4 * i) == Word(d, 64 * q + 4 * i)
    {
      SameElsewhere(c, d, at, 64 * q + 4 * i);
    }
    OtherWord(c, d, at);
    hide Word, Fnv1a32;
    StaysTogether(mix, c, d, block, i);
    FnvInjective(MixWord(mix, c, block, i), Word(c, at), Word(d, at));
    StaysApart(mix, mix, c, d, block + 1, |c| / 64, i);
    InputsApart(mix, mix, c, d, i);
  }

  lemma OtherWord(c: Bytes, d: Bytes, at: nat)
    requires at + 4 <= |c| == |d| && c[at..at + 4] != d[at..at + 4]
    ensures Word(c, at) != Word(d, at)
  {
    WordIsLittleEndian(c, at);
    WordIsLittleEndian(d, at);
    if Word(c, at) == Word(d, at) {
      LittleEndianInjective(c[at..at + 4], d[at..at + 4]);
    }
  }

  lemma SameElsewhere(c: Bytes, d: Bytes, at: nat, pos: nat)
    requires |c| == |d| && at + 4 <= |c| && pos + 4 <= |c| && (pos + 4 <= at || at + 4 <= pos)
    requires c[..at] == d[..at] && c[at + 4..] == d[at + 4..]
    ensures Word(c, pos) == Word(d, pos)
  {
    forall k | pos <= k < pos + 4
      ensures c[k] == d[k]
    {
      if k < at {
        assert c[k] == c[..at][k] && d[k] == d[..at][k];
      } else {
        assert c[k] == c[at + 4..][k - at - 4] && d[k] == d[at + 4..][k - at - 4];
      }
    }
  }

  /** Another mix over the same cell hashes to another next mix, or shows a SHA3-512 collision. */
  lemma MixMatters(hs: HashSuite, mix: Hash64, other: Hash64, cell: Bytes)
    requires mix != other
    ensures RoundMix(hs, mix, cell) != RoundMix(hs, other, cell)
         || Collision(hs.sha3x512, RoundInput(mix, cell), RoundInput(other, cell))
  {
    var i: nat :| i < 16 && mix[4 * i..4 * i + 4] != other[4 * i..4 * i + 4] by {
      if forall i :: 0 <= i < 16 ==> mix[4 * i..4 * i + 4] == other[4 * i..4 * i + 4] {
        SameWordsSameBytes(mix, other);
      }
    }
    OtherWord(mix, other, 4 * i);
    hide Word, Fnv1a32;
    StaysApart(mix, other, cell, cell, 0, |cell| / 64, i);
    InputsApart(mix, other, cell, cell, i);
  }

  /** On a DAG of 2^32 cells, another first word or another round reads another cell. */
  lemma ReadsAreSpread(mix: Hash64, other: Hash64, round: nat, later: nat)
    ensures ReadIndex(mix, round, TWO_32) == ReadIndex(other, round, TWO_32) <==> mix[..4] == other[..4]
    ensures ReadIndex(mix, round, TWO_32) == ReadIndex(mix, later, TWO_32) <==> round % TWO_32 == later % TWO_32
  {
    hide Word, Fnv1a32, ReadIndex;
    ReadIs(mix, round);
    ReadIs(other, round);
    ReadIs(mix, later);
    FnvInjective(round % TWO_32, Word(mix, 0), Word(other, 0));
    FnvInjective(Word(mix, 0), round % TWO_32, later % TWO_32);
    SameFirstWord(mix, other);
  }

  lemma ReadIs(mix: Hash64, round: nat)
    ensures ReadIndex(mix, round, TWO_32) == Fnv1a32(round % TWO_32, Word(mix, 0))
  {
    hide Word, Fnv1a32;
    SmallRemainder(Fnv1a32(round % TWO_32, Word(mix, 0)), TWO_32);
  }

  lemma SameFirstWord(mix: Hash64, other: Hash64)
    ensures Word(mix, 0) == Word(other, 0) <==> mix[..4] == other[..4]
  {
    WordIsLittleEndian(mix, 0);
    WordIsLittleEndian(other, 0);
    hide Word, FromLittleEndian;
    if Word(mix, 0) == Word(other, 0) {
      LittleEndianInjective(mix[..4], other[..4]);
    }
  }

  /** A smaller DAG is read at the same number, modulo its size. */
  lemma ReadWraps(mix: Hash64, round: nat, nodeCount: nat)
    requires nodeCount > 0
    ensures ReadIndex(mix, round, nodeCount) == ReadIndex(mix, round, TWO_32) % nodeCount
  {
    hide Word, Fnv1a32;
  }

  /** The first mix commits to the header and the nonce. */
  lemma StartCommits(hs: HashSuite, h: Bytes, m: Uint64, g: Bytes, n: Uint64)
    requires InitialHash(hs, h, m) == InitialHash(hs, g, n)
    ensures (h == g && m == n) || Collision(hs.sha3x512, h + NonceBytes(m), g + NonceBytes(n))
  {
    var a, b := h + NonceBytes(m), g + NonceBytes(n);
    if a == b {
      assert a[..|h|] == h && b[..|g|] == g && a[|h|..] == NonceBytes(m) && b[|g|..] == NonceBytes(n);
      NonceRoundTrip(m);
      NonceRoundTrip(n);
    }
  }

  /** The result commits to the first and the last mix, and the solution hash to the nonce as well. */
  lemma EndCommits(hs: HashSuite, i: Hash64, x: Hash64, m: Uint64, j: Hash64, y: Hash64, n: Uint64)
    ensures PowOf(hs, i, x) == PowOf(hs, j, y) ==> (i == j && x == y) || Collision(hs.blake3, i + x, j + y)
    ensures SolutionHashOf(hs, i, x, m) == SolutionHashOf(hs, j, y, n) ==>
      (i == j && x == y && m == n) || Collision(hs.blake3, i + x + NonceBytes(m), j + y + NonceBytes(n))
  {
    hide NonceBytes;
    BothHalves(i, x, j, y);
    var a, b := i + x + NonceBytes(m), j + y + NonceBytes(n);
    if a == b {
      assert a[..128] == i + x && b[..128] == j + y && a[128..] == NonceBytes(m) && b[128..] == NonceBytes(n);
      NonceRoundTrip(m);
      NonceRoundTrip(n);
    }
  }

  lemma BothHalves(i: Hash64, x: Hash64, j: Hash64, y: Hash64)
    ensures i + x == j + y <==> i == j && x == y
  {
    assert (i + x)[..64] == i && (j + y)[..64] == j && (i + x)[64..] == x && (j + y)[64..] == y;
  }

  // ----- audit draws -----

  /** Draw i is the first word of the SHA3-256 digest of the solution hash and of i in four bytes. */
  lemma AuditDraw(hs: HashSuite, solutionHash: Hash32, cellCount: nat, i: Uint32, counter: Bytes)
    requires cellCount > 0 && |counter| == 4 && FromLittleEndian(counter) == i
    ensures AuditIndexAt(hs, solutionHash, cellCount, i)
         == FromLittleEndian(hs.sha3x256(solutionHash + counter)[..4]) % cellCount
  {
    LittleEndianOfValue(counter);
    var digest := hs.sha3x256(solutionHash + counter);
    WordIsLittleEndian(digest, 0);
    QuotientRemainder(Word(digest, 0), cellCount);
  }

  /** The suite with SHA3-256 replaced by a function that draws the given list. */
  ghost function Drawing(hs: HashSuite, list: seq<Uint32>): HashSuite {
    hs.(sha3x256 := (input: Bytes) => Drawn(list, input))
  }

  function Drawn(list: seq<Uint32>, input: Bytes): Hash32 {
    if |input| != 36 || FromLittleEndian(input[32..]) >= |list| then ZERO_HASH
    else LittleEndian(list[FromLittleEndian(input[32..])], 4) + ZeroBytes(28)
  }

  /** The draws are free of each other: every list of 32 indices is what some hash function draws. */
  lemma DrawsAreFree(hs: HashSuite, solutionHash: Hash32, cellCount: nat, list: seq<Uint32>)
    requires cellCount > 0 && |list| == 32 && forall i :: 0 <= i < 32 ==> list[i] < cellCount
    ensures AuditIndices(Drawing(hs, list), solutionHash, cellCount, AUDIT_CELL_COUNT) == list
  {
    forall i | 0 <= i < 32
      ensures AuditIndexAt(Drawing(hs, list), solutionHash, cellCount, i) == list[i]
    {
      DrawsItem(hs, solutionHash, cellCount, list, i);
    }
  }

  lemma DrawsItem(hs: HashSuite, solutionHash: Hash32, cellCount: nat, list: seq<Uint32>, i: Uint32)
    requires i < |list| && list[i] < cellCount
    ensures AuditIndexAt(Drawing(hs, list), solutionHash, cellCount, i) == list[i]
  {
    hide LittleEndian, FromLittleEndian, Pow256, Drawn, AuditIndexAt;
    var counter := LittleEndian(i, 4);
    FourBytesBound();
    LittleEndianRoundTrip(i, 4);
    DrawnItem(solutionHash, list, i);
    AuditDraw(Drawing(hs, list), solutionHash, cellCount, i, counter);
    SmallRemainder(list[i], cellCount);
  }

  lemma DrawnItem(solutionHash: Hash32, list: seq<Uint32>, i: Uint32)
    requires i < |list|
    ensures FromLittleEndian(Drawn(list, solutionHash + LittleEndian(i, 4))[..4]) == list[i]
  {
    hide LittleEndian, FromLittleEndian, Pow256;
    FourBytesBound();
    var counter, first := LittleEndian(i, 4), LittleEndian(list[i], 4);
    LittleEndianRoundTrip(i, 4);
    LittleEndianRoundTrip(list[i], 4);
    assert (solutionHash + counter)[32..] == counter;
    assert (first + ZeroBytes(28))[..4] == first;
  }

  lemma SmallRemainder(n: nat, d: nat)
    requires n < d
    ensures n % d == n
  {
  }

  /** The walk over no cells is all zero bytes and reads nothing. */
  lemma EmptyWalk()
    ensures EMPTY_TRACE.accessed == []
    ensures forall i :: 0 <= i < 64 ==> EMPTY_TRACE.initialHash[i] == 0 && EMPTY_TRACE.mixDigest[i] == 0
    ensures forall i :: 0 <= i < 32 ==> EMPTY_TRACE.result[i] == 0 && EMPTY_TRACE.solutionHash[i] == 0
  {
  }
}
