/**
 What proof of work means for a block, down to the hashes: the root it names is that of its freshly
 generated cells, its solution replays a walk over them, and the form it carries the solution in is
 irrelevant.
 */
module ProofOfWork {
  import opened Base
  import opened ChainSpec
  import opened Compact
  import opened DagGeneration
  import ForkChoice
  import opened Header
  import MerkleTree
  import MultiProof
  import opened Sealing
  import opened Solution
  import TraceHash
  import TraceLaws
  import ValidatorCache
  import Validity

  /** The cells the size and the seed of a header call for, generated one by one. */
  ghost predicate AreCells(hs: HashSuite, config: Spec, h: BlockHeader, cells: seq<Bytes>) {
    var spec := config.(dagSizeBytes := h.dagSizeBytes);
    && |cells| == spec.NodeCount()
    && forall i :: 0 <= i < |cells| ==> cells[i] == NodeFor(hs, spec, h.epochSeed, i)
  }

  ghost predicate AreLeaves(h: Bytes -> Hash32, cells: seq<Bytes>, leaves: seq<Hash32>) {
    |leaves| == |cells| && forall i :: 0 <= i < |cells| ==> leaves[i] == h(cells[i])
  }

  /** An accepted block names the root of the tree over the digests of its own cells. */
  lemma AcceptedRoot(hs: HashSuite, config: Spec, b: Block, cells: seq<Bytes>, leaves: seq<Hash32>)
    requires HeaderCells(hs, config, b.header) != [] && PowAccepts(hs, config, b)
    requires AreCells(hs, config, b.header, cells) && AreLeaves(hs.blake3, cells, leaves)
    ensures leaves != [] && b.header.dagMerkleRoot == MerkleTree.Root(hs.blake3, leaves)
  {
    hide NodeFor, Accepts, SubmittedSolution;
    assert cells == HeaderCells(hs, config, b.header);
    assert leaves == MultiProof.Leaves(hs.blake3, cells);
  }

  /** Naming any other root gets an accepted block refused. */
  lemma OtherRootRefused(hs: HashSuite, config: Spec, b: Block, root: Hash32)
    requires HeaderCells(hs, config, b.header) != [] && PowAccepts(hs, config, b) && root != b.header.dagMerkleRoot
    ensures var other := b.(header := b.header.(dagMerkleRoot := root));
            HeaderCells(hs, config, other.header) != [] && !PowAccepts(hs, config, other)
  {
    hide Accepts, SubmittedSolution, ValidatorCache.DagCells;
  }

  /**
   A block with a full solution and one with only its compact form get the same verdict; and with a full
   solution the compact form is not looked at.
   */
  lemma SameVerdict(hs: HashSuite, config: Spec, full: Block, short: Block)
    requires HeaderCells(hs, config, full.header) != [] && full.header == short.header
    requires full.solution.Some? && short.solution.None? && short.compact.Some?
    requires Encodes(full.solution.value, short.compact.value) && Distinct(short.compact.value.siblings)
    requires |Siblings(full.solution.value)| <= 0x1_0000_0000
    ensures PowAccepts(hs, config, full) <==> PowAccepts(hs, config, short)
  {
    CompactRoundTrip(full.solution.value, short.compact.value);
    hide Accepts, Encodes, Siblings, HeaderRoot;
  }

  /** Without a solution, or with a compact one that cannot be expanded, a block is refused. */
  lemma NoSolutionRefused(hs: HashSuite, config: Spec, b: Block)
    requires HeaderCells(hs, config, b.header) != [] && b.solution.None?
    requires b.compact.None? || !(RefsInBounds(b.compact.value.siblings, b.compact.value.miningCells) &&
                                  RefsInBounds(b.compact.value.siblings, b.compact.value.auditCells))
    ensures !PowAccepts(hs, config, b)
  {
  }

  /** What a full solution must be, written out. */
  ghost predicate IsProof(hs: HashSuite, config: Spec, h: BlockHeader, s: ColossusXSolution, first: Hash64,
                          nonceBytes: Bytes)
  {
    && |nonceBytes| == 8 && FromLittleEndian(nonceBytes) == s.nonce
    && first == hs.sha3x512(EncodeForMining(h) + nonceBytes)
    && |s.miningCells| == config.readsPerHash && |s.auditCells| == 32
    && FromBigEndian(hs.blake3(TraceLaws.Join(first, s.mixDigest))) <= FromBigEndian(h.target)
  }

  /** An accepted solution proves work on the mined bytes of its own header, for its own nonce. */
  lemma AcceptedProof(hs: HashSuite, config: Spec, b: Block, nonceBytes: Bytes)
    requires HeaderCells(hs, config, b.header) != [] && PowAccepts(hs, config, b)
    requires |nonceBytes| == 8 && FromLittleEndian(nonceBytes) == SubmittedSolution(b).value.nonce
    ensures var s := SubmittedSolution(b).value;
            IsProof(hs, config, b.header, s, hs.sha3x512(EncodeForMining(b.header) + nonceBytes), nonceBytes)
  {
    var s := SubmittedSolution(b).value;
    TraceLaws.NonceBytesUnique(s.nonce, nonceBytes);
    hide EncodeForMining, SubmittedSolution, HeaderRoot, FromLittleEndian, FromBigEndian, MiningOk, AuditOk,
      TraceHash.NonceBytes;
  }

  // ----- insertion with this proof of work -----

  /** The rules of a chain whose proof of work is the one the validator checks. */
  ghost predicate ChecksWork(rules: ForkChoice.Rules) {
    forall b :: rules.powOk(b) <==>
      HeaderCells(rules.hs, rules.spec, b.header) != [] && PowAccepts(rules.hs, rules.spec, b)
  }

  /** What it takes to be inserted, all clauses together. */
  lemma AcceptanceMeans(rules: ForkChoice.Rules, b: Block, parent: Option<BlockHeader>, now: int)
    requires rules.spec.Valid() && ChecksWork(rules) && rules.spec.algorithmVersion >= 2
    ensures var h := b.header;
            ForkChoice.BlockErrorOn(rules, b, parent, now).None? <==>
              && h.algorithmVersion == rules.spec.algorithmVersion && Validity.EpochOk(rules.hs, rules.spec, h)
              && Validity.TargetOk(h)
              && Validity.ParentOk(h, parent) && Validity.TimeOk(h, parent, now)
              && (exists i :: 0 <= i < 32 && h.dagMerkleRoot[i] != 0)
              && HeaderCells(rules.hs, rules.spec, h) != []
              && h.dagMerkleRoot == HeaderRoot(rules.hs, rules.spec, h)
              && SubmittedSolution(b).Some?
              && Accepts(rules.hs, rules.spec.(dagSizeBytes := h.dagSizeBytes), EncodeForMining(h), h.target,
                         HeaderRoot(rules.hs, rules.spec, h), SubmittedSolution(b).value)
  {
    Validity.FirstObjection(rules, b, parent, now);
    hide ForkChoice.BlockErrorOn, Accepts, SubmittedSolution, HeaderRoot, HeaderCells, EncodeForMining,
      Validity.EpochOk, Validity.TargetOk;
  }

  // ----- sealed blocks -----

  /** A sealed block is the given one but for its root, its nonce and its solution. */
  lemma SealedMeans(hs: HashSuite, config: Spec, backend: Backend, b: Block, sealed: Block, nonce: Uint64)
    requires SealedFrom(hs, config, backend, b, sealed, nonce)
    ensures var h, g := sealed.header, b.header;
            && h.version == g.version && h.algorithmVersion == g.algorithmVersion && h.height == g.height
            && h.parentHash == g.parentHash && h.timestamp == g.timestamp && h.target == g.target
            && h.epochSeed == g.epochSeed && h.dagSizeBytes == g.dagSizeBytes
            && h.txRoot == g.txRoot && h.stateRoot == g.stateRoot
            && h.nonce == nonce && h.dagMerkleRoot == HeaderRoot(hs, config, g)
            && sealed.transactions == b.transactions && sealed.solution.None? && sealed.compact.Some?
            && FromBigEndian(backend(EncodeForMining(h), nonce)) <= FromBigEndian(g.target)
  {
    NonceNotMined(MiningHeader(hs, config, b.header), nonce);
    hide EncodeForMining, HeaderRoot, HeaderCells, Encodes;
  }

  /** The search behind a seal starts at nonce zero and takes a nonce whose hash is at most the target. */
  lemma SearchMeans(backend: Backend, workers: Uint64, h: BlockHeader, maxNonces: Uint64, batch: bool, nonce: Uint64)
    ensures var s := SealSearch(backend, workers, h, maxNonces);
            && (s.hits(nonce) <==> FromBigEndian(backend(EncodeForMining(h), nonce)) <= FromBigEndian(h.target))
            && (RangeOf(s, batch).InRange(nonce) <==>
                  (maxNonces == 0 && !batch) || nonce < if maxNonces == 0 then 100000 else maxNonces)
  {
    hide EncodeForMining, FromBigEndian;
  }
}
