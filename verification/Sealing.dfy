/**
 Sealing and validating a block, end to end: mining a nonce, building and compacting the solution,
 and the check every other node makes. A sealed block is accepted, whatever is in either node's caches.
 */
module Sealing {
  import opened Base
  import Arithmetic
  import opened ChainSpec
  import ChainStore
  import opened Compact
  import ForkChoice
  import opened Header
  import MerkleBinding
  import opened MerkleTree
  import opened Solution
  import opened SolutionTheorems
  import Target
  import opened TraceHash
  import opened ValidatorCache
  import Miner

  function HeaderCells(hs: HashSuite, config: Spec, h: BlockHeader): (cells: seq<Cell>)
    ensures |cells| == SizedSpec(config, h.dagSizeBytes).NodeCount()
  {
    DagCells(hs, SizedSpec(config, h.dagSizeBytes), h.epochSeed)
  }

  function HeaderRoot(hs: HashSuite, config: Spec, h: BlockHeader): Hash32 {
    FreshRoot(hs, SizedSpec(config, h.dagSizeBytes), h.epochSeed)
  }

  /** The header a block is mined on. */
  function MiningHeader(hs: HashSuite, config: Spec, h: BlockHeader): BlockHeader {
    h.(dagMerkleRoot := HeaderRoot(hs, config, h))
  }

  function PowHash(hs: HashSuite, config: Spec, h: BlockHeader, nonce: Uint64): Hash32 {
    var cells := HeaderCells(hs, config, h);
    if cells == [] then EMPTY_TRACE.result
      else TraceOf(hs, cells, config.readsPerHash, EncodeForMining(h), nonce).result
  }

  predicate MeetsTarget(hs: HashSuite, config: Spec, h: BlockHeader, nonce: Uint64) {
    Target.Value(PowHash(hs, config, h, nonce)) <= Target.Value(h.target)
  }

  /** What the mining backend hashes a header and a nonce to, on the header's own DAG. */
  type Backend = (Bytes, Uint64) -> Hash32

  predicate BackendHits(backend: Backend, h: BlockHeader, nonce: Uint64) {
    Target.Value(backend(EncodeForMining(h), nonce)) <= Target.Value(h.target)
  }

  /** The nonce search behind a seal. */
  function SealSearch(backend: Backend, workers: Uint64, h: BlockHeader, maxNonces: Uint64): Miner.Search {
    Miner.Search(workers, 0, maxNonces, (nonce: Uint64) => BackendHits(backend, h, nonce))
  }

  function SolutionFor(hs: HashSuite, config: Spec, h: BlockHeader, nonce: Uint64): ColossusXSolution
    requires HeaderCells(hs, config, h) != []
  {
    HonestSolution(hs, HeaderCells(hs, config, h), config.readsPerHash, EncodeForMining(h), nonce)
  }

  /** A block as it leaves the miner: root and nonce filled in, the solution in compact form. */
  ghost predicate SealedFrom(hs: HashSuite, config: Spec, backend: Backend, b: Block, sealed: Block, nonce: Uint64) {
    var h := MiningHeader(hs, config, b.header);
    && sealed.header == h.(nonce := nonce) && sealed.transactions == b.transactions
    && HeaderCells(hs, config, h) != [] && BackendHits(backend, h, nonce)
    && sealed.solution.None? && sealed.compact.Some?
    && Encodes(SolutionFor(hs, config, h, nonce), sealed.compact.value) && Distinct(sealed.compact.value.siblings)
  }

  /** Mining, by the concurrent search or in one batch. */
  method Mine(s: Miner.Search, batch: bool, schedule: seq<nat>) returns (r: Option<Uint64>)
    requires s.Valid() && (!batch ==> Miner.Terminated(Miner.Run(s, schedule)))
    ensures r.Some? ==> s.hits(r.value) && RangeOf(s, batch).InRange(r.value)
    ensures r.Some? <==> HitExists(s, batch)
  {
    if batch {
      r := Miner.MineBatch(s);
      return;
    }
    Miner.AtMostOneResult(s, schedule);
    Miner.FinishedSearch(s, schedule);
    var m := Miner.Run(s, schedule);
    if |m.channel| == 0 {
      return None;
    }
    r := Some(m.channel[0]);
    assert m.channel[0] in m.channel;
  }

  lemma RootOfCells(hs: HashSuite, config: Spec, h: BlockHeader)
    requires HeaderCells(hs, config, h) != []
    ensures HeaderRoot(hs, config, h) == DagRoot(hs, HeaderCells(hs, config, h))
  {
  }

  lemma CellsAreSized(hs: HashSuite, config: Spec, h: BlockHeader)
    ensures MerkleBinding.SizedCells(HeaderCells(hs, config, h), COLOSSUSX_NODE_SIZE)
  {
  }

  /** The part of sealing that comes after the caches: mine, build, compact. */
  method SealOn(hs: HashSuite, config: Spec, backend: Backend, b: Block, s: Miner.Search, batch: bool,
                schedule: seq<nat>)
    returns (r: Result<Block>, ghost nonce: Uint64)
    requires config.Valid() && s.Valid() && (!batch ==> Miner.Terminated(Miner.Run(s, schedule)))
    requires s == SealSearch(backend, s.workers, MiningHeader(hs, config, b.header), s.maxNonces)
    ensures r.Ok? ==> SealedFrom(hs, config, backend, b, r.value, nonce) && RangeOf(s, batch).InRange(nonce)
    ensures HeaderCells(hs, config, b.header) != [] && HitExists(s, batch) ==> r.Ok?
  {
    hide HeaderCells, HeaderRoot, PowHash, Encodes, Distinct, HonestSolution;
    var h := MiningHeader(hs, config, b.header);
    nonce := 0;
    var mined := Mine(s, batch, schedule);
    if mined.None? {
      return Err("no solution found"), nonce;
    }
    nonce := mined.value;
    NonceNotMined(h, mined.value);
    SameCells(hs, config, b.header);
    var cells := HeaderCells(hs, config, h);
    CellsAreSized(hs, config, h);
    var header := EncodeForMining(h.(nonce := mined.value));
    var built := BuildColossusXSolutionStreaming(hs, config, header, mined.value, cells);
    if built.Err? {
      return Err(built.message), nonce;
    }
    RootOfCells(hs, config, h);
    if built.value.1 != h.dagMerkleRoot {
      assert false; // both are the root of the header's DAG
    }
    var compact := CompactColossusXSolution(built.value.0);
    r := Ok(Block(h.(nonce := mined.value), b.transactions, None, Some(compact)));
  }

  lemma SameCells(hs: HashSuite, config: Spec, h: BlockHeader)
    ensures HeaderCells(hs, config, MiningHeader(hs, config, h)) == HeaderCells(hs, config, h)
    ensures HeaderRoot(hs, config, MiningHeader(hs, config, h)) == HeaderRoot(hs, config, h)
    ensures MiningHeader(hs, config, h).dagMerkleRoot == HeaderRoot(hs, config, h)
  {
  }

  ghost predicate HitExists(s: Miner.Search, batch: bool) {
    exists n: Uint64 :: RangeOf(s, batch).InRange(n) && s.hits(n)
  }

  /** A batch search without a limit tries a fixed number of nonces. */
  function RangeOf(s: Miner.Search, batch: bool): Miner.Search {
    if batch && s.maxNonces == 0 then s.(maxNonces := Miner.DEFAULT_BATCH) else s
  }

  /**
   Seals a block. `granted` is what the allocator would give for a new DAG; `batch` and `schedule` say
   how the miner's backend works.
   */
  method SealBlock(v: Validator, backend: Backend, b: Block, maxNonces: Uint64, granted: Option<Bytes>, batch: bool,
                   schedule: seq<nat>)
    returns (r: Result<Block>, ghost nonce: Uint64)
    requires v.Valid() && ForkChoice.UsesSolution(v.config, b.header)
    requires v.config.initialDagSizeBytes != 0 ==> b.header.dagSizeBytes != 0
    requires var s := SealSearch(backend, v.workers, MiningHeader(v.hs, v.config, b.header), maxNonces);
             !batch ==> Miner.Terminated(Miner.Run(s, schedule))
    modifies v
    ensures v.Valid()
    ensures r.Ok? ==> SealedFrom(v.hs, v.config, backend, b, r.value, nonce)
    ensures v.LosesOnly(LosesMemory(v.config, b.header.dagSizeBytes, granted))
    ensures var s := SealSearch(backend, v.workers, MiningHeader(v.hs, v.config, b.header), maxNonces);
            && (r.Ok? ==> RangeOf(s, batch).InRange(nonce))
            && ((old(v.Available(b.header.epochSeed, b.header.dagSizeBytes, true, granted)) &&
                 HeaderCells(v.hs, v.config, b.header) != [] && HitExists(s, batch)) ==> r.Ok?)
  {
    hide LosesMemory, RangeOf, HitExists, Miner.Run, SealSearch, MiningHeader, HeaderCells, SealedFrom, FreshRoot,
      DagsRight, MemoryRight, KeysRight, RootsRight;
    nonce := 0;
    var dag := v.SharedMiningDag(b.header.epochSeed, b.header.dagSizeBytes, granted);
    if dag == null {
      return Err("dag not available"), nonce;
    }
    var merkleRoot := v.MerkleRootForDag(b.header.epochSeed, b.header.dagSizeBytes, dag);
    var h := b.header.(dagMerkleRoot := merkleRoot);
    IsMiningHeader(v.hs, v.config, b.header, merkleRoot);
    var s := SealSearch(backend, v.workers, h, maxNonces);
    SearchFields(backend, v.workers, h, maxNonces);
    r, nonce := SealOn(v.hs, v.config, backend, b, s, batch, schedule);
  }

  lemma IsMiningHeader(hs: HashSuite, config: Spec, h: BlockHeader, root: Hash32)
    requires root == FreshRoot(hs, SizedSpec(config, h.dagSizeBytes), h.epochSeed)
    ensures h.(dagMerkleRoot := root) == MiningHeader(hs, config, h)
  {
  }

  lemma SearchFields(backend: Backend, workers: Uint64, h: BlockHeader, maxNonces: Uint64)
    ensures var s := SealSearch(backend, workers, h, maxNonces); s.workers == workers && s.maxNonces == maxNonces
  {
  }

  // ----- validating -----

  /** The solution a block carries, in full or in compact form. */
  ghost function SubmittedSolution(b: Block): Option<ColossusXSolution> {
    if b.solution.Some? then b.solution
    else if b.compact.Some? && RefsInBounds(b.compact.value.siblings, b.compact.value.miningCells)
         && RefsInBounds(b.compact.value.siblings, b.compact.value.auditCells) then Some(Expanded(b.compact.value))
    else None
  }

  /** What proof of work means for a block, without any cache. */
  ghost predicate PowAccepts(hs: HashSuite, config: Spec, b: Block)
    requires HeaderCells(hs, config, b.header) != []
  {
    var s := SubmittedSolution(b);
    && s.Some? && b.header.dagMerkleRoot == HeaderRoot(hs, config, b.header)
    && Accepts(hs, SizedSpec(config, b.header.dagSizeBytes), EncodeForMining(b.header), b.header.target,
               HeaderRoot(hs, config, b.header), s.value)
  }

  method ReadSolution(b: Block) returns (s: Option<ColossusXSolution>)
    ensures s == SubmittedSolution(b)
  {
    if b.solution.Some? {
      return b.solution;
    }
    if b.compact.None? {
      return None;
    }
    var expanded := ExpandCompactColossusXSolution(b.compact.value);
    if expanded.Err? {
      return None;
    }
    s := Some(expanded.value);
  }

  /** The part of validation that comes after the caches. */
  method CheckSolution(hs: HashSuite, config: Spec, b: Block, solution: ColossusXSolution, root: Hash32)
    returns (ok: bool)
    requires HeaderCells(hs, config, b.header) != [] && SubmittedSolution(b) == Some(solution)
    requires root == HeaderRoot(hs, config, b.header)
    ensures ok <==> PowAccepts(hs, config, b)
  {
    hide SubmittedSolution, Accepts, HeaderRoot;
    if root != b.header.dagMerkleRoot {
      return false;
    }
    var verdict := VerifyColossusXSolution(hs, SizedSpec(config, b.header.dagSizeBytes), EncodeForMining(b.header),
                                           b.header.target, root, solution);
    ok := verdict == Accepted;
  }

  /** A solution against the root of a cached DAG. */
  method CheckOnDag(v: Validator, b: Block, solution: ColossusXSolution, dag: Dag) returns (ok: bool)
    requires v.Valid() && v.HoldsFor(dag, b.header.epochSeed, b.header.dagSizeBytes)
    requires HeaderCells(v.hs, v.config, b.header) != [] && SubmittedSolution(b) == Some(solution)
    modifies v`roots
    ensures v.Valid()
    ensures ok <==> PowAccepts(v.hs, v.config, b)
  {
    hide SubmittedSolution, PowAccepts, FreshRoot, HeaderCells, HoldsDag, RootsRight, RootRight, KeysRight,
      MemoryRight;
    var root := v.MerkleRootForDag(b.header.epochSeed, b.header.dagSizeBytes, dag);
    ok := CheckSolution(v.hs, v.config, b, solution, root);
  }

  /**
   Validates a block's proof of work; nothing is returned when there is no DAG to validate with. The
   verdict does not depend on what the caches hold. Where the configuration fixes its initial size, a
   header's size has been checked before: it holds at least one cell.
   */
  method ValidatePoW(v: Validator, b: Block, granted: Option<Bytes>) returns (ok: Option<bool>)
    requires v.Valid() && ForkChoice.UsesSolution(v.config, b.header)
    requires v.config.initialDagSizeBytes != 0 ==> b.header.dagSizeBytes >= COLOSSUSX_NODE_SIZE
    modifies v
    ensures v.Valid() && v.LosesOnly(LosesMemory(v.config, b.header.dagSizeBytes, granted))
    ensures ok.Some? <==> old(v.Available(b.header.epochSeed, b.header.dagSizeBytes, v.reusesMiningDag, granted))
    ensures ok.Some? ==>
      HeaderCells(v.hs, v.config, b.header) != [] && (ok.value <==> PowAccepts(v.hs, v.config, b))
  {
    hide SubmittedSolution, PowAccepts, FreshRoot, HeaderCells, ForkChoice.UsesSolution, LosesMemory,
      Validator.Available, Validator.HoldsFor, DagsRight, MemoryRight, KeysRight, RootsRight, HoldsDag, SizedSpec;
    var dag := v.ValidationDag(b.header.epochSeed, b.header.dagSizeBytes, granted);
    if dag == null {
      return None;
    }
    SizedHeaderHasCells(v.hs, v.config, b.header);
    var solution := ReadSolution(b);
    if solution.None? {
      NoSolution(v.hs, v.config, b);
      return Some(false);
    }
    var accepted := CheckOnDag(v, b, solution.value, dag);
    ok := Some(accepted);
  }

  lemma NoSolution(hs: HashSuite, config: Spec, b: Block)
    requires HeaderCells(hs, config, b.header) != [] && SubmittedSolution(b).None?
    ensures !PowAccepts(hs, config, b)
  {
  }

  /** A valid specification whose size is at least one cell has cells. */
  lemma SizedHeaderHasCells(hs: HashSuite, config: Spec, h: BlockHeader)
    requires config.Valid() && SizedSpec(config, h.dagSizeBytes).Valid()
    requires config.initialDagSizeBytes != 0 ==> h.dagSizeBytes >= COLOSSUSX_NODE_SIZE
    ensures HeaderCells(hs, config, h) != []
  {
    SizedSpecValid(config, h.dagSizeBytes);
    NodeCountBound(SizedSpec(config, h.dagSizeBytes));
  }

  /**
   What sealing and validating ask of a header, header validation has established: its DAG has a cell,
   and no memory is lost on it.
   */
  lemma ValidatedHeaderHasCells(rules: ForkChoice.Rules, h: BlockHeader, parent: Option<BlockHeader>, now: int)
    requires rules.spec.Valid() && ForkChoice.HeaderError(rules, h, parent, now).None?
    ensures h.dagSizeBytes >= COLOSSUSX_NODE_SIZE && HeaderCells(rules.hs, rules.spec, h) != []
    ensures forall granted :: !LosesMemory(rules.spec, h.dagSizeBytes, granted)
  {
    hide DagCells;
    var epoch := rules.spec.EpochOf(h.height);
    DagSizeIsIdeal(rules.spec, epoch);
    if epoch > 0 {
      DagSizeIsIdeal(rules.spec, epoch - 1);
    }
    hide Spec.DagSizeForEpoch, Spec.EpochOf;
    SizedSpecValid(rules.spec, h.dagSizeBytes);
    NodeCountBound(SizedSpec(rules.spec, h.dagSizeBytes));
  }

  /** What is said of a header by itself; nothing when there is no DAG to compare its root with. */
  datatype HeaderVerdict = Fine | Refused(error: ForkChoice.InsertError) | NoDag

  /** The root a header names against the one of its DAG. */
  method ValidateDagRoot(v: Validator, h: BlockHeader, granted: Option<Bytes>) returns (verdict: HeaderVerdict)
    requires v.Valid() && (v.config.initialDagSizeBytes != 0 ==> h.dagSizeBytes != 0)
    modifies v
    ensures v.Valid() && v.LosesOnly(LosesMemory(v.config, h.dagSizeBytes, granted))
    ensures verdict ==
      if !old(v.Available(h.epochSeed, h.dagSizeBytes, v.reusesMiningDag, granted)) then NoDag
      else if h.dagMerkleRoot == HeaderRoot(v.hs, v.config, h) then Fine
      else Refused(ForkChoice.InvalidPoW)
  {
    hide LosesMemory, FreshRoot, Validator.Available, Validator.HoldsFor, DagsRight, MemoryRight, KeysRight, RootsRight,
      HoldsDag, SizedSpec;
    var dag := v.ValidationDag(h.epochSeed, h.dagSizeBytes, granted);
    if dag == null {
      return NoDag;
    }
    var root := v.MerkleRootForDag(h.epochSeed, h.dagSizeBytes, dag);
    verdict := if root == h.dagMerkleRoot then Fine else Refused(ForkChoice.InvalidPoW);
  }

  /** The checks of an insertion, and then the root the header names against the DAG's own. */
  method ValidateHeader(v: Validator, rules: ForkChoice.Rules, store: ChainStore.MemoryStore, h: BlockHeader, now: int,
                        granted: Option<Bytes>) returns (verdict: HeaderVerdict)
    requires v.Valid() && rules.hs == v.hs && rules.spec == v.config
    modifies v
    ensures v.Valid() && v.LosesOnly(false)
    ensures var err := ForkChoice.HeaderError(rules, h, old(store.View().HeaderOf(h.parentHash)), now);
            verdict ==
              if err.Some? then Refused(err.value)
              else if !ForkChoice.UsesSolution(v.config, h) then Fine
              else if !old(v.Available(h.epochSeed, h.dagSizeBytes, v.reusesMiningDag, granted)) then NoDag
              else if h.dagMerkleRoot == HeaderRoot(v.hs, v.config, h) then Fine
              else Refused(ForkChoice.InvalidPoW)
  {
    assert v.config.Valid();
    hide ForkChoice.HeaderError, ForkChoice.UsesSolution, LosesMemory, HeaderCells, HeaderRoot, Validator.Available,
      Validator.Valid;
    var err := ForkChoice.ValidateHeader(rules, store, h, now);
    if err.Some? {
      return Refused(err.value);
    }
    if !ForkChoice.UsesSolution(v.config, h) {
      return Fine;
    }
    ValidatedHeaderHasCells(rules, h, store.View().HeaderOf(h.parentHash), now);
    verdict := ValidateDagRoot(v, h, granted);
  }

  // ----- sealed blocks are accepted -----

  lemma DescribesHeader(hs: HashSuite, config: Spec, h: BlockHeader)
    requires config.Valid() && HeaderCells(hs, config, h) != []
    ensures DescribesDag(SizedSpec(config, h.dagSizeBytes), HeaderCells(hs, config, h))
  {
    CellsAreSized(hs, config, h);
  }

  /** The honest solution for the sealed header, which is the one for the header it was mined on. */
  lemma SealedSolution(hs: HashSuite, config: Spec, backend: Backend, b: Block, sealed: Block, nonce: Uint64)
    requires SealedFrom(hs, config, backend, b, sealed, nonce)
    ensures HeaderCells(hs, config, sealed.header) == HeaderCells(hs, config, b.header) != []
    ensures sealed.header.dagMerkleRoot == HeaderRoot(hs, config, sealed.header)
    ensures HeaderRoot(hs, config, sealed.header) == DagRoot(hs, HeaderCells(hs, config, sealed.header))
    ensures SolutionFor(hs, config, sealed.header, nonce) ==
      SolutionFor(hs, config, MiningHeader(hs, config, b.header), nonce)
    ensures BackendHits(backend, sealed.header, nonce)
  {
    NonceNotMined(MiningHeader(hs, config, b.header), nonce);
    RootOfCells(hs, config, sealed.header);
  }

  /** Compacting changes at most proofs: the audit cells keep their whole cells as data. */
  lemma ExpandedAuditData(hs: HashSuite, config: Spec, h: BlockHeader, nonce: Uint64, c: CompactSolution)
    requires HeaderCells(hs, config, h) != [] && Encodes(SolutionFor(hs, config, h, nonce), c)
    requires RefsInBounds(c.siblings, c.miningCells) && RefsInBounds(c.siblings, c.auditCells)
    ensures forall cell :: cell in Expanded(c).auditCells ==> |cell.data| == COLOSSUSX_NODE_SIZE
  {
    var s := SolutionFor(hs, config, h, nonce);
    CellsAreSized(hs, config, h);
    forall k | 0 <= k < |Expanded(c).auditCells|
      ensures |Expanded(c).auditCells[k].data| == COLOSSUSX_NODE_SIZE
    {
      assert EncodesCell(c.siblings, s.auditCells[k], c.auditCells[k]);
    }
  }

  /** A solution that does not survive its compact form is refused, or gives away a collision. */
  lemma WrappedIsRefused(hs: HashSuite, config: Spec, sealed: Block, s: ColossusXSolution, nonce: Uint64)
    requires config.Valid() && HeaderCells(hs, config, sealed.header) != []
    requires s == SolutionFor(hs, config, sealed.header, nonce) && sealed.solution.None? && sealed.compact.Some?
    requires Encodes(s, sealed.compact.value) && SubmittedSolution(sealed).Some? && SubmittedSolution(sealed).value != s
    requires PowAccepts(hs, config, sealed)
    ensures SomeCellRevealsCollision(hs, HeaderCells(hs, config, sealed.header), SubmittedSolution(sealed).value)
  {
    var h, submitted := sealed.header, SubmittedSolution(sealed).value;
    var cells := HeaderCells(hs, config, h);
    RootOfCells(hs, config, h);
    DescribesHeader(hs, config, h);
    ExpandedAuditData(hs, config, h, nonce, sealed.compact.value);
    if !SomeCellRevealsCollision(hs, cells, submitted) {
      AcceptedSolutionIsHonest(hs, SizedSpec(config, h.dagSizeBytes), cells, EncodeForMining(h), h.target, submitted);
    }
  }

  /**
   As long as its distinct siblings can be numbered with 32 bits, a sealed block is accepted if and only
   if the ColossusX hash of its nonce meets the target; past that, it is accepted only when its proofs
   give away a BLAKE3 collision.
   */
  lemma SealedIsAccepted(hs: HashSuite, config: Spec, backend: Backend, b: Block, sealed: Block, nonce: Uint64)
    requires config.Valid() && SealedFrom(hs, config, backend, b, sealed, nonce)
    ensures HeaderCells(hs, config, sealed.header) != [] && SubmittedSolution(sealed).Some?
    ensures |Siblings(SolutionFor(hs, config, sealed.header, nonce))| <= TWO_32 ==>
      (PowAccepts(hs, config, sealed) <==>
        config.readsPerHash < TWO_63 && MeetsTarget(hs, config, sealed.header, nonce))
    ensures |Siblings(SolutionFor(hs, config, sealed.header, nonce))| > TWO_32 && PowAccepts(hs, config, sealed) ==>
      SomeCellRevealsCollision(hs, HeaderCells(hs, config, sealed.header), SubmittedSolution(sealed).value)
  {
    var h := sealed.header;
    var s := SolutionFor(hs, config, h, nonce);
    SealedSolution(hs, config, backend, b, sealed, nonce);
    CompactRoundTrip(s, sealed.compact.value);
    DescribesHeader(hs, config, h);
    if |Siblings(s)| <= TWO_32 {
      var spec := SizedSpec(config, h.dagSizeBytes);
      HonestSolutionAccepted(hs, spec, HeaderCells(hs, config, h), EncodeForMining(h), h.target, nonce);
    } else if PowAccepts(hs, config, sealed) {
      WrappedIsRefused(hs, config, sealed, s, nonce);
    }
  }

  // ----- how many siblings there can be -----

  lemma {:induction false} ProofSize(proof: seq<Hash32>)
    ensures |set h | h in proof| <= |proof|
  {
    if proof != [] {
      var init, last := proof[..|proof| - 1], proof[|proof| - 1];
      ProofSize(init);
      assert proof == init + [last];
      assert (set h | h in proof) == (set h | h in init) + {last};
    }
  }

  lemma {:induction false} SiblingCount(cells: seq<SolutionCell>, depth: nat)
    requires forall k {:trigger cells[k]} :: 0 <= k < |cells| ==> |cells[k].proof| == depth
    ensures |SiblingsOf(cells)| <= |cells| * depth
  {
    hide Occurs;
    if cells != [] {
      var init, last := cells[..|cells| - 1], cells[|cells| - 1];
      SiblingCount(init, depth);
      ProofSize(last.proof);
      UnionSize(SiblingsOf(init), set h | h in last.proof);
      OneMoreTimes(|init|, depth);
    }
  }

  lemma UnionSize(a: set<Hash32>, b: set<Hash32>)
    ensures |a + b| <= |a| + |b|
  {
  }

  lemma OneMoreTimes(n: nat, k: nat)
    ensures (n + 1) * k == n * k + k
  {
  }

  lemma DepthBound(n: nat)
    requires 0 < n < 0x100_0000_0000_0000
    ensures Depth(n) <= 56
  {
    DepthIsCeilLog(n);
    if Depth(n) > 56 {
      Pow2Monotone(56, Depth(n) - 1);
      Pow2Of56();
    }
  }

  lemma {:induction false} Pow2Monotone(a: nat, b: nat)
    requires a <= b
    ensures Pow2(a) <= Pow2(b)
  {
    if a < b {
      Pow2Monotone(a, b - 1);
    }
  }

  lemma Pow2Of56()
    ensures Pow2(56) == 0x100_0000_0000_0000
  {
    assert Pow2(8) == 0x100;
    assert Pow2(16) == 0x1_0000;
    assert Pow2(24) == 0x100_0000;
    assert Pow2(32) == 0x1_0000_0000;
    assert Pow2(40) == 0x100_0000_0000;
    assert Pow2(48) == 0x1_0000_0000_0000;
  }

  /** A walk short enough cannot produce more siblings than 32 bits can number. */
  lemma FewSiblings(hs: HashSuite, config: Spec, h: BlockHeader, nonce: Uint64)
    requires config.Valid() && HeaderCells(hs, config, h) != []
    requires (config.readsPerHash + AUDIT_CELL_COUNT) * 56 <= TWO_32
    ensures |Siblings(SolutionFor(hs, config, h, nonce))| <= TWO_32
  {
    var s := SolutionFor(hs, config, h, nonce);
    var depth := Depth(|HeaderCells(hs, config, h)|);
    FewCells(hs, config, h);
    ProofDepths(hs, config, h, nonce);
    hide SolutionFor, HeaderCells, SiblingsOf;
    SiblingCount(s.miningCells, depth);
    SiblingCount(s.auditCells, depth);
    Arithmetic.MulMonotone(depth, 56, |s.miningCells|);
    Arithmetic.MulMonotone(depth, 56, |s.auditCells|);
  }

  lemma FewCells(hs: HashSuite, config: Spec, h: BlockHeader)
    requires HeaderCells(hs, config, h) != [] && config.Valid()
    ensures Depth(|HeaderCells(hs, config, h)|) <= 56
  {
    DepthBound(|HeaderCells(hs, config, h)|);
  }

  lemma ProofDepths(hs: HashSuite, config: Spec, h: BlockHeader, nonce: Uint64)
    requires HeaderCells(hs, config, h) != []
    ensures var s := SolutionFor(hs, config, h, nonce);
            var depth := Depth(|HeaderCells(hs, config, h)|);
            && |s.miningCells| == config.readsPerHash && |s.auditCells| == AUDIT_CELL_COUNT
            && (forall k {:trigger s.miningCells[k]} :: 0 <= k < |s.miningCells| ==> |s.miningCells[k].proof| == depth)
            && (forall k {:trigger s.auditCells[k]} :: 0 <= k < |s.auditCells| ==> |s.auditCells[k].proof| == depth)
  {
    hide ReadIndex, RoundMix, ProofStep, Climb, HeaderCells;
  }

  /** The backend computes the ColossusX hash on the DAG of a header. */
  ghost predicate IsColossusX(hs: HashSuite, config: Spec, backend: Backend, h: BlockHeader) {
    forall nonce: Uint64 :: backend(EncodeForMining(h), nonce) == PowHash(hs, config, h, nonce)
  }

  /** With a walk that short, every block sealed with the ColossusX hash is accepted by every validator of the chain. */
  lemma EverySealedBlockIsAccepted(hs: HashSuite, config: Spec, backend: Backend, b: Block, sealed: Block,
                                   nonce: Uint64)
    requires config.Valid() && (config.readsPerHash + AUDIT_CELL_COUNT) * 56 <= TWO_32
    requires IsColossusX(hs, config, backend, sealed.header) && SealedFrom(hs, config, backend, b, sealed, nonce)
    ensures HeaderCells(hs, config, sealed.header) != [] && PowAccepts(hs, config, sealed)
  {
    SealedSolution(hs, config, backend, b, sealed, nonce);
    FewSiblings(hs, config, sealed.header, nonce);
    SealedIsAccepted(hs, config, backend, b, sealed, nonce);
  }

  // ----- what the header's nonce is for -----

  /**
   Proof of work binds the nonce inside the solution. The header's own nonce is not part of what is
   mined on, so any other value there is accepted or refused just the same.
   */
  lemma HeaderNonceIsFree(hs: HashSuite, config: Spec, b: Block, nonce: Uint64)
    requires HeaderCells(hs, config, b.header) != []
    ensures var other := b.(header := b.header.(nonce := nonce));
            && HeaderCells(hs, config, other.header) != []
            && (PowAccepts(hs, config, other) <==> PowAccepts(hs, config, b))
  {
    NonceNotMined(b.header, nonce);
  }
}
