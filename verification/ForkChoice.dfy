/**
 Inserting blocks and choosing the best chain. The invariant ties every stored block to a path of
 parents back to height zero, its work to the work along that path, and the tip to the best block.
 */
module ForkChoice {
  import opened Base
  import opened ChainSpec
  import opened ChainStore
  import opened Codec
  import opened Header
  import opened Target

  /** The rules of a chain. Block hashing and the check of the proof of work enter as functions. */
  datatype Rules = Rules(hs: HashSuite, spec: Spec, hashOf: BlockHeader -> Hash32, powOk: Block -> bool)

  const MAX_FUTURE_SECONDS: int := 7200

  datatype InsertError = InvalidEpoch | InvalidTarget | InvalidParent | InvalidTimestamp | InvalidPoW | NotFound

  function ClaimOf(h: BlockHeader): EpochClaim {
    EpochClaim(h.height, h.dagSizeBytes, h.epochSeed)
  }

  /** Where a header stands in the chain, given its parent's header if there is one. */
  function LinkError(h: BlockHeader, parent: Option<BlockHeader>): Option<InsertError> {
    if h.height == 0 then
      if h.parentHash != ZERO_HASH then Some(InvalidParent) else None
    else if parent.None? then Some(InvalidParent)
    else if Wrap64(parent.value.height + 1) != h.height then Some(InvalidParent)
    else if h.timestamp <= parent.value.timestamp then Some(InvalidTimestamp)
    else None
  }

  function HeaderError(rules: Rules, h: BlockHeader, parent: Option<BlockHeader>, now: int): Option<InsertError>
    requires rules.spec.Valid()
  {
    if h.algorithmVersion != rules.spec.algorithmVersion then Some(InvalidEpoch)
    else if !EpochAcceptable(rules.hs, rules.spec, ClaimOf(h)) then Some(InvalidEpoch)
    else if h.target == ZERO_HASH then Some(InvalidTarget)
    else if LinkError(h, parent).Some? then LinkError(h, parent)
    else if h.timestamp > now + MAX_FUTURE_SECONDS then Some(InvalidTimestamp)
    else if UsesSolution(rules.spec, h) then if h.dagMerkleRoot == ZERO_HASH then Some(InvalidPoW) else None
    else if !rules.powOk(Block(h, [], None, None)) then Some(InvalidPoW)
    else None
  }

  /** Blocks whose proof of work is a ColossusX solution; the others use the legacy hash of the header alone. */
  predicate UsesSolution(spec: Spec, h: BlockHeader) {
    h.algorithmVersion >= 2 || spec.mode == MODE_COLOSSUSX
  }

  /** The first objection to a block on top of the given parent. */
  function BlockErrorOn(rules: Rules, b: Block, parent: Option<BlockHeader>, now: int): Option<InsertError>
    requires rules.spec.Valid()
  {
    var err := HeaderError(rules, b.header, parent, now);
    if err.Some? then err
    else if !rules.powOk(b) then Some(InvalidPoW)
    else None
  }

  function BlockError(rules: Rules, c: Chain, b: Block, now: int): Option<InsertError>
    requires rules.spec.Valid()
  {
    BlockErrorOn(rules, b, c.HeaderOf(b.header.parentHash), now)
  }

  // ----- selection -----

  /** More work wins; equal work is decided by the hash whose hex string comes first. */
  function SelectBestChainByTotalWork(currentHash: Hash32, currentWork: int, candidateHash: Hash32,
                                      candidateWork: int): Hash32 {
    if candidateWork > currentWork then candidateHash
    else if candidateWork < currentWork then currentHash
    else if StringLess(Hex(candidateHash), Hex(currentHash)) then candidateHash
    else currentHash
  }

  /** A strict order on blocks: by work, then by the smaller hash value. */
  predicate Beats(a: Hash32, aWork: int, b: Hash32, bWork: int) {
    aWork > bWork || (aWork == bWork && Value(a) < Value(b))
  }

  lemma BeatsIsTotalOrder(a: Hash32, aWork: int, b: Hash32, bWork: int, c: Hash32, cWork: int)
    ensures !(Beats(a, aWork, b, bWork) && Beats(b, bWork, a, aWork))
    ensures Beats(a, aWork, b, bWork) && Beats(b, bWork, c, cWork) ==> Beats(a, aWork, c, cWork)
    ensures a != b ==> Beats(a, aWork, b, bWork) || Beats(b, bWork, a, aWork)
  {
    BytesOrder(a, b);
  }

  /** Selection keeps the winner of the two in that order. */
  lemma SelectionIsMaximum(currentHash: Hash32, currentWork: int, candidateHash: Hash32, candidateWork: int)
    ensures SelectBestChainByTotalWork(currentHash, currentWork, candidateHash, candidateWork)
         == if Beats(candidateHash, candidateWork, currentHash, currentWork) then candidateHash else currentHash
  {
    HexOrder(candidateHash, currentHash);
    BytesOrder(candidateHash, currentHash);
  }

  /** The candidate is chosen for more work, and for the smaller hash when the work is equal. */
  lemma SelectionMeans(currentHash: Hash32, currentWork: int, candidateHash: Hash32, candidateWork: int)
    ensures var chosen := SelectBestChainByTotalWork(currentHash, currentWork, candidateHash, candidateWork);
            chosen == if candidateWork > currentWork ||
                         (candidateWork == currentWork && FromBigEndian(candidateHash) < FromBigEndian(currentHash))
                      then candidateHash else currentHash
  {
    SelectionIsMaximum(currentHash, currentWork, candidateHash, candidateWork);
  }

  // ----- insertion -----

  datatype InsertResult = Inserted(work: nat, becameTip: bool) | Rejected(error: InsertError)

  /** The total work of a block on top of the given chain. */
  function TotalWorkOn(c: Chain, h: BlockHeader): Option<nat> {
    if h.height == 0 then Some(CalcBlockWork(h.target))
    else
      match c.WorkOf(h.parentHash)
      case Some(parentWork) => Some(CalcBlockWork(h.target) + parentWork)
      case None => None
  }

  /** Stores a block with its total work and lets it compete for the tip. */
  function StoreAndCompete(hashOf: BlockHeader -> Hash32, c: Chain, b: Block, work: nat): (Chain, InsertResult) {
    var hash := hashOf(b.header);
    var stored := c.Store(hash, b, work);
    match stored.CurrentTip()
    case None => (stored.MoveTip(hash), Inserted(work, true))
    case Some((tip, tipWork)) =>
      if SelectBestChainByTotalWork(hashOf(tip.header), tipWork, hash, work) == hash
      then (stored.MoveTip(hash), Inserted(work, true))
      else (stored, Inserted(work, false))
  }

  function InsertValid(hashOf: BlockHeader -> Hash32, c: Chain, b: Block): (Chain, InsertResult) {
    var hash := hashOf(b.header);
    if hash in c.blocks then (c, if hash in c.work then Inserted(c.work[hash], false) else Rejected(NotFound))
    else
      match TotalWorkOn(c, b.header)
      case None => (c, Rejected(NotFound))
      case Some(work) => StoreAndCompete(hashOf, c, b, work)
  }

  /** The state and answer of one uninterrupted insertion. */
  function Insert(rules: Rules, c: Chain, b: Block, now: int): (Chain, InsertResult)
    requires rules.spec.Valid()
  {
    var err := BlockError(rules, c, b, now);
    if err.Some? then (c, Rejected(err.value)) else InsertValid(rules.hashOf, c, b)
  }

  method ValidateHeader(rules: Rules, store: MemoryStore, h: BlockHeader, now: int) returns (err: Option<InsertError>)
    requires rules.spec.Valid()
    ensures err == HeaderError(rules, h, store.View().HeaderOf(h.parentHash), now)
  {
    if h.algorithmVersion != rules.spec.algorithmVersion {
      return Some(InvalidEpoch);
    }
    var epochOk := ValidateEpochParameters(rules.hs, rules.spec, ClaimOf(h));
    if !epochOk {
      return Some(InvalidEpoch);
    }
    if h.target == ZERO_HASH {
      return Some(InvalidTarget);
    }
    var parent := store.GetHeader(h.parentHash);
    err := LinkError(h, parent);
    if err.Some? {
      return err;
    }
    if h.timestamp > now + MAX_FUTURE_SECONDS {
      return Some(InvalidTimestamp);
    }
    if h.algorithmVersion >= 2 || rules.spec.mode == MODE_COLOSSUSX {
      if h.dagMerkleRoot == ZERO_HASH {
        return Some(InvalidPoW);
      }
      return None;
    }
    if !rules.powOk(Block(h, [], None, None)) {
      return Some(InvalidPoW);
    }
  }

  method InsertBlock(rules: Rules, store: MemoryStore, b: Block, now: int) returns (r: InsertResult)
    requires rules.spec.Valid() && store.hashOf == rules.hashOf
    modifies store
    ensures (store.View(), r) == Insert(rules, old(store.View()), b, now)
  {
    var err := ValidateHeader(rules, store, b.header, now);
    if err.Some? {
      return Rejected(err.value);
    }
    if !rules.powOk(b) {
      return Rejected(InvalidPoW);
    }
    r := InsertValidBlock(store, b);
  }

  method InsertValidBlock(store: MemoryStore, b: Block) returns (r: InsertResult)
    modifies store
    ensures (store.View(), r) == InsertValid(store.hashOf, old(store.View()), b)
  {
    var hash := store.hashOf(b.header);
    var known := store.HasBlock(hash);
    if known {
      var work := store.TotalWork(hash);
      return if work.Some? then Inserted(work.value, false) else Rejected(NotFound);
    }
    var totalWork := CalcBlockWork(b.header.target);
    if b.header.height > 0 {
      var parentWork := store.TotalWork(b.header.parentHash);
      if parentWork.None? {
        return Rejected(NotFound);
      }
      totalWork := totalWork + parentWork.value;
    }
    r := StoreNewBlock(store, b, totalWork);
  }

  method StoreNewBlock(store: MemoryStore, b: Block, totalWork: nat) returns (r: InsertResult)
    modifies store
    ensures (store.View(), r) == StoreAndCompete(store.hashOf, old(store.View()), b, totalWork)
  {
    var hash := store.hashOf(b.header);
    store.StoreBlock(b, totalWork);
    var current := store.CurrentTip();
    if current.None? {
      var moved := store.SetCurrentTip(hash);
      assert moved;
      return Inserted(totalWork, true);
    }
    var (tip, tipWork) := current.value;
    var best := SelectBestChainByTotalWork(store.hashOf(tip.header), tipWork, hash, totalWork);
    if best == hash {
      var moved := store.SetCurrentTip(hash);
      assert moved;
      return Inserted(totalWork, true);
    }
    r := Inserted(totalWork, false);
  }

  // ----- the invariant -----

  /** A stored block: kept under its hash, on top of a stored parent, with the work of its path. */
  ghost predicate Linked(hashOf: BlockHeader -> Hash32, c: Chain, hash: Hash32)
    requires hash in c.blocks
  {
    var h := c.blocks[hash].header;
    && hashOf(h) == hash && hash != ZERO_HASH
    && hash in c.work
    && if h.height == 0 then h.parentHash == ZERO_HASH && c.work[hash] == CalcBlockWork(h.target)
       else
         && h.parentHash in c.blocks && h.parentHash in c.work
         && c.blocks[h.parentHash].header.height + 1 == h.height
         && c.blocks[h.parentHash].header.timestamp < h.timestamp
         && c.work[hash] == CalcBlockWork(h.target) + c.work[h.parentHash]
  }

  ghost predicate AllLinked(hashOf: BlockHeader -> Hash32, c: Chain) {
    && c.work.Keys == c.blocks.Keys
    && forall hash :: hash in c.blocks ==> Linked(hashOf, c, hash)
  }

  /** The tip is stored and beats every other stored block. */
  ghost predicate TipIsBest(c: Chain)
    requires c.work.Keys == c.blocks.Keys
  {
    if c.tip == ZERO_HASH then c.blocks == map[]
    else
      && c.tip in c.blocks
      && forall hash :: hash in c.blocks && hash != c.tip ==> Beats(c.tip, c.work[c.tip], hash, c.work[hash])
  }

  ghost predicate ChainInvariant(hashOf: BlockHeader -> Hash32, c: Chain) {
    AllLinked(hashOf, c) && TipIsBest(c)
  }

  lemma EmptyInvariant(hashOf: BlockHeader -> Hash32)
    ensures ChainInvariant(hashOf, EMPTY_CHAIN)
  {
  }

  /** Adding a new block on top of its parent keeps every link. */
  lemma StoreKeepsLinks(hashOf: BlockHeader -> Hash32, c: Chain, b: Block, work: nat)
    requires AllLinked(hashOf, c) && LinkError(b.header, c.HeaderOf(b.header.parentHash)).None?
    requires hashOf(b.header) !in c.blocks && hashOf(b.header) != ZERO_HASH
    requires TotalWorkOn(c, b.header) == Some(work)
    ensures AllLinked(hashOf, c.Store(hashOf(b.header), b, work))
  {
    var added := hashOf(b.header);
    var stored := c.Store(added, b, work);
    forall hash | hash in stored.blocks
      ensures Linked(hashOf, stored, hash)
    {
      if hash == added {
        StoredIsLinked(hashOf, c, b, work);
      } else {
        OthersStayLinked(hashOf, c, b, work, hash);
      }
    }
  }

  lemma OthersStayLinked(hashOf: BlockHeader -> Hash32, c: Chain, b: Block, work: nat, hash: Hash32)
    requires hashOf(b.header) !in c.blocks && hash in c.blocks && Linked(hashOf, c, hash)
    ensures Linked(hashOf, c.Store(hashOf(b.header), b, work), hash)
  {
  }

  lemma StoredIsLinked(hashOf: BlockHeader -> Hash32, c: Chain, b: Block, work: nat)
    requires LinkError(b.header, c.HeaderOf(b.header.parentHash)).None?
    requires hashOf(b.header) !in c.blocks && hashOf(b.header) != ZERO_HASH
    requires TotalWorkOn(c, b.header) == Some(work)
    ensures Linked(hashOf, c.Store(hashOf(b.header), b, work), hashOf(b.header))
  {
  }

  lemma SameBlocksSameLinks(hashOf: BlockHeader -> Hash32, c: Chain, d: Chain)
    requires AllLinked(hashOf, c) && d.blocks == c.blocks && d.work == c.work
    ensures AllLinked(hashOf, d)
  {
    forall hash | hash in d.blocks
      ensures Linked(hashOf, d, hash)
    {
      assert Linked(hashOf, c, hash);
    }
  }

  lemma StoredHashesNonZero(hashOf: BlockHeader -> Hash32, c: Chain)
    requires AllLinked(hashOf, c)
    ensures c.work.Keys == c.blocks.Keys
    ensures ZERO_HASH !in c.blocks
  {
    forall hash | hash in c.blocks
      ensures hash != ZERO_HASH
    {
      assert Linked(hashOf, c, hash);
    }
  }

  /** The tip moves to the new block exactly when that block beats it. */
  lemma CompeteIsBeating(hashOf: BlockHeader -> Hash32, c: Chain, b: Block, work: nat)
    requires AllLinked(hashOf, c.Store(hashOf(b.header), b, work))
    requires c.tip == ZERO_HASH || c.tip in c.blocks
    ensures var hash := hashOf(b.header);
            var stored := c.Store(hash, b, work);
            && stored.tip in stored.blocks && stored.tip in stored.work
            && StoreAndCompete(hashOf, c, b, work) ==
                 if stored.tip == hash || Beats(hash, work, stored.tip, stored.work[stored.tip])
                 then (stored.(tip := hash), Inserted(work, true)) else (stored, Inserted(work, false))
  {
    var hash := hashOf(b.header);
    var stored := c.Store(hash, b, work);
    assert Linked(hashOf, stored, hash);
    assert Linked(hashOf, stored, stored.tip);
    SelectionIsMaximum(stored.tip, stored.work[stored.tip], hash, work);
    hide SelectBestChainByTotalWork, Beats, CalcBlockWork;
  }

  /** If only `hash` might beat the tip, the winner of the two beats every other stored block. */
  lemma WinnerIsBest(c: Chain, hash: Hash32)
    requires c.work.Keys == c.blocks.Keys && ZERO_HASH !in c.blocks && c.tip in c.blocks && hash in c.blocks
    requires forall other :: other in c.blocks && other != c.tip && other != hash ==>
      Beats(c.tip, c.work[c.tip], other, c.work[other])
    ensures TipIsBest(if c.tip == hash || Beats(hash, c.work[hash], c.tip, c.work[c.tip]) then c.(tip := hash) else c)
  {
    hide Beats;
    forall other | other in c.blocks {
      BeatsIsTotalOrder(hash, c.work[hash], c.tip, c.work[c.tip], other, c.work[other]);
    }
  }

  lemma CompeteKeepsBestTip(hashOf: BlockHeader -> Hash32, c: Chain, b: Block, work: nat)
    requires ChainInvariant(hashOf, c) && AllLinked(hashOf, c.Store(hashOf(b.header), b, work))
    requires hashOf(b.header) !in c.blocks
    ensures var (after, result) := StoreAndCompete(hashOf, c, b, work);
            AllLinked(hashOf, after) && TipIsBest(after) &&
            result == Inserted(work, after.tip == hashOf(b.header))
  {
    hide AllLinked, Beats, StoreAndCompete, CalcBlockWork;
    var hash := hashOf(b.header);
    var stored := c.Store(hash, b, work);
    StoredHashesNonZero(hashOf, c);
    StoredHashesNonZero(hashOf, stored);
    CompeteIsBeating(hashOf, c, b, work);
    SameBlocksSameLinks(hashOf, stored, stored.(tip := hash));
    WinnerIsBest(stored, hash);
  }

  lemma InsertValidKeepsInvariant(hashOf: BlockHeader -> Hash32, c: Chain, b: Block)
    requires ChainInvariant(hashOf, c) && LinkError(b.header, c.HeaderOf(b.header.parentHash)).None?
    requires hashOf(b.header) != ZERO_HASH
    ensures ChainInvariant(hashOf, InsertValid(hashOf, c, b).0) && InsertValid(hashOf, c, b).1.Inserted?
  {
    if hashOf(b.header) in c.blocks {
      assert Linked(hashOf, c, hashOf(b.header));
    } else {
      var work := TotalWorkOn(c, b.header).value;
      StoreKeepsLinks(hashOf, c, b, work);
      CompeteKeepsBestTip(hashOf, c, b, work);
    }
  }

  lemma ValidMeansLinked(rules: Rules, c: Chain, b: Block, now: int)
    requires rules.spec.Valid() && BlockError(rules, c, b, now).None?
    ensures LinkError(b.header, c.HeaderOf(b.header.parentHash)).None?
  {
  }

  /** Inserting keeps the invariant; a block is refused exactly when it is invalid, and then nothing changes. */
  lemma InsertKeepsInvariant(rules: Rules, c: Chain, b: Block, now: int)
    requires rules.spec.Valid() && ChainInvariant(rules.hashOf, c) && rules.hashOf(b.header) != ZERO_HASH
    ensures ChainInvariant(rules.hashOf, Insert(rules, c, b, now).0)
    ensures Insert(rules, c, b, now).1.Rejected? <==> BlockError(rules, c, b, now).Some?
    ensures Insert(rules, c, b, now).1.Rejected? ==> Insert(rules, c, b, now).0 == c
  {
    if BlockError(rules, c, b, now).None? {
      ValidMeansLinked(rules, c, b, now);
      InsertValidKeepsInvariant(rules.hashOf, c, b);
    }
  }

  /** The best tip has the most work of all stored blocks, and the smallest hash among those. */
  lemma BestTipMeans(c: Chain)
    requires c.work.Keys == c.blocks.Keys && c.tip in c.blocks && c.tip != ZERO_HASH
    ensures TipIsBest(c) <==> forall hash :: hash in c.blocks && hash != c.tip ==>
      c.work[hash] < c.work[c.tip] || (c.work[hash] == c.work[c.tip] && FromBigEndian(c.tip) < FromBigEndian(hash))
  {
  }

  lemma StoreMeans(c: Chain, hash: Hash32, b: Block, work: nat)
    requires c.work.Keys == c.blocks.Keys && hash !in c.blocks
    ensures var stored := c.Store(hash, b, work);
            && stored.blocks == c.blocks[hash := b] && stored.heights == c.heights[b.header.height := hash]
            && stored.work.Keys == c.work.Keys + {hash} && stored.work[hash] == work
            && (forall h :: h in c.work ==> stored.work[h] == c.work[h])
            && stored.tip == (if c.tip == ZERO_HASH then hash else c.tip)
            && stored.genesis == if b.header.height == 0 && c.genesis == ZERO_HASH then hash else c.genesis
  {
  }

  lemma NewBlockAnswer(hashOf: BlockHeader -> Hash32, c: Chain, b: Block)
    requires AllLinked(hashOf, c) && TipIsBest(c) && hashOf(b.header) !in c.blocks && hashOf(b.header) != ZERO_HASH
    requires LinkError(b.header, c.HeaderOf(b.header.parentHash)).None?
    ensures var hash := hashOf(b.header);
            var (after, r) := InsertValid(hashOf, c, b);
            && after.blocks == c.blocks[hash := b] && after.heights == c.heights[b.header.height := hash]
            && after.work.Keys == c.work.Keys + {hash} && (forall h :: h in c.work ==> after.work[h] == c.work[h])
            && r == Inserted(after.work[hash], after.tip == hash)
            && (after.tip == hash || after.tip == c.tip)
            && after.genesis == if b.header.height == 0 && c.genesis == ZERO_HASH then hash else c.genesis
  {
    WorkIsKnown(hashOf, c, b);
    hide Linked, Beats, StoreAndCompete, TotalWorkOn, LinkError, CalcBlockWork, Chain.Store;
    var work := TotalWorkOn(c, b.header).value;
    StoreKeepsLinks(hashOf, c, b, work);
    CompeteIsBeating(hashOf, c, b, work);
    BeatsIsTotalOrder(hashOf(b.header), work, hashOf(b.header), work, hashOf(b.header), work);
    StoreMeans(c, hashOf(b.header), b, work);
  }

  lemma WorkIsKnown(hashOf: BlockHeader -> Hash32, c: Chain, b: Block)
    requires AllLinked(hashOf, c) && LinkError(b.header, c.HeaderOf(b.header.parentHash)).None?
    ensures TotalWorkOn(c, b.header).Some?
  {
    hide Linked, CalcBlockWork;
  }

  /** What an accepted insertion leaves and answers, for a block stored before and for a new one. */
  lemma InsertAnswer(rules: Rules, c: Chain, b: Block, now: int)
    requires rules.spec.Valid() && ChainInvariant(rules.hashOf, c) && rules.hashOf(b.header) != ZERO_HASH
    requires BlockError(rules, c, b, now).None?
    ensures var hash := rules.hashOf(b.header);
            var (after, r) := Insert(rules, c, b, now);
            if hash in c.blocks then after == c && hash in c.work && r == Inserted(c.work[hash], false)
            else
              && after.blocks == c.blocks[hash := b] && after.heights == c.heights[b.header.height := hash]
              && after.work.Keys == c.work.Keys + {hash} && (forall h :: h in c.work ==> after.work[h] == c.work[h])
              && r == Inserted(after.work[hash], after.tip == hash)
              && (after.tip == hash || after.tip == c.tip)
              && after.genesis == if b.header.height == 0 && c.genesis == ZERO_HASH then hash else c.genesis
  {
    var hash := rules.hashOf(b.header);
    ValidMeansLinked(rules, c, b, now);
    if hash in c.blocks {
      assert Linked(rules.hashOf, c, hash);
    } else {
      NewBlockAnswer(rules.hashOf, c, b);
    }
  }
}
