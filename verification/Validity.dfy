/**
 What a valid block is, said a second time and clause by clause, and that nothing else is ever stored:
 not by any run, nor by any schedule of insertions, nor on disk through any reopening or crash.
 */
module Validity {
  import opened Base
  import BitLaws
  import opened ChainSpec
  import opened ChainStore
  import ChainTheorems
  import DiskFiles
  import DiskRecovery
  import DiskRuns
  import opened DiskStore
  import opened ForkChoice
  import opened Header
  import opened Interleaving
  import Target

  // ----- the clauses -----

  predicate VersionOk(spec: Spec, h: BlockHeader) {
    h.algorithmVersion == spec.algorithmVersion
  }

  /** The size and the seed of an epoch: linear growth up to the largest size, and a digest of 40 bytes. */
  ghost predicate EpochPair(hs: HashSuite, spec: Spec, h: BlockHeader, epoch: nat) {
    var first := if spec.initialDagSizeBytes != 0 then spec.initialDagSizeBytes else spec.dagSizeBytes;
    var step := if spec.dagGrowthBytesPerEpoch != 0 then spec.dagGrowthBytesPerEpoch else 0x1000_0000;
    var size := first + epoch * step;
    && h.dagSizeBytes == (if size < 0xFFFF_FFFF_FFFF_FF00 then size else 0xFFFF_FFFF_FFFF_FF00)
    && exists e: Bytes :: |e| == 8 && FromBigEndian(e) == epoch && h.epochSeed == hs.sha3x256(e + spec.genesisHash)
  }

  /** The pair of the header's own epoch, or the pair before it in the first 64 blocks of a later epoch. */
  ghost predicate EpochOk(hs: HashSuite, spec: Spec, h: BlockHeader)
    requires spec.epochBlocks != 0
  {
    var epoch := h.height / spec.epochBlocks;
    || EpochPair(hs, spec, h, epoch)
    || (epoch > 0 && h.height % spec.epochBlocks < 64 && EpochPair(hs, spec, h, epoch - 1))
  }

  predicate TargetOk(h: BlockHeader) {
    exists i :: 0 <= i < 32 && h.target[i] != 0
  }

  /** A first block names no parent; any other stands one above the parent it names. */
  predicate ParentOk(h: BlockHeader, parent: Option<BlockHeader>) {
    if h.height == 0 then forall i :: 0 <= i < 32 ==> h.parentHash[i] == 0
    else parent.Some? && parent.value.height + 1 == h.height
  }

  predicate TimeOk(h: BlockHeader, parent: Option<BlockHeader>, now: int)
    requires ParentOk(h, parent)
  {
    && (h.height > 0 ==> parent.value.timestamp < h.timestamp)
    && h.timestamp <= now + 7200
  }

  /** With a solution the header names a root; without one its own hash is the proof. */
  predicate HeaderProofOk(rules: Rules, h: BlockHeader) {
    if h.algorithmVersion >= 2 || rules.spec.mode == "colossusx" then exists i :: 0 <= i < 32 && h.dagMerkleRoot[i] != 0
    else rules.powOk(Block(h, [], None, None))
  }

  lemma ZeroOrNot(h: Hash32)
    ensures h == ZERO_HASH <==> forall i :: 0 <= i < 32 ==> h[i] == 0
  {
  }

  lemma EpochPairIs(hs: HashSuite, spec: Spec, h: BlockHeader, epoch: Uint64)
    ensures EpochPair(hs, spec, h, epoch) <==> MatchesEpoch(hs, spec, ClaimOf(h), epoch)
  {
    hide BigEndian, FromBigEndian;
    Target.SixtyFourBits();
    BigEndianRoundTrip(epoch, 8);
    forall e: Bytes | |e| == 8 && FromBigEndian(e) == epoch
      ensures e == BigEndian(epoch, 8)
    {
      BitLaws.BigEndianOfValue(e);
    }
  }

  lemma EpochOkIs(hs: HashSuite, spec: Spec, h: BlockHeader)
    requires spec.Valid()
    ensures EpochOk(hs, spec, h) <==> EpochAcceptable(hs, spec, ClaimOf(h))
  {
    hide EpochPair, MatchesEpoch;
    var epoch := spec.EpochOf(h.height);
    EpochPairIs(hs, spec, h, epoch);
    if epoch > 0 {
      EpochPairIs(hs, spec, h, epoch - 1);
    }
  }

  /**
   Why a block is refused, by the first clause it breaks; it is accepted if and only if it breaks none.
   */
  lemma FirstObjection(rules: Rules, b: Block, parent: Option<BlockHeader>, now: int)
    requires rules.spec.Valid()
    ensures var h := b.header;
            BlockErrorOn(rules, b, parent, now) ==
              if !VersionOk(rules.spec, h) || !EpochOk(rules.hs, rules.spec, h) then Some(InvalidEpoch)
              else if !TargetOk(h) then Some(InvalidTarget)
              else if !ParentOk(h, parent) then Some(InvalidParent)
              else if !TimeOk(h, parent, now) then Some(InvalidTimestamp)
              else if !HeaderProofOk(rules, h) || !rules.powOk(b) then Some(InvalidPoW)
              else None
  {
    hide EpochOk, EpochAcceptable;
    EpochOkIs(rules.hs, rules.spec, b.header);
    ZeroOrNot(b.header.target);
    ZeroOrNot(b.header.parentHash);
    ZeroOrNot(b.header.dagMerkleRoot);
  }

  /** Everything a block must satisfy apart from its parent and the clock. */
  ghost predicate Sound(rules: Rules, b: Block)
    requires rules.spec.Valid()
  {
    && VersionOk(rules.spec, b.header) && EpochOk(rules.hs, rules.spec, b.header) && TargetOk(b.header)
    && HeaderProofOk(rules, b.header) && rules.powOk(b)
  }

  ghost predicate AllSound(rules: Rules, c: Chain)
    requires rules.spec.Valid()
  {
    forall hash :: hash in c.blocks ==> Sound(rules, c.blocks[hash])
  }

  lemma AcceptedIsSound(rules: Rules, b: Block, parent: Option<BlockHeader>, now: int)
    requires rules.spec.Valid() && BlockErrorOn(rules, b, parent, now).None?
    ensures Sound(rules, b)
  {
    FirstObjection(rules, b, parent, now);
  }

  // ----- nothing else is ever stored -----

  lemma InsertStaysSound(rules: Rules, c: Chain, b: Block, now: int)
    requires rules.spec.Valid() && AllSound(rules, c)
    ensures AllSound(rules, Insert(rules, c, b, now).0)
  {
    hide Sound, BlockErrorOn, SelectBestChainByTotalWork;
    if BlockError(rules, c, b, now).None? {
      AcceptedIsSound(rules, b, c.HeaderOf(b.header.parentHash), now);
    }
  }

  /** Every block a run has stored is sound. */
  lemma {:induction false} RunStoresOnlySound(rules: Rules, events: seq<ChainTheorems.Event>)
    requires rules.spec.Valid()
    ensures AllSound(rules, ChainTheorems.Run(rules, events))
  {
    hide AllSound, Insert;
    if events == [] {
      EmptyIsSound(rules);
    } else {
      var last := events[|events| - 1];
      RunStoresOnlySound(rules, events[..|events| - 1]);
      InsertStaysSound(rules, ChainTheorems.Run(rules, events[..|events| - 1]), last.block, last.now);
    }
  }

  lemma EmptyIsSound(rules: Rules)
    requires rules.spec.Valid()
    ensures AllSound(rules, EMPTY_CHAIN)
  {
  }

  /** Past its own validation, an insertion carries a sound block. */
  ghost predicate CarriesSound(rules: Rules, t: Thread)
    requires rules.spec.Valid()
  {
    t.pc.Validate? || t.pc.Finished? || Sound(rules, t.block)
  }

  ghost predicate SoundState(rules: Rules, s: State)
    requires rules.spec.Valid()
  {
    AllSound(rules, s.chain) && forall i :: 0 <= i < |s.threads| ==> CarriesSound(rules, s.threads[i])
  }

  lemma CallStaysSound(rules: Rules, c: Chain, t: Thread)
    requires rules.spec.Valid() && AllSound(rules, c) && CarriesSound(rules, t)
    ensures var (d, pc) := Step(rules, c, t);
            AllSound(rules, d) && CarriesSound(rules, t.(pc := pc))
  {
    hide Sound, BlockErrorOn, SelectBestChainByTotalWork, TotalWorkOn;
    if t.pc.Validate? && BlockError(rules, c, t.block, t.now).None? {
      AcceptedIsSound(rules, t.block, c.HeaderOf(t.block.header.parentHash), t.now);
    }
  }

  /** Under every schedule of any insertions, every block stored is sound. */
  lemma {:induction false} ScheduleStoresOnlySound(rules: Rules, s: State, schedule: seq<nat>)
    requires rules.spec.Valid() && SoundState(rules, s)
    ensures SoundState(rules, RunSchedule(rules, s, schedule))
  {
    hide AllSound, CarriesSound, Step;
    if schedule != [] {
      var init, i := schedule[..|schedule| - 1], schedule[|schedule| - 1];
      ScheduleStoresOnlySound(rules, s, init);
      var before := RunSchedule(rules, s, init);
      if i < |before.threads| {
        CallStaysSound(rules, before.chain, before.threads[i]);
      }
    }
  }

  lemma CrashStaysSound(rules: Rules, c: Chain, b: Block, now: int, steps: nat)
    requires rules.spec.Valid() && AllSound(rules, c)
    ensures AllSound(rules, DiskRuns.ChainAfterCrash(rules, c, b, now, steps))
  {
    hide Sound, BlockErrorOn, SelectBestChainByTotalWork, TotalWorkOn;
    if BlockError(rules, c, b, now).None? {
      AcceptedIsSound(rules, b, c.HeaderOf(b.header.parentHash), now);
    }
  }

  lemma {:induction false} LifeStoresOnlySound(rules: Rules, events: seq<DiskRuns.Event>)
    requires rules.spec.Valid()
    ensures AllSound(rules, DiskRuns.ChainRun(rules, events))
  {
    hide AllSound, Insert, DiskRuns.ChainAfterCrash;
    if events == [] {
      EmptyIsSound(rules);
    } else {
      var init := events[..|events| - 1];
      LifeStoresOnlySound(rules, init);
      match events[|events| - 1]
      case InsertBlock(b, now) => InsertStaysSound(rules, DiskRuns.ChainRun(rules, init), b, now);
      case Reopen =>
      case CrashedInsert(b, now, steps) => CrashStaysSound(rules, DiskRuns.ChainRun(rules, init), b, now, steps);
    }
  }

  /** After any run on disk, crashes included, every block that has a file can be read and is sound. */
  lemma DiskHoldsOnlySound(rules: Rules, files: DiskFiles.Files, events: seq<DiskRuns.Event>, hash: Hash32)
    requires rules.spec.Valid() && DiskRecovery.FreshDirectory(files)
    ensures var d := DiskRuns.Run(rules, Disk(files, ZERO_HASH, ZERO_HASH), events);
            && d.Some?
            && (d.value.HasBlock(hash) ==>
                  d.value.GetBlock(hash).Ok? && Sound(rules, d.value.GetBlock(hash).value))
  {
    hide Sound, DiskRuns.Run, DiskRuns.ChainRun;
    DiskRuns.RunRefines(rules, files, events);
    LifeStoresOnlySound(rules, events);
    BlockReads(DiskRuns.Run(rules, Disk(files, ZERO_HASH, ZERO_HASH), events).value,
               DiskRuns.ChainRun(rules, events), hash);
  }

  // ----- epoch seeds -----

  /** The seed of an epoch commits to its number and to the genesis hash. */
  lemma EpochSeedCommits(hs: HashSuite, a: Spec, x: Uint64, b: Spec, y: Uint64)
    requires a.Valid() && b.Valid() && a.EpochSeedForHeight(hs, x) == b.EpochSeedForHeight(hs, y)
    ensures (x / a.epochBlocks == y / b.epochBlocks && a.genesisHash == b.genesisHash)
         || exists p: Bytes, q: Bytes :: Collision(hs.sha3x256, p, q)
  {
    hide BigEndian;
    var d, e := a.EpochOf(x), b.EpochOf(y);
    var p, q := BigEndian(d, 8) + a.genesisHash, BigEndian(e, 8) + b.genesisHash;
    if p == q {
      assert p[..8] == BigEndian(d, 8) && q[..8] == BigEndian(e, 8);
      assert p[8..] == a.genesisHash && q[8..] == b.genesisHash;
      Target.SixtyFourBits();
      BigEndianInjective(d, e, 8);
    } else {
      assert Collision(hs.sha3x256, p, q);
    }
  }

  /** A header of its own epoch is what the chain's own size and seed functions give. */
  lemma OwnEpoch(hs: HashSuite, spec: Spec, h: BlockHeader)
    requires spec.Valid()
    ensures EpochPair(hs, spec, h, h.height / spec.epochBlocks) <==>
      h.dagSizeBytes == spec.DagSizeForHeight(h.height) && h.epochSeed == spec.EpochSeedForHeight(hs, h.height)
  {
    EpochPairIs(hs, spec, h, spec.EpochOf(h.height));
    DagSizeIsIdeal(spec, spec.EpochOf(h.height));
  }
}
