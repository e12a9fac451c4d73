/**
 Runs of insertions on a disk store, with reopenings, and with crashes in the middle of an insertion. A
 crash between storing a block and moving the tip can leave the best block without the tip, and inserting
 it again does not help; this is the only way to lose the best tip.
 */
module DiskRuns {
  import opened Base
  import opened ChainStore
  import DiskChain
  import opened DiskFiles
  import DiskRecovery
  import opened DiskStore
  import opened ForkChoice
  import opened Header
  import InterleavedTip
  import Target

  /** File steps in storing a block, and in moving the tip. */
  const STORE_STEPS: nat := 9
  const TIP_STEPS: nat := 3

  datatype Event =
    | InsertBlock(block: Block, now: int)
    | Reopen
    | CrashedInsert(block: Block, now: int, steps: nat)

  // ----- an insertion that a crash interrupts -----

  /** The work a block gets if inserting it would store it: it is valid and not stored yet. */
  function WorkIfNew(rules: Rules, c: Chain, b: Block, now: int): Option<nat>
    requires rules.spec.Valid()
  {
    if BlockError(rules, c, b, now).Some? || rules.hashOf(b.header) in c.blocks then None else TotalWorkOn(c, b.header)
  }

  /** The chain after an insertion stopped after so many file steps. */
  function ChainAfterCrash(rules: Rules, c: Chain, b: Block, now: int, steps: nat): Chain
    requires rules.spec.Valid()
  {
    var hash := rules.hashOf(b.header);
    match WorkIfNew(rules, c, b, now)
    case None => c
    case Some(work) =>
      if steps < STORE_STEPS then StoreStage(c, hash, b, work, steps / 3)
      else if steps < STORE_STEPS + TIP_STEPS then c.Store(hash, b, work)
      else StoreAndCompete(rules.hashOf, c, b, work).0
  }

  function WorkIfNewOnDisk(rules: Rules, d: Disk, b: Block, now: int): Result<int>
    requires rules.spec.Valid()
  {
    var err := BlockErrorOn(rules, b, DiskChain.ParentOf(d, b.header), now);
    if err.Some? || d.HasBlock(rules.hashOf(b.header)) then Err("nothing to store") else DiskChain.WorkOn(d, b.header)
  }

  /** The files of the same insertion. */
  function FilesAfterCrash(rules: Rules, d: Disk, b: Block, now: int, steps: nat): Files
    requires rules.spec.Valid()
  {
    var hash := rules.hashOf(b.header);
    match WorkIfNewOnDisk(rules, d, b, now)
    case Err(_) => d.files
    case Ok(work) =>
      if steps < STORE_STEPS then After(d.files, d.StoreWrites(hash, b, work), steps)
      else
        var stored := d.Store(hash, b, work);
        if DiskChain.Wins(rules.hashOf, stored, hash, work)
        then After(stored.files, stored.TipWrites(hash), steps - STORE_STEPS)
        else stored.files
  }

  lemma SameWorkIfNew(rules: Rules, d: Disk, c: Chain, b: Block, now: int)
    requires rules.spec.Valid() && Represents(d, c)
    ensures match WorkIfNew(rules, c, b, now)
            case Some(work) => WorkIfNewOnDisk(rules, d, b, now) == Ok(work)
            case None => WorkIfNewOnDisk(rules, d, b, now).Err?
  {
    hide Represents, BlockErrorOn, Target.CalcBlockWork;
    BlockReads(d, c, b.header.parentHash);
    BlockReads(d, c, rules.hashOf(b.header));
  }

  /** On disk and in memory the block wins or loses alike; if it loses, nothing is left to do. */
  lemma SameWinner(hashOf: BlockHeader -> Hash32, d: Disk, c: Chain, b: Block, work: nat)
    requires Represents(d, c)
    ensures var hash := hashOf(b.header);
            StoreAndCompete(hashOf, c, b, work).0 ==
              if DiskChain.Wins(hashOf, d.Store(hash, b, work), hash, work) then c.Store(hash, b, work).MoveTip(hash)
              else c.Store(hash, b, work)
  {
    hide Represents, Disk.Store, Disk.CurrentTip, SelectBestChainByTotalWork;
    var hash := hashOf(b.header);
    StoreRefines(d, c, hash, b, work);
    ObserversAgree(d.Store(hash, b, work), c.Store(hash, b, work), hash, 0);
  }

  lemma CrashInTipRefines(rules: Rules, d: Disk, c: Chain, b: Block, work: nat, steps: nat)
    requires Represents(d, c) && steps >= STORE_STEPS
    ensures var hash := rules.hashOf(b.header);
            var stored := d.Store(hash, b, work);
            var files := if DiskChain.Wins(rules.hashOf, stored, hash, work)
                         then After(stored.files, stored.TipWrites(hash), steps - STORE_STEPS) else stored.files;
            var chain := if steps < STORE_STEPS + TIP_STEPS then c.Store(hash, b, work)
                         else StoreAndCompete(rules.hashOf, c, b, work).0;
            Open(files, []).1.Some? && Represents(Open(files, []).1.value, chain)
  {
    hide Represents, Disk.Store, After, Disk.TipWrites, DiskChain.Wins, StoreAndCompete, Open;
    var hash := rules.hashOf(b.header);
    var stored, kept := d.Store(hash, b, work), c.Store(hash, b, work);
    StoreRefines(d, c, hash, b, work);
    SameWinner(rules.hashOf, d, c, b, work);
    DiskRecovery.CrashedTipRefines(rules.hashOf, stored, kept, hash, steps - STORE_STEPS);
    ReopenRepresented(stored, kept);
  }

  /** What is found after such a crash is the chain above. */
  lemma CrashRefines(rules: Rules, d: Disk, c: Chain, b: Block, now: int, steps: nat)
    requires rules.spec.Valid() && Represents(d, c)
    ensures var found := Open(FilesAfterCrash(rules, d, b, now, steps), []).1;
            found.Some? && Represents(found.value, ChainAfterCrash(rules, c, b, now, steps))
  {
    hide Represents, WorkIfNew, WorkIfNewOnDisk, Disk.Store, Disk.StoreWrites, After, StoreStage, StoreAndCompete, Open;
    SameWorkIfNew(rules, d, c, b, now);
    match WorkIfNew(rules, c, b, now)
    case None =>
      ReopenRepresented(d, c);
    case Some(work) =>
      if steps < STORE_STEPS {
        DiskRecovery.CrashedStoreRefines(rules.hashOf, d, c, b, work, steps);
      } else {
        CrashInTipRefines(rules, d, c, b, work, steps);
      }
  }

  lemma ReopenRepresented(d: Disk, c: Chain)
    requires Represents(d, c)
    ensures Open(d.files, []).1 == Some(d)
  {
    DiskRecovery.ReopenFindsIt(d.files, d.genesis, d.tip, []);
  }

  // ----- what such a crash does to the best tip -----

  /**
   The crash comes after the block's own file is in place and before the tip file that names it: the tip
   file of storing if there was no tip, and otherwise the one of moving the tip to a better block.
   */
  ghost predicate SkipsTip(rules: Rules, c: Chain, b: Block, now: int, steps: nat)
    requires rules.spec.Valid() && c.work.Keys == c.blocks.Keys && (c.tip == ZERO_HASH || c.tip in c.blocks)
  {
    var work := WorkIfNew(rules, c, b, now);
    && work.Some? && 3 <= steps
    && if c.tip == ZERO_HASH then steps < STORE_STEPS
       else steps < STORE_STEPS + TIP_STEPS && Beats(rules.hashOf(b.header), work.value, c.tip, c.work[c.tip])
  }

  ghost predicate TipCovers(hashOf: BlockHeader -> Hash32, c: Chain, skipped: set<Hash32>) {
    && AllLinked(hashOf, c) && skipped <= c.blocks.Keys && (c.tip == ZERO_HASH || c.tip in c.blocks)
    && forall hash :: hash in c.blocks ==> hash in skipped || TipIsOrBeats(c, hash)
  }

  ghost predicate TipIsOrBeats(c: Chain, hash: Hash32)
    requires c.work.Keys == c.blocks.Keys && hash in c.blocks && (c.tip == ZERO_HASH || c.tip in c.blocks)
  {
    c.tip != ZERO_HASH && (hash == c.tip || Beats(c.tip, c.work[c.tip], hash, c.work[hash]))
  }

  lemma BestIfNoneSkippedBeatsIt(hashOf: BlockHeader -> Hash32, c: Chain, skipped: set<Hash32>)
    requires TipCovers(hashOf, c, skipped)
    ensures TipIsBest(c) <==> forall hash :: hash in skipped ==> TipIsOrBeats(c, hash)
  {
    hide Linked, Beats;
    StoredHashesNonZero(hashOf, c);
    if c.tip == ZERO_HASH && c.blocks != map[] {
      var hash :| hash in c.blocks;
      assert hash in skipped;
    }
  }

  /** Storing one more block, and giving it the tip or not, keeps the tip over everything not skipped. */
  lemma StoredCovers(hashOf: BlockHeader -> Hash32, c: Chain, d: Chain, hash: Hash32, skipped: set<Hash32>,
                     more: set<Hash32>)
    requires TipCovers(hashOf, c, skipped) && AllLinked(hashOf, d)
    requires hash !in c.blocks && d.blocks.Keys == c.blocks.Keys + {hash}
    requires forall h :: h in c.blocks ==> d.work[h] == c.work[h]
    requires skipped <= more <= d.blocks.Keys
    requires d.tip == c.tip ||
      (d.tip == hash && (c.tip == ZERO_HASH || Beats(hash, d.work[hash], c.tip, c.work[c.tip])))
    requires hash in more || TipIsOrBeats(d, hash)
    ensures TipCovers(hashOf, d, more)
  {
    hide Linked, Beats;
    StoredHashesNonZero(hashOf, d);
    forall other | other in d.blocks
      ensures other in more || TipIsOrBeats(d, other)
    {
      if other != hash && other !in skipped {
        assert TipIsOrBeats(c, other);
        BeatsIsTotalOrder(hash, d.work[hash], c.tip, c.work[c.tip], other, c.work[other]);
      }
    }
  }

  lemma InsertCovers(rules: Rules, c: Chain, b: Block, now: int, skipped: set<Hash32>)
    requires rules.spec.Valid() && TipCovers(rules.hashOf, c, skipped) && rules.hashOf(b.header) != ZERO_HASH
    ensures TipCovers(rules.hashOf, Insert(rules, c, b, now).0, skipped)
  {
    hide BlockError, Beats, AllLinked;
    var hash := rules.hashOf(b.header);
    var work := WorkIfNew(rules, c, b, now);
    if work.Some? {
      NewBlockLinks(rules, c, b, now);
      CompeteIsBeating(rules.hashOf, c, b, work.value);
      var after := StoreAndCompete(rules.hashOf, c, b, work.value).0;
      var stored := c.Store(hash, b, work.value);
      hide StoreAndCompete;
      SameBlocksSameLinks(rules.hashOf, stored, after);
      BeatsIsTotalOrder(hash, work.value, stored.tip, stored.work[stored.tip], hash, work.value);
      StoredCovers(rules.hashOf, c, after, hash, skipped, skipped);
    }
  }

  lemma NewBlockLinks(rules: Rules, c: Chain, b: Block, now: int)
    requires rules.spec.Valid() && AllLinked(rules.hashOf, c) && rules.hashOf(b.header) != ZERO_HASH
    requires WorkIfNew(rules, c, b, now).Some?
    ensures AllLinked(rules.hashOf, c.Store(rules.hashOf(b.header), b, WorkIfNew(rules, c, b, now).value))
  {
    ValidMeansLinked(rules, c, b, now);
    StoreKeepsLinks(rules.hashOf, c, b, WorkIfNew(rules, c, b, now).value);
  }

  /** A crash leaves out at most its own block, and exactly in the stated case. */
  lemma CrashCovers(rules: Rules, c: Chain, b: Block, now: int, steps: nat, skipped: set<Hash32>)
    requires rules.spec.Valid() && TipCovers(rules.hashOf, c, skipped) && rules.hashOf(b.header) != ZERO_HASH
    ensures TipCovers(rules.hashOf, ChainAfterCrash(rules, c, b, now, steps),
                      skipped + if SkipsTip(rules, c, b, now, steps) then {rules.hashOf(b.header)} else {})
  {
    var hash := rules.hashOf(b.header);
    var work := WorkIfNew(rules, c, b, now);
    if steps >= STORE_STEPS + TIP_STEPS {
      InsertCovers(rules, c, b, now, skipped);
      CompletedIsInsert(rules, c, b, now);
    } else if work.Some? && steps >= 3 {
      CutShortCovers(rules, c, b, now, steps, skipped);
    }
  }

  lemma CompletedIsInsert(rules: Rules, c: Chain, b: Block, now: int)
    requires rules.spec.Valid()
    ensures Insert(rules, c, b, now).0 ==
      match WorkIfNew(rules, c, b, now)
      case Some(work) => StoreAndCompete(rules.hashOf, c, b, work).0
      case None => c
  {
    hide BlockError, StoreAndCompete, TotalWorkOn;
  }

  lemma CutShortShape(rules: Rules, c: Chain, b: Block, now: int, steps: nat)
    requires rules.spec.Valid() && WorkIfNew(rules, c, b, now).Some? && 3 <= steps < STORE_STEPS + TIP_STEPS
    ensures var after := ChainAfterCrash(rules, c, b, now, steps);
            var stored := c.Store(rules.hashOf(b.header), b, WorkIfNew(rules, c, b, now).value);
            && after.blocks == stored.blocks && after.work == stored.work
            && after.tip == if steps < STORE_STEPS then c.tip else stored.tip
  {
    hide WorkIfNew, StoreAndCompete, StoreStage, Chain.Store;
    if steps < STORE_STEPS {
      StageShape(c, rules.hashOf(b.header), b, WorkIfNew(rules, c, b, now).value, steps / 3);
    }
  }

  lemma StageShape(c: Chain, hash: Hash32, b: Block, work: nat, stage: nat)
    requires 1 <= stage <= 2
    ensures var after, stored := StoreStage(c, hash, b, work, stage), c.Store(hash, b, work);
            after.blocks == stored.blocks && after.work == stored.work && after.tip == c.tip
  {
  }

  lemma CutShortCovers(rules: Rules, c: Chain, b: Block, now: int, steps: nat, skipped: set<Hash32>)
    requires rules.spec.Valid() && TipCovers(rules.hashOf, c, skipped) && rules.hashOf(b.header) != ZERO_HASH
    requires WorkIfNew(rules, c, b, now).Some? && 3 <= steps < STORE_STEPS + TIP_STEPS
    ensures TipCovers(rules.hashOf, ChainAfterCrash(rules, c, b, now, steps),
                      skipped + if SkipsTip(rules, c, b, now, steps) then {rules.hashOf(b.header)} else {})
  {
    hide AllLinked, Beats, WorkIfNew, ChainAfterCrash;
    StoredHashesNonZero(rules.hashOf, c);
    var hash := rules.hashOf(b.header);
    var work := WorkIfNew(rules, c, b, now).value;
    var after := ChainAfterCrash(rules, c, b, now, steps);
    CutShortShape(rules, c, b, now, steps);
    NewBlockLinks(rules, c, b, now);
    NotStoredYet(rules, c, b, now);
    SameBlocksSameLinks(rules.hashOf, c.Store(hash, b, work), after);
    if c.tip != ZERO_HASH {
      BeatsIsTotalOrder(hash, work, c.tip, c.work[c.tip], hash, work);
    }
    StoredCovers(rules.hashOf, c, after, hash, skipped,
                 skipped + if SkipsTip(rules, c, b, now, steps) then {hash} else {});
  }

  lemma NotStoredYet(rules: Rules, c: Chain, b: Block, now: int)
    requires rules.spec.Valid() && WorkIfNew(rules, c, b, now).Some?
    ensures rules.hashOf(b.header) !in c.blocks
  {
  }

  /** On a chain with its best tip, exactly the crashes that skip the tip lose the best tip. */
  lemma CrashKeepsBestTip(rules: Rules, c: Chain, b: Block, now: int, steps: nat)
    requires rules.spec.Valid() && ChainInvariant(rules.hashOf, c) && rules.hashOf(b.header) != ZERO_HASH
    ensures c.tip == ZERO_HASH || c.tip in c.blocks
    ensures AllLinked(rules.hashOf, ChainAfterCrash(rules, c, b, now, steps))
    ensures TipIsBest(ChainAfterCrash(rules, c, b, now, steps)) <==> !SkipsTip(rules, c, b, now, steps)
  {
    hide Linked, Beats;
    var hash := rules.hashOf(b.header);
    var after := ChainAfterCrash(rules, c, b, now, steps);
    CrashCovers(rules, c, b, now, steps, {});
    if SkipsTip(rules, c, b, now, steps) {
      SkippedBeatsTip(rules, c, b, now, steps);
      BestIfNoneSkippedBeatsIt(rules.hashOf, after, {hash});
    } else {
      BestIfNoneSkippedBeatsIt(rules.hashOf, after, {});
    }
  }

  lemma SkippedBeatsTip(rules: Rules, c: Chain, b: Block, now: int, steps: nat)
    requires rules.spec.Valid() && c.work.Keys == c.blocks.Keys && (c.tip == ZERO_HASH || c.tip in c.blocks)
    requires SkipsTip(rules, c, b, now, steps)
    ensures var after := ChainAfterCrash(rules, c, b, now, steps);
            && after.tip == c.tip && after.work.Keys == after.blocks.Keys && rules.hashOf(b.header) in after.blocks
            && !TipIsOrBeats(after, rules.hashOf(b.header))
  {
    hide Beats, WorkIfNew;
    var hash, work := rules.hashOf(b.header), WorkIfNew(rules, c, b, now).value;
    NotStoredYet(rules, c, b, now);
    if c.tip != ZERO_HASH {
      BeatsIsTotalOrder(hash, work, c.tip, c.work[c.tip], hash, work);
    }
  }

  /**
   A better block whose insertion was cut short stays without the tip, however often it is inserted
   again: every such insertion changes nothing.
   */
  lemma InsertingAgainDoesNotHelp(rules: Rules, c: Chain, b: Block, now: int, steps: nat, later: int)
    requires rules.spec.Valid() && ChainInvariant(rules.hashOf, c) && rules.hashOf(b.header) != ZERO_HASH
    requires c.tip == ZERO_HASH || c.tip in c.blocks
    requires SkipsTip(rules, c, b, now, steps)
    ensures var after := ChainAfterCrash(rules, c, b, now, steps);
            && AllLinked(rules.hashOf, after) && !TipIsBest(after)
            && Insert(rules, after, b, later).0 == after
  {
    CrashKeepsBestTip(rules, c, b, now, steps);
    SkippedBeatsTip(rules, c, b, now, steps);
    hide BlockError, StoreAndCompete, AllLinked;
  }

  // ----- runs -----

  /** The disk store after a run; nothing when a reopening fails. */
  function Run(rules: Rules, d: Disk, events: seq<Event>): Option<Disk>
    requires rules.spec.Valid()
  {
    if events == [] then Some(d)
    else
      match Run(rules, d, events[..|events| - 1])
      case None => None
      case Some(before) =>
        match events[|events| - 1]
        case InsertBlock(b, now) => Some(DiskChain.Insert(rules, before, b, now).0)
        case Reopen => Open(before.files, []).1
        case CrashedInsert(b, now, steps) => Open(FilesAfterCrash(rules, before, b, now, steps), []).1
  }

  function ChainStep(rules: Rules, c: Chain, e: Event): Chain
    requires rules.spec.Valid()
  {
    match e
    case InsertBlock(b, now) => Insert(rules, c, b, now).0
    case Reopen => c
    case CrashedInsert(b, now, steps) => ChainAfterCrash(rules, c, b, now, steps)
  }

  /** The chain after the same run in memory. */
  function ChainRun(rules: Rules, events: seq<Event>): Chain
    requires rules.spec.Valid()
  {
    if events == [] then EMPTY_CHAIN
    else ChainStep(rules, ChainRun(rules, events[..|events| - 1]), events[|events| - 1])
  }

  ghost predicate NonZeroHashes(rules: Rules, events: seq<Event>) {
    forall i :: 0 <= i < |events| && !events[i].Reopen? ==> rules.hashOf(events[i].block.header) != ZERO_HASH
  }

  /** A run on disk, whatever crashes and reopenings it holds, is the run in memory. */
  lemma {:induction false} RunRefines(rules: Rules, files: Files, events: seq<Event>)
    requires rules.spec.Valid() && DiskRecovery.FreshDirectory(files)
    ensures var d := Run(rules, Disk(files, ZERO_HASH, ZERO_HASH), events);
            d.Some? && Represents(d.value, ChainRun(rules, events))
  {
    hide Represents, DiskChain.Insert, Insert, ChainAfterCrash, FilesAfterCrash, Open;
    if events == [] {
      DiskRecovery.FreshRepresents(files);
    } else {
      var init, last := events[..|events| - 1], events[|events| - 1];
      RunRefines(rules, files, init);
      var d, c := Run(rules, Disk(files, ZERO_HASH, ZERO_HASH), init).value, ChainRun(rules, init);
      match last
      case InsertBlock(b, now) => DiskChain.InsertRefines(rules, d, c, b, now);
      case Reopen => ReopenRepresented(d, c);
      case CrashedInsert(b, now, steps) => CrashRefines(rules, d, c, b, now, steps);
    }
  }

  /** The blocks that crashes stored but kept from the tip. */
  ghost function Skipped(rules: Rules, events: seq<Event>): (skipped: set<Hash32>)
    requires rules.spec.Valid() && NonZeroHashes(rules, events)
    ensures TipCovers(rules.hashOf, ChainRun(rules, events), skipped)
  {
    if events == [] then {}
    else
      var init, last := events[..|events| - 1], events[|events| - 1];
      var before, c := Skipped(rules, init), ChainRun(rules, init);
      match last
      case InsertBlock(b, now) =>
        InsertCovers(rules, c, b, now, before);
        before
      case Reopen => before
      case CrashedInsert(b, now, steps) =>
        CrashCovers(rules, c, b, now, steps, before);
        before + if SkipsTip(rules, c, b, now, steps) then {rules.hashOf(b.header)} else {}
  }

  lemma {:induction false} NothingSkipped(rules: Rules, events: seq<Event>)
    requires rules.spec.Valid() && NonZeroHashes(rules, events)
    requires forall i :: 0 <= i < |events| ==> !events[i].CrashedInsert?
    ensures Skipped(rules, events) == {}
  {
    hide TipCovers;
    if events != [] {
      NothingSkipped(rules, events[..|events| - 1]);
    }
  }

  ghost predicate TipBeatsOnDisk(d: Disk, hash: Hash32) {
    && d.HasBlock(d.tip) && d.TotalWork(d.tip).Ok? && d.TotalWork(hash).Ok?
    && (hash == d.tip || Beats(d.tip, d.TotalWork(d.tip).value, hash, d.TotalWork(hash).value))
  }

  lemma TipBeatsAlike(hashOf: BlockHeader -> Hash32, d: Disk, c: Chain, skipped: set<Hash32>, hash: Hash32)
    requires Represents(d, c) && TipCovers(hashOf, c, skipped)
    ensures d.HasBlock(hash) <==> hash in c.blocks
    ensures hash in c.blocks ==> (TipBeatsOnDisk(d, hash) <==> TipIsOrBeats(c, hash))
  {
    StoredHashesNonZero(hashOf, c);
    BlockReads(d, c, hash);
    BlockReads(d, c, d.tip);
    hide Represents, AllLinked, Beats;
  }

  lemma TipCoversOnDisk(hashOf: BlockHeader -> Hash32, d: Disk, c: Chain, skipped: set<Hash32>)
    requires Represents(d, c) && TipCovers(hashOf, c, skipped)
    ensures forall hash :: d.HasBlock(hash) && hash !in skipped ==> TipBeatsOnDisk(d, hash)
    ensures forall hash :: hash in skipped ==> d.HasBlock(hash)
  {
    forall hash
      ensures d.HasBlock(hash) && hash !in skipped ==> TipBeatsOnDisk(d, hash)
      ensures hash in skipped ==> d.HasBlock(hash)
    {
      TipBeatsAlike(hashOf, d, c, skipped, hash);
      hide Represents, AllLinked, TipIsOrBeats, TipBeatsOnDisk, Disk.HasBlock;
    }
  }

  /**
   After any run from a fresh directory every reopening has succeeded, and the tip on disk beats every
   other block on disk but those that crashes kept from it; it is the best tip if and only if it beats
   those too. Without crashes there are none.
   */
  lemma BestTipOnDisk(rules: Rules, files: Files, events: seq<Event>)
    requires rules.spec.Valid() && DiskRecovery.FreshDirectory(files) && NonZeroHashes(rules, events)
    ensures var run := Run(rules, Disk(files, ZERO_HASH, ZERO_HASH), events);
            && run.Some?
            && (forall hash :: run.value.HasBlock(hash) && hash !in Skipped(rules, events) ==>
                  TipBeatsOnDisk(run.value, hash))
            && ((forall hash :: run.value.HasBlock(hash) ==> TipBeatsOnDisk(run.value, hash)) <==>
                (forall hash :: hash in Skipped(rules, events) ==> TipBeatsOnDisk(run.value, hash)))
    ensures (forall i :: 0 <= i < |events| ==> !events[i].CrashedInsert?) ==> Skipped(rules, events) == {}
  {
    hide Represents, TipCovers, TipBeatsOnDisk, Skipped, Run, ChainRun, Disk.HasBlock;
    RunRefines(rules, files, events);
    var d := Run(rules, Disk(files, ZERO_HASH, ZERO_HASH), events).value;
    TipCoversOnDisk(rules.hashOf, d, ChainRun(rules, events), Skipped(rules, events));
    if forall i :: 0 <= i < |events| ==> !events[i].CrashedInsert? {
      NothingSkipped(rules, events);
    }
  }

  /** A crash after storing and before moving the tip, on a chain of one block, with the blocks of the race. */
  lemma ACrashLosesBestTip(hs: HashSuite)
    ensures var rules, c, b := InterleavedTip.RaceRules(hs), InterleavedTip.RaceChain(hs),
                               InterleavedTip.RaceThread(hs, 1, 1).block;
            && rules.spec.Valid() && ChainInvariant(rules.hashOf, c)
            && var after := ChainAfterCrash(rules, c, b, 1, STORE_STEPS);
               AllLinked(rules.hashOf, after) && !TipIsBest(after)
  {
    hide AllLinked, TipIsBest, BlockError, InterleavedTip.NumberedHash, InterleavedTip.RaceTarget, Beats,
      Target.CalcBlockWork, TotalWorkOn;
    var rules, c, b := InterleavedTip.RaceRules(hs), InterleavedTip.RaceChain(hs),
                       InterleavedTip.RaceThread(hs, 1, 1).block;
    InterleavedTip.RaceChainInvariant(hs);
    InterleavedTip.RaceContender(hs, 1, 1);
    var genesis := c.work[InterleavedTip.NumberedHash(0)];
    InterleavedTip.MoreWorkBeats(rules.hashOf(b.header), Target.TWO_256 / 2 + genesis, c.tip, genesis);
    CrashKeepsBestTip(rules, c, b, 1, STORE_STEPS);
  }
}
