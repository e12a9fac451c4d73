/** Whole lives of a disk store: any sequence of operations, reopenings and crashes. */
module DiskRecovery {
  import opened Base
  import opened Header
  import opened ChainStore
  import opened DiskFiles
  import opened DiskStore

  /** An operation that completes, or one that a crash stops after so many file steps. */
  datatype Event =
    | StoreBlock(b: Block, work: nat)
    | SetCurrentTip(hash: Hash32)
    | Reopen
    | CrashedStore(b: Block, work: nat, steps: nat)
    | CrashedTip(hash: Hash32, steps: nat)

  /** The files an event leaves behind. */
  function FilesAfter(hashOf: BlockHeader -> Hash32, d: Disk, e: Event): Files {
    match e
    case StoreBlock(b, work) => d.Store(hashOf(b.header), b, work).files
    case SetCurrentTip(hash) => d.MoveTip(hash).files
    case Reopen => d.files
    case CrashedStore(b, work, steps) => After(d.files, d.StoreWrites(hashOf(b.header), b, work), steps)
    case CrashedTip(hash, steps) => After(d.files, d.TipWrites(hash), steps)
  }

  /** The disk store after an event; crashes are followed by a reopening, which may fail. */
  function DiskStep(hashOf: BlockHeader -> Hash32, d: Disk, e: Event): Option<Disk> {
    match e
    case StoreBlock(b, work) => Some(d.Store(hashOf(b.header), b, work))
    case SetCurrentTip(hash) => Some(d.MoveTip(hash))
    case _ => Open(FilesAfter(hashOf, d, e), []).1
  }

  /** The in-memory store after the same event, with an interrupted operation done up to a whole file. */
  function ChainStep(hashOf: BlockHeader -> Hash32, c: Chain, e: Event): Chain {
    match e
    case StoreBlock(b, work) => c.Store(hashOf(b.header), b, work)
    case SetCurrentTip(hash) => c.MoveTip(hash)
    case Reopen => c
    case CrashedStore(b, work, steps) => StoreStage(c, hashOf(b.header), b, work, steps / 3)
    case CrashedTip(hash, steps) => if steps < 3 then c else c.MoveTip(hash)
  }

  function DiskRun(hashOf: BlockHeader -> Hash32, d: Disk, events: seq<Event>): Option<Disk> {
    if events == [] then Some(d)
    else
      match DiskRun(hashOf, d, events[..|events| - 1])
      case Some(before) => DiskStep(hashOf, before, events[|events| - 1])
      case None => None
  }

  function ChainRun(hashOf: BlockHeader -> Hash32, c: Chain, events: seq<Event>): Chain {
    if events == [] then c
    else ChainStep(hashOf, ChainRun(hashOf, c, events[..|events| - 1]), events[|events| - 1])
  }

  /** Reopening a store finds exactly the store that was closed, and migrates nothing. */
  lemma ReopenFindsIt(files: Files, genesis: Hash32, tip: Hash32, order: seq<string>)
    requires MetaAgrees(files, genesis, tip)
    requires LegacySnapshot(files).Some? ==> forall key :: key in order ==> key in LegacySnapshot(files).value.heights
    ensures Open(files, order) == (files, Some(Disk(files, genesis, tip)))
  {
  }

  lemma CrashedStoreRefines(hashOf: BlockHeader -> Hash32, d: Disk, c: Chain, b: Block, work: nat, steps: nat)
    requires Represents(d, c)
    ensures var e := CrashedStore(b, work, steps);
            DiskStep(hashOf, d, e).Some? && Represents(DiskStep(hashOf, d, e).value, ChainStep(hashOf, c, e))
  {
    var hash := hashOf(b.header);
    var files := After(d.files, d.StoreWrites(hash, b, work), steps);
    var stage := Whole(d.StoreWrites(hash, b, work), steps);
    CrashedFiles(d, hash, b, work, steps);
    hide Agrees, Closed, MetaAgrees, ReadMeta, LegacySnapshot, AtStage, After, Disk.StoreWrites;
    StageRepresents(d, c, hash, b, work, stage, files);
    var after := StoreStage(c, hash, b, work, stage);
    ReopenFindsIt(files, after.genesis, after.tip, []);
  }

  lemma CrashedFiles(d: Disk, hash: Hash32, b: Block, work: nat, steps: nat)
    ensures var writes := d.StoreWrites(hash, b, work);
            AtStage(d, hash, b, work, Whole(writes, steps), After(d.files, writes, steps))
  {
    var writes := d.StoreWrites(hash, b, work);
    var stage := Whole(writes, steps);
    StoreWritesDurable(d, hash, b, work, stage);
    hide Disk.StoreWrites, WriteAll, After, Lookup;
    forall p: Path {:trigger Lookup(After(d.files, writes, steps), p)} | !p.TempPath?
      ensures Lookup(After(d.files, writes, steps), p) == Lookup(WriteAll(d.files, writes[..stage]), p)
    {
      CrashIsPrefix(d.files, writes, steps, p);
    }
  }

  lemma CrashedTipRefines(hashOf: BlockHeader -> Hash32, d: Disk, c: Chain, hash: Hash32, steps: nat)
    requires Represents(d, c)
    ensures var e := CrashedTip(hash, steps);
            DiskStep(hashOf, d, e).Some? && Represents(DiskStep(hashOf, d, e).value, ChainStep(hashOf, c, e))
  {
    hide Agrees, Closed, MetaAgrees, ReadMeta, LegacySnapshot, Lookup, WriteAll;
    BlockReads(d, c, hash);
    var writes := d.TipWrites(hash);
    var files := After(d.files, writes, steps);
    if steps >= 3 && d.HasBlock(hash) {
      FullTip(d.files, d.(tip := hash).MetaWrite(), steps);
      MoveTipRefines(d, c, hash);
      ReopenFindsIt(files, d.genesis, hash, []);
    } else {
      UnfinishedTip(d, c, hash, steps);
      ReopenFindsIt(files, d.genesis, d.tip, []);
    }
  }

  lemma FullTip(files: Files, w: Write, steps: nat)
    requires steps >= 3
    ensures After(files, [w], steps) == WriteAll(files, [w])
  {
    assert [w][1..] == [];
    OneWrite(files, w);
  }

  lemma UnfinishedTipLookup(d: Disk, hash: Hash32, steps: nat, p: Path)
    requires !p.TempPath? && (steps < 3 || !d.HasBlock(hash))
    ensures Lookup(After(d.files, d.TipWrites(hash), steps), p) == Lookup(d.files, p)
  {
    hide Lookup, Replace;
    if d.HasBlock(hash) {
      ReplaceLookup(d.files, d.(tip := hash).MetaWrite(), steps, p);
    }
  }

  /** Opening or filling the temporary file of the tip changes nothing a reader sees. */
  lemma UnfinishedTip(d: Disk, c: Chain, hash: Hash32, steps: nat)
    requires Represents(d, c) && (steps < 3 || !d.HasBlock(hash))
    ensures Represents(Disk(After(d.files, d.TipWrites(hash), steps), d.genesis, d.tip), c)
  {
    hide After, Lookup, Agrees, MetaAgrees;
    var files := After(d.files, d.TipWrites(hash), steps);
    forall p: Path | !p.TempPath?
      ensures Lookup(files, p) == Lookup(d.files, p)
    {
      UnfinishedTipLookup(d, hash, steps, p);
    }
    SameEntries(d.files, files, c, c);
    SameMeta(d.files, files, d.genesis, d.tip);
  }

  lemma StepRefines(hashOf: BlockHeader -> Hash32, d: Disk, c: Chain, e: Event)
    requires Represents(d, c)
    ensures DiskStep(hashOf, d, e).Some? && Represents(DiskStep(hashOf, d, e).value, ChainStep(hashOf, c, e))
  {
    match e
    case StoreBlock(b, work) => StoreRefines(d, c, hashOf(b.header), b, work);
    case SetCurrentTip(hash) => MoveTipRefines(d, c, hash);
    case Reopen => ReopenFindsIt(d.files, d.genesis, d.tip, []);
    case CrashedStore(b, work, steps) => CrashedStoreRefines(hashOf, d, c, b, work, steps);
    case CrashedTip(hash, steps) => CrashedTipRefines(hashOf, d, c, hash, steps);
  }

  /** A directory no store has written to yet; there may be leftovers of temporary files. */
  ghost predicate FreshDirectory(files: Files) {
    forall p :: p in files ==> p.TempPath?
  }

  lemma FreshRepresents(files: Files)
    requires FreshDirectory(files)
    ensures Open(files, []) == (files, Some(Disk(files, ZERO_HASH, ZERO_HASH)))
    ensures Represents(Disk(files, ZERO_HASH, ZERO_HASH), EMPTY_CHAIN)
  {
  }

  /**
   The disk store refines the in-memory store over every life: every reopening succeeds, and the two
   agree on everything that can be asked, with each interrupted operation done up to a whole file.
   */
  lemma {:induction false} EveryLifeRefines(hashOf: BlockHeader -> Hash32, d: Disk, c: Chain, events: seq<Event>)
    requires Represents(d, c)
    ensures DiskRun(hashOf, d, events).Some?
    ensures Represents(DiskRun(hashOf, d, events).value, ChainRun(hashOf, c, events))
  {
    if events != [] {
      var init := events[..|events| - 1];
      EveryLifeRefines(hashOf, d, c, init);
      StepRefines(hashOf, DiskRun(hashOf, d, init).value, ChainRun(hashOf, c, init), events[|events| - 1]);
    }
  }

  /** In particular, at any point of any life: the tip is none or a readable block, and so is every height. */
  lemma NothingDangles(hashOf: BlockHeader -> Hash32, files: Files, events: seq<Event>, height: Uint64)
    requires FreshDirectory(files)
    ensures var d := DiskRun(hashOf, Disk(files, ZERO_HASH, ZERO_HASH), events);
            && d.Some? && (d.value.tip == ZERO_HASH || (d.value.GetBlock(d.value.tip).Ok? && d.value.CurrentTip().Ok?))
            && (HeightPath(height) in d.value.files ==>
                  d.value.HashAt(height).Some? && d.value.GetBlock(d.value.HashAt(height).value).Ok?)
  {
    FreshRepresents(files);
    EveryLifeRefines(hashOf, Disk(files, ZERO_HASH, ZERO_HASH), EMPTY_CHAIN, events);
    var d := DiskRun(hashOf, Disk(files, ZERO_HASH, ZERO_HASH), events).value;
    var c := ChainRun(hashOf, EMPTY_CHAIN, events);
    ObserversAgree(d, c, d.tip, height);
    assert HeightAgrees(d.files, c, height);
    if HeightPath(height) in d.files {
      BlockReads(d, c, c.heights[height]);
    }
  }

  lemma {:induction false} BlocksStay(hashOf: BlockHeader -> Hash32, c: Chain, events: seq<Event>, hash: Hash32)
    requires hash in c.blocks
    ensures hash in ChainRun(hashOf, c, events).blocks
  {
    if events != [] {
      BlocksStay(hashOf, c, events[..|events| - 1], hash);
    }
  }

  /** A block whose storing was completed can be read at every later point of every life. */
  lemma StoredBlocksSurvive(hashOf: BlockHeader -> Hash32, d: Disk, c: Chain, b: Block, work: nat, events: seq<Event>)
    requires Represents(d, c)
    ensures var after := DiskRun(hashOf, d.Store(hashOf(b.header), b, work), events);
            after.Some? && after.value.GetBlock(hashOf(b.header)).Ok?
  {
    var hash := hashOf(b.header);
    StoreRefines(d, c, hash, b, work);
    EveryLifeRefines(hashOf, d.Store(hash, b, work), c.Store(hash, b, work), events);
    BlocksStay(hashOf, c.Store(hash, b, work), events, hash);
    BlockReads(DiskRun(hashOf, d.Store(hash, b, work), events).value, ChainRun(hashOf, c.Store(hash, b, work),
      events), hash);
  }
}
