/** Inserting blocks on a disk store: every insertion is the one on the in-memory store. */
module DiskChain {
  import opened Base
  import ChainStore
  import opened DiskStore
  import opened ForkChoice
  import opened Header
  import opened Target

  /** Work is read from files here, so it is any number. */
  datatype DiskResult = Inserted(work: int, becameTip: bool) | Rejected(error: InsertError)

  function AsDiskResult(r: InsertResult): DiskResult {
    match r
    case Inserted(work, becameTip) => DiskResult.Inserted(work, becameTip)
    case Rejected(error) => DiskResult.Rejected(error)
  }

  function ParentOf(d: Disk, h: BlockHeader): Option<BlockHeader> {
    match d.GetHeader(h.parentHash)
    case Ok(parent) => Some(parent)
    case Err(_) => None
  }

  function WorkOn(d: Disk, h: BlockHeader): Result<int> {
    if h.height == 0 then Ok(CalcBlockWork(h.target))
    else
      match d.TotalWork(h.parentHash)
      case Ok(parentWork) => Ok(CalcBlockWork(h.target) + parentWork)
      case Err(e) => Err(e)
  }

  /** Stores a block with its total work and lets it compete for the tip. */
  function StoreAndCompete(hashOf: BlockHeader -> Hash32, d: Disk, b: Block, work: int): (Disk, DiskResult) {
    var hash := hashOf(b.header);
    var stored := d.Store(hash, b, work);
    if Wins(hashOf, stored, hash, work) then MoveIfStored(stored, hash, work)
    else (stored, DiskResult.Inserted(work, false))
  }

  /** The block is selected over the tip, or there is no tip to read. */
  predicate Wins(hashOf: BlockHeader -> Hash32, stored: Disk, hash: Hash32, work: int) {
    match stored.CurrentTip()
    case Err(_) => true
    case Ok((tip, tipWork)) => SelectBestChainByTotalWork(hashOf(tip.header), tipWork, hash, work) == hash
  }

  function MoveIfStored(d: Disk, hash: Hash32, work: int): (Disk, DiskResult) {
    if d.HasBlock(hash) then (d.MoveTip(hash), DiskResult.Inserted(work, true)) else (d, DiskResult.Rejected(NotFound))
  }

  function InsertValid(hashOf: BlockHeader -> Hash32, d: Disk, b: Block): (Disk, DiskResult) {
    var hash := hashOf(b.header);
    if d.HasBlock(hash) then
      (d, match d.TotalWork(hash)
          case Ok(work) => DiskResult.Inserted(work, false)
          case Err(_) => DiskResult.Rejected(NotFound))
    else
      match WorkOn(d, b.header)
      case Ok(work) => StoreAndCompete(hashOf, d, b, work)
      case Err(_) => (d, DiskResult.Rejected(NotFound))
  }

  function Insert(rules: Rules, d: Disk, b: Block, now: int): (Disk, DiskResult)
    requires rules.spec.Valid()
  {
    var err := BlockErrorOn(rules, b, ParentOf(d, b.header), now);
    if err.Some? then (d, DiskResult.Rejected(err.value)) else InsertValid(rules.hashOf, d, b)
  }

  method StoreNewBlock(store: DiskStore, b: Block, work: int) returns (r: DiskResult)
    modifies store
    ensures (store.View(), r) == StoreAndCompete(store.hashOf, old(store.View()), b, work)
  {
    hide Disk.StoreWrites, Disk.TipWrites, CalcBlockWork, SelectBestChainByTotalWork;
    var hash := store.hashOf(b.header);
    store.StoreBlock(b, work);
    var current := store.CurrentTip();
    if current.Ok? {
      var (tip, tipWork) := current.value;
      if SelectBestChainByTotalWork(store.hashOf(tip.header), tipWork, hash, work) != hash {
        return DiskResult.Inserted(work, false);
      }
    }
    var moved := store.SetCurrentTip(hash);
    r := if moved then DiskResult.Inserted(work, true) else DiskResult.Rejected(NotFound);
  }

  method InsertValidBlock(store: DiskStore, b: Block) returns (r: DiskResult)
    modifies store
    ensures (store.View(), r) == InsertValid(store.hashOf, old(store.View()), b)
  {
    hide StoreAndCompete, CalcBlockWork;
    var hash := store.hashOf(b.header);
    var known := store.HasBlock(hash);
    if known {
      var work := store.TotalWork(hash);
      return if work.Ok? then DiskResult.Inserted(work.value, false) else DiskResult.Rejected(NotFound);
    }
    var totalWork: int := CalcBlockWork(b.header.target);
    if b.header.height > 0 {
      var parentWork := store.TotalWork(b.header.parentHash);
      if parentWork.Err? {
        return DiskResult.Rejected(NotFound);
      }
      totalWork := totalWork + parentWork.value;
    }
    r := StoreNewBlock(store, b, totalWork);
  }

  method InsertBlock(rules: Rules, store: DiskStore, b: Block, now: int) returns (r: DiskResult)
    requires rules.spec.Valid() && store.hashOf == rules.hashOf
    modifies store
    ensures (store.View(), r) == Insert(rules, old(store.View()), b, now)
  {
    hide InsertValid, BlockErrorOn;
    var parent := store.GetHeader(b.header.parentHash);
    var err := BlockErrorOn(rules, b, if parent.Ok? then Some(parent.value) else None, now);
    if err.Some? {
      return DiskResult.Rejected(err.value);
    }
    r := InsertValidBlock(store, b);
  }

  // ----- the refinement -----

  lemma CompeteRefines(hashOf: BlockHeader -> Hash32, d: Disk, c: ChainStore.Chain, b: Block, work: nat)
    requires Represents(d, c)
    ensures var (d', r) := StoreAndCompete(hashOf, d, b, work);
            var (c', q) := ForkChoice.StoreAndCompete(hashOf, c, b, work);
            Represents(d', c') && r == AsDiskResult(q)
  {
    hide Represents, Disk.Store, Disk.MoveTip, Disk.CurrentTip, SelectBestChainByTotalWork;
    var hash := hashOf(b.header);
    StoreRefines(d, c, hash, b, work);
    var e, f := d.Store(hash, b, work), c.Store(hash, b, work);
    ObserversAgree(e, f, hash, 0);
    MoveTipRefines(e, f, hash);
  }

  /** An insertion on disk is the insertion in memory: same new chain, same answer. */
  lemma InsertRefines(rules: Rules, d: Disk, c: ChainStore.Chain, b: Block, now: int)
    requires rules.spec.Valid() && Represents(d, c)
    ensures var (d', r) := Insert(rules, d, b, now);
            var (c', q) := ForkChoice.Insert(rules, c, b, now);
            Represents(d', c') && r == AsDiskResult(q)
  {
    hide Represents, BlockErrorOn, StoreAndCompete, ForkChoice.StoreAndCompete, CalcBlockWork;
    BlockReads(d, c, b.header.parentHash);
    BlockReads(d, c, rules.hashOf(b.header));
    var work := TotalWorkOn(c, b.header);
    if work.Some? {
      CompeteRefines(rules.hashOf, d, c, b, work.value);
    }
  }
}
