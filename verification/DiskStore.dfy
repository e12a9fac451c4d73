/**
 The disk store: a file for every block and height, a file for the tip, and two cached hashes. It
 refines the in-memory store across any operations, reopenings and crashes.
 */
module DiskStore {
  import opened Base
  import opened Codec
  import opened Header
  import opened ChainStore
  import opened DiskFiles

  const NOT_FOUND: string := "block not found"

  /** An open disk store: the files, and the two hashes kept in memory. */
  datatype Disk = Disk(files: Files, genesis: Hash32, tip: Hash32) {
    predicate HasBlock(hash: Hash32) {
      BlockPath(hash) in files
    }

    function ReadBlockEntry(hash: Hash32): Result<(Block, string)> {
      if BlockPath(hash) !in files then Err(NOT_FOUND)
      else
        match files[BlockPath(hash)]
        case BlockFile(b, work) => Ok((b, work))
        case _ => Err("invalid block file")
    }

    function GetBlock(hash: Hash32): Result<Block> {
      match ReadBlockEntry(hash)
      case Ok((b, _)) => Ok(b)
      case Err(e) => Err(e)
    }

    function GetHeader(hash: Hash32): Result<BlockHeader> {
      match GetBlock(hash)
      case Ok(b) => Ok(b.header)
      case Err(e) => Err(e)
    }

    function TotalWork(hash: Hash32): Result<int> {
      match ReadBlockEntry(hash)
      case Err(e) => Err(e)
      case Ok((_, text)) =>
        match BigIntFromString(text)
        case Some(work) => Ok(work)
        case None => Err("invalid big integer")
    }

    function HashAt(height: Uint64): Option<Hash32> {
      if HeightPath(height) !in files then None
      else
        match files[HeightPath(height)]
        case HashFile(text) => HashFromString(text)
        case _ => None
    }

    function GetBlockByHeight(height: Uint64): Result<Block> {
      match HashAt(height)
      case None => Err(NOT_FOUND)
      case Some(hash) => GetBlock(hash)
    }

    function CurrentTip(): Result<(Block, int)> {
      if tip == ZERO_HASH then Err(NOT_FOUND)
      else
        match (GetBlock(tip), TotalWork(tip))
        case (Ok(b), Ok(work)) => Ok((b, work))
        case (Ok(_), Err(e)) => Err(e)
        case (Err(e), _) => Err(e)
    }

    function MetaWrite(): Write {
      Write(MetaPath, MetaFile(Hex(genesis), Hex(tip)))
    }

    function GenesisWith(hash: Hash32, b: Block): Hash32 {
      if b.header.height == 0 && genesis == ZERO_HASH then hash else genesis
    }

    function TipWith(hash: Hash32): Hash32 {
      if tip == ZERO_HASH then hash else tip
    }

    /** The files a block is stored with, in order. */
    function StoreWrites(hash: Hash32, b: Block, work: int): (writes: seq<Write>)
      ensures |writes| == 3
    {
      [Write(BlockPath(hash), BlockFile(b, BigIntToString(work))),
       Write(HeightPath(b.header.height), HashFile(Hex(hash))),
       Disk(files, GenesisWith(hash, b), TipWith(hash)).MetaWrite()]
    }

    function Store(hash: Hash32, b: Block, work: int): Disk {
      Disk(WriteAll(files, StoreWrites(hash, b, work)), GenesisWith(hash, b), TipWith(hash))
    }

    function TipWrites(hash: Hash32): seq<Write> {
      if HasBlock(hash) then [this.(tip := hash).MetaWrite()] else []
    }

    function MoveTip(hash: Hash32): Disk {
      if HasBlock(hash) then Disk(WriteAll(files, TipWrites(hash)), genesis, hash) else this
    }
  }

  /** The result of reading the tip file, if it is there. */
  function ReadMeta(files: Files): Option<Result<(Hash32, Hash32)>> {
    if MetaPath !in files then None
    else
      match files[MetaPath]
      case MetaFile(g, t) =>
        (match (HashFromString(g), HashFromString(t))
         case (Some(genesis), Some(tip)) => Some(Ok((genesis, tip)))
         case _ => Some(Err("invalid hash")))
      case _ => Some(Err("invalid meta file"))
  }

  // ----- opening -----

  /** The block file a snapshot record turns into, unless its hash cannot be read. */
  function RecordWrite(s: Snapshot, r: Record): Option<Write> {
    match HashFromString(r.hash)
    case Some(hash) =>
      Some(Write(BlockPath(hash), BlockFile(r.block, if r.hash in s.totalWork then s.totalWork[r.hash] else "0")))
    case None => None
  }

  function HeightWrite(s: Snapshot, key: string): Option<Write>
    requires key in s.heights
  {
    match (ParseUint64(key), HashFromString(s.heights[key]))
    case (Some(height), Some(hash)) => Some(Write(HeightPath(height), HashFile(Hex(hash))))
    case _ => None
  }

  /** The order in which the heights of a snapshot are visited: each once, in any order. */
  ghost predicate Enumerates(s: Snapshot, order: seq<string>) {
    && (forall key :: key in order <==> key in s.heights)
    && (forall i, j :: 0 <= i < j < |order| ==> order[i] != order[j])
  }

  function Entries(s: Snapshot, order: seq<string>): (entries: seq<Option<Write>>)
    requires forall key :: key in order ==> key in s.heights
    ensures |entries| == |s.blocks| + |order|
    ensures forall i :: 0 <= i < |s.blocks| ==> entries[i] == RecordWrite(s, s.blocks[i])
    ensures forall i :: 0 <= i < |order| ==> entries[|s.blocks| + i] == HeightWrite(s, order[i])
  {
    seq(|s.blocks|, i requires 0 <= i < |s.blocks| => RecordWrite(s, s.blocks[i])) +
    seq(|order|, i requires 0 <= i < |order| => HeightWrite(s, order[i]))
  }

  /** The files written before the first unreadable entry, and whether there is none. */
  function UpToError(entries: seq<Option<Write>>): (r: (seq<Write>, bool))
    ensures r.1 <==> forall i :: 0 <= i < |entries| ==> entries[i].Some?
  {
    if entries == [] then ([], true)
    else
      var (writes, ok) := UpToError(entries[..|entries| - 1]);
      var last := entries[|entries| - 1];
      if ok && last.Some? then (writes + [last.value], true) else (writes, false)
  }

  /** The files a migration writes, in order, and whether it succeeds: the tip file comes last. */
  function Migration(s: Snapshot, order: seq<string>): (seq<Write>, bool)
    requires forall key :: key in order ==> key in s.heights
  {
    match (HashFromString(s.genesisHash), HashFromString(s.currentTip))
    case (Some(genesis), Some(tip)) =>
      var (writes, ok) := UpToError(Entries(s, order));
      if ok then (writes + [Disk(map[], genesis, tip).MetaWrite()], true) else (writes, false)
    case _ => ([], false)
  }

  function LegacySnapshot(files: Files): Option<Snapshot> {
    match Lookup(files, LegacyPath)
    case Some(SnapshotFile(s)) => Some(s)
    case _ => None
  }

  ghost predicate MayMigrate(files: Files, order: seq<string>) {
    var s := LegacySnapshot(files);
    s.Some? ==> Enumerates(s.value, order)
  }

  /** Opening a data directory: what is left on disk, and the store if there is no error. */
  function Open(files: Files, order: seq<string>): (Files, Option<Disk>)
    requires LegacySnapshot(files).Some? ==> forall key :: key in order ==> key in LegacySnapshot(files).value.heights
  {
    match ReadMeta(files)
    case Some(Ok((genesis, tip))) => (files, Some(Disk(files, genesis, tip)))
    case Some(Err(_)) => (files, None)
    case None =>
      if Lookup(files, LegacyPath).None? then (files, Some(Disk(files, ZERO_HASH, ZERO_HASH)))
      else
        match LegacySnapshot(files)
        case None => (files, None)
        case Some(s) =>
          var (writes, ok) := Migration(s, order);
          var after := WriteAll(files, writes);
          if ok then (after, Some(Disk(after, HashFromString(s.genesisHash).value, HashFromString(s.currentTip).value)))
          else (after, None)
  }

  lemma {:induction false} ErrorIsFinal(entries: seq<Option<Write>>, i: nat)
    requires i <= |entries| && !UpToError(entries[..i]).1
    ensures UpToError(entries) == UpToError(entries[..i])
  {
    if i < |entries| {
      assert entries[..|entries| - 1][..i] == entries[..i];
      ErrorIsFinal(entries[..|entries| - 1], i);
    } else {
      assert entries[..i] == entries;
    }
  }

  /** The files of the first `done` entries have been written. */
  ghost predicate Migrated(before: Files, files: Files, entries: seq<Option<Write>>, done: nat) {
    done <= |entries| && UpToError(entries[..done]).1 && files == WriteAll(before, UpToError(entries[..done]).0)
  }

  ghost predicate MigrationFailed(before: Files, files: Files, entries: seq<Option<Write>>) {
    !UpToError(entries).1 && files == WriteAll(before, UpToError(entries).0)
  }

  lemma EntryFails(before: Files, files: Files, entries: seq<Option<Write>>, i: nat)
    requires i < |entries| && Migrated(before, files, entries, i) && entries[i].None?
    ensures MigrationFailed(before, files, entries)
  {
    assert entries[..i + 1][..i] == entries[..i];
    ErrorIsFinal(entries, i + 1);
  }

  lemma EntryWritten(before: Files, files: Files, entries: seq<Option<Write>>, i: nat)
    requires i < |entries| && Migrated(before, files, entries, i) && entries[i].Some?
    ensures Migrated(before, Replace(files, entries[i].value, 3), entries, i + 1)
  {
    assert entries[..i + 1][..i] == entries[..i];
    WriteAllSnoc(before, UpToError(entries[..i]).0, entries[i].value);
  }

  lemma NothingMigratedYet(files: Files, entries: seq<Option<Write>>)
    ensures Migrated(files, files, entries, 0)
  {
  }

  lemma NoMigration(s: Snapshot, order: seq<string>, files: Files)
    requires Enumerates(s, order) && (HashFromString(s.genesisHash).None? || HashFromString(s.currentTip).None?)
    ensures !Migration(s, order).1 && WriteAll(files, Migration(s, order).0) == files
  {
  }

  lemma MigrationStops(s: Snapshot, order: seq<string>, before: Files, files: Files)
    requires Enumerates(s, order) && HashFromString(s.genesisHash).Some? && HashFromString(s.currentTip).Some?
    requires MigrationFailed(before, files, Entries(s, order))
    ensures !Migration(s, order).1 && WriteAll(before, Migration(s, order).0) == files
  {
  }

  /** Once every entry has its file, only the tip file is missing. */
  lemma MigrationEnds(s: Snapshot, order: seq<string>, before: Files, files: Files, d: Disk)
    requires Enumerates(s, order) && Some(d.genesis) == HashFromString(s.genesisHash)
    requires Some(d.tip) == HashFromString(s.currentTip)
    requires Migrated(before, files, Entries(s, order), |Entries(s, order)|)
    ensures Migration(s, order).1 && WriteAll(before, Migration(s, order).0) == Replace(files, d.MetaWrite(), 3)
  {
    var entries := Entries(s, order);
    assert entries[..|entries|] == entries;
    WriteAllSnoc(before, UpToError(entries).0, d.MetaWrite());
  }

  class DiskStore {
    const hashOf: BlockHeader -> Hash32
    var files: Files
    var genesisHash: Hash32
    var currentTip: Hash32

    function View(): Disk
      reads this
    {
      Disk(files, genesisHash, currentTip)
    }

    constructor (hashOf: BlockHeader -> Hash32, files: Files)
      ensures this.hashOf == hashOf && View() == Disk(files, ZERO_HASH, ZERO_HASH)
    {
      this.hashOf := hashOf;
      this.files := files;
      genesisHash, currentTip := ZERO_HASH, ZERO_HASH;
    }

    method WriteFileAtomic(path: Path, content: Content)
      requires !path.TempPath?
      modifies this`files
      ensures files == Replace(old(files), Write(path, content), 3)
    {
      ghost var before := files;
      var tmp := TempPath(path);
      files := files[tmp := Torn];
      files := files[tmp := content];
      files := files[path := files[tmp]] - {tmp};
      assert files == before[path := content] - {tmp};
    }

    method Flush()
      modifies this`files
      ensures files == Replace(old(files), View().MetaWrite(), 3)
    {
      WriteFileAtomic(MetaPath, MetaFile(Hex(genesisHash), Hex(currentTip)));
    }

    method MigrateBlocks(s: Snapshot, ghost before: Files, ghost entries: seq<Option<Write>>) returns (ok: bool)
      requires |s.blocks| <= |entries| && forall i :: 0 <= i < |s.blocks| ==> entries[i] == RecordWrite(s, s.blocks[i])
      requires Migrated(before, files, entries, 0)
      modifies this`files
      ensures if ok then Migrated(before, files, entries, |s.blocks|) else MigrationFailed(before, files, entries)
    {
      for i := 0 to |s.blocks|
        invariant Migrated(before, files, entries, i)
      {
        var record := s.blocks[i];
        var hash := HashFromString(record.hash);
        if hash.None? {
          EntryFails(before, files, entries, i);
          return false;
        }
        var workText := if record.hash in s.totalWork then s.totalWork[record.hash] else "0";
        ghost var previous := files;
        WriteFileAtomic(BlockPath(hash.value), BlockFile(record.block, workText));
        EntryWritten(before, previous, entries, i);
      }
      ok := true;
    }

    method MigrateHeights(s: Snapshot, order: seq<string>, ghost before: Files, ghost entries: seq<Option<Write>>)
      returns (ok: bool)
      requires forall key :: key in order ==> key in s.heights
      requires |s.blocks| + |order| == |entries|
      requires forall j :: 0 <= j < |order| ==> entries[|s.blocks| + j] == HeightWrite(s, order[j])
      requires Migrated(before, files, entries, |s.blocks|)
      modifies this`files
      ensures if ok then Migrated(before, files, entries, |entries|) else MigrationFailed(before, files, entries)
    {
      for j := 0 to |order|
        invariant Migrated(before, files, entries, |s.blocks| + j)
      {
        assert order[j] in order;
        var height := ParseUint64(order[j]);
        var hash := HashFromString(s.heights[order[j]]);
        if height.None? || hash.None? {
          EntryFails(before, files, entries, |s.blocks| + j);
          return false;
        }
        ghost var previous := files;
        WriteFileAtomic(HeightPath(height.value), HashFile(Hex(hash.value)));
        EntryWritten(before, previous, entries, |s.blocks| + j);
      }
      ok := true;
    }

    /** Turns a legacy snapshot into files, stopping at the first entry that cannot be read. */
    method MigrateSnapshot(s: Snapshot, order: seq<string>) returns (ok: bool)
      requires Enumerates(s, order)
      modifies this
      ensures ok == Migration(s, order).1 && files == WriteAll(old(files), Migration(s, order).0)
      ensures ok ==> Some(genesisHash) == HashFromString(s.genesisHash)
      ensures ok ==> Some(currentTip) == HashFromString(s.currentTip)
    {
      hide HashFromString, RecordWrite, HeightWrite, Replace, Migration, Migrated, MigrationFailed, WriteAll, Entries,
        UpToError;
      var genesis := HashFromString(s.genesisHash);
      var tip := HashFromString(s.currentTip);
      if genesis.None? || tip.None? {
        NoMigration(s, order, files);
        return false;
      }
      ghost var entries := Entries(s, order);
      NothingMigratedYet(files, entries);
      ok := MigrateBlocks(s, files, entries);
      if !ok {
        MigrationStops(s, order, old(files), files);
        return;
      }
      ok := MigrateHeights(s, order, old(files), entries);
      if !ok {
        MigrationStops(s, order, old(files), files);
        return;
      }
      genesisHash, currentTip := genesis.value, tip.value;
      MigrationEnds(s, order, old(files), files, View());
      Flush();
    }

    /** Opens the store on the files it was created with. */
    method Load(order: seq<string>) returns (ok: bool)
      requires MayMigrate(files, order) && genesisHash == currentTip == ZERO_HASH
      modifies this
      ensures var (after, store) := Open(old(files), order);
              files == after && ok == store.Some? && (ok ==> View() == store.value)
    {
      var meta := ReadMeta(files);
      if meta.None? {
        if LegacyPath !in files {
          return true;
        }
        match files[LegacyPath] {
          case SnapshotFile(s) => ok := MigrateSnapshot(s, order);
          case _ => ok := false;
        }
        return;
      }
      if meta.value.Err? {
        return false;
      }
      genesisHash, currentTip := meta.value.value.0, meta.value.value.1;
      ok := true;
    }

    method StoreBlock(b: Block, work: int)
      modifies this
      ensures View() == old(View()).Store(hashOf(b.header), b, work)
    {
      var hash := hashOf(b.header);
      ghost var before := View();
      ghost var writes := before.StoreWrites(hash, b, work);
      WriteFileAtomic(BlockPath(hash), BlockFile(b, BigIntToString(work)));
      WriteFileAtomic(HeightPath(b.header.height), HashFile(Hex(hash)));
      if b.header.height == 0 && genesisHash == ZERO_HASH {
        genesisHash := hash;
      }
      if currentTip == ZERO_HASH {
        currentTip := hash;
      }
      Flush();
      ThreeWrites(before.files, writes);
    }

    method SetCurrentTip(hash: Hash32) returns (ok: bool)
      modifies this
      ensures ok <==> old(View()).HasBlock(hash)
      ensures View() == old(View()).MoveTip(hash)
    {
      if BlockPath(hash) !in files {
        return false;
      }
      ghost var before := files;
      currentTip := hash;
      Flush();
      OneWrite(before, View().MetaWrite());
      ok := true;
    }

    method ReadBlockEntry(hash: Hash32) returns (r: Result<(Block, string)>)
      ensures r == View().ReadBlockEntry(hash)
    {
      if BlockPath(hash) !in files {
        return Err(NOT_FOUND);
      }
      match files[BlockPath(hash)]
      case BlockFile(b, work) => r := Ok((b, work));
      case _ => r := Err("invalid block file");
    }

    method GetBlock(hash: Hash32) returns (r: Result<Block>)
      ensures r == View().GetBlock(hash)
    {
      var entry := ReadBlockEntry(hash);
      if entry.Err? {
        return Err(entry.message);
      }
      r := Ok(entry.value.0);
    }

    method GetHeader(hash: Hash32) returns (r: Result<BlockHeader>)
      ensures r == View().GetHeader(hash)
    {
      var b := GetBlock(hash);
      if b.Err? {
        return Err(b.message);
      }
      r := Ok(b.value.header);
    }

    method HasBlock(hash: Hash32) returns (found: bool)
      ensures found <==> View().HasBlock(hash)
    {
      found := BlockPath(hash) in files;
    }

    method GetBlockByHeight(height: Uint64) returns (r: Result<Block>)
      ensures r == View().GetBlockByHeight(height)
    {
      var hash := View().HashAt(height);
      if hash.None? {
        return Err(NOT_FOUND);
      }
      r := GetBlock(hash.value);
    }

    method TotalWork(hash: Hash32) returns (r: Result<int>)
      ensures r == View().TotalWork(hash)
    {
      var entry := ReadBlockEntry(hash);
      if entry.Err? {
        return Err(entry.message);
      }
      var work := BigIntFromString(entry.value.1);
      if work.None? {
        return Err("invalid big integer");
      }
      r := Ok(work.value);
    }

    method CurrentTip() returns (r: Result<(Block, int)>)
      ensures r == View().CurrentTip()
    {
      if currentTip == ZERO_HASH {
        return Err(NOT_FOUND);
      }
      var entry := ReadBlockEntry(currentTip);
      if entry.Err? {
        return Err(entry.message);
      }
      var work := TotalWork(currentTip);
      if work.Err? {
        return Err(work.message);
      }
      r := Ok((entry.value.0, work.value));
    }
  }

  lemma OneWrite(files: Files, w: Write)
    ensures WriteAll(files, [w]) == Replace(files, w, 3)
  {
    WriteAllSnoc(files, [], w);
    assert [] + [w] == [w];
  }

  lemma ThreeWrites(files: Files, writes: seq<Write>)
    requires |writes| == 3
    ensures WriteAll(files, writes) == Replace(Replace(Replace(files, writes[0], 3), writes[1], 3), writes[2], 3)
  {
    OneWrite(files, writes[0]);
    WriteAllSnoc(files, [writes[0]], writes[1]);
    WriteAllSnoc(files, [writes[0]] + [writes[1]], writes[2]);
    assert [writes[0]] + [writes[1]] + [writes[2]] == writes;
  }

  // ----- the refinement -----

  /** What readers of the files find under a hash is the chain's block and work. */
  predicate BlockAgrees(files: Files, c: Chain, hash: Hash32) {
    match Lookup(files, BlockPath(hash))
    case None => hash !in c.blocks && hash !in c.work
    case Some(BlockFile(b, text)) =>
      && hash in c.blocks && hash in c.work
      && b == c.blocks[hash] && BigIntFromString(text) == Some(c.work[hash])
    case _ => false
  }

  predicate HeightAgrees(files: Files, c: Chain, height: Uint64) {
    match Lookup(files, HeightPath(height))
    case None => height !in c.heights
    case Some(HashFile(text)) => height in c.heights && HashFromString(text) == Some(c.heights[height])
    case _ => false
  }

  /** The tip file holds the two hashes; without one there are none, and no old snapshot to read. */
  predicate MetaAgrees(files: Files, genesis: Hash32, tip: Hash32) {
    match ReadMeta(files)
    case None => genesis == tip == ZERO_HASH && Lookup(files, LegacyPath).None?
    case Some(Ok((g, t))) => g == genesis && t == tip
    case Some(Err(_)) => false
  }

  ghost predicate Agrees(files: Files, c: Chain) {
    && (forall hash :: BlockAgrees(files, c, hash))
    && (forall height :: HeightAgrees(files, c, height))
  }

  /** Nothing a chain points at is missing. */
  ghost predicate Closed(c: Chain) {
    && c.work.Keys == c.blocks.Keys
    && (forall height :: height in c.heights ==> c.heights[height] in c.blocks)
    && (c.tip == ZERO_HASH || c.tip in c.blocks)
    && (c.genesis == ZERO_HASH || c.genesis in c.blocks)
  }

  ghost predicate Represents(d: Disk, c: Chain) {
    && Agrees(d.files, c) && MetaAgrees(d.files, d.genesis, d.tip)
    && d.genesis == c.genesis && d.tip == c.tip && Closed(c)
  }

  function AsResult<T>(r: Option<T>): Result<T> {
    match r
    case Some(value) => Ok(value)
    case None => Err(NOT_FOUND)
  }

  lemma BlockReads(d: Disk, c: Chain, hash: Hash32)
    requires Represents(d, c)
    ensures d.HasBlock(hash) <==> hash in c.blocks
    ensures d.GetBlock(hash) == if hash in c.blocks then Ok(c.blocks[hash]) else Err(NOT_FOUND)
    ensures d.GetHeader(hash) == AsResult(c.HeaderOf(hash))
    ensures d.TotalWork(hash) == AsResult(c.WorkOf(hash))
  {
    assert BlockAgrees(d.files, c, hash);
  }

  /** Every question about a disk store has the answer the in-memory store gives. */
  lemma ObserversAgree(d: Disk, c: Chain, hash: Hash32, height: Uint64)
    requires Represents(d, c)
    ensures d.HasBlock(hash) <==> hash in c.blocks
    ensures d.GetBlock(hash) == if hash in c.blocks then Ok(c.blocks[hash]) else Err(NOT_FOUND)
    ensures d.GetHeader(hash) == AsResult(c.HeaderOf(hash))
    ensures d.TotalWork(hash) == AsResult(c.WorkOf(hash))
    ensures d.GetBlockByHeight(height) == AsResult(c.BlockAtHeight(height))
    ensures d.CurrentTip() == AsResult(c.CurrentTip())
  {
    BlockReads(d, c, hash);
    BlockReads(d, c, d.tip);
    assert HeightAgrees(d.files, c, height);
    if height in c.heights {
      BlockReads(d, c, c.heights[height]);
    }
  }

  // ----- how far a store operation has got -----

  /** A chain on which the first `stage` files of a stored block have been replaced. */
  function StoreStage(c: Chain, hash: Hash32, b: Block, work: nat, stage: nat): Chain {
    if stage == 0 then c
    else if stage == 1 then c.(blocks := c.blocks[hash := b], work := c.work[hash := work])
    else if stage == 2 then
      c.(blocks := c.blocks[hash := b], work := c.work[hash := work], heights := c.heights[b.header.height := hash])
    else c.Store(hash, b, work)
  }

  lemma StageClosed(c: Chain, hash: Hash32, b: Block, work: nat, stage: nat)
    requires Closed(c)
    ensures Closed(StoreStage(c, hash, b, work, stage))
  {
  }

  lemma StoreWritesDurable(d: Disk, hash: Hash32, b: Block, work: nat, stage: nat)
    requires stage <= 3
    ensures Durable(d.StoreWrites(hash, b, work)) && Durable(d.StoreWrites(hash, b, work)[..stage])
  {
  }

  /** What a path holds once the first `stage` files of a stored block have been replaced. */
  lemma StageLookup(d: Disk, hash: Hash32, b: Block, work: nat, stage: nat, p: Path)
    requires stage <= 3 && !p.TempPath?
    ensures var writes := d.StoreWrites(hash, b, work);
            Lookup(WriteAll(d.files, writes[..stage]), p) ==
              if stage >= 1 && p == writes[0].path then Some(writes[0].content)
              else if stage >= 2 && p == writes[1].path then Some(writes[1].content)
              else if stage == 3 && p == MetaPath then Some(writes[2].content)
              else Lookup(d.files, p)
  {
    var writes := d.StoreWrites(hash, b, work);
    StoreWritesDurable(d, hash, b, work, stage);
    WriteAllLookup(d.files, writes[..stage], p);
    LastOfThree(writes, stage, p);
  }

  lemma LastOfThree(writes: seq<Write>, stage: nat, p: Path)
    requires stage <= |writes| == 3
    requires writes[0].path != writes[1].path && writes[1].path != writes[2].path && writes[0].path != writes[2].path
    ensures LastWrite(writes[..stage], p) ==
              if stage >= 1 && p == writes[0].path then Some(writes[0].content)
              else if stage >= 2 && p == writes[1].path then Some(writes[1].content)
              else if stage == 3 && p == writes[2].path then Some(writes[2].content)
              else None
  {
    assert writes[..0] == [] && writes[..1][..0] == [];
    assert LastWrite(writes[..1], p) == if p == writes[0].path then Some(writes[0].content) else None;
    assert writes[..2][..1] == writes[..1];
    assert writes[..3][..2] == writes[..2];
  }

  /** Readers of `files` see what the first `stage` replacements of a stored block leave. */
  ghost predicate AtStage(d: Disk, hash: Hash32, b: Block, work: nat, stage: nat, files: Files)
    requires stage <= 3
  {
    forall p: Path {:trigger Lookup(files, p)} :: !p.TempPath? ==>
      Lookup(files, p) == Lookup(WriteAll(d.files, d.StoreWrites(hash, b, work)[..stage]), p)
  }

  lemma StageBlock(d: Disk, c: Chain, hash: Hash32, b: Block, work: nat, stage: nat, files: Files, h: Hash32)
    requires Represents(d, c) && stage <= 3 && AtStage(d, hash, b, work, stage, files)
    ensures BlockAgrees(files, StoreStage(c, hash, b, work, stage), h)
  {
    hide WriteAll, Closed, MetaAgrees, Hex, HashFromString, HeightAgrees, BigIntToString, BigIntFromString;
    BigIntRoundTrip(work);
    StageLookup(d, hash, b, work, stage, BlockPath(h));
    assert BlockAgrees(d.files, c, h);
  }

  lemma StageHeight(d: Disk, c: Chain, hash: Hash32, b: Block, work: nat, stage: nat, files: Files, height: Uint64)
    requires Represents(d, c) && stage <= 3 && AtStage(d, hash, b, work, stage, files)
    ensures HeightAgrees(files, StoreStage(c, hash, b, work, stage), height)
  {
    hide WriteAll, Closed, MetaAgrees, Hex, HashFromString, BlockAgrees, BigIntToString, BigIntFromString;
    HashRoundTrip(hash);
    StageLookup(d, hash, b, work, stage, HeightPath(height));
    assert HeightAgrees(d.files, c, height);
  }

  lemma MetaWritten(files: Files, genesis: Hash32, tip: Hash32)
    requires Lookup(files, MetaPath) == Some(MetaFile(Hex(genesis), Hex(tip)))
    ensures MetaAgrees(files, genesis, tip)
  {
    HashRoundTrip(genesis);
    HashRoundTrip(tip);
  }

  lemma SameMeta(files: Files, other: Files, genesis: Hash32, tip: Hash32)
    requires Lookup(files, MetaPath) == Lookup(other, MetaPath)
    requires Lookup(files, LegacyPath) == Lookup(other, LegacyPath)
    requires MetaAgrees(files, genesis, tip)
    ensures MetaAgrees(other, genesis, tip)
  {
    assert MetaPath in files <==> MetaPath in other;
  }

  lemma StageMeta(d: Disk, c: Chain, hash: Hash32, b: Block, work: nat, stage: nat, files: Files)
    requires Represents(d, c) && stage <= 3 && AtStage(d, hash, b, work, stage, files)
    ensures var after := StoreStage(c, hash, b, work, stage); MetaAgrees(files, after.genesis, after.tip)
  {
    StageLookup(d, hash, b, work, stage, MetaPath);
    StageLookup(d, hash, b, work, stage, LegacyPath);
    if stage == 3 {
      MetaWritten(files, d.GenesisWith(hash, b), d.TipWith(hash));
    } else {
      SameMeta(d.files, files, d.genesis, d.tip);
    }
  }

  /** Readers who see the first `stage` files of a stored block see the chain at that stage. */
  lemma StageRepresents(d: Disk, c: Chain, hash: Hash32, b: Block, work: nat, stage: nat, files: Files)
    requires Represents(d, c) && stage <= 3 && AtStage(d, hash, b, work, stage, files)
    ensures var after := StoreStage(c, hash, b, work, stage);
            Represents(Disk(files, after.genesis, after.tip), after)
  {
    var after := StoreStage(c, hash, b, work, stage);
    forall h
      ensures BlockAgrees(files, after, h)
    {
      StageBlock(d, c, hash, b, work, stage, files, h);
    }
    forall height
      ensures HeightAgrees(files, after, height)
    {
      StageHeight(d, c, hash, b, work, stage, files, height);
    }
    StageMeta(d, c, hash, b, work, stage, files);
    StageClosed(c, hash, b, work, stage);
  }

  /** Storing a block on disk is storing it in memory. */
  lemma StoreRefines(d: Disk, c: Chain, hash: Hash32, b: Block, work: nat)
    requires Represents(d, c)
    ensures Represents(d.Store(hash, b, work), c.Store(hash, b, work))
  {
    assert d.StoreWrites(hash, b, work)[..3] == d.StoreWrites(hash, b, work);
    StageRepresents(d, c, hash, b, work, 3, d.Store(hash, b, work).files);
  }

  /** Blocks and heights are read from their own files only. */
  lemma SameEntries(files: Files, other: Files, c: Chain, d: Chain)
    requires Agrees(files, c) && c.blocks == d.blocks && c.work == d.work && c.heights == d.heights
    requires forall p: Path :: p.BlockPath? || p.HeightPath? ==> Lookup(other, p) == Lookup(files, p)
    ensures Agrees(other, d)
  {
    forall hash
      ensures BlockAgrees(other, d, hash)
    {
      assert BlockAgrees(files, c, hash);
    }
    forall height
      ensures HeightAgrees(other, d, height)
    {
      assert HeightAgrees(files, c, height);
    }
  }

  lemma TipFileWritten(files: Files, w: Write)
    requires w.path == MetaPath
    ensures forall p: Path :: p.BlockPath? || p.HeightPath? ==> Lookup(Replace(files, w, 3), p) == Lookup(files, p)
    ensures Lookup(Replace(files, w, 3), MetaPath) == Some(w.content)
  {
  }

  lemma MoveTipAgrees(d: Disk, c: Chain, hash: Hash32)
    requires Represents(d, c) && d.HasBlock(hash)
    ensures Represents(d.MoveTip(hash), c.MoveTip(hash))
  {
    var w := d.(tip := hash).MetaWrite();
    BlockReads(d, c, hash);
    OneWrite(d.files, w);
    TipFileWritten(d.files, w);
    SameEntries(d.files, Replace(d.files, w, 3), c, c.MoveTip(hash));
    MetaWritten(Replace(d.files, w, 3), d.genesis, hash);
  }

  /** Moving the tip on disk is moving it in memory. */
  lemma MoveTipRefines(d: Disk, c: Chain, hash: Hash32)
    requires Represents(d, c)
    ensures Represents(d.MoveTip(hash), c.MoveTip(hash))
  {
    BlockReads(d, c, hash);
    if d.HasBlock(hash) {
      MoveTipAgrees(d, c, hash);
    }
  }
}
