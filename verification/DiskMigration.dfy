/**
 Migrating a legacy snapshot. The migration may be stopped by a crash any number of times and visit
 the heights in a different order each time; the store it ends with is always the same.
 */
module DiskMigration {
  import opened Base
  import opened Codec
  import opened ChainStore
  import opened DiskFiles
  import opened DiskStore

  /** Two lists of writes that leave every path the same content, if each is done in full. */
  ghost predicate SameOutcome(a: seq<Write>, b: seq<Write>) {
    forall p: Path :: LastWrite(a, p) == LastWrite(b, p)
  }

  /** Readers find what was there before, or what one of the writes puts there. */
  ghost predicate Between(base: Files, writes: seq<Write>, files: Files) {
    forall p: Path {:trigger Lookup(files, p)} :: !p.TempPath? ==>
      Lookup(files, p) == Lookup(base, p) || Writes(writes, p, Lookup(files, p))
  }

  ghost predicate Writes(writes: seq<Write>, p: Path, content: Option<Content>) {
    exists i :: 0 <= i < |writes| && writes[i].path == p && content == Some(writes[i].content)
  }

  ghost predicate SameWrites(a: seq<Write>, b: seq<Write>) {
    forall w :: w in a <==> w in b
  }

  ghost predicate SameForReaders(a: Files, b: Files) {
    forall p: Path :: !p.TempPath? ==> Lookup(a, p) == Lookup(b, p)
  }

  lemma {:induction false} LastIsAWrite(writes: seq<Write>, p: Path)
    ensures LastWrite(writes, p).Some? ==> Writes(writes, p, LastWrite(writes, p))
    ensures LastWrite(writes, p).None? ==> forall i :: 0 <= i < |writes| ==> writes[i].path != p
  {
    if writes != [] {
      LastIsAWrite(writes[..|writes| - 1], p);
    }
  }

  lemma {:induction false} PrefixLastWrite(writes: seq<Write>, n: nat, p: Path)
    requires n <= |writes|
    ensures LastWrite(writes[..n], p).Some? ==> Writes(writes, p, LastWrite(writes[..n], p))
  {
    LastIsAWrite(writes[..n], p);
  }

  /** Stopping anywhere, from anywhere in between, leaves the files in between. */
  lemma CrashStaysBetween(base: Files, writes: seq<Write>, files: Files, steps: nat)
    requires Durable(writes) && Between(base, writes, files)
    ensures Between(base, writes, After(files, writes, steps))
  {
    var after := After(files, writes, steps);
    var n := Whole(writes, steps);
    forall p: Path {:trigger Lookup(after, p)} | !p.TempPath?
      ensures Lookup(after, p) == Lookup(base, p) || Writes(writes, p, Lookup(after, p))
    {
      CrashIsPrefix(files, writes, steps, p);
      WriteAllLookup(files, writes[..n], p);
      PrefixLastWrite(writes, n, p);
    }
  }

  lemma WritesOfBoth(a: seq<Write>, b: seq<Write>, p: Path, content: Option<Content>)
    requires SameWrites(a, b) && Writes(a, p, content)
    ensures Writes(b, p, content)
  {
    var i :| 0 <= i < |a| && a[i].path == p && content == Some(a[i].content);
    assert a[i] in b;
  }

  lemma BetweenSameWrites(base: Files, a: seq<Write>, b: seq<Write>, files: Files)
    requires SameWrites(a, b) && Between(base, a, files)
    ensures Between(base, b, files)
  {
    forall p: Path {:trigger Lookup(files, p)} | !p.TempPath? && Writes(a, p, Lookup(files, p))
      ensures Writes(b, p, Lookup(files, p))
    {
      WritesOfBoth(a, b, p, Lookup(files, p));
    }
  }

  /** Doing all the writes from anywhere in between ends where doing an equivalent list at once does. */
  lemma CompletionIsUnique(base: Files, a: seq<Write>, b: seq<Write>, files: Files)
    requires Durable(a) && Durable(b) && SameOutcome(a, b) && Between(base, a, files)
    ensures SameForReaders(WriteAll(files, b), WriteAll(base, a))
  {
    forall p: Path | !p.TempPath?
      ensures Lookup(WriteAll(files, b), p) == Lookup(WriteAll(base, a), p)
    {
      WriteAllLookup(files, b, p);
      WriteAllLookup(base, a, p);
      LastIsAWrite(a, p);
      assert Lookup(files, p) == Lookup(base, p) || Writes(a, p, Lookup(files, p));
    }
  }

  // ----- the writes of a migration -----

  ghost predicate Readable(s: Snapshot) {
    && HashFromString(s.genesisHash).Some? && HashFromString(s.currentTip).Some?
    && (forall i {:trigger s.blocks[i]} :: 0 <= i < |s.blocks| ==> RecordWrite(s, s.blocks[i]).Some?)
    && (forall key :: key in s.heights ==> HeightWrite(s, key).Some?)
  }

  function MetaOf(s: Snapshot): Write
    requires HashFromString(s.genesisHash).Some? && HashFromString(s.currentTip).Some?
  {
    Disk(map[], HashFromString(s.genesisHash).value, HashFromString(s.currentTip).value).MetaWrite()
  }

  /** The files a migration writes, whatever the order. */
  ghost predicate IsWrite(s: Snapshot, w: Write)
    requires Readable(s)
  {
    IsBlockWrite(s, w) || IsHeightWrite(s, w) || w == MetaOf(s)
  }

  ghost predicate IsBlockWrite(s: Snapshot, w: Write) {
    exists i {:trigger s.blocks[i]} :: 0 <= i < |s.blocks| && RecordWrite(s, s.blocks[i]) == Some(w)
  }

  ghost predicate IsHeightWrite(s: Snapshot, w: Write) {
    exists key :: key in s.heights && HeightWrite(s, key) == Some(w)
  }

  /** No two keys spell one height and name different hashes. */
  ghost predicate HeightsAgree(s: Snapshot) {
    forall k, l :: k in s.heights && l in s.heights && ParseUint64(k) == ParseUint64(l) ==>
      HashFromString(s.heights[k]) == HashFromString(s.heights[l])
  }

  lemma {:induction false} AllReadable(entries: seq<Option<Write>>)
    requires forall i :: 0 <= i < |entries| ==> entries[i].Some?
    ensures var (writes, ok) := UpToError(entries);
            ok && |writes| == |entries| && forall i :: 0 <= i < |entries| ==> entries[i] == Some(writes[i])
  {
    if entries != [] {
      AllReadable(entries[..|entries| - 1]);
    }
  }

  lemma EntriesReadable(s: Snapshot, order: seq<string>)
    requires Readable(s) && Enumerates(s, order)
    ensures forall i :: 0 <= i < |s.blocks| + |order| ==> Entries(s, order)[i].Some?
  {
    var entries := Entries(s, order);
    forall i | 0 <= i < |entries|
      ensures entries[i].Some?
    {
      if i < |s.blocks| {
        assert entries[i] == RecordWrite(s, s.blocks[i]);
      } else {
        assert order[i - |s.blocks|] in order;
        assert entries[|s.blocks| + (i - |s.blocks|)] == HeightWrite(s, order[i - |s.blocks|]);
      }
    }
  }

  lemma MigrationShape(s: Snapshot, order: seq<string>)
    requires Readable(s) && Enumerates(s, order)
    ensures var (writes, ok) := Migration(s, order);
            var entries := Entries(s, order);
            && ok && |writes| == |entries| + 1 && writes[|entries|] == MetaOf(s)
            && forall i :: 0 <= i < |entries| ==> entries[i] == Some(writes[i])
  {
    EntriesReadable(s, order);
    AllReadable(Entries(s, order));
  }

  lemma WriteAtIsWrite(s: Snapshot, order: seq<string>, i: nat)
    requires Readable(s) && Enumerates(s, order) && i < |Migration(s, order).0|
    ensures IsWrite(s, Migration(s, order).0[i])
  {
    MigrationShape(s, order);
    var w, entries := Migration(s, order).0[i], Entries(s, order);
    if i < |s.blocks| {
      assert entries[i] == RecordWrite(s, s.blocks[i]);
      assert IsBlockWrite(s, w);
    } else if i < |entries| {
      assert order[i - |s.blocks|] in order;
      assert entries[|s.blocks| + (i - |s.blocks|)] == HeightWrite(s, order[i - |s.blocks|]);
      assert IsHeightWrite(s, w);
    }
  }

  lemma BlockWriteListed(s: Snapshot, order: seq<string>, w: Write)
    requires Readable(s) && Enumerates(s, order) && IsBlockWrite(s, w)
    ensures w in Migration(s, order).0
  {
    MigrationShape(s, order);
    var i :| 0 <= i < |s.blocks| && RecordWrite(s, s.blocks[i]) == Some(w);
    assert Entries(s, order)[i] == Some(w);
    assert Migration(s, order).0[i] == w;
  }

  lemma PositionOf<T>(list: seq<T>, x: T) returns (j: nat)
    requires x in list
    ensures j < |list| && list[j] == x
  {
    j :| j < |list| && list[j] == x;
  }

  lemma HeightWriteListed(s: Snapshot, order: seq<string>, w: Write)
    requires Readable(s) && Enumerates(s, order) && IsHeightWrite(s, w)
    ensures w in Migration(s, order).0
  {
    var key :| key in s.heights && HeightWrite(s, key) == Some(w);
    assert key in order;
    var j := PositionOf(order, key);
    HeightWriteAt(s, order, j, w);
  }

  lemma HeightWriteAt(s: Snapshot, order: seq<string>, j: nat, w: Write)
    requires Readable(s) && Enumerates(s, order) && j < |order|
    requires order[j] in s.heights && HeightWrite(s, order[j]) == Some(w)
    ensures w in Migration(s, order).0
  {
    MigrationShape(s, order);
    var i := |s.blocks| + j;
    assert Entries(s, order)[i] == Some(w);
    assert Migration(s, order).0[i] == w;
  }

  /** A migration writes the files of the snapshot, whatever the order, and no others. */
  lemma MigrationWrites(s: Snapshot, order: seq<string>, w: Write)
    requires Readable(s) && Enumerates(s, order)
    ensures w in Migration(s, order).0 <==> IsWrite(s, w)
  {
    var writes := Migration(s, order).0;
    if w in writes {
      var i :| 0 <= i < |writes| && writes[i] == w;
      WriteAtIsWrite(s, order, i);
    }
    if IsBlockWrite(s, w) {
      BlockWriteListed(s, order, w);
    } else if IsHeightWrite(s, w) {
      HeightWriteListed(s, order, w);
    } else if w == MetaOf(s) {
      MigrationShape(s, order);
      assert writes[|writes| - 1] == w;
    }
  }

  lemma WritesAreDurable(s: Snapshot, order: seq<string>)
    requires Readable(s) && Enumerates(s, order)
    ensures Durable(Migration(s, order).0)
  {
    var writes := Migration(s, order).0;
    forall i {:trigger writes[i]} | 0 <= i < |writes|
      ensures !writes[i].path.TempPath?
    {
      WriteAtIsWrite(s, order, i);
    }
  }

  /** Block records are visited in list order, so nothing else decides what a block path ends with. */
  lemma {:induction false} LastWriteSkips(writes: seq<Write>, n: nat, p: Path)
    requires n <= |writes| && forall i :: n <= i < |writes| ==> writes[i].path != p
    ensures LastWrite(writes, p) == LastWrite(writes[..n], p)
  {
    if n < |writes| {
      var init := writes[..|writes| - 1];
      LastWriteSkips(init, n, p);
      assert init[..n] == writes[..n];
    } else {
      assert writes[..n] == writes;
    }
  }

  lemma EntryAt(s: Snapshot, order: seq<string>, i: nat)
    requires Readable(s) && Enumerates(s, order) && i < |s.blocks| + |order|
    ensures i < |Migration(s, order).0| && Entries(s, order)[i] == Some(Migration(s, order).0[i])
  {
    MigrationShape(s, order);
  }

  lemma BlocksFirst(s: Snapshot, order: seq<string>, i: nat)
    requires Readable(s) && Enumerates(s, order) && i < |Migration(s, order).0|
    ensures i < |s.blocks| ==> RecordWrite(s, s.blocks[i]) == Some(Migration(s, order).0[i])
    ensures i >= |s.blocks| ==> !Migration(s, order).0[i].path.BlockPath?
  {
    MigrationShape(s, order);
    if i < |s.blocks| + |order| {
      EntryAt(s, order, i);
      if i >= |s.blocks| {
        assert Entries(s, order)[|s.blocks| + (i - |s.blocks|)] == HeightWrite(s, order[i - |s.blocks|]);
      }
    }
  }

  /** For a block path only the records count, and they come in one order. */
  lemma BlockOutcome(s: Snapshot, order: seq<string>, other: seq<string>, p: Path)
    requires Readable(s) && Enumerates(s, order) && Enumerates(s, other) && p.BlockPath?
    ensures LastWrite(Migration(s, order).0, p) == LastWrite(Migration(s, other).0, p)
  {
    hide LastWrite, Migration, RecordWrite;
    var a, b, n := Migration(s, order).0, Migration(s, other).0, |s.blocks|;
    MigrationShape(s, order);
    MigrationShape(s, other);
    forall i | 0 <= i < |a|
      ensures i < n ==> RecordWrite(s, s.blocks[i]) == Some(a[i])
      ensures i >= n ==> a[i].path != p
    {
      BlocksFirst(s, order, i);
    }
    forall i | 0 <= i < |b|
      ensures i < n ==> RecordWrite(s, s.blocks[i]) == Some(b[i])
      ensures i >= n ==> b[i].path != p
    {
      BlocksFirst(s, other, i);
    }
    LastWriteSkips(a, n, p);
    LastWriteSkips(b, n, p);
    assert a[..n] == b[..n];
  }

  /** For any other path the heights decide, and they agree. */
  lemma OneContent(s: Snapshot, v: Write, w: Write)
    requires Readable(s) && HeightsAgree(s) && IsWrite(s, v) && IsWrite(s, w)
    requires v.path == w.path && !v.path.BlockPath?
    ensures v == w
  {
    if IsHeightWrite(s, v) && IsHeightWrite(s, w) {
      var k :| k in s.heights && HeightWrite(s, k) == Some(v);
      var l :| l in s.heights && HeightWrite(s, l) == Some(w);
      assert ParseUint64(k) == ParseUint64(l);
    }
  }

  lemma OutcomeIsWrite(s: Snapshot, order: seq<string>, p: Path)
    requires Readable(s) && Enumerates(s, order)
    ensures var last := LastWrite(Migration(s, order).0, p);
            if last.Some? then IsWrite(s, Write(p, last.value)) else forall w :: IsWrite(s, w) ==> w.path != p
  {
    var writes := Migration(s, order).0;
    LastIsAWrite(writes, p);
    if LastWrite(writes, p).Some? {
      var i :| 0 <= i < |writes| && writes[i].path == p && LastWrite(writes, p) == Some(writes[i].content);
      assert writes[i] == Write(p, writes[i].content) && writes[i] in writes;
      MigrationWrites(s, order, writes[i]);
    } else {
      forall w | IsWrite(s, w)
        ensures w.path != p
      {
        MigrationWrites(s, order, w);
      }
    }
  }

  lemma OtherOutcome(s: Snapshot, order: seq<string>, other: seq<string>, p: Path)
    requires Readable(s) && HeightsAgree(s) && Enumerates(s, order) && Enumerates(s, other) && !p.BlockPath?
    ensures LastWrite(Migration(s, order).0, p) == LastWrite(Migration(s, other).0, p)
  {
    hide Migration, LastWrite, IsWrite, HeightsAgree;
    var a, b := LastWrite(Migration(s, order).0, p), LastWrite(Migration(s, other).0, p);
    OutcomeIsWrite(s, order, p);
    OutcomeIsWrite(s, other, p);
    if a.Some? && b.Some? {
      OneContent(s, Write(p, a.value), Write(p, b.value));
    }
  }

  /** When the heights agree, every order of them is an equivalent migration. */
  lemma MigrationFacts(s: Snapshot, order: seq<string>, other: seq<string>)
    requires Readable(s) && HeightsAgree(s) && Enumerates(s, order) && Enumerates(s, other)
    ensures var writes := Migration(s, order).0;
            Durable(writes) && SameOutcome(writes, Migration(s, other).0) && SameWrites(writes, Migration(s, other).0)
  {
    hide Migration, LastWrite, IsWrite, HeightsAgree;
    WritesAreDurable(s, order);
    forall p: Path
      ensures LastWrite(Migration(s, order).0, p) == LastWrite(Migration(s, other).0, p)
    {
      if p.BlockPath? {
        BlockOutcome(s, order, other, p);
      } else {
        OtherOutcome(s, order, other, p);
      }
    }
    forall w
      ensures w in Migration(s, order).0 <==> w in Migration(s, other).0
    {
      MigrationWrites(s, order, w);
      MigrationWrites(s, other, w);
    }
  }

  // ----- interrupted migrations -----

  /** An opening that was stopped after so many file steps; the heights came in the given order. */
  datatype Attempt = Attempt(order: seq<string>, steps: nat)

  /** The directory holds the old snapshot and no tip file yet. */
  ghost predicate Unmigrated(files: Files, s: Snapshot) {
    ReadMeta(files).None? && LegacySnapshot(files) == Some(s)
  }

  ghost predicate Attempts(s: Snapshot, attempts: seq<Attempt>) {
    forall i {:trigger attempts[i]} :: 0 <= i < |attempts| ==> Enumerates(s, attempts[i].order)
  }

  function Stopped(s: Snapshot, files: Files, a: Attempt): Files
    requires forall key :: key in a.order ==> key in s.heights
  {
    if ReadMeta(files).None? then After(files, Migration(s, a.order).0, a.steps) else files
  }

  ghost function AllStopped(s: Snapshot, files: Files, attempts: seq<Attempt>): Files
    requires Attempts(s, attempts)
  {
    if attempts == [] then files
    else Stopped(s, AllStopped(s, files, attempts[..|attempts| - 1]), attempts[|attempts| - 1])
  }

  /** Files on the way from `base` to a finished migration, which is finished once the tip file is there. */
  ghost predicate OnTheWay(base: Files, s: Snapshot, writes: seq<Write>, files: Files) {
    && LegacySnapshot(files) == Some(s) && Between(base, writes, files)
    && (ReadMeta(files).Some? ==> SameForReaders(files, WriteAll(base, writes)))
  }

  lemma LookupDecides(a: Files, b: Files)
    ensures Lookup(a, LegacyPath) == Lookup(b, LegacyPath) ==> LegacySnapshot(a) == LegacySnapshot(b)
    ensures Lookup(a, MetaPath) == Lookup(b, MetaPath) ==> ReadMeta(a) == ReadMeta(b)
  {
    assert Lookup(a, MetaPath) == Lookup(b, MetaPath) ==> (MetaPath in a <==> MetaPath in b);
  }

  /** A migration writes no snapshot, and its last write is its only tip file. */
  lemma WrittenPaths(s: Snapshot, order: seq<string>)
    requires Readable(s) && Enumerates(s, order)
    ensures var writes := Migration(s, order).0;
            && |writes| > 0
            && (forall i :: 0 <= i < |writes| ==> writes[i].path != LegacyPath)
            && (forall i :: 0 <= i < |writes| - 1 ==> writes[i].path != MetaPath)
  {
    MigrationShape(s, order);
    var writes, entries := Migration(s, order).0, Entries(s, order);
    forall i | 0 <= i < |entries|
      ensures writes[i].path.BlockPath? || writes[i].path.HeightPath?
    {
      if i < |s.blocks| {
        assert entries[i] == RecordWrite(s, s.blocks[i]);
      } else {
        assert order[i - |s.blocks|] in order;
        assert entries[|s.blocks| + (i - |s.blocks|)] == HeightWrite(s, order[i - |s.blocks|]);
      }
    }
  }

  lemma LegacyUntouched(base: Files, s: Snapshot, order: seq<string>, files: Files)
    requires Readable(s) && Enumerates(s, order) && LegacySnapshot(base) == Some(s)
    requires Between(base, Migration(s, order).0, files)
    ensures LegacySnapshot(files) == Some(s)
  {
    WrittenPaths(s, order);
    assert Lookup(files, LegacyPath) == Lookup(base, LegacyPath);
    LookupDecides(files, base);
  }

  /** Stopping before the last write leaves no tip file. */
  lemma NoTipFileYet(s: Snapshot, order: seq<string>, files: Files, steps: nat)
    requires Readable(s) && Enumerates(s, order) && ReadMeta(files).None?
    requires Durable(Migration(s, order).0) && Whole(Migration(s, order).0, steps) < |Migration(s, order).0|
    ensures ReadMeta(After(files, Migration(s, order).0, steps)).None?
  {
    var writes := Migration(s, order).0;
    var n := Whole(writes, steps);
    WrittenPaths(s, order);
    CrashIsPrefix(files, writes, steps, MetaPath);
    WriteAllLookup(files, writes[..n], MetaPath);
    LastIsAWrite(writes[..n], MetaPath);
  }

  /** Once the steps suffice, all writes are done. */
  lemma {:induction false} EnoughSteps(files: Files, writes: seq<Write>, steps: nat)
    requires Whole(writes, steps) == |writes|
    ensures After(files, writes, steps) == WriteAll(files, writes)
    decreases |writes|
  {
    if writes != [] {
      EnoughSteps(Replace(files, writes[0], 3), writes[1..], steps - 3);
    }
  }

  lemma StoppedStaysOnTheWay(base: Files, s: Snapshot, order: seq<string>, files: Files, a: Attempt)
    requires Readable(s) && HeightsAgree(s) && Enumerates(s, order) && Enumerates(s, a.order)
    requires LegacySnapshot(base) == Some(s)
    requires OnTheWay(base, s, Migration(s, order).0, files)
    ensures OnTheWay(base, s, Migration(s, order).0, Stopped(s, files, a))
  {
    if ReadMeta(files).None? {
      var all, writes := Migration(s, order).0, Migration(s, a.order).0;
      var after := Stopped(s, files, a);
      MigrationFacts(s, order, a.order);
      MigrationFacts(s, a.order, order);
      BetweenSameWrites(base, all, writes, files);
      CrashStaysBetween(base, writes, files, a.steps);
      BetweenSameWrites(base, writes, all, after);
      LegacyUntouched(base, s, order, after);
      if Whole(writes, a.steps) < |writes| {
        NoTipFileYet(s, a.order, files, a.steps);
      } else {
        EnoughSteps(files, writes, a.steps);
        CompletionIsUnique(base, all, writes, files);
      }
    }
  }

  lemma {:induction false} AllStoppedOnTheWay(base: Files, s: Snapshot, order: seq<string>, attempts: seq<Attempt>)
    requires Readable(s) && HeightsAgree(s) && Enumerates(s, order) && Unmigrated(base, s) && Attempts(s, attempts)
    ensures OnTheWay(base, s, Migration(s, order).0, AllStopped(s, base, attempts))
  {
    if attempts != [] {
      var init := attempts[..|attempts| - 1];
      AllStoppedOnTheWay(base, s, order, init);
      StoppedStaysOnTheWay(base, s, order, AllStopped(s, base, init), attempts[|attempts| - 1]);
    }
  }

  /** The tip file of a finished migration holds the snapshot's two hashes. */
  lemma FinishedMeta(base: Files, s: Snapshot, order: seq<string>, files: Files)
    requires Readable(s) && Enumerates(s, order) && SameForReaders(files, WriteAll(base, Migration(s, order).0))
    ensures ReadMeta(files) == Some(Ok((HashFromString(s.genesisHash).value, HashFromString(s.currentTip).value)))
  {
    var writes := Migration(s, order).0;
    WritesAreDurable(s, order);
    MigrationShape(s, order);
    WriteAllLookup(base, writes, MetaPath);
    assert Lookup(files, MetaPath) == Lookup(WriteAll(base, writes), MetaPath);
    HashRoundTrip(HashFromString(s.genesisHash).value);
    HashRoundTrip(HashFromString(s.currentTip).value);
  }

  /** Both stores are open, on the same hashes and on files that read the same. */
  ghost predicate SameStore(a: Option<Disk>, b: Option<Disk>) {
    a.Some? && b.Some? && a.value.genesis == b.value.genesis && a.value.tip == b.value.tip
    && SameForReaders(a.value.files, b.value.files)
  }

  /**
   However often a migration was stopped, wherever, and in whatever orders: opening the directory
   again gives the store that an undisturbed migration gives.
   */
  lemma InterruptedMigration(base: Files, s: Snapshot, clean: seq<string>, attempts: seq<Attempt>, order: seq<string>)
    requires Readable(s) && HeightsAgree(s) && Unmigrated(base, s)
    requires Enumerates(s, clean) && Enumerates(s, order) && Attempts(s, attempts)
    ensures LegacySnapshot(AllStopped(s, base, attempts)) == Some(s)
    ensures SameStore(Open(AllStopped(s, base, attempts), order).1, Open(base, clean).1)
  {
    var files := AllStopped(s, base, attempts);
    var all, writes := Migration(s, clean).0, Migration(s, order).0;
    AllStoppedOnTheWay(base, s, clean, attempts);
    MigrationFacts(s, clean, order);
    MigrationFacts(s, order, order);
    MigrationShape(s, clean);
    MigrationShape(s, order);
    if ReadMeta(files).Some? {
      FinishedMeta(base, s, clean, files);
    } else {
      CompletionIsUnique(base, all, writes, files);
    }
  }

  // ----- what a migrated store holds -----

  /** The snapshot lists exactly the blocks, works and heights of a chain. */
  ghost predicate Describes(s: Snapshot, c: Chain) {
    && HashFromString(s.genesisHash) == Some(c.genesis) && HashFromString(s.currentTip) == Some(c.tip)
    && (forall i {:trigger s.blocks[i]} :: 0 <= i < |s.blocks| ==> RecordAgrees(s, c, s.blocks[i]))
    && (forall hash :: hash in c.blocks ==> Recorded(s, hash))
    && (forall key :: key in s.heights ==> HeightKeyAgrees(s, c, key))
    && (forall height :: height in c.heights ==> HeightRecorded(s, height))
  }

  ghost predicate RecordAgrees(s: Snapshot, c: Chain, r: Record) {
    var hash := HashFromString(r.hash);
    && hash.Some? && hash.value in c.blocks && hash.value in c.work && c.blocks[hash.value] == r.block
    && BigIntFromString(if r.hash in s.totalWork then s.totalWork[r.hash] else "0") == Some(c.work[hash.value])
  }

  ghost predicate Recorded(s: Snapshot, hash: Hash32) {
    exists i {:trigger s.blocks[i]} :: 0 <= i < |s.blocks| && HashFromString(s.blocks[i].hash) == Some(hash)
  }

  ghost predicate HeightKeyAgrees(s: Snapshot, c: Chain, key: string)
    requires key in s.heights
  {
    var height, hash := ParseUint64(key), HashFromString(s.heights[key]);
    height.Some? && hash.Some? && height.value in c.heights && c.heights[height.value] == hash.value
  }

  ghost predicate HeightRecorded(s: Snapshot, height: Uint64) {
    exists key :: key in s.heights && ParseUint64(key) == Some(height)
  }

  /** No block or height file yet. */
  ghost predicate NothingMigrated(files: Files) {
    forall p :: p in files ==> p.TempPath? || p == LegacyPath
  }

  lemma MigratedPath(base: Files, s: Snapshot, order: seq<string>, p: Path)
    requires Readable(s) && Enumerates(s, order) && Durable(Migration(s, order).0) && !p.TempPath? && p !in base
    ensures match Lookup(WriteAll(base, Migration(s, order).0), p)
            case Some(content) => IsWrite(s, Write(p, content))
            case None => forall w :: IsWrite(s, w) ==> w.path != p
  {
    WriteAllLookup(base, Migration(s, order).0, p);
    OutcomeIsWrite(s, order, p);
  }

  lemma BlockWriteAgrees(s: Snapshot, c: Chain, hash: Hash32, content: Content)
    requires Readable(s) && Describes(s, c) && IsWrite(s, Write(BlockPath(hash), content))
    ensures content.BlockFile? && hash in c.blocks && hash in c.work && content.block == c.blocks[hash]
    ensures BigIntFromString(content.totalWork) == Some(c.work[hash])
  {
    var i :| 0 <= i < |s.blocks| && RecordWrite(s, s.blocks[i]) == Some(Write(BlockPath(hash), content));
    assert RecordAgrees(s, c, s.blocks[i]);
  }

  lemma HeightWriteAgrees(s: Snapshot, c: Chain, height: Uint64, content: Content)
    requires Readable(s) && Describes(s, c) && IsWrite(s, Write(HeightPath(height), content))
    ensures content.HashFile? && height in c.heights && HashFromString(content.text) == Some(c.heights[height])
  {
    var key :| key in s.heights && HeightWrite(s, key) == Some(Write(HeightPath(height), content));
    assert HeightKeyAgrees(s, c, key);
    HashRoundTrip(c.heights[height]);
  }

  lemma BlockHasWrite(s: Snapshot, c: Chain, hash: Hash32)
    requires Readable(s) && Describes(s, c) && hash in c.blocks
    ensures exists w :: IsWrite(s, w) && w.path == BlockPath(hash)
  {
    assert Recorded(s, hash);
    var i :| 0 <= i < |s.blocks| && HashFromString(s.blocks[i].hash) == Some(hash);
    var w := RecordWrite(s, s.blocks[i]).value;
    assert IsBlockWrite(s, w) && w.path == BlockPath(hash);
    assert IsWrite(s, w);
  }

  lemma HeightHasWrite(s: Snapshot, c: Chain, height: Uint64)
    requires Readable(s) && Describes(s, c) && height in c.heights
    ensures exists w :: IsWrite(s, w) && w.path == HeightPath(height)
  {
    assert HeightRecorded(s, height);
    var key :| key in s.heights && ParseUint64(key) == Some(height);
    var w := HeightWrite(s, key).value;
    assert IsHeightWrite(s, w) && w.path == HeightPath(height);
    assert IsWrite(s, w);
  }

  lemma BlockMigrated(base: Files, s: Snapshot, c: Chain, order: seq<string>, hash: Hash32)
    requires Readable(s) && Describes(s, c) && Closed(c) && Enumerates(s, order)
    requires Durable(Migration(s, order).0) && BlockPath(hash) !in base
    ensures BlockAgrees(WriteAll(base, Migration(s, order).0), c, hash)
  {
    MigratedPath(base, s, order, BlockPath(hash));
    var found := Lookup(WriteAll(base, Migration(s, order).0), BlockPath(hash));
    if found.Some? {
      BlockWriteAgrees(s, c, hash, found.value);
    } else if hash in c.blocks {
      BlockHasWrite(s, c, hash);
    }
  }

  lemma HeightMigrated(base: Files, s: Snapshot, c: Chain, order: seq<string>, height: Uint64)
    requires Readable(s) && Describes(s, c) && Enumerates(s, order)
    requires Durable(Migration(s, order).0) && HeightPath(height) !in base
    ensures HeightAgrees(WriteAll(base, Migration(s, order).0), c, height)
  {
    MigratedPath(base, s, order, HeightPath(height));
    var found := Lookup(WriteAll(base, Migration(s, order).0), HeightPath(height));
    if found.Some? {
      HeightWriteAgrees(s, c, height, found.value);
    } else if height in c.heights {
      HeightHasWrite(s, c, height);
    }
  }

  lemma OpenMigrates(base: Files, s: Snapshot, order: seq<string>)
    requires Readable(s) && Unmigrated(base, s) && Enumerates(s, order)
    ensures var after := WriteAll(base, Migration(s, order).0);
            Open(base, order).1 ==
              Some(Disk(after, HashFromString(s.genesisHash).value, HashFromString(s.currentTip).value))
  {
    MigrationShape(s, order);
  }

  lemma EntriesMigrated(base: Files, s: Snapshot, c: Chain, order: seq<string>)
    requires Readable(s) && Describes(s, c) && Closed(c) && Enumerates(s, order) && NothingMigrated(base)
    ensures Agrees(WriteAll(base, Migration(s, order).0), c)
  {
    hide Describes, Migration, WriteAll, BlockAgrees, HeightAgrees, Closed;
    WritesAreDurable(s, order);
    forall hash
      ensures BlockAgrees(WriteAll(base, Migration(s, order).0), c, hash)
    {
      BlockMigrated(base, s, c, order, hash);
    }
    forall height
      ensures HeightAgrees(WriteAll(base, Migration(s, order).0), c, height)
    {
      HeightMigrated(base, s, c, order, height);
    }
  }

  /** What describes a chain can be read, and its heights agree. */
  lemma DescribedIsReadable(s: Snapshot, c: Chain)
    requires Describes(s, c)
    ensures Readable(s) && HeightsAgree(s)
  {
    forall i {:trigger s.blocks[i]} | 0 <= i < |s.blocks|
      ensures RecordWrite(s, s.blocks[i]).Some?
    {
      assert RecordAgrees(s, c, s.blocks[i]);
    }
    forall key | key in s.heights
      ensures HeightWrite(s, key).Some? && HashFromString(s.heights[key]) == Some(c.heights[ParseUint64(key).value])
    {
      assert HeightKeyAgrees(s, c, key);
    }
  }

  /** A migrated store is the chain its snapshot describes. */
  lemma MigrationRepresents(base: Files, s: Snapshot, c: Chain, order: seq<string>)
    requires Describes(s, c) && Closed(c) && Enumerates(s, order) && Unmigrated(base, s) && NothingMigrated(base)
    ensures Open(base, order).1.Some? && Represents(Open(base, order).1.value, c)
  {
    DescribedIsReadable(s, c);
    OpenMigrates(base, s, order);
    EntriesMigrated(base, s, c, order);
    FinishedMeta(base, s, order, WriteAll(base, Migration(s, order).0));
  }

  // ----- exactly when the order does not matter -----

  /** The height visited last decides what its file holds. */
  lemma LastHeightWins(base: Files, s: Snapshot, order: seq<string>, height: Uint64)
    requires Readable(s) && Unmigrated(base, s) && Enumerates(s, order) && order != []
    requires order[|order| - 1] in s.heights && ParseUint64(order[|order| - 1]) == Some(height)
    ensures Open(base, order).1.Some?
    ensures Open(base, order).1.value.HashAt(height) == HashFromString(s.heights[order[|order| - 1]])
  {
    var writes := Migration(s, order).0;
    var last := order[|order| - 1];
    var hash := HashFromString(s.heights[last]).value;
    OpenMigrates(base, s, order);
    WritesAreDurable(s, order);
    LastHeightWritten(s, order, height);
    WriteAllLookup(base, writes, HeightPath(height));
    HashRoundTrip(hash);
  }

  lemma LastHeightWritten(s: Snapshot, order: seq<string>, height: Uint64)
    requires Readable(s) && Enumerates(s, order) && order != []
    requires order[|order| - 1] in s.heights && ParseUint64(order[|order| - 1]) == Some(height)
    ensures LastWrite(Migration(s, order).0, HeightPath(height))
         == Some(HashFile(Hex(HashFromString(s.heights[order[|order| - 1]]).value)))
  {
    hide Hex, HashFromString, ParseUint64;
    var writes, last := Migration(s, order).0, order[|order| - 1];
    var n := |writes|;
    MigrationShape(s, order);
    EntryAt(s, order, n - 2);
    assert Entries(s, order)[|s.blocks| + (|order| - 1)] == HeightWrite(s, last);
    LastWriteSkips(writes, n - 1, HeightPath(height));
    assert writes[..n - 1][n - 2] == writes[n - 2];
  }

  /** The keys of a snapshot in some order. */
  lemma ListOf(keys: set<string>) returns (order: seq<string>)
    ensures forall key :: key in order <==> key in keys
    ensures forall i, j :: 0 <= i < j < |order| ==> order[i] != order[j]
    decreases |keys|
  {
    if keys == {} {
      order := [];
    } else {
      var key :| key in keys;
      var rest := ListOf(keys - {key});
      order := rest + [key];
    }
  }

  lemma EnumerationEndingWith(s: Snapshot, key: string) returns (order: seq<string>)
    requires key in s.heights
    ensures Enumerates(s, order) && order != [] && order[|order| - 1] == key
  {
    var rest := ListOf(s.heights.Keys - {key});
    order := rest + [key];
  }

  /** A stopped or undisturbed migration gives the same store, for these orders and attempts. */
  ghost predicate GivesSameStore(base: Files, s: Snapshot, clean: seq<string>, attempts: seq<Attempt>,
                                 order: seq<string>)
    requires Unmigrated(base, s) && Enumerates(s, clean) && Enumerates(s, order) && Attempts(s, attempts)
  {
    && LegacySnapshot(AllStopped(s, base, attempts)) == Some(s)
    && SameStore(Open(AllStopped(s, base, attempts), order).1, Open(base, clean).1)
  }

  ghost predicate AlwaysSameStore(base: Files, s: Snapshot)
    requires Unmigrated(base, s)
  {
    forall clean, attempts, order :: Enumerates(s, clean) && Enumerates(s, order) && Attempts(s, attempts) ==>
      GivesSameStore(base, s, clean, attempts, order)
  }

  /** Two spellings of one height that name different hashes: two orders give two stores. */
  lemma OrderMatters(base: Files, s: Snapshot, k: string, l: string)
    returns (first: seq<string>, second: seq<string>)
    requires Readable(s) && Unmigrated(base, s) && k in s.heights && l in s.heights
    requires ParseUint64(k) == ParseUint64(l) && HashFromString(s.heights[k]) != HashFromString(s.heights[l])
    ensures Enumerates(s, first) && Enumerates(s, second) && !GivesSameStore(base, s, second, [], first)
  {
    first := EnumerationEndingWith(s, k);
    second := EnumerationEndingWith(s, l);
    assert HeightWrite(s, k).Some?;
    var height := ParseUint64(k).value;
    LastHeightWins(base, s, first, height);
    LastHeightWins(base, s, second, height);
    DifferentHeights(Open(base, first).1.value, Open(base, second).1.value, height);
  }

  lemma DifferentHeights(a: Disk, b: Disk, height: Uint64)
    requires a.HashAt(height) != b.HashAt(height)
    ensures !SameForReaders(a.files, b.files)
  {
    assert Lookup(a.files, HeightPath(height)) != Lookup(b.files, HeightPath(height));
  }

  /**
   A readable snapshot migrates to the same store, however often it is stopped and in whatever orders,
   if and only if no two of its keys spell one height and name different hashes.
   */
  lemma SameStoreIffHeightsAgree(base: Files, s: Snapshot)
    requires Readable(s) && Unmigrated(base, s)
    ensures AlwaysSameStore(base, s) <==> HeightsAgree(s)
  {
    if HeightsAgree(s) {
      forall clean, attempts, order | Enumerates(s, clean) && Enumerates(s, order) && Attempts(s, attempts)
        ensures GivesSameStore(base, s, clean, attempts, order)
      {
        InterruptedMigration(base, s, clean, attempts, order);
      }
    } else {
      var k, l :| k in s.heights && l in s.heights && ParseUint64(k) == ParseUint64(l)
        && HashFromString(s.heights[k]) != HashFromString(s.heights[l]);
      var first, second := OrderMatters(base, s, k, l);
    }
  }

  /** A snapshot that spells the height 1 in two ways. */
  function TwoSpellings(a: Hash32, b: Hash32): Snapshot {
    Snapshot("", "", [], map["1" := Hex(a), "01" := Hex(b)], map[])
  }

  function OnlyLegacy(s: Snapshot): Files {
    map[LegacyPath := SnapshotFile(s)]
  }

  lemma TwoSpellingsShape(a: Hash32, b: Hash32)
    ensures var s := TwoSpellings(a, b);
            && Readable(s) && Unmigrated(OnlyLegacy(s), s)
            && Enumerates(s, ["01", "1"]) && Enumerates(s, ["1", "01"])
            && "1" in s.heights && HashFromString(s.heights["1"]) == Some(a)
            && "01" in s.heights && HashFromString(s.heights["01"]) == Some(b)
  {
    hide Hex, HashFromString, ParseUint64;
    SpellingsOfOne();
    HashRoundTrip(a);
    HashRoundTrip(b);
    EmptyIsZero();
    assert "1" != "01";
  }

  lemma EmptyIsZero()
    ensures HashFromString("") == Some(ZERO_HASH)
  {
  }

  /** Its store names, at height 1, whichever of the two hashes was visited last. */
  lemma TwoSpellingsDiffer(a: Hash32, b: Hash32)
    requires a != b
    ensures var s := TwoSpellings(a, b);
            && Readable(s) && Unmigrated(OnlyLegacy(s), s) && !HeightsAgree(s)
            && Enumerates(s, ["01", "1"]) && Enumerates(s, ["1", "01"])
            && Open(OnlyLegacy(s), ["01", "1"]).1.Some? && Open(OnlyLegacy(s), ["01", "1"]).1.value.HashAt(1) == Some(a)
            && Open(OnlyLegacy(s), ["1", "01"]).1.Some? && Open(OnlyLegacy(s), ["1", "01"]).1.value.HashAt(1) == Some(b)
  {
    hide TwoSpellings, OnlyLegacy, Readable, Enumerates, Unmigrated, Open, HashFromString, ParseUint64;
    var s := TwoSpellings(a, b);
    SpellingsOfOne();
    TwoSpellingsShape(a, b);
    LastHeightWins(OnlyLegacy(s), s, ["01", "1"], 1);
    LastHeightWins(OnlyLegacy(s), s, ["1", "01"], 1);
  }

  lemma SpellingsOfOne()
    ensures ParseUint64("1") == ParseUint64("01") == Some(1)
  {
    assert "01"[..1] == "0";
    assert ParseDecimal("0") == Some(0);
  }

  // ----- snapshots with an unreadable entry -----

  lemma {:induction false} UpToErrorMember(entries: seq<Option<Write>>, w: Write)
    requires w in UpToError(entries).0
    ensures Some(w) in entries
  {
    if entries != [] {
      var init, last := entries[..|entries| - 1], entries[|entries| - 1];
      if w in UpToError(init).0 {
        UpToErrorMember(init, w);
      }
    }
  }

  /** What is written before the error is block and height files only. */
  lemma UnreadableWrites(s: Snapshot, order: seq<string>)
    requires !Readable(s) && Enumerates(s, order)
    ensures var (writes, ok) := Migration(s, order);
            !ok && forall i :: 0 <= i < |writes| ==> writes[i].path.BlockPath? || writes[i].path.HeightPath?
  {
    var entries := Entries(s, order);
    if HashFromString(s.genesisHash).Some? && HashFromString(s.currentTip).Some? {
      SomeEntryUnreadable(s, order);
      var writes := UpToError(entries).0;
      forall i | 0 <= i < |writes|
        ensures writes[i].path.BlockPath? || writes[i].path.HeightPath?
      {
        UpToErrorMember(entries, writes[i]);
        var j := PositionOf(entries, Some(writes[i]));
        EntryPath(s, order, j);
      }
    }
  }

  lemma EntryPath(s: Snapshot, order: seq<string>, j: nat)
    requires Enumerates(s, order) && j < |s.blocks| + |order| && Entries(s, order)[j].Some?
    ensures var p := Entries(s, order)[j].value.path; p.BlockPath? || p.HeightPath?
  {
    if j >= |s.blocks| {
      assert order[j - |s.blocks|] in order;
      assert Entries(s, order)[|s.blocks| + (j - |s.blocks|)] == HeightWrite(s, order[j - |s.blocks|]);
    }
  }

  lemma SomeEntryUnreadable(s: Snapshot, order: seq<string>)
    requires !Readable(s) && Enumerates(s, order)
    requires HashFromString(s.genesisHash).Some? && HashFromString(s.currentTip).Some?
    ensures !UpToError(Entries(s, order)).1
  {
    if i :| 0 <= i < |s.blocks| && RecordWrite(s, s.blocks[i]).None? {
      assert Entries(s, order)[i].None?;
    } else {
      var key :| key in s.heights && HeightWrite(s, key).None?;
      var j := PositionOf(order, key);
      assert Entries(s, order)[|s.blocks| + j].None?;
    }
  }

  lemma StoppedStaysUnmigrated(s: Snapshot, files: Files, a: Attempt)
    requires !Readable(s) && Enumerates(s, a.order) && Unmigrated(files, s)
    ensures Unmigrated(Stopped(s, files, a), s)
  {
    var writes := Migration(s, a.order).0;
    var after := After(files, writes, a.steps);
    UnreadableWrites(s, a.order);
    forall p | p == MetaPath || p == LegacyPath
      ensures Lookup(after, p) == Lookup(files, p)
    {
      var some := writes[..Whole(writes, a.steps)];
      CrashIsPrefix(files, writes, a.steps, p);
      WriteAllLookup(files, some, p);
      LastIsAWrite(some, p);
    }
    LookupDecides(after, files);
  }

  /** A snapshot with an unreadable entry never becomes a store, in whatever order and however often it is tried. */
  lemma {:induction false} UnreadableNeverOpens(base: Files, s: Snapshot, attempts: seq<Attempt>, order: seq<string>)
    requires !Readable(s) && Unmigrated(base, s) && Enumerates(s, order) && Attempts(s, attempts)
    ensures Unmigrated(AllStopped(s, base, attempts), s) && Open(AllStopped(s, base, attempts), order).1.None?
  {
    if attempts != [] {
      var init, last := attempts[..|attempts| - 1], attempts[|attempts| - 1];
      UnreadableNeverOpens(base, s, init, order);
      StoppedStaysUnmigrated(s, AllStopped(s, base, init), last);
    }
    UnreadableWrites(s, order);
  }

  // ----- which directories open -----

  /** Opening fails exactly on an unreadable tip file, or without one on an unreadable snapshot. */
  lemma OpenSucceedsIff(files: Files, order: seq<string>)
    requires MayMigrate(files, order)
    ensures Open(files, order).1.Some? <==>
      if MetaPath in files then
        match files[MetaPath]
        case MetaFile(genesis, tip) => HashFromString(genesis).Some? && HashFromString(tip).Some?
        case _ => false
      else
        LegacyPath in files ==> match files[LegacyPath]
                                case SnapshotFile(s) => Readable(s)
                                case _ => false
    ensures Open(files, order).1.Some? && MetaPath in files ==>
      && Open(files, order).0 == files
      && Some(Open(files, order).1.value.genesis) == HashFromString(files[MetaPath].genesisHash)
      && Some(Open(files, order).1.value.tip) == HashFromString(files[MetaPath].currentTip)
  {
    if MetaPath !in files && LegacySnapshot(files).Some? {
      var s := LegacySnapshot(files).value;
      if Readable(s) {
        MigrationShape(s, order);
      } else {
        UnreadableWrites(s, order);
      }
    }
  }
}
