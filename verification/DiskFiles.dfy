/**
 The files of a disk store. Every file is replaced by writing a temporary file and renaming it; a
 crash may stop the sequence between any two of those steps.
 */
module DiskFiles {
  import opened Base
  import opened Codec
  import Header

  datatype Path =
    | BlockPath(hash: Hash32)
    | HeightPath(height: Uint64)
    | MetaPath
    | LegacyPath
    | TempPath(of: Path)

  /** The name a path has below the data directory. */
  function FileName(p: Path): string {
    match p
    case BlockPath(hash) => "blocks/" + Hex(hash) + ".json"
    case HeightPath(height) => "heights/" + Decimal(height) + ".txt"
    case MetaPath => "chain_meta.json"
    case LegacyPath => "chain.json"
    case TempPath(of) => FileName(of) + ".tmp"
  }

  datatype Record = Record(hash: string, block: Header.Block)

  datatype Snapshot = Snapshot(
    genesisHash: string,
    currentTip: string,
    blocks: seq<Record>,
    heights: map<string, string>,
    totalWork: map<string, string>)

  /** What a file decodes to. A torn file is one whose writing was cut short. */
  datatype Content =
    | BlockFile(block: Header.Block, totalWork: string)
    | HashFile(text: string)
    | MetaFile(genesisHash: string, currentTip: string)
    | SnapshotFile(snapshot: Snapshot)
    | Torn

  type Files = map<Path, Content>

  datatype Write = Write(path: Path, content: Content)

  function Lookup(files: Files, p: Path): Option<Content> {
    if p in files then Some(files[p]) else None
  }

  /** The files after `steps` of the three steps of a replacement: open the temporary file, fill it, rename it. */
  function Replace(files: Files, w: Write, steps: nat): Files {
    if steps == 0 then files
    else if steps == 1 then files[TempPath(w.path) := Torn]
    else if steps == 2 then files[TempPath(w.path) := w.content]
    else files[w.path := w.content] - {TempPath(w.path)}
  }

  /** The files after so many steps of a list of replacements. */
  function After(files: Files, writes: seq<Write>, steps: nat): Files
    decreases |writes|
  {
    if writes == [] then files
    else if steps < 3 then Replace(files, writes[0], steps)
    else After(Replace(files, writes[0], 3), writes[1..], steps - 3)
  }

  function WriteAll(files: Files, writes: seq<Write>): Files {
    After(files, writes, 3 * |writes|)
  }

  // ----- names -----

  lemma SameMiddle(prefix: string, a: string, b: string, suffix: string)
    requires prefix + a + suffix == prefix + b + suffix
    ensures a == b
  {
    assert |a| == |b|;
    assert (prefix + a + suffix)[|prefix|..|prefix| + |a|] == a;
    assert (prefix + b + suffix)[|prefix|..|prefix| + |b|] == b;
  }

  lemma FirstChar(p: Path)
    ensures FileName(p) != []
    ensures p.BlockPath? ==> FileName(p)[0] == 'b'
    ensures p.HeightPath? ==> FileName(p)[0] == 'h'
    ensures p.MetaPath? || p.LegacyPath? ==> FileName(p)[0] == 'c'
  {
  }

  lemma LastChar(p: Path)
    ensures FileName(p) != []
    ensures p.TempPath? ==> FileName(p)[|FileName(p)| - 1] == 'p'
    ensures p.HeightPath? ==> FileName(p)[|FileName(p)| - 1] == 't'
    ensures p.BlockPath? || p.MetaPath? || p.LegacyPath? ==> FileName(p)[|FileName(p)| - 1] == 'n'
  {
  }

  /** No two paths share a file name, so a file is what its path says it is. */
  lemma {:induction false} FileNameInjective(p: Path, q: Path)
    requires FileName(p) == FileName(q)
    ensures p == q
  {
    FirstChar(p);
    FirstChar(q);
    LastChar(p);
    LastChar(q);
    match (p, q)
    case (BlockPath(a), BlockPath(b)) =>
      SameMiddle("blocks/", Hex(a), Hex(b), ".json");
      HexInjective(a, b);
    case (HeightPath(a), HeightPath(b)) =>
      SameMiddle("heights/", Decimal(a), Decimal(b), ".txt");
      DecimalInjective(a, b);
    case (TempPath(a), TempPath(b)) =>
      assert [] + FileName(a) == FileName(a) && [] + FileName(b) == FileName(b);
      SameMiddle([], FileName(a), FileName(b), ".tmp");
      FileNameInjective(a, b);
    case _ =>
      MetaIsNotLegacy();
  }

  lemma MetaIsNotLegacy()
    ensures FileName(MetaPath) != FileName(LegacyPath)
  {
    assert |FileName(MetaPath)| == 15 && |FileName(LegacyPath)| == 10;
  }

  // ----- what readers see -----

  ghost predicate Durable(writes: seq<Write>) {
    forall i {:trigger writes[i]} :: 0 <= i < |writes| ==> !writes[i].path.TempPath?
  }

  /** Readers never see a half-written file: a path holds what it held, or all of the new content. */
  lemma ReplaceLookup(files: Files, w: Write, steps: nat, p: Path)
    requires !w.path.TempPath? && !p.TempPath?
    ensures Lookup(Replace(files, w, steps), p) ==
      if steps >= 3 && p == w.path then Some(w.content) else Lookup(files, p)
  {
  }

  function Whole(writes: seq<Write>, steps: nat): (n: nat)
    ensures n <= |writes|
  {
    if steps >= 3 * |writes| then |writes| else steps / 3
  }

  /** A crash during a list of replacements leaves, for readers, some of the first of them done in full. */
  lemma {:induction false} CrashIsPrefix(files: Files, writes: seq<Write>, steps: nat, p: Path)
    requires Durable(writes) && !p.TempPath?
    ensures Lookup(After(files, writes, steps), p) == Lookup(WriteAll(files, writes[..Whole(writes, steps)]), p)
    decreases |writes|
  {
    if writes != [] {
      var n := Whole(writes, steps);
      ReplaceLookup(files, writes[0], steps, p);
      if steps >= 3 {
        CrashIsPrefix(Replace(files, writes[0], 3), writes[1..], steps - 3, p);
        assert writes[..n][1..] == writes[1..][..n - 1];
        assert writes[..n][0] == writes[0];
      }
    }
  }

  /** Reading a path after a list of replacements: the last one to name it decides. */
  function LastWrite(writes: seq<Write>, p: Path): Option<Content> {
    if writes == [] then None
    else
      var last := writes[|writes| - 1];
      if last.path == p then Some(last.content) else LastWrite(writes[..|writes| - 1], p)
  }

  lemma {:induction false} WriteAllSnoc(files: Files, writes: seq<Write>, w: Write)
    ensures WriteAll(files, writes + [w]) == Replace(WriteAll(files, writes), w, 3)
    decreases |writes|
  {
    if writes == [] {
      assert writes + [w] == [w] && [w][1..] == [];
      assert After(files, [w], 3) == After(Replace(files, w, 3), [], 0);
    } else {
      assert (writes + [w])[1..] == writes[1..] + [w];
      WriteAllSnoc(Replace(files, writes[0], 3), writes[1..], w);
    }
  }

  lemma {:induction false} WriteAllLookup(files: Files, writes: seq<Write>, p: Path)
    requires Durable(writes) && !p.TempPath?
    ensures var last := LastWrite(writes, p);
            Lookup(WriteAll(files, writes), p) == if last.Some? then last else Lookup(files, p)
  {
    if writes != [] {
      var init, last := writes[..|writes| - 1], writes[|writes| - 1];
      assert writes == init + [last];
      WriteAllSnoc(files, init, last);
      WriteAllLookup(files, init, p);
      ReplaceLookup(WriteAll(files, init), last, 3, p);
    }
  }
}
