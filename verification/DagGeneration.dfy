/**
 Filling the DAG. The seed cache is rewritten in place over three passes; workers then fill disjoint
 chunks of one shared buffer, in any order.
 */
module DagGeneration {
  import opened Base
  import Arithmetic
  import opened ChainSpec
  import opened DagWorkers
  import TraceHash

  const SEED_CACHE_BYTES: nat := 0x2000_0000
  const SEED_CACHE_ENTRY: nat := 64
  const MIN_CACHE_ENTRIES: nat := 1024
  const SEED_CACHE_PASSES: nat := 3
  const CELL_CACHE_LOOKUPS: nat := 128
  const FULL_DAG_BYTES: Uint64 := 0x8_0000_0000

  /** The cache never has fewer than 1024 entries nor more than 512 MiB hold, so a 32-bit index covers it. */
  function CacheEntriesFor(spec: Spec): (entries: nat)
    ensures MIN_CACHE_ENTRIES <= entries <= SEED_CACHE_BYTES / SEED_CACHE_ENTRY
  {
    var initial := spec.InitialDagSize();
    var bytes :=
      if 0 < initial < FULL_DAG_BYTES then
        var scaled := initial / 64;
        if scaled < MIN_CACHE_ENTRIES * SEED_CACHE_ENTRY then MIN_CACHE_ENTRIES * SEED_CACHE_ENTRY else scaled
      else SEED_CACHE_BYTES;
    var entries := bytes / SEED_CACHE_ENTRY;
    if entries < MIN_CACHE_ENTRIES then MIN_CACHE_ENTRIES else entries
  }

  /** One entry for every 4096 bytes of a DAG below 32 GiB, never fewer than 1024; all of 512 MiB from there on. */
  lemma CacheEntriesScale(spec: Spec)
    ensures CacheEntriesFor(spec) ==
      if 0 < spec.InitialDagSize() < FULL_DAG_BYTES
      then if spec.InitialDagSize() / 4096 < MIN_CACHE_ENTRIES then MIN_CACHE_ENTRIES else spec.InitialDagSize() / 4096
      else SEED_CACHE_BYTES / SEED_CACHE_ENTRY
  {
  }

  type Cache = seq<Hash64>

  function ChainEntry(hs: HashSuite, seed: Bytes, i: nat): Hash64 {
    if i == 0 then hs.sha3x512(hs.sha3x256(seed)) else hs.sha3x512(ChainEntry(hs, seed, i - 1))
  }

  function ChainedCache(hs: HashSuite, seed: Bytes, entries: nat): (cache: Cache)
    ensures |cache| == entries
  {
    seq(entries, i requires 0 <= i < entries => ChainEntry(hs, seed, i))
  }

  function TargetOf(entry: Hash64, entries: nat): (t: nat)
    requires entries > 0
    ensures t < entries
  {
    TraceHash.Word(entry, 0) % entries
  }

  function Mixed(hs: HashSuite, a: Hash64, b: Hash64): Hash64 {
    hs.sha3x512(XorBytes(a, b))
  }

  /** The cache after the first `done` entries of a pass have been rewritten in place. */
  function PassTo(hs: HashSuite, cache: Cache, done: nat): (r: Cache)
    requires done <= |cache|
    ensures |r| == |cache|
  {
    if done == 0 then cache
    else
      var before := PassTo(hs, cache, done - 1);
      var entry := Mixed(hs, before[done - 1], before[TargetOf(before[done - 1], |cache|)]);
      before[done - 1 := entry]
  }

  function Passes(hs: HashSuite, cache: Cache, passes: nat): (r: Cache)
    ensures |r| == |cache|
  {
    if passes == 0 then cache
    else
      var before := Passes(hs, cache, passes - 1);
      PassTo(hs, before, |before|)
  }

  function SeedCache(hs: HashSuite, seed: Bytes, entries: nat): (cache: Cache)
    ensures |cache| == entries
  {
    Passes(hs, ChainedCache(hs, seed, entries), SEED_CACHE_PASSES)
  }

  /** Entries are rewritten once per pass: those at or after `done` are still the old ones. */
  lemma {:induction false} PassUntouched(hs: HashSuite, cache: Cache, done: nat, i: nat)
    requires done <= i < |cache|
    ensures PassTo(hs, cache, done)[i] == cache[i]
  {
    if done > 0 {
      PassUntouched(hs, cache, done - 1, i);
    }
  }

  lemma {:induction false} PassFixed(hs: HashSuite, cache: Cache, done: nat, i: nat)
    requires i < done <= |cache|
    ensures PassTo(hs, cache, done)[i] == PassTo(hs, cache, i + 1)[i]
  {
    if done > i + 1 {
      PassFixed(hs, cache, done - 1, i);
    }
  }

  /** A pass mixes each entry with its target: the new target when it comes earlier, the old one otherwise. */
  lemma PassEntry(hs: HashSuite, cache: Cache, i: nat)
    requires i < |cache|
    ensures var after := PassTo(hs, cache, |cache|);
            var t := TargetOf(cache[i], |cache|);
            after[i] == Mixed(hs, cache[i], if t < i then after[t] else cache[t])
  {
    var t := TargetOf(cache[i], |cache|);
    PassFixed(hs, cache, |cache|, i);
    PassUntouched(hs, cache, i, i);
    if t < i {
      PassFixed(hs, cache, |cache|, t);
      PassFixed(hs, cache, i, t);
    } else {
      PassUntouched(hs, cache, i, t);
    }
  }

  /** Fills the cache with the chained hashes. */
  method FillChain(hs: HashSuite, seed: Bytes, cache: array<Hash64>)
    requires cache.Length > 0
    modifies cache
    ensures cache[..] == ChainedCache(hs, seed, cache.Length)
  {
    cache[0] := hs.sha3x512(hs.sha3x256(seed));
    var i := 1;
    while i < cache.Length
      invariant 1 <= i <= cache.Length
      invariant forall k :: 0 <= k < i ==> cache[k] == ChainEntry(hs, seed, k)
    {
      cache[i] := hs.sha3x512(cache[i - 1]);
      i := i + 1;
    }
  }

  method BuildSeedCache(hs: HashSuite, seed: Bytes, entries: nat) returns (cache: array<Hash64>)
    requires 0 < entries < TWO_32
    ensures cache[..] == SeedCache(hs, seed, entries)
  {
    cache := new Hash64[entries](_ => ZeroBytes(64));
    FillChain(hs, seed, cache);
    ghost var chained := ChainedCache(hs, seed, entries);
    var pass := 0;
    while pass < SEED_CACHE_PASSES
      invariant 0 <= pass <= SEED_CACHE_PASSES && cache.Length == entries
      invariant cache[..] == Passes(hs, chained, pass)
    {
      RunPass(hs, cache);
      pass := pass + 1;
    }
  }

  method RunPass(hs: HashSuite, cache: array<Hash64>)
    modifies cache
    ensures cache[..] == PassTo(hs, old(cache[..]), cache.Length)
  {
    var i := 0;
    while i < cache.Length
      invariant 0 <= i <= cache.Length
      invariant cache[..] == PassTo(hs, old(cache[..]), i)
    {
      var target := TraceHash.Word(cache[i], 0) % cache.Length;
      assert cache[i] == cache[..][i] && cache[target] == cache[..][target];
      ghost var before := cache[..];
      cache[i] := hs.sha3x512(XorBytes(cache[i], cache[target]));
      assert cache[..] == before[i := cache[i]];
      i := i + 1;
    }
  }

  // ----- one cell -----

  function CellMix(hs: HashSuite, cache: Cache, index: Uint64, lookups: nat): Hash64
    requires cache != []
  {
    if lookups == 0 then
      var seed := cache[index % |cache|];
      hs.sha3x512(XorBytes(seed[..8], LittleEndian(index, 8)) + seed[8..])
    else
      var mix := CellMix(hs, cache, index, lookups - 1);
      var j := lookups - 1;
      var key := Xor(index % TWO_32, j) % TWO_32;
      Mixed(hs, mix, cache[TraceHash.Fnv1a32(key, mix[j % 64]) % |cache|])
  }

  function CellAt(hs: HashSuite, cache: Cache, index: Uint64): Cell
    requires cache != []
  {
    var mix := CellMix(hs, cache, index, CELL_CACHE_LOOKUPS);
    hs.keyedXof(mix[..32], mix + LittleEndian(index, 8))
  }

  method NodeInto(hs: HashSuite, index: Uint64, cache: Cache) returns (cell: Cell)
    requires cache != []
    ensures cell == CellAt(hs, cache, index)
  {
    var seed := cache[index % |cache|];
    var idx := LittleEndian(index, 8);
    var mix := hs.sha3x512(XorBytes(seed[..8], idx) + seed[8..]);
    var j := 0;
    while j < CELL_CACHE_LOOKUPS
      invariant 0 <= j <= CELL_CACHE_LOOKUPS
      invariant mix == CellMix(hs, cache, index, j)
    {
      var cacheIndex := TraceHash.Fnv1a32(Xor(index % TWO_32, j) % TWO_32, mix[j % 64]) % |cache|;
      mix := hs.sha3x512(XorBytes(mix, cache[cacheIndex]));
      j := j + 1;
    }
    cell := hs.keyedXof(mix[..32], mix + idx);
  }

  // ----- the older filling, kept for specifications that leave their mode open -----

  function ChainedKeccak(hs: HashSuite, seed: Bytes, index: Uint64, k: nat): Hash64 {
    if k == 0 then hs.keccak512(seed + LittleEndian(index, 8)) else hs.keccak512(ChainedKeccak(hs, seed, index, k - 1))
  }

  function ChainedBytes(hs: HashSuite, seed: Bytes, index: Uint64, blocks: nat): (b: Bytes)
    ensures |b| == 64 * blocks
  {
    if blocks == 0 then [] else ChainedBytes(hs, seed, index, blocks - 1) + ChainedKeccak(hs, seed, index, blocks - 1)
  }

  /** Fills a node with one digest after another. */
  method KeccakNodeInto(hs: HashSuite, seed: Bytes, index: Uint64) returns (cell: Cell)
    ensures cell == ChainedBytes(hs, seed, index, 4)
  {
    var node: Bytes := [];
    var sum := hs.keccak512(seed + LittleEndian(index, 8));
    ghost var k := 0;
    while |node| < COLOSSUSX_NODE_SIZE
      invariant k <= 4 && sum == ChainedKeccak(hs, seed, index, k) && node == ChainedBytes(hs, seed, index, k)
      decreases COLOSSUSX_NODE_SIZE - |node|
    {
      node := node + sum;
      sum := hs.keccak512(sum);
      k := k + 1;
    }
    cell := node;
  }

  /** The node an index holds: only the mode spelled out is filled from the seed cache. */
  function NodeFor(hs: HashSuite, spec: Spec, seed: Bytes, index: Uint64): Cell {
    if spec.mode == MODE_COLOSSUSX then CellAt(hs, SeedCache(hs, seed, CacheEntriesFor(spec)), index)
    else ChainedBytes(hs, seed, index, 4)
  }

  // ----- the whole buffer -----

  /** Why a DAG is not generated into a buffer, if it is not. */
  function GenerationError(spec: Spec, size: nat, seed: Bytes): Option<string> {
    if spec.Validate().Some? then spec.Validate()
    else if seed == [] then Some("epoch seed cannot be empty")
    else if size < spec.dagSizeBytes then Some("managed allocation is smaller than the DAG")
    else None
  }

  /** The work a generation hands to its workers. */
  function GenerationJob(hs: HashSuite, spec: Spec, seed: Bytes, workers: nat): Job {
    Job(spec.NodeCount(), workers, (index: Uint64) => NodeFor(hs, spec, seed, index))
  }

  /**
   The guard keeps every cell inside the buffer, except for a specification that leaves its own size
   open: its cells fit only if the first epoch's size does.
   */
  lemma GuardCoversCells(spec: Spec, size: nat, seed: Bytes)
    requires GenerationError(spec, size, seed).None?
    ensures spec.NodeCount() * CELL <= size <==> (spec.dagSizeBytes != 0 || spec.DagSizeForHeight(0) <= size)
  {
    NodeCountBound(spec);
    DagSizeIsIdeal(spec, spec.EpochOf(0));
    Arithmetic.DivMod(spec.DagSizeForHeight(0), 256);
  }

  /** A specification that leaves its size open passes the guard with no buffer at all. */
  lemma GuardLetsOpenSizePass(seed: Bytes)
    requires seed != []
    ensures var spec := Spec(MODE_COLOSSUSX, 0, 256, 256, 256, 1, 1, 2, ZERO_HASH);
            GenerationError(spec, 0, seed).None? && spec.NodeCount() * CELL > 0
  {
    var spec := Spec(MODE_COLOSSUSX, 0, 256, 256, 256, 1, 1, 2, ZERO_HASH);
    GuardCoversCells(spec, 0, seed);
    DagSizeIsIdeal(spec, spec.EpochOf(0));
  }

  /** Generation is a function of the specification and the seed: workers and schedule leave no trace. */
  lemma GeneratedDag(hs: HashSuite, spec: Spec, buffer: Bytes, seed: Bytes, workers: nat, schedule: seq<nat>)
    requires GenerationError(spec, |buffer|, seed).None? && 0 < workers < TWO_63
    requires spec.dagSizeBytes != 0 || spec.DagSizeForHeight(0) <= |buffer|
    ensures var job := GenerationJob(hs, spec, seed, workers);
            job.Valid() && Fits(job, buffer) &&
            (Terminated(job, Run(job, buffer, schedule)) ==>
               DagFilled(hs, spec, seed, buffer, Run(job, buffer, schedule).buffer))
  {
    var job := GenerationJob(hs, spec, seed, workers);
    NodeCountBound(spec);
    GuardCoversCells(spec, |buffer|, seed);
    if Terminated(job, Run(job, buffer, schedule)) {
      FinishedBuffer(job, buffer, schedule);
      FilledIsDag(hs, spec, seed, workers, buffer);
    }
  }

  lemma FilledIsDag(hs: HashSuite, spec: Spec, seed: Bytes, workers: nat, buffer: Bytes)
    requires spec.NodeCount() * CELL <= |buffer|
    ensures DagFilled(hs, spec, seed, buffer, Filled(GenerationJob(hs, spec, seed, workers).cellAt, buffer,
      spec.NodeCount()))
  {
    hide NodeFor;
    var job := GenerationJob(hs, spec, seed, workers);
    forall i | 0 <= i < job.count
      ensures HoldsNode(hs, spec, seed, Filled(job.cellAt, buffer, job.count), i)
    {
      CellBound(job, |buffer|, i);
      FilledCell(job.cellAt, buffer, job.count, i);
    }
    FilledTail(job.cellAt, buffer, job.count, job.count * CELL);
  }

  /** One cell after another, from the seed cache or from chained digests as the mode asks. */
  method FillBuffer(hs: HashSuite, spec: Spec, seed: Bytes, ghost workers: nat, buffer: Bytes) returns (filled: Bytes)
    requires spec.NodeCount() * CELL <= |buffer|
    ensures filled == Filled(GenerationJob(hs, spec, seed, workers).cellAt, buffer, spec.NodeCount())
  {
    var count := spec.NodeCount();
    var cache: Cache := [];
    if spec.mode == MODE_COLOSSUSX {
      var built := BuildSeedCache(hs, seed, CacheEntriesFor(spec));
      cache := built[..];
    }
    filled := buffer;
    for i := 0 to count
      invariant |filled| == |buffer| && filled == Filled(GenerationJob(hs, spec, seed, workers).cellAt, buffer, i)
    {
      CellBound(GenerationJob(hs, spec, seed, workers), |buffer|, i);
      var cell := OneNode(hs, spec, seed, cache, i);
      filled := WriteCell(filled, i, cell);
    }
  }

  method OneNode(hs: HashSuite, spec: Spec, seed: Bytes, cache: Cache, index: Uint64) returns (cell: Cell)
    requires spec.mode == MODE_COLOSSUSX ==> cache == SeedCache(hs, seed, CacheEntriesFor(spec))
    ensures cell == NodeFor(hs, spec, seed, index)
  {
    if spec.mode == MODE_COLOSSUSX {
      cell := NodeInto(hs, index, cache);
    } else {
      cell := KeccakNodeInto(hs, seed, index);
    }
  }

  /** Cell i of the buffer is the node the specification and the seed call for. */
  predicate HoldsNode(hs: HashSuite, spec: Spec, seed: Bytes, buffer: Bytes, i: Uint64) {
    && (i + 1) * CELL <= |buffer|
    && CellOf(buffer, i) == NodeFor(hs, spec, seed, i)
  }

  /** Every node is in place and nothing past the last node has been touched. */
  ghost predicate DagFilled(hs: HashSuite, spec: Spec, seed: Bytes, before: Bytes, after: Bytes) {
    && |after| == |before| && spec.NodeCount() * CELL <= |before|
    && after[spec.NodeCount() * CELL..] == before[spec.NodeCount() * CELL..]
    && forall i :: 0 <= i < spec.NodeCount() ==> HoldsNode(hs, spec, seed, after, i)
  }
}
