/**
 The validator's caches: open DAGs by seed and size, in one map shared with mining and one for
 validation only, and the Merkle roots of both. Cached values always equal a fresh computation, and
 every allocation is given back once.
 */
module ValidatorCache {
  import opened Base
  import opened ChainSpec
  import opened Codec
  import opened DagGeneration
  import opened DagWorkers
  import Frontier
  import MerkleTree
  import MultiProof

  const VALIDATION_ALLOCATOR: string := "go-slice"

  function SharedKey(seed: Hash32, size: Uint64): string {
    Hex(seed) + "/" + Decimal(size)
  }

  function FallbackKey(seed: Hash32, size: Uint64): string {
    SharedKey(seed, size) + "/" + VALIDATION_ALLOCATOR + "/validation"
  }

  // ----- keys -----

  function FirstSlash(s: string): nat {
    if s == [] || s[0] == '/' then 0 else 1 + FirstSlash(s[1..])
  }

  predicate NoSlash(s: string) {
    forall i :: 0 <= i < |s| ==> s[i] != '/'
  }

  predicate SlashOrEnd(s: string) {
    s == [] || s[0] == '/'
  }

  lemma {:induction false} FirstSlashAfter(a: string, x: string)
    requires NoSlash(a) && SlashOrEnd(x)
    ensures FirstSlash(a + x) == |a|
  {
    if a == [] {
      assert a + x == x;
    } else {
      assert (a + x)[1..] == a[1..] + x;
      FirstSlashAfter(a[1..], x);
    }
  }

  /** Digits up to a slash, or up to the end, are determined by the whole. */
  lemma DigitsEnd(a: string, x: string, b: string, y: string)
    requires NoSlash(a) && NoSlash(b) && SlashOrEnd(x) && SlashOrEnd(y) && a + x == b + y
    ensures a == b && x == y
  {
    FirstSlashAfter(a, x);
    FirstSlashAfter(b, y);
    assert (a + x)[..|a|] == a && (b + y)[..|b|] == b;
    assert (a + x)[|a|..] == x && (b + y)[|b|..] == y;
  }

  lemma KeyParts(seed: Hash32, size: Uint64, x: string)
    ensures var key := SharedKey(seed, size) + x;
            |key| >= 65 && key[..64] == Hex(seed) && key[65..] == Decimal(size) + x
  {
  }

  /** A key, with anything after a slash behind it, names one seed and one size. */
  lemma KeyDecodes(s: Hash32, m: Uint64, x: string, t: Hash32, n: Uint64, y: string)
    requires SlashOrEnd(x) && SlashOrEnd(y) && SharedKey(s, m) + x == SharedKey(t, n) + y
    ensures s == t && m == n && x == y
  {
    KeyParts(s, m, x);
    KeyParts(t, n, y);
    DigitsEnd(Decimal(m), x, Decimal(n), y);
    HexInjective(s, t);
    DecimalInjective(m, n);
  }

  /** No two DAGs share a key, in either map or across them. */
  lemma KeysInjective(s: Hash32, m: Uint64, t: Hash32, n: Uint64)
    ensures SharedKey(s, m) == SharedKey(t, n) ==> s == t && m == n
    ensures FallbackKey(s, m) == FallbackKey(t, n) ==> s == t && m == n
    ensures SharedKey(s, m) != FallbackKey(t, n)
  {
    var suffix := "/" + VALIDATION_ALLOCATOR + "/validation";
    assert FallbackKey(s, m) == SharedKey(s, m) + suffix && FallbackKey(t, n) == SharedKey(t, n) + suffix;
    assert SharedKey(s, m) + [] == SharedKey(s, m) && SharedKey(t, n) + [] == SharedKey(t, n);
    if SharedKey(s, m) == SharedKey(t, n) {
      KeyDecodes(s, m, [], t, n, []);
    }
    if FallbackKey(s, m) == FallbackKey(t, n) {
      KeyDecodes(s, m, suffix, t, n, suffix);
    }
    if SharedKey(s, m) == FallbackKey(t, n) {
      KeyDecodes(s, m, [], t, n, suffix);
    }
  }

  // ----- what a fresh computation gives -----

  /** The specification a DAG of a given size is generated for. */
  function SizedSpec(config: Spec, size: Uint64): Spec {
    config.(dagSizeBytes := size)
  }

  function DagCells(hs: HashSuite, spec: Spec, seed: Bytes): (cells: seq<Cell>)
    ensures |cells| == spec.NodeCount()
  {
    seq(spec.NodeCount(), i requires 0 <= i < spec.NodeCount() => NodeFor(hs, spec, seed, i))
  }

  /** An empty DAG has the zero root. */
  function FreshRoot(hs: HashSuite, spec: Spec, seed: Bytes): Hash32 {
    var leaves := MultiProof.Leaves(hs.blake3, DagCells(hs, spec, seed));
    if leaves == [] then ZERO_HASH else MerkleTree.Root(hs.blake3, leaves)
  }

  /** The first `count` cells of the buffer are the ones the specification and the seed call for. */
  predicate HoldsNodes(hs: HashSuite, spec: Spec, seed: Bytes, data: Bytes, count: Uint64) {
    count == 0 || (HoldsNodes(hs, spec, seed, data, count - 1) && HoldsNode(hs, spec, seed, data, count - 1))
  }

  /** A buffer that holds the DAG for the specification and the seed. */
  predicate HoldsDag(hs: HashSuite, spec: Spec, seed: Bytes, data: Bytes) {
    spec.Valid() && spec.dagSizeBytes <= |data| && HoldsNodes(hs, spec, seed, data, spec.NodeCount())
  }

  lemma {:induction false} HeldNode(hs: HashSuite, spec: Spec, seed: Bytes, data: Bytes, count: Uint64, i: Uint64)
    requires HoldsNodes(hs, spec, seed, data, count) && i < count
    ensures HoldsNode(hs, spec, seed, data, i)
  {
    hide HoldsNode;
    if i < count - 1 {
      HeldNode(hs, spec, seed, data, count - 1, i);
    }
  }

  /** Bytes 256 i to 256 i + 255 are the node called for. */
  ghost predicate NodeAt(hs: HashSuite, spec: Spec, seed: Bytes, data: Bytes, i: Uint64) {
    256 * i + 256 <= |data| && data[256 * i..256 * i + 256] == NodeFor(hs, spec, seed, i)
  }

  lemma NodeAtIs(hs: HashSuite, spec: Spec, seed: Bytes, data: Bytes, i: Uint64)
    ensures NodeAt(hs, spec, seed, data, i) <==> HoldsNode(hs, spec, seed, data, i)
  {
    hide NodeFor;
    assert (i + 1) * CELL == 256 * i + 256 && i * CELL == 256 * i;
  }

  /** A buffer holds the DAG if its cells, one after the other, are the nodes called for. */
  lemma HoldsDagMeans(hs: HashSuite, spec: Spec, seed: Bytes, data: Bytes)
    ensures HoldsDag(hs, spec, seed, data) <==>
      && spec.Valid() && spec.dagSizeBytes <= |data|
      && forall i: Uint64 :: i < spec.NodeCount() ==> NodeAt(hs, spec, seed, data, i)
  {
    HeldNodes(hs, spec, seed, data, spec.NodeCount());
  }

  lemma {:induction false} HeldNodes(hs: HashSuite, spec: Spec, seed: Bytes, data: Bytes, count: Uint64)
    ensures HoldsNodes(hs, spec, seed, data, count) <==>
      forall i: Uint64 :: i < count ==> NodeAt(hs, spec, seed, data, i)
  {
    hide NodeAt, HoldsNode;
    if count > 0 {
      HeldNodes(hs, spec, seed, data, count - 1);
      NodeAtIs(hs, spec, seed, data, count - 1);
    }
  }

  lemma HeldCells(hs: HashSuite, spec: Spec, seed: Bytes, data: Bytes, i: Uint64)
    requires HoldsDag(hs, spec, seed, data) && i < spec.NodeCount()
    ensures (i + 1) * CELL <= |data| && CellOf(data, i) == DagCells(hs, spec, seed)[i]
  {
    HeldNode(hs, spec, seed, data, spec.NodeCount(), i);
  }

  lemma FilledHoldsNode(hs: HashSuite, spec: Spec, seed: Bytes, workers: nat, data: Bytes, i: Uint64)
    requires spec.NodeCount() * CELL <= |data| && i < spec.NodeCount()
    ensures var job := GenerationJob(hs, spec, seed, workers);
            HoldsNode(hs, spec, seed, Filled(job.cellAt, data, job.count), i)
  {
    var job := GenerationJob(hs, spec, seed, workers);
    CellBound(job, |data|, i);
    FilledCell(job.cellAt, data, job.count, i);
  }

  lemma {:induction false} FilledHoldsNodes(hs: HashSuite, spec: Spec, seed: Bytes, workers: nat, data: Bytes,
                                            count: Uint64)
    requires spec.NodeCount() * CELL <= |data| && count <= spec.NodeCount()
    ensures var job := GenerationJob(hs, spec, seed, workers);
            HoldsNodes(hs, spec, seed, Filled(job.cellAt, data, job.count), count)
  {
    hide HoldsNode, Filled, GenerationJob, NodeFor;
    if count > 0 {
      FilledHoldsNodes(hs, spec, seed, workers, data, count - 1);
      FilledHoldsNode(hs, spec, seed, workers, data, count - 1);
    }
  }

  /** Filling any buffer that is large enough makes it hold the DAG. */
  lemma FilledHoldsDag(hs: HashSuite, spec: Spec, seed: Bytes, workers: nat, data: Bytes)
    requires GenerationError(spec, |data|, seed).None? && spec.dagSizeBytes != 0 && 0 < workers < TWO_63
    ensures var job := GenerationJob(hs, spec, seed, workers);
            Fits(job, data) && HoldsDag(hs, spec, seed, Filled(job.cellAt, data, job.count))
  {
    GuardCoversCells(spec, |data|, seed);
    FilledHoldsNodes(hs, spec, seed, workers, data, spec.NodeCount());
  }

  // ----- memory and DAGs -----

  class Allocation {
    var data: Bytes
    var frees: nat

    constructor (data: Bytes)
      ensures this.data == data && frees == 0
    {
      this.data := data;
      frees := 0;
    }

    method Free()
      modifies this
      ensures frees == old(frees) + 1
    {
      data := [];
      frees := frees + 1;
    }
  }

  /** A DAG and the allocation it may own. The seed it was filled from is not kept at run time. */
  class Dag {
    const spec: Spec
    ghost const seed: Hash32
    var alloc: Allocation?
    var owned: bool

    constructor (spec: Spec, ghost seed: Hash32, alloc: Allocation)
      ensures this.spec == spec && this.seed == seed && this.alloc == alloc && owned
    {
      this.spec := spec;
      this.seed := seed;
      this.alloc := alloc;
      owned := true;
    }

    method Close()
      modifies this, alloc
      ensures old(alloc) == null || !old(owned) ==> alloc == old(alloc) && owned == old(owned)
      ensures old(alloc) != null && !old(owned) ==>
        old(alloc).frees == old(alloc.frees) && old(alloc).data == old(alloc.data)
      ensures old(alloc) != null && old(owned) ==> alloc == null && !owned && old(alloc).frees == old(alloc.frees) + 1
    {
      if alloc == null || !owned {
        return;
      }
      alloc.Free();
      alloc := null;
      owned := false;
    }

    method NodeAt(i: Uint64) returns (node: Bytes)
      requires alloc != null && (i + 1) * CELL <= |alloc.data|
      ensures node == CellOf(alloc.data, i)
    {
      var off := i * CELL;
      node := alloc.data[off..off + CELL];
    }
  }

  /** The root folded from the cells of an open DAG. */
  method StreamedRoot(hs: HashSuite, dag: Dag) returns (root: Hash32)
    requires dag.alloc != null && HoldsDag(hs, dag.spec, dag.seed, dag.alloc.data)
    ensures root == FreshRoot(hs, dag.spec, dag.seed)
  {
    ghost var cells := DagCells(hs, dag.spec, dag.seed);
    var leaves: seq<Hash32> := [];
    var count := dag.spec.NodeCount();
    for i := 0 to count
      invariant |leaves| == i && forall k :: 0 <= k < i ==> leaves[k] == hs.blake3(cells[k])
    {
      HeldCells(hs, dag.spec, dag.seed, dag.alloc.data, i);
      var node := dag.NodeAt(i);
      leaves := leaves + [hs.blake3(node)];
    }
    assert leaves == MultiProof.Leaves(hs.blake3, cells);
    root := Frontier.DagMerkleRootStreaming(hs.blake3, leaves);
  }

  /**
   Allocates and fills a DAG. The allocator may fail, or hand out too little, which is given back; an
   allocation made for a specification that turns out invalid is not given back.
   */
  method NewDag(hs: HashSuite, spec: Spec, seed: Hash32, workers: nat, granted: Option<Bytes>)
    returns (dag: Dag?, alloc: Allocation?)
    requires 0 < workers < TWO_63 && (spec.Valid() ==> spec.dagSizeBytes != 0)
    ensures alloc != null <==> granted.Some?
    ensures alloc != null ==> fresh(alloc)
    ensures dag != null <==> granted.Some? && spec.Valid() && |granted.value| >= spec.dagSizeBytes
    ensures dag != null ==>
      && fresh(dag) && dag.spec == spec && dag.seed == seed && dag.alloc == alloc && dag.owned
      && alloc.frees == 0 && HoldsDag(hs, spec, seed, alloc.data)
    ensures dag == null && alloc != null ==> alloc.frees == if spec.Valid() then 1 else 0
  {
    if granted.None? {
      return null, null;
    }
    alloc := new Allocation(granted.value);
    if spec.Validate().Some? {
      return null, alloc;
    }
    if |alloc.data| < spec.dagSizeBytes {
      alloc.Free();
      return null, alloc;
    }
    dag := new Dag(spec, seed, alloc);
    FilledHoldsDag(hs, spec, seed, workers, alloc.data);
    var filled := FillBuffer(hs, spec, seed, workers, alloc.data);
    alloc.data := filled;
  }

  /** A validator's specification with another size is invalid only if it takes its first size from there. */
  lemma SizedSpecValid(config: Spec, size: Uint64)
    requires config.Valid()
    ensures SizedSpec(config, size).Valid() <==> config.initialDagSizeBytes != 0 || (size != 0 && size % 256 == 0)
  {
  }

  /** The sizes a configuration can be asked for are exactly those whose DAG fits into that many bytes. */
  lemma SizeThatFits(config: Spec, size: Uint64)
    requires config.Valid()
    ensures (SizedSpec(config, size).Valid() ==> SizedSpec(config, size).NodeCount() * CELL <= size) <==>
              (config.initialDagSizeBytes != 0 ==> size != 0)
  {
    var spec := SizedSpec(config, size);
    SizedSpecValid(config, size);
    if spec.Valid() {
      hide Spec.Valid, Spec.NodeCount;
      GuardCoversCells(spec, size, [0]);
      DagSizeIsIdeal(spec, spec.EpochOf(0));
    }
  }

  // ----- cached DAGs and their memory -----

  /** Every allocation ever handed out, and those lost to a specification that turned out invalid. */
  datatype Memory = Memory(allocations: set<Allocation>, abandoned: set<Allocation>)

  ghost predicate OpenDag(hs: HashSuite, config: Spec, memory: Memory, d: Dag)
    reads d, memory.allocations
  {
    && d.spec == SizedSpec(config, d.spec.dagSizeBytes) && d.owned
    && d.alloc != null && d.alloc in memory.allocations && d.alloc !in memory.abandoned && d.alloc.frees == 0
    && HoldsDag(hs, d.spec, d.seed, d.alloc.data)
  }

  /** The DAGs are open, hold what they should, and share no memory. */
  ghost predicate DagsRight(hs: HashSuite, config: Spec, memory: Memory, dags: set<Dag>)
    reads dags, memory.allocations
  {
    && (forall d :: d in dags ==> OpenDag(hs, config, memory, d))
    && (forall d, e :: d in dags && e in dags && d.alloc == e.alloc ==> d == e)
  }

  ghost predicate Held(dags: set<Dag>, a: Allocation)
    reads dags
  {
    exists d :: d in dags && d.alloc == a
  }

  /** Freed at most once, and freed unless one of the DAGs holds it; the abandoned ones are never freed. */
  ghost predicate MemoryRight(memory: Memory, dags: set<Dag>)
    reads dags, memory.allocations
  {
    && memory.abandoned <= memory.allocations
    && forall a :: a in memory.allocations ==>
      a.frees <= 1 && (a.frees == 0 <==> Held(dags, a) || a in memory.abandoned)
  }

  /** Closing one of the DAGs leaves the others as they were and gives its memory back. */
  method CloseOne(hs: HashSuite, config: Spec, ghost memory: Memory, dag: Dag, ghost dags: set<Dag>)
    requires DagsRight(hs, config, memory, dags) && MemoryRight(memory, dags) && dag in dags
    modifies dag, dag.alloc
    ensures DagsRight(hs, config, memory, dags - {dag}) && MemoryRight(memory, dags - {dag})
  {
    assert OpenDag(hs, config, memory, dag);
    ghost var alloc := dag.alloc;
    dag.Close();
    forall d | d in dags - {dag}
      ensures OpenDag(hs, config, memory, d)
    {
      assert old(OpenDag(hs, config, memory, d));
    }
    forall a | a in memory.allocations
      ensures a.frees <= 1 && (a.frees == 0 <==> Held(dags - {dag}, a) || a in memory.abandoned)
    {
      if a != alloc && old(Held(dags, a)) {
        var d :| d in dags && old(d.alloc) == a;
        assert d in dags - {dag} && d.alloc == a;
      }
    }
  }

  function Received(memory: Memory, alloc: Allocation?, kept: bool): Memory {
    if alloc == null then memory
    else Memory(memory.allocations + {alloc}, if kept then memory.abandoned else memory.abandoned + {alloc})
  }

  /** Memory that was handed out but is in no DAG has been given back, or is abandoned. */
  lemma MemoryWithoutDag(hs: HashSuite, config: Spec, memory: Memory, dags: set<Dag>, alloc: Allocation?, kept: bool)
    requires DagsRight(hs, config, memory, dags) && MemoryRight(memory, dags) && alloc !in memory.allocations
    requires alloc != null ==> alloc.frees == if kept then 1 else 0
    ensures DagsRight(hs, config, Received(memory, alloc, kept), dags)
    ensures MemoryRight(Received(memory, alloc, kept), dags)
  {
    hide HoldsDag, SizedSpec;
    var more := Received(memory, alloc, kept);
    forall d | d in dags
      ensures OpenDag(hs, config, more, d) && d.alloc != alloc
    {
      assert OpenDag(hs, config, memory, d);
    }
    forall a | a in more.allocations
      ensures a.frees <= 1 && (a.frees == 0 <==> Held(dags, a) || a in more.abandoned)
    {
      if a == alloc {
        assert !Held(dags, a);
      }
    }
  }

  /** A new DAG in new memory joins the others. */
  lemma MemoryWithDag(hs: HashSuite, config: Spec, memory: Memory, dags: set<Dag>, dag: Dag, alloc: Allocation)
    requires DagsRight(hs, config, memory, dags) && MemoryRight(memory, dags)
    requires alloc !in memory.allocations && dag.alloc == alloc
    requires OpenDag(hs, config, Received(memory, alloc, true), dag)
    ensures DagsRight(hs, config, Received(memory, alloc, true), dags + {dag})
    ensures MemoryRight(Received(memory, alloc, true), dags + {dag})
  {
    hide HoldsDag, SizedSpec;
    var more := Received(memory, alloc, true);
    forall d | d in dags
      ensures OpenDag(hs, config, more, d)
    {
      assert OpenDag(hs, config, memory, d);
    }
    forall a | a in more.allocations
      ensures a.frees <= 1 && (a.frees == 0 <==> Held(dags + {dag}, a) || a in more.abandoned)
    {
      if a == alloc {
        assert dag in dags + {dag};
      } else if Held(dags, a) {
        var d :| d in dags && d.alloc == a;
        assert d in dags + {dag};
      }
    }
  }

  /** Memory is granted for a specification that turns out invalid. */
  predicate LosesMemory(config: Spec, size: Uint64, granted: Option<Bytes>) {
    granted.Some? && !SizedSpec(config, size).Valid()
  }

  lemma LosingSizes(config: Spec, size: Uint64, granted: Option<Bytes>)
    requires config.Valid()
    ensures LosesMemory(config, size, granted) <==>
              granted.Some? && config.initialDagSizeBytes == 0 && (size == 0 || size % 256 != 0)
  {
    SizedSpecValid(config, size);
  }

  /** Makes a DAG beside the others, and keeps the books on its memory. */
  method AddDag(hs: HashSuite, config: Spec, workers: nat, seed: Hash32, size: Uint64, granted: Option<Bytes>,
                ghost memory: Memory, ghost dags: set<Dag>) returns (dag: Dag?, ghost after: Memory)
    requires DagsRight(hs, config, memory, dags) && MemoryRight(memory, dags)
    requires 0 < workers < TWO_63 && config.Valid() && (config.initialDagSizeBytes != 0 ==> size != 0)
    ensures memory.allocations <= after.allocations && fresh(after.allocations - memory.allocations)
    ensures dag != null <==> granted.Some? && SizedSpec(config, size).Valid() && |granted.value| >= size
    ensures memory.abandoned <= after.abandoned
    ensures |after.abandoned| == |memory.abandoned| + if LosesMemory(config, size, granted) then 1 else 0
    ensures dag == null ==> DagsRight(hs, config, after, dags) && MemoryRight(after, dags)
    ensures dag != null ==>
      && fresh(dag) && dag.spec == SizedSpec(config, size) && dag.seed == seed && OpenDag(hs, config, after, dag)
      && DagsRight(hs, config, after, dags + {dag}) && MemoryRight(after, dags + {dag})
  {
    hide HoldsDag;
    var spec := SizedSpec(config, size);
    ghost var alloc: Allocation?;
    dag, alloc := NewDag(hs, spec, seed, workers, granted);
    after := Received(memory, alloc, dag != null || spec.Valid());
    if dag == null {
      MemoryWithoutDag(hs, config, memory, dags, alloc, spec.Valid());
    } else {
      MemoryWithDag(hs, config, memory, dags, dag, alloc);
    }
  }

  /** Every DAG is cached under its own key, in one of the two maps. */
  ghost predicate KeysRight(shared: map<string, Dag>, fallback: map<string, Dag>) {
    && (forall key :: key in shared ==> key == SharedKey(shared[key].seed, shared[key].spec.dagSizeBytes))
    && (forall key :: key in fallback ==> key == FallbackKey(fallback[key].seed, fallback[key].spec.dagSizeBytes))
    && shared.Values !! fallback.Values
  }

  lemma WithoutShared(shared: map<string, Dag>, fallback: map<string, Dag>, key: string)
    requires KeysRight(shared, fallback) && key in shared
    ensures KeysRight(shared - {key}, fallback)
    ensures (shared - {key}).Values + fallback.Values == shared.Values + fallback.Values - {shared[key]}
  {
    ValuesWithout(shared, key);
    assert shared[key] in shared.Values;
  }

  lemma WithoutFallback(shared: map<string, Dag>, fallback: map<string, Dag>, key: string)
    requires KeysRight(shared, fallback) && key in fallback
    ensures KeysRight(shared, fallback - {key})
    ensures shared.Values + (fallback - {key}).Values == shared.Values + fallback.Values - {fallback[key]}
  {
    ValuesWithout(fallback, key);
    assert fallback[key] in fallback.Values;
  }

  lemma WithShared(shared: map<string, Dag>, fallback: map<string, Dag>, key: string, dag: Dag)
    requires KeysRight(shared, fallback) && key !in shared && dag !in fallback.Values
    requires key == SharedKey(dag.seed, dag.spec.dagSizeBytes)
    ensures KeysRight(shared[key := dag], fallback)
    ensures shared[key := dag].Values + fallback.Values == shared.Values + fallback.Values + {dag}
  {
    ValuesWith(shared, key, dag);
  }

  lemma WithFallback(shared: map<string, Dag>, fallback: map<string, Dag>, key: string, dag: Dag)
    requires KeysRight(shared, fallback) && key !in fallback && dag !in shared.Values
    requires key == FallbackKey(dag.seed, dag.spec.dagSizeBytes)
    ensures KeysRight(shared, fallback[key := dag])
    ensures shared.Values + fallback[key := dag].Values == shared.Values + fallback.Values + {dag}
  {
    ValuesWith(fallback, key, dag);
  }

  lemma ValuesWith<V>(m: map<string, V>, key: string, value: V)
    requires key !in m
    ensures m[key := value].Values == m.Values + {value}
  {
    var more := m[key := value];
    assert more[key] == value;
    forall v | v in m.Values
      ensures v in more.Values
    {
      var k :| k in m && m[k] == v;
      assert more[k] == v;
    }
  }

  lemma ValuesWithout<V>(m: map<string, V>, key: string)
    requires key in m && forall k :: k in m && k != key ==> m[k] != m[key]
    ensures (m - {key}).Values == m.Values - {m[key]}
  {
    forall v | v in m.Values && v != m[key]
      ensures v in (m - {key}).Values
    {
      var k :| k in m && m[k] == v;
      assert k in m - {key} && (m - {key})[k] == v;
    }
  }

  /** The root stored under a key is the root of the DAG the key names. */
  ghost predicate RootRight(hs: HashSuite, config: Spec, key: string, root: Hash32) {
    forall seed: Hash32, size: Uint64 {:trigger SharedKey(seed, size)} {:trigger FallbackKey(seed, size)} ::
      key == SharedKey(seed, size) || key == FallbackKey(seed, size) ==>
        root == FreshRoot(hs, SizedSpec(config, size), seed)
  }

  lemma FreshRootRight(hs: HashSuite, config: Spec, key: string, seed: Hash32, size: Uint64)
    requires key == SharedKey(seed, size) || key == FallbackKey(seed, size)
    ensures RootRight(hs, config, key, FreshRoot(hs, SizedSpec(config, size), seed))
  {
    forall t: Hash32, n: Uint64 {:trigger SharedKey(t, n)} {:trigger FallbackKey(t, n)}
      | key == SharedKey(t, n) || key == FallbackKey(t, n)
      ensures t == seed && n == size
    {
      KeysInjective(seed, size, t, n);
      KeysInjective(t, n, seed, size);
    }
  }

  ghost predicate RootsRight(hs: HashSuite, config: Spec, roots: map<string, Hash32>) {
    forall key :: key in roots ==> RootRight(hs, config, key, roots[key])
  }

  lemma RootsWith(hs: HashSuite, config: Spec, roots: map<string, Hash32>, key: string, root: Hash32)
    requires RootsRight(hs, config, roots) && RootRight(hs, config, key, root)
    ensures RootsRight(hs, config, roots[key := root])
  {
    hide RootRight;
  }

  // ----- the validator -----

  class Validator {
    const hs: HashSuite
    const config: Spec
    const workers: nat
    var sharedDags: map<string, Dag>
    var fallbackDags: map<string, Dag>
    var roots: map<string, Hash32>
    var reusesMiningDag: bool
    ghost var memory: Memory

    function Cached(): set<Dag>
      reads this
    {
      sharedDags.Values + fallbackDags.Values
    }

    ghost predicate Valid()
      reads this, Cached(), memory.allocations
    {
      && config.Valid() && 0 < workers < TWO_63
      && KeysRight(sharedDags, fallbackDags) && RootsRight(hs, config, roots)
      && DagsRight(hs, config, memory, Cached()) && MemoryRight(memory, Cached())
    }

    constructor (hs: HashSuite, config: Spec, workers: nat)
      requires config.Valid() && 0 < workers < TWO_63
      ensures Valid() && Cached() == {} && roots == map[] && memory == Memory({}, {}) && reusesMiningDag
      ensures this.hs == hs && this.config == config && this.workers == workers
    {
      this.hs, this.config, this.workers := hs, config, workers;
      sharedDags, fallbackDags, roots := map[], map[], map[];
      reusesMiningDag := true;
      memory := Memory({}, {});
    }

    /** Closes a cached DAG and forgets it. */
    method EvictShared(key: string)
      requires Valid() && key in sharedDags
      modifies this`sharedDags, sharedDags[key], sharedDags[key].alloc
      ensures Valid() && sharedDags == old(sharedDags) - {key} && Cached() == old(Cached()) - {old(sharedDags[key])}
    {
      ghost var dags := Cached();
      var dag := sharedDags[key];
      WithoutShared(sharedDags, fallbackDags, key);
      sharedDags := sharedDags - {key};
      CloseOne(hs, config, memory, dag, dags);
      assert Cached() == dags - {dag};
    }

    method EvictFallback(key: string)
      requires Valid() && key in fallbackDags
      modifies this`fallbackDags, fallbackDags[key], fallbackDags[key].alloc
      ensures Valid() && fallbackDags == old(fallbackDags) - {key}
      ensures Cached() == old(Cached()) - {old(fallbackDags[key])}
    {
      ghost var dags := Cached();
      var dag := fallbackDags[key];
      WithoutFallback(sharedDags, fallbackDags, key);
      fallbackDags := fallbackDags - {key};
      CloseOne(hs, config, memory, dag, dags);
      assert Cached() == dags - {dag};
    }

    method EvictAllShared(ghost dags: set<Dag>)
      requires Valid() && Cached() <= dags
      modifies this`sharedDags, dags, memory.allocations
      ensures Valid() && sharedDags == map[] && Cached() <= old(Cached())
    {
      hide DagsRight, MemoryRight, KeysRight, RootsRight;
      while sharedDags != map[]
        invariant Valid() && Cached() <= dags && Cached() <= old(Cached())
        decreases |sharedDags|
      {
        var key :| key in sharedDags;
        CachedDagIsOpen(key);
        EvictShared(key);
      }
    }

    /** Takes a new mining allocator, if one is given, and drops everything that was built with the old one. */
    method SetMiningBackend(allocatorReusable: Option<bool>)
      requires Valid()
      modifies this, Cached(), memory.allocations
      ensures Valid() && sharedDags == map[] && roots == map[] && fallbackDags == old(fallbackDags)
      ensures memory == old(memory)
      ensures Cached() <= old(Cached())
      ensures reusesMiningDag == if allocatorReusable.Some? then allocatorReusable.value else old(reusesMiningDag)
    {
      hide DagsRight, MemoryRight, KeysRight;
      if allocatorReusable.Some? {
        reusesMiningDag := allocatorReusable.value;
      }
      EvictAllShared(Cached());
      roots := map[];
    }

    /** The DAG of a seed and a size, from one of the two caches or generated into it. */
    method CachedDag(seed: Hash32, size: Uint64, shared: bool, granted: Option<Bytes>) returns (dag: Dag?)
      requires Valid() && (config.initialDagSizeBytes != 0 ==> size != 0)
      modifies this
      ensures Valid() && old(Cached()) <= Cached() && old(memory.allocations) <= memory.allocations && OnlyNew()
      ensures dag != null ==> HoldsFor(dag, seed, size) && SizedSpec(config, size).Valid()
      ensures var key := KeyFor(seed, size, shared);
              if key in old(CacheOf(shared))
              then dag == old(CacheOf(shared))[key] && unchanged(this)
              else dag != null <==> granted.Some? && SizedSpec(config, size).Valid() && |granted.value| >= size
      ensures dag == null ==> sharedDags == old(sharedDags) && fallbackDags == old(fallbackDags) && roots == old(roots)
      ensures dag != null ==> CacheOf(shared) == old(CacheOf(shared))[KeyFor(seed, size, shared) := dag]
      ensures dag != null && KeyFor(seed, size, shared) !in old(CacheOf(shared)) ==>
        roots == old(RootsWithDag(seed, size, KeyFor(seed, size, shared)))
      ensures CacheOf(!shared) == old(CacheOf(!shared)) && reusesMiningDag == old(reusesMiningDag)
      ensures LosesOnly(LosesMemory(config, size, granted))
    {
      hide DagsRight, MemoryRight, KeysRight, RootsRight, RootRight, SharedKey, FallbackKey, HoldsDag, FreshRoot;
      var key := KeyFor(seed, size, shared);
      CachedDagIsOpen(key);
      if key in CacheOf(shared) {
        CachedDagIsRight(seed, size, key, shared);
        return CacheOf(shared)[key];
      }
      dag := GenerateInto(seed, size, shared, granted);
    }

    /** The roots with the one of a newly cached DAG, which is kept for the ColossusX algorithm only. */
    ghost function RootsWithDag(seed: Hash32, size: Uint64, key: string): map<string, Hash32>
      reads this
    {
      if config.algorithmVersion >= 2 || config.mode == MODE_COLOSSUSX
      then roots[key := FreshRoot(hs, SizedSpec(config, size), seed)] else roots
    }

    /** The root kept beside a newly cached DAG. */
    method RootsAfter(dag: Dag, seed: Hash32, size: Uint64, key: string) returns (after: map<string, Hash32>)
      requires RootsRight(hs, config, roots) && (key == SharedKey(seed, size) || key == FallbackKey(seed, size))
      requires dag.seed == seed && dag.spec == SizedSpec(config, size)
      requires dag.alloc != null && HoldsDag(hs, dag.spec, dag.seed, dag.alloc.data)
      ensures RootsRight(hs, config, after) && after == RootsWithDag(seed, size, key)
    {
      hide RootRight, FreshRoot, HoldsDag;
      after := roots;
      if config.algorithmVersion >= 2 || config.mode == MODE_COLOSSUSX {
        var root := StreamedRoot(hs, dag);
        FreshRootRight(hs, config, key, seed, size);
        RootsWith(hs, config, roots, key, root);
        after := roots[key := root];
      }
    }

    /** Puts new cache contents in place. */
    method Install(newRoots: map<string, Hash32>, newShared: map<string, Dag>, newFallback: map<string, Dag>,
                   ghost after: Memory, ghost dags: set<Dag>)
      requires config.Valid() && 0 < workers < TWO_63
      requires KeysRight(newShared, newFallback) && RootsRight(hs, config, newRoots)
      requires dags == newShared.Values + newFallback.Values
      requires DagsRight(hs, config, after, dags) && MemoryRight(after, dags)
      modifies this
      ensures Valid() && Cached() == dags && memory == after
      ensures roots == newRoots && sharedDags == newShared && fallbackDags == newFallback
      ensures reusesMiningDag == old(reusesMiningDag)
    {
      hide DagsRight, MemoryRight, KeysRight, RootsRight;
      roots := newRoots;
      sharedDags := newShared;
      fallbackDags := newFallback;
      memory := after;
      assert Cached() == dags;
    }

    /** Caches a new DAG, and its root beside it. */
    method Place(dag: Dag, seed: Hash32, size: Uint64, shared: bool, ghost after: Memory)
      requires Valid() && KeyFor(seed, size, shared) !in CacheOf(shared) && dag !in Cached()
      requires dag.seed == seed && dag.spec == SizedSpec(config, size) && OpenDag(hs, config, after, dag)
      requires DagsRight(hs, config, after, Cached() + {dag}) && MemoryRight(after, Cached() + {dag})
      modifies this
      ensures Valid() && Cached() == old(Cached()) + {dag} && memory == after
      ensures roots == old(RootsWithDag(seed, size, KeyFor(seed, size, shared)))
      ensures CacheOf(shared) == old(CacheOf(shared))[KeyFor(seed, size, shared) := dag]
      ensures CacheOf(!shared) == old(CacheOf(!shared)) && reusesMiningDag == old(reusesMiningDag)
    {
      hide DagsRight, MemoryRight, KeysRight, RootsRight, SharedKey, FallbackKey, HoldsDag;
      var key := KeyFor(seed, size, shared);
      ghost var more := Cached() + {dag};
      var newRoots := RootsAfter(dag, seed, size, key);
      if shared {
        WithShared(sharedDags, fallbackDags, key, dag);
      } else {
        WithFallback(sharedDags, fallbackDags, key, dag);
      }
      assert DagsRight(hs, config, after, more) && MemoryRight(after, more);
      Install(newRoots, if shared then sharedDags[key := dag] else sharedDags,
              if shared then fallbackDags else fallbackDags[key := dag], after, more);
    }

    method GenerateInto(seed: Hash32, size: Uint64, shared: bool, granted: Option<Bytes>) returns (dag: Dag?)
      requires Valid() && KeyFor(seed, size, shared) !in CacheOf(shared)
      requires config.initialDagSizeBytes != 0 ==> size != 0
      modifies this
      ensures Valid() && old(Cached()) <= Cached() && old(memory.allocations) <= memory.allocations && OnlyNew()
      ensures dag != null <==> granted.Some? && SizedSpec(config, size).Valid() && |granted.value| >= size
      ensures dag == null ==> sharedDags == old(sharedDags) && fallbackDags == old(fallbackDags) && roots == old(roots)
      ensures dag != null ==>
        HoldsFor(dag, seed, size) && CacheOf(shared) == old(CacheOf(shared))[KeyFor(seed, size, shared) := dag]
        && roots == old(RootsWithDag(seed, size, KeyFor(seed, size, shared)))
      ensures CacheOf(!shared) == old(CacheOf(!shared)) && reusesMiningDag == old(reusesMiningDag)
      ensures LosesOnly(LosesMemory(config, size, granted))
    {
      hide DagsRight, MemoryRight, KeysRight, RootsRight, SharedKey, FallbackKey, HoldsDag;
      ghost var dags := Cached();
      ghost var after: Memory;
      dag, after := AddDag(hs, config, workers, seed, size, granted, memory, dags);
      if dag == null {
        Install(roots, sharedDags, fallbackDags, after, dags);
        return;
      }
      Place(dag, seed, size, shared, after);
    }

    method SharedMiningDag(seed: Hash32, size: Uint64, granted: Option<Bytes>) returns (dag: Dag?)
      requires Valid() && (config.initialDagSizeBytes != 0 ==> size != 0)
      modifies this
      ensures Valid() && fallbackDags == old(fallbackDags) && old(Cached()) <= Cached()
      ensures dag != null <==> old(Available(seed, size, true, granted))
      ensures dag != null ==> HoldsFor(dag, seed, size) && dag in sharedDags.Values
      ensures LosesOnly(LosesMemory(config, size, granted))
    {
      dag := CachedDag(seed, size, true, granted);
      if dag != null {
        InCache(seed, size, true, dag);
      }
    }

    /** Validation works on the mining DAG if the allocator allows it, and on its own otherwise. */
    method ValidationDag(seed: Hash32, size: Uint64, granted: Option<Bytes>) returns (dag: Dag?)
      requires Valid() && (config.initialDagSizeBytes != 0 ==> size != 0)
      modifies this
      ensures Valid() && old(Cached()) <= Cached()
      ensures dag != null <==> old(Available(seed, size, reusesMiningDag, granted))
      ensures dag != null ==> SizedSpec(config, size).Valid()
      ensures dag != null ==>
        HoldsFor(dag, seed, size) && dag in (if old(reusesMiningDag) then sharedDags.Values else fallbackDags.Values)
      ensures LosesOnly(LosesMemory(config, size, granted))
    {
      var shared := reusesMiningDag;
      dag := CachedDag(seed, size, shared, granted);
      if dag != null {
        InCache(seed, size, shared, dag);
      }
    }

    lemma InCache(seed: Hash32, size: Uint64, shared: bool, dag: Dag)
      requires KeyFor(seed, size, shared) in CacheOf(shared) && CacheOf(shared)[KeyFor(seed, size, shared)] == dag
      ensures dag in CacheOf(shared).Values
    {
    }

    /** The root of an open DAG, from the cache or computed into it: always the root a fresh DAG has. */
    method MerkleRootForDag(seed: Hash32, size: Uint64, dag: Dag) returns (root: Hash32)
      requires Valid() && HoldsFor(dag, seed, size)
      modifies this`roots
      ensures Valid() && root == FreshRoot(hs, SizedSpec(config, size), seed)
      ensures roots == old(roots)[SharedKey(seed, size) := root]
    {
      hide DagsRight, MemoryRight, KeysRight, FreshRoot, HoldsDag, SizedSpec, SharedKey;
      var key := SharedKey(seed, size);
      if key in roots {
        assert RootRight(hs, config, key, roots[key]);
        return roots[key];
      }
      root := StreamedRoot(hs, dag);
      FreshRootRight(hs, config, key, seed, size);
      RootsWith(hs, config, roots, key, root);
      roots := roots[key := root];
    }

    method EvictAllFallback(ghost dags: set<Dag>)
      requires Valid() && Cached() <= dags
      modifies this`fallbackDags, dags, memory.allocations
      ensures Valid() && fallbackDags == map[] && Cached() <= old(Cached())
    {
      hide DagsRight, MemoryRight, KeysRight, RootsRight;
      while fallbackDags != map[]
        invariant Valid() && Cached() <= dags && Cached() <= old(Cached())
        decreases |fallbackDags|
      {
        var key :| key in fallbackDags;
        CachedDagIsOpen(key);
        EvictFallback(key);
      }
    }

    /** Closes every DAG once and forgets it; all memory that was not abandoned has been given back once. */
    method Close()
      requires Valid()
      modifies this, Cached(), memory.allocations
      ensures Valid() && Cached() == {} && memory == old(memory)
      ensures AllReturned(memory) && roots == old(roots) - (old(fallbackDags.Keys) + old(sharedDags.Keys))
    {
      ghost var dags := Cached();
      var stale := fallbackDags.Keys + sharedDags.Keys;
      EvictAllFallback(dags);
      EvictAllShared(dags);
      DropRoots(stale);
      assert Cached() == {};
      forall a | a in memory.allocations
        ensures a.frees == if a in memory.abandoned then 0 else 1
      {
        assert !Held(Cached(), a);
      }
    }

    method DropRoots(stale: set<string>)
      requires Valid()
      modifies this`roots
      ensures Valid() && roots == old(roots) - stale
    {
      hide DagsRight, MemoryRight, KeysRight, RootRight;
      ghost var dags, known := Cached(), memory.allocations;
      roots := roots - stale;
      assert Cached() == dags && memory.allocations == known;
    }

    /** Whatever has joined the caches or the memory was made since. */
    twostate predicate OnlyNew()
      reads this
    {
      fresh(Cached() - old(Cached())) && fresh(memory.allocations - old(memory.allocations))
    }

    /** At most one allocation more is lost for good, and exactly one if `loses` says so. */
    twostate predicate LosesOnly(loses: bool)
      reads this
    {
      && old(memory.abandoned) <= memory.abandoned
      && |memory.abandoned| == |old(memory.abandoned)| + if loses then 1 else 0
    }

    function KeyFor(seed: Hash32, size: Uint64, shared: bool): string {
      if shared then SharedKey(seed, size) else FallbackKey(seed, size)
    }

    /** A DAG can be had: it is cached, or there is memory enough for a valid one. */
    predicate Available(seed: Hash32, size: Uint64, shared: bool, granted: Option<Bytes>)
      reads this
    {
      || KeyFor(seed, size, shared) in CacheOf(shared)
      || (granted.Some? && SizedSpec(config, size).Valid() && |granted.value| >= size)
    }

    function CacheOf(shared: bool): map<string, Dag>
      reads this
    {
      if shared then sharedDags else fallbackDags
    }

    /** The DAG is cached, open, and holds what generating it now would put there. */
    ghost predicate HoldsFor(dag: Dag, seed: Hash32, size: Uint64)
      reads this, dag, memory.allocations
    {
      && dag in Cached() && dag.seed == seed && dag.spec == SizedSpec(config, size)
      && OpenDag(hs, config, memory, dag)
    }

    lemma CachedDagIsRight(seed: Hash32, size: Uint64, key: string, shared: bool)
      requires Valid() && key == KeyFor(seed, size, shared) && key in CacheOf(shared)
      ensures HoldsFor(CacheOf(shared)[key], seed, size) && SizedSpec(config, size).Valid()
    {
      var dag := CacheOf(shared)[key];
      CachedDagIsOpen(key);
      KeysInjective(seed, size, dag.seed, dag.spec.dagSizeBytes);
    }

    lemma CachedDagIsOpen(key: string)
      requires Valid()
      ensures key in sharedDags ==> sharedDags[key] in Cached() && OpenDag(hs, config, memory, sharedDags[key])
      ensures key in fallbackDags ==> fallbackDags[key] in Cached() && OpenDag(hs, config, memory, fallbackDags[key])
    {
      if key in sharedDags { assert sharedDags[key] in Cached(); }
      if key in fallbackDags { assert fallbackDags[key] in Cached(); }
    }
  }

  // ----- whole sessions -----

  /** A call to a validator, with what the allocator would give if it were asked. */
  datatype Call =
    | SetMiningBackend(allocatorReusable: Option<bool>)
    | Mine(seed: Hash32, size: Uint64, granted: Option<Bytes>)
    | Validate(seed: Hash32, size: Uint64, granted: Option<Bytes>)
    | Close

  /** A configuration that fixes its initial size is asked for DAGs of some size. */
  predicate Sized(config: Spec, call: Call) {
    (call.Mine? || call.Validate?) && config.initialDagSizeBytes != 0 ==> call.size != 0
  }

  /** A call that is granted memory for a specification that turns out invalid. */
  predicate Loses(config: Spec, call: Call) {
    (call.Mine? || call.Validate?) && LosesMemory(config, call.size, call.granted)
  }

  function Losses(config: Spec, calls: seq<Call>): nat {
    if calls == [] then 0
    else Losses(config, calls[..|calls| - 1]) + if Loses(config, calls[|calls| - 1]) then 1 else 0
  }

  lemma {:induction false} NoLosses(config: Spec, calls: seq<Call>)
    ensures Losses(config, calls) == 0 <==> forall i :: 0 <= i < |calls| ==> !Loses(config, calls[i])
  {
    if calls != [] {
      NoLosses(config, calls[..|calls| - 1]);
    }
  }

  /** One call, as sealing and validating make it: the DAG first, then its root. */
  method Perform(v: Validator, call: Call)
    requires v.Valid() && Sized(v.config, call)
    modifies v, v.Cached(), v.memory.allocations
    ensures v.Valid() && fresh(v.Cached() - old(v.Cached())) && fresh(v.memory.allocations - old(v.memory.allocations))
    ensures call.Close? ==> AllReturned(v.memory)
    ensures v.LosesOnly(Loses(v.config, call))
  {
    hide DagsRight, MemoryRight, KeysRight, RootsRight, FreshRoot, SizedSpec, HoldsDag;
    match call
    case SetMiningBackend(reusable) =>
      v.SetMiningBackend(reusable);
    case Mine(seed, size, granted) =>
      var dag := v.CachedDag(seed, size, true, granted);
      if dag != null {
        var root := v.MerkleRootForDag(seed, size, dag);
      }
    case Validate(seed, size, granted) =>
      var dag := v.CachedDag(seed, size, v.reusesMiningDag, granted);
      if dag != null {
        var root := v.MerkleRootForDag(seed, size, dag);
      }
    case Close =>
      v.Close();
  }

  /** All memory has been given back exactly once, but for what was lost to invalid specifications. */
  ghost predicate AllReturned(memory: Memory)
    reads memory.allocations
  {
    forall a :: a in memory.allocations ==> a.frees == if a in memory.abandoned then 0 else 1
  }

  ghost predicate EverythingReturned(memory: Memory)
    reads memory.allocations
  {
    forall a :: a in memory.allocations ==> a.frees == 1
  }

  lemma ReturnedUnlessLost(memory: Memory)
    requires AllReturned(memory) && memory.abandoned <= memory.allocations
    ensures EverythingReturned(memory) <==> memory.abandoned == {}
  {
    if memory.abandoned != {} {
      var a :| a in memory.abandoned;
      assert a in memory.allocations;
    }
  }

  lemma LostIsReceived(v: Validator)
    requires v.Valid()
    ensures v.memory.abandoned <= v.memory.allocations
  {
  }

  /** The calls one after the other. */
  method PerformAll(v: Validator, calls: seq<Call>)
    requires v.Valid() && forall i :: 0 <= i < |calls| ==> Sized(v.config, calls[i])
    modifies v, v.Cached(), v.memory.allocations
    ensures v.Valid() && (calls != [] && calls[|calls| - 1].Close? ==> AllReturned(v.memory))
    ensures old(v.memory.abandoned) <= v.memory.abandoned
    ensures |v.memory.abandoned| == |old(v.memory.abandoned)| + Losses(v.config, calls)
  {
    hide DagsRight, MemoryRight, KeysRight, RootsRight, AllReturned, Loses;
    for i := 0 to |calls|
      invariant v.Valid()
      invariant old(v.memory.abandoned) <= v.memory.abandoned
      invariant |v.memory.abandoned| == |old(v.memory.abandoned)| + Losses(v.config, calls[..i])
      invariant fresh(v.Cached() - old(v.Cached())) && fresh(v.memory.allocations - old(v.memory.allocations))
      invariant i > 0 && calls[i - 1].Close? ==> AllReturned(v.memory)
    {
      assert calls[..i + 1][..i] == calls[..i];
      Perform(v, calls[i]);
    }
    assert calls[..|calls|] == calls;
  }

  /**
   Any sequence of calls keeps the caches right, and loses one allocation for each call that is granted
   memory for an invalid specification. After a last `Close`, a validator that had lost nothing before
   has given back every allocation exactly once if and only if there was no such call.
   */
  method Session(v: Validator, calls: seq<Call>)
    requires v.Valid() && forall i :: 0 <= i < |calls| ==> Sized(v.config, calls[i])
    modifies v, v.Cached(), v.memory.allocations
    ensures v.Valid() && (calls != [] && calls[|calls| - 1].Close? ==> AllReturned(v.memory))
    ensures old(v.memory.abandoned) <= v.memory.abandoned
    ensures |v.memory.abandoned| == |old(v.memory.abandoned)| + Losses(v.config, calls)
    ensures calls != [] && calls[|calls| - 1].Close? && old(v.memory.abandoned) == {} ==>
      (EverythingReturned(v.memory) <==> forall i :: 0 <= i < |calls| ==> !Loses(v.config, calls[i]))
  {
    hide DagsRight, MemoryRight, KeysRight, RootsRight, AllReturned, Loses, EverythingReturned;
    PerformAll(v, calls);
    NoLosses(v.config, calls);
    LostIsReceived(v);
    if calls != [] && calls[|calls| - 1].Close? {
      ReturnedUnlessLost(v.memory);
    }
  }
}
