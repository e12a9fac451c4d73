/**
 The compact form of a solution: every distinct sibling hash once, and 32-bit references to it. The
 encoding is undone exactly by expansion as long as the references do not wrap.
 */
module Compact {
  import opened Base
  import opened Solution

  datatype CompactCell = CompactCell(index: Uint32, data: Bytes, proofRefs: seq<Uint32>)

  datatype CompactSolution = CompactSolution(
    nonce: Uint64,
    mixDigest: Hash64,
    siblings: seq<Hash32>,
    miningCells: seq<CompactCell>,
    auditCells: seq<CompactCell>)

  ghost predicate Distinct(pool: seq<Hash32>) {
    forall i, j :: 0 <= i < j < |pool| ==> pool[i] != pool[j]
  }

  /** The pool after a run of siblings: new ones are appended in the order they first appear. */
  function Pooled(pool: seq<Hash32>, siblings: seq<Hash32>): seq<Hash32> {
    if siblings == [] then pool
    else
      var rest := Pooled(pool, siblings[..|siblings| - 1]);
      var last := siblings[|siblings| - 1];
      if last in rest then rest else rest + [last]
  }

  function PooledCells(pool: seq<Hash32>, cells: seq<SolutionCell>): seq<Hash32> {
    if cells == [] then pool
    else Pooled(PooledCells(pool, cells[..|cells| - 1]), cells[|cells| - 1].proof)
  }

  /** The reference names a position of the sibling, reduced to 32 bits. */
  ghost predicate Refers(pool: seq<Hash32>, sibling: Hash32, ref: Uint32) {
    exists i :: 0 <= i < |pool| && pool[i] == sibling && ref == i % TWO_32
  }

  ghost predicate RefersAll(pool: seq<Hash32>, siblings: seq<Hash32>, refs: seq<Uint32>) {
    |refs| == |siblings| && forall k :: 0 <= k < |siblings| ==> Refers(pool, siblings[k], refs[k])
  }

  ghost predicate EncodesCell(pool: seq<Hash32>, cell: SolutionCell, encoded: CompactCell) {
    encoded.index == cell.index && encoded.data == cell.data && RefersAll(pool, cell.proof, encoded.proofRefs)
  }

  ghost predicate EncodesCells(pool: seq<Hash32>, cells: seq<SolutionCell>, encoded: seq<CompactCell>) {
    |encoded| == |cells| && forall k :: 0 <= k < |cells| ==> EncodesCell(pool, cells[k], encoded[k])
  }

  ghost predicate Encodes(s: ColossusXSolution, c: CompactSolution) {
    && c.nonce == s.nonce && c.mixDigest == s.mixDigest
    && c.siblings == PooledCells(PooledCells([], s.miningCells), s.auditCells)
    && EncodesCells(c.siblings, s.miningCells, c.miningCells)
    && EncodesCells(c.siblings, s.auditCells, c.auditCells)
  }

  /** The sibling pool and its index, shared by all the cells being encoded. */
  class SiblingPool {
    var pool: seq<Hash32>
    var indexBySibling: map<Hash32, Uint32>

    ghost predicate Valid()
      reads this
    {
      && Distinct(pool)
      && (forall h :: h in indexBySibling <==> h in pool)
      && (forall i :: 0 <= i < |pool| ==> indexBySibling[pool[i]] == i % TWO_32)
    }

    constructor ()
      ensures Valid() && pool == []
    {
      pool, indexBySibling := [], map[];
    }

    method Reference(sibling: Hash32) returns (ref: Uint32)
      requires Valid()
      modifies this
      ensures Valid() && old(pool) <= pool
      ensures pool == if sibling in old(pool) then old(pool) else old(pool) + [sibling]
      ensures Refers(pool, sibling, ref)
    {
      if sibling !in indexBySibling {
        indexBySibling := indexBySibling[sibling := |pool| % TWO_32];
        pool := pool + [sibling];
        assert pool[|pool| - 1] == sibling;
      }
      ref := indexBySibling[sibling];
    }

    method EncodeCell(c: SolutionCell) returns (encoded: CompactCell)
      requires Valid()
      modifies this
      ensures Valid() && old(pool) <= pool && pool == Pooled(old(pool), c.proof)
      ensures EncodesCell(pool, c, encoded)
    {
      var refs: seq<Uint32> := [];
      for k := 0 to |c.proof|
        invariant Valid() && old(pool) <= pool
        invariant pool == Pooled(old(pool), c.proof[..k])
        invariant RefersAll(pool, c.proof[..k], refs)
      {
        ghost var before := pool;
        var ref := Reference(c.proof[k]);
        RefersInLargerPool(before, pool, c.proof[..k], refs);
        RefersOneMore(pool, c.proof[..k], refs, c.proof[k], ref);
        PooledOneMore(old(pool), c.proof[..k], c.proof[k]);
        TakeOneMore(c.proof, k);
        refs := refs + [ref];
      }
      assert c.proof[..|c.proof|] == c.proof;
      encoded := CompactCell(c.index, c.data, refs);
    }

    method EncodeCells(cells: seq<SolutionCell>) returns (encoded: seq<CompactCell>)
      requires Valid()
      modifies this
      ensures Valid() && old(pool) <= pool && pool == PooledCells(old(pool), cells)
      ensures EncodesCells(pool, cells, encoded)
    {
      encoded := [];
      for k := 0 to |cells|
        invariant Valid() && old(pool) <= pool
        invariant pool == PooledCells(old(pool), cells[..k])
        invariant EncodesCells(pool, cells[..k], encoded)
      {
        assert cells[..k + 1][..k] == cells[..k];
        ghost var before := pool;
        var e := EncodeCell(cells[k]);
        EncodedInLargerPool(before, pool, cells[..k], encoded);
        encoded := encoded + [e];
      }
      assert cells[..|cells|] == cells;
    }
  }

  lemma RefersOneMore(pool: seq<Hash32>, siblings: seq<Hash32>, refs: seq<Uint32>, sibling: Hash32, ref: Uint32)
    requires RefersAll(pool, siblings, refs) && Refers(pool, sibling, ref)
    ensures RefersAll(pool, siblings + [sibling], refs + [ref])
  {
  }

  lemma PooledOneMore(pool: seq<Hash32>, siblings: seq<Hash32>, sibling: Hash32)
    ensures var rest := Pooled(pool, siblings);
            Pooled(pool, siblings + [sibling]) == if sibling in rest then rest else rest + [sibling]
  {
    assert (siblings + [sibling])[..|siblings|] == siblings;
  }

  lemma RefersInLargerPool(pool: seq<Hash32>, larger: seq<Hash32>, siblings: seq<Hash32>, refs: seq<Uint32>)
    requires pool <= larger && RefersAll(pool, siblings, refs)
    ensures RefersAll(larger, siblings, refs)
  {
    forall k | 0 <= k < |siblings|
      ensures Refers(larger, siblings[k], refs[k])
    {
      var i :| 0 <= i < |pool| && pool[i] == siblings[k] && refs[k] == i % TWO_32;
      assert larger[i] == siblings[k];
    }
  }

  lemma EncodedInLargerPool(pool: seq<Hash32>, larger: seq<Hash32>, cells: seq<SolutionCell>, encoded: seq<CompactCell>)
    requires pool <= larger && EncodesCells(pool, cells, encoded)
    ensures EncodesCells(larger, cells, encoded)
  {
    forall k | 0 <= k < |cells|
      ensures EncodesCell(larger, cells[k], encoded[k])
    {
      assert EncodesCell(pool, cells[k], encoded[k]);
      RefersInLargerPool(pool, larger, cells[k].proof, encoded[k].proofRefs);
    }
  }

  method CompactColossusXSolution(s: ColossusXSolution) returns (c: CompactSolution)
    ensures Encodes(s, c) && Distinct(c.siblings)
  {
    var p := new SiblingPool();
    var mining := p.EncodeCells(s.miningCells);
    ghost var before := p.pool;
    var audit := p.EncodeCells(s.auditCells);
    EncodedInLargerPool(before, p.pool, s.miningCells, mining);
    c := CompactSolution(s.nonce, s.mixDigest, p.pool, mining, audit);
  }

  // ----- expansion -----

  ghost predicate RefsInBounds(siblings: seq<Hash32>, cells: seq<CompactCell>) {
    forall k :: 0 <= k < |cells| ==> CellInBounds(siblings, cells[k])
  }

  ghost predicate CellInBounds(siblings: seq<Hash32>, cell: CompactCell) {
    forall j :: 0 <= j < |cell.proofRefs| ==> cell.proofRefs[j] < |siblings|
  }

  function ExpandedCell(siblings: seq<Hash32>, c: CompactCell): (cell: SolutionCell)
    requires CellInBounds(siblings, c)
  {
    SolutionCell(c.index, c.data, seq(|c.proofRefs|, j requires 0 <= j < |c.proofRefs| => siblings[c.proofRefs[j]]))
  }

  function ExpandedCells(siblings: seq<Hash32>, cells: seq<CompactCell>): (r: seq<SolutionCell>)
    requires RefsInBounds(siblings, cells)
    ensures |r| == |cells|
  {
    seq(|cells|, k requires 0 <= k < |cells| => ExpandedCell(siblings, cells[k]))
  }

  function Expanded(c: CompactSolution): ColossusXSolution
    requires RefsInBounds(c.siblings, c.miningCells) && RefsInBounds(c.siblings, c.auditCells)
  {
    ColossusXSolution(c.nonce, c.mixDigest, ExpandedCells(c.siblings, c.miningCells), ExpandedCells(c.siblings,
      c.auditCells))
  }

  method DecodeCell(siblings: seq<Hash32>, c: CompactCell) returns (r: Result<SolutionCell>)
    ensures r.Ok? <==> CellInBounds(siblings, c)
    ensures r.Ok? ==> r.value == ExpandedCell(siblings, c)
  {
    var proof: seq<Hash32> := [];
    for j := 0 to |c.proofRefs|
      invariant |proof| == j
      invariant forall i :: 0 <= i < j ==> c.proofRefs[i] < |siblings| && proof[i] == siblings[c.proofRefs[i]]
    {
      if c.proofRefs[j] >= |siblings| {
        return Err("invalid compact proof reference");
      }
      proof := proof + [siblings[c.proofRefs[j]]];
    }
    r := Ok(SolutionCell(c.index, c.data, proof));
  }

  method DecodeCells(siblings: seq<Hash32>, cells: seq<CompactCell>) returns (r: Result<seq<SolutionCell>>)
    ensures r.Ok? <==> RefsInBounds(siblings, cells)
    ensures r.Ok? ==> r.value == ExpandedCells(siblings, cells)
  {
    var out: seq<SolutionCell> := [];
    for k := 0 to |cells|
      invariant |out| == k
      invariant forall i :: 0 <= i < k ==>
        CellInBounds(siblings, cells[i]) && out[i] == ExpandedCell(siblings, cells[i])
    {
      var d := DecodeCell(siblings, cells[k]);
      if d.Err? {
        return Err(d.message);
      }
      out := out + [d.value];
    }
    r := Ok(out);
  }

  method ExpandCompactColossusXSolution(c: CompactSolution) returns (r: Result<ColossusXSolution>)
    ensures r.Ok? <==> RefsInBounds(c.siblings, c.miningCells) && RefsInBounds(c.siblings, c.auditCells)
    ensures r.Ok? ==> r.value == Expanded(c)
  {
    var mining := DecodeCells(c.siblings, c.miningCells);
    if mining.Err? {
      return Err(mining.message);
    }
    var audit := DecodeCells(c.siblings, c.auditCells);
    if audit.Err? {
      return Err(audit.message);
    }
    r := Ok(ColossusXSolution(c.nonce, c.mixDigest, mining.value, audit.value));
  }

  // ----- the round trip -----

  lemma EncodedCellInBounds(pool: seq<Hash32>, cell: SolutionCell, encoded: CompactCell)
    requires EncodesCell(pool, cell, encoded)
    ensures CellInBounds(pool, encoded)
    ensures |pool| <= TWO_32 ==> ExpandedCell(pool, encoded) == cell
  {
    forall j | 0 <= j < |cell.proof|
      ensures encoded.proofRefs[j] < |pool|
      ensures |pool| <= TWO_32 ==> pool[encoded.proofRefs[j]] == cell.proof[j]
    {
      assert Refers(pool, cell.proof[j], encoded.proofRefs[j]);
      var i :| 0 <= i < |pool| && pool[i] == cell.proof[j] && encoded.proofRefs[j] == i % TWO_32;
      assert i % TWO_32 <= i;
    }
  }

  lemma EncodedCellsInBounds(pool: seq<Hash32>, cells: seq<SolutionCell>, encoded: seq<CompactCell>)
    requires EncodesCells(pool, cells, encoded)
    ensures RefsInBounds(pool, encoded)
    ensures |pool| <= TWO_32 ==> ExpandedCells(pool, encoded) == cells
  {
    forall k | 0 <= k < |cells|
      ensures CellInBounds(pool, encoded[k]) && (|pool| <= TWO_32 ==> ExpandedCell(pool, encoded[k]) == cells[k])
    {
      assert EncodesCell(pool, cells[k], encoded[k]);
      EncodedCellInBounds(pool, cells[k], encoded[k]);
    }
  }

  ghost predicate Occurs(sibling: Hash32, cells: seq<SolutionCell>) {
    exists k :: 0 <= k < |cells| && sibling in cells[k].proof
  }

  lemma {:induction false} PooledMembers(pool: seq<Hash32>, siblings: seq<Hash32>, h: Hash32)
    ensures h in Pooled(pool, siblings) <==> h in pool || h in siblings
  {
    if siblings != [] {
      var init := siblings[..|siblings| - 1];
      PooledMembers(pool, init, h);
      assert siblings == init + [siblings[|siblings| - 1]];
    }
  }

  lemma {:induction false} PooledCellsMembers(pool: seq<Hash32>, cells: seq<SolutionCell>, h: Hash32)
    ensures h in PooledCells(pool, cells) <==> h in pool || Occurs(h, cells)
  {
    if cells != [] {
      var init := cells[..|cells| - 1];
      PooledCellsMembers(pool, init, h);
      PooledMembers(PooledCells(pool, init), cells[|cells| - 1].proof, h);
      if h in cells[|cells| - 1].proof {
        assert Occurs(h, cells);
      } else if Occurs(h, init) {
        var k :| 0 <= k < |init| && h in init[k].proof;
        assert h in cells[k].proof;
      } else if Occurs(h, cells) {
        var k :| 0 <= k < |cells| && h in cells[k].proof;
        assert init[k] == cells[k];
      }
    }
  }

  /** Each sibling of the solution is in the pool exactly once, and nothing else is. */
  lemma SiblingsOnce(s: ColossusXSolution, c: CompactSolution, h: Hash32)
    requires Encodes(s, c) && Distinct(c.siblings)
    ensures multiset(c.siblings)[h] == if Occurs(h, s.miningCells) || Occurs(h, s.auditCells) then 1 else 0
  {
    PooledCellsMembers([], s.miningCells, h);
    PooledCellsMembers(PooledCells([], s.miningCells), s.auditCells, h);
    DistinctOnce(c.siblings, h);
  }

  lemma {:induction false} DistinctOnce(pool: seq<Hash32>, h: Hash32)
    requires Distinct(pool)
    ensures multiset(pool)[h] == if h in pool then 1 else 0
  {
    if pool != [] {
      var init := pool[..|pool| - 1];
      DistinctOnce(init, h);
      assert pool == init + [pool[|pool| - 1]];
    }
  }

  /** A wrapped reference decodes to a different sibling. */
  lemma WrappedReference(pool: seq<Hash32>, cells: seq<SolutionCell>, encoded: seq<CompactCell>)
    requires EncodesCells(pool, cells, encoded) && RefsInBounds(pool, encoded) && Distinct(pool)
    requires |pool| > TWO_32 && Occurs(pool[TWO_32], cells)
    ensures ExpandedCells(pool, encoded) != cells
  {
    var k :| 0 <= k < |cells| && pool[TWO_32] in cells[k].proof;
    assert EncodesCell(pool, cells[k], encoded[k]);
    var j :| 0 <= j < |cells[k].proof| && cells[k].proof[j] == pool[TWO_32];
    assert Refers(pool, cells[k].proof[j], encoded[k].proofRefs[j]);
    var i :| 0 <= i < |pool| && pool[i] == cells[k].proof[j] && encoded[k].proofRefs[j] == i % TWO_32;
    assert i == TWO_32 && encoded[k].proofRefs[j] == 0;
    assert ExpandedCells(pool, encoded)[k].proof[j] == pool[0];
  }

  /** The different siblings in a solution's proofs. */
  ghost function Siblings(s: ColossusXSolution): set<Hash32> {
    SiblingsOf(s.miningCells) + SiblingsOf(s.auditCells)
  }

  ghost function SiblingsOf(cells: seq<SolutionCell>): (siblings: set<Hash32>)
    ensures forall h :: h in siblings <==> Occurs(h, cells)
  {
    if cells == [] then {}
    else
      var init, last := cells[..|cells| - 1], cells[|cells| - 1];
      OccursLast(cells);
      SiblingsOf(init) + set h | h in last.proof
  }

  lemma OccursLast(cells: seq<SolutionCell>)
    requires cells != []
    ensures forall h :: Occurs(h, cells) <==> Occurs(h, cells[..|cells| - 1]) || h in cells[|cells| - 1].proof
  {
    var init, last := cells[..|cells| - 1], cells[|cells| - 1];
    forall h | Occurs(h, init)
      ensures Occurs(h, cells)
    {
      var k :| 0 <= k < |init| && h in init[k].proof;
      assert h in cells[k].proof;
    }
    forall h | Occurs(h, cells) && h !in last.proof
      ensures Occurs(h, init)
    {
      var k :| 0 <= k < |cells| && h in cells[k].proof;
      assert h in init[k].proof;
    }
  }

  lemma {:induction false} DistinctSize(pool: seq<Hash32>, members: set<Hash32>)
    requires Distinct(pool) && forall h :: h in members <==> h in pool
    ensures |members| == |pool|
  {
    if pool != [] {
      var init, last := pool[..|pool| - 1], pool[|pool| - 1];
      assert pool == init + [last];
      DistinctSize(init, members - {last});
    }
  }

  /** The pool is as long as there are different siblings. */
  lemma PoolSize(s: ColossusXSolution, c: CompactSolution)
    requires Encodes(s, c) && Distinct(c.siblings)
    ensures |c.siblings| == |Siblings(s)|
  {
    forall h
      ensures h in Siblings(s) <==> h in c.siblings
    {
      PooledCellsMembers([], s.miningCells, h);
      PooledCellsMembers(PooledCells([], s.miningCells), s.auditCells, h);
    }
    DistinctSize(c.siblings, Siblings(s));
  }

  /**
   Expanding a compacted solution never fails, and gives the solution back exactly when its different
   siblings can be numbered with 32 bits.
   */
  lemma CompactRoundTrip(s: ColossusXSolution, c: CompactSolution)
    requires Encodes(s, c) && Distinct(c.siblings)
    ensures RefsInBounds(c.siblings, c.miningCells) && RefsInBounds(c.siblings, c.auditCells)
    ensures Expanded(c) == s <==> |Siblings(s)| <= TWO_32
  {
    PoolSize(s, c);
    EncodedCellsInBounds(c.siblings, s.miningCells, c.miningCells);
    EncodedCellsInBounds(c.siblings, s.auditCells, c.auditCells);
    if |c.siblings| > TWO_32 {
      var h := c.siblings[TWO_32];
      PooledCellsMembers([], s.miningCells, h);
      PooledCellsMembers(PooledCells([], s.miningCells), s.auditCells, h);
      if Occurs(h, s.miningCells) {
        WrappedReference(c.siblings, s.miningCells, c.miningCells);
      } else {
        WrappedReference(c.siblings, s.auditCells, c.auditCells);
      }
    }
  }

  // ----- a solution that does not come back -----

  /** So many different siblings: the numbers below n as hashes. */
  function Numbered(n: nat): (siblings: seq<Hash32>)
    ensures |siblings| == n
  {
    seq(n, i requires 0 <= i < n => LittleEndian(i, 32))
  }

  /** One cell whose proof has one sibling more than 32 bits can number. */
  function LongSolution(): ColossusXSolution {
    ColossusXSolution(0, ZeroBytes(64), [SolutionCell(0, [], Numbered(TWO_32 + 1))], [])
  }

  lemma NumberedDistinct(n: nat)
    requires n <= TWO_64
    ensures Distinct(Numbered(n))
  {
    hide LittleEndian, FromLittleEndian;
    forall i, j | 0 <= i < j < n
      ensures Numbered(n)[i] != Numbered(n)[j]
    {
      NumberFits(i);
      NumberFits(j);
      LittleEndianRoundTrip(i, 32);
      LittleEndianRoundTrip(j, 32);
    }
  }

  lemma NumberFits(i: Uint64)
    ensures i < Pow256(32)
  {
    assert Pow256(8) == TWO_64;
    PowGrows(8, 32);
  }

  lemma {:induction false} PowGrows(a: nat, b: nat)
    requires a <= b
    ensures Pow256(a) <= Pow256(b)
  {
    if a < b {
      PowGrows(a, b - 1);
    }
  }

  /** Whatever its compact form, it expands to something else. */
  lemma LongSolutionIsLost(c: CompactSolution)
    requires Encodes(LongSolution(), c) && Distinct(c.siblings)
    ensures RefsInBounds(c.siblings, c.miningCells) && RefsInBounds(c.siblings, c.auditCells)
    ensures Expanded(c) != LongSolution()
  {
    hide Encodes, Expanded, Numbered;
    var s := LongSolution();
    var long := Numbered(TWO_32 + 1);
    NumberedDistinct(TWO_32 + 1);
    forall h
      ensures h in Siblings(s) <==> h in long
    {
      assert s.miningCells[0].proof == long;
    }
    DistinctSize(long, Siblings(s));
    CompactRoundTrip(s, c);
  }
}
