/**
 The one-pass multi-proof. A single sweep over the cells computes the root and, for every requested
 index, the same proof the fully materialised tree would give, keeping one pending node per level.
 */
module MultiProof {
  import opened Base
  import opened MerkleTree
  import opened Frontier

  datatype ProofSlot = ProofSlot(targetPos: nat, proofLevel: nat)

  function Leaves(h: Bytes -> Hash32, cells: seq<Bytes>): (leaves: seq<Hash32>)
    ensures |leaves| == |cells|
  {
    seq(|cells|, i requires 0 <= i < |cells| => h(cells[i]))
  }

  /** The position whose hash belongs at `level` of the proof for `index`. */
  function WantedPosition(n: nat, index: nat, level: nat): (pos: nat)
    requires index < n
    ensures pos < Width(n, level)
  {
    AncestorInWidth(n, index, level);
    SiblingInWidth(Width(n, level), Shr(index, level));
    SiblingOf(Width(n, level), Shr(index, level))
  }

  lemma SiblingInWidth(width: nat, pos: nat)
    requires pos < width
    ensures SiblingOf(width, pos) < width
  {
    XorOne(pos);
  }

  type WantedTable = seq<map<nat, seq<ProofSlot>>>

  function SlotsAt(wanted: WantedTable, level: nat, pos: nat): seq<ProofSlot> {
    if level < |wanted| && pos in wanted[level] then wanted[level][pos] else []
  }

  ghost predicate Targets(n: nat, targets: seq<nat>) {
    forall t :: 0 <= t < |targets| ==> targets[t] < n
  }

  /** The first `done` targets are entered in the table, each exactly where its siblings are. */
  ghost predicate WantedBy(n: nat, targets: seq<nat>, done: nat, wanted: WantedTable)
    requires Targets(n, targets) && n > 0 && done <= |targets|
  {
    && |wanted| == Depth(n)
    && forall level: nat, pos: nat, slot: ProofSlot :: slot in SlotsAt(wanted, level, pos) <==>
         SlotBelongs(n, targets, done, level, pos, slot)
  }

  ghost predicate SlotBelongs(n: nat, targets: seq<nat>, done: nat, level: nat, pos: nat, slot: ProofSlot)
    requires Targets(n, targets) && n > 0 && done <= |targets|
  {
    && level < Depth(n) && slot.proofLevel == level && slot.targetPos < done
    && pos == WantedPosition(n, targets[slot.targetPos], level)
  }

  /** Once its node has been emitted, a proof entry is filled with the right hash. */
  ghost predicate EntryServed(h: Bytes -> Hash32, leaves: seq<Hash32>, index: nat, level: nat, emitted: nat,
                              entry: Hash32, filled: bool)
    requires index < |leaves|
  {
    WantedPosition(|leaves|, index, level) < emitted ==> filled && entry == ProofStep(h, leaves, index, level)
  }

  /** The pending node of a level above `base`, when `count` nodes have entered at `base`. */
  ghost predicate PendingAt(h: Bytes -> Hash32, leaves: seq<Hash32>, base: nat, count: nat, level: nat,
                            next: nat, pending: Hash32, occupied: bool)
    requires base <= level
  {
    next == Shr(count, level - base) && LevelHolds(h, leaves, next, level, pending, occupied)
  }

  lemma EmittedInWidth(n: nat, base: nat, count: nat, level: nat)
    requires base <= level && count < Width(n, base)
    ensures Shr(count, level - base) < Width(n, level)
  {
    WidthCompose(n, base, level - base);
    AncestorInWidth(Width(n, base), count, level - base);
  }

  /** A node emitted at `base` has been merged through the trailing ones of the count. */
  ghost predicate Merged(h: Bytes -> Hash32, leaves: seq<Hash32>, base: nat, count: nat, level: nat, node: Hash32)
    requires base <= level
  {
    && LowOnes(count, level - base)
    && Shr(count, level - base) < Width(|leaves|, level)
    && node == Node(h, leaves, level, Shr(count, level - base))
  }

  lemma MergeStep(h: Bytes -> Hash32, leaves: seq<Hash32>, base: nat, count: nat, level: nat, next: nat,
                  pending: Hash32, node: Hash32)
    requires base <= level && Merged(h, leaves, base, count, level, node)
    requires PendingAt(h, leaves, base, count, level, next, pending, true)
    ensures Merged(h, leaves, base, count, level + 1, Pair(h, pending, node))
  {
    PairIsParent(h, leaves, level, next);
  }

  /** How one emission moves each level: merged levels empty, the stopping level fills, the rest keep. */
  lemma EmissionAdvances(h: Bytes -> Hash32, leaves: seq<Hash32>, base: nat, count: nat, stop: nat, level: nat,
                         next0: nat, pending0: Hash32, occupied0: bool, next: nat, pending: Hash32, occupied: bool)
    requires base <= stop && base <= level && LowOnes(count, stop - base) && Shr(count, stop - base) % 2 == 0
    requires PendingAt(h, leaves, base, count, level, next0, pending0, occupied0)
    requires next == if level <= stop then next0 + 1 else next0
    requires level < stop ==> !occupied
    requires level == stop ==> occupied && next0 < Width(|leaves|, level) && pending == Node(h, leaves, level, next0)
    requires level > stop ==> pending == pending0 && occupied == occupied0
    ensures PendingAt(h, leaves, base, count + 1, level, next, pending, occupied)
  {
    CarryShape(count, stop - base, level - base);
  }

  /** The state the streaming builder keeps; `leaves` and `targets` are what it is proved against. */
  class MultiProofBuilder {
    const h: Bytes -> Hash32
    const depth: nat
    const wanted: WantedTable
    ghost const leaves: seq<Hash32>
    ghost const targets: seq<nat>
    var proofs: seq<seq<Hash32>>
    var filled: seq<seq<bool>>
    var nextIndex: seq<nat>
    var pending: seq<Hash32>
    var hasPending: seq<bool>

    ghost predicate Fixed() {
      && leaves != [] && depth == Depth(|leaves|) && Targets(|leaves|, targets)
      && WantedBy(|leaves|, targets, |targets|, wanted)
    }

    ghost predicate Shaped()
      reads this
    {
      && |nextIndex| == |pending| == |hasPending| == depth + 1
      && |proofs| == |filled| == |targets|
      && (forall t {:trigger proofs[t]} {:trigger filled[t]} :: 0 <= t < |targets| ==>
        |proofs[t]| == |filled[t]| == depth)
    }

    ghost predicate Served()
      requires Fixed() && Shaped()
      reads this
    {
      forall t, level {:trigger proofs[t][level]} {:trigger filled[t][level]} ::
        0 <= t < |targets| && 0 <= level < depth ==>
        EntryServed(h, leaves, targets[t], level, nextIndex[level], proofs[t][level], filled[t][level])
    }

    /** `count` nodes have entered at level `base`; every level below is complete. */
    ghost predicate Emitted(base: nat, count: nat)
      requires Fixed() && Shaped()
      reads this
    {
      && base <= depth && count <= Width(|leaves|, base)
      && (forall level {:trigger nextIndex[level]} :: 0 <= level < base ==> nextIndex[level] == Width(|leaves|, level))
      && (forall level {:trigger nextIndex[level]} {:trigger pending[level]} {:trigger hasPending[level]} ::
            base <= level <= depth ==>
            PendingAt(h, leaves, base, count, level, nextIndex[level], pending[level], hasPending[level]))
    }

    constructor (h: Bytes -> Hash32, ghost leaves: seq<Hash32>, targets: seq<nat>, depth: nat, wanted: WantedTable)
      requires leaves != [] && depth == Depth(|leaves|) && Targets(|leaves|, targets)
      requires WantedBy(|leaves|, targets, |targets|, wanted)
      ensures this.h == h && this.leaves == leaves && this.targets == targets && this.depth == depth
      ensures Fixed() && Shaped() && Served() && Emitted(0, 0)
    {
      this.h, this.leaves, this.targets, this.depth, this.wanted := h, leaves, targets, depth, wanted;
      proofs := seq(|targets|, _ => seq(depth, _ => ZERO_HASH));
      filled := seq(|targets|, _ => seq(depth, _ => false));
      nextIndex := seq(depth + 1, _ => 0);
      pending := seq(depth + 1, _ => ZERO_HASH);
      hasPending := seq(depth + 1, _ => false);
      new;
      forall level | 0 <= level <= depth
        ensures PendingAt(h, leaves, 0, 0, level, nextIndex[level], pending[level], hasPending[level])
      {
        ShrZeroAbove(0, 0, level);
      }
    }

    /** Writes a freshly emitted node into every proof that wants it, and nowhere else. */
    method AssignWanted(level: nat, idx: nat, node: Hash32)
      requires Fixed() && Shaped()
      modifies this`proofs, this`filled
      ensures Shaped()
      ensures forall t, l {:trigger proofs[t][l]} {:trigger filled[t][l]} :: 0 <= t < |targets| && 0 <= l < depth ==>
        if l == level && idx == WantedPosition(|leaves|, targets[t], l)
        then proofs[t][l] == node && filled[t][l]
        else proofs[t][l] == old(proofs)[t][l] && filled[t][l] == old(filled)[t][l]
    {
      var slots := SlotsAt(wanted, level, idx);
      var i := 0;
      while i < |slots|
        invariant 0 <= i <= |slots| && Shaped()
        invariant forall t, l {:trigger proofs[t][l]} {:trigger filled[t][l]} ::
          0 <= t < |targets| && 0 <= l < depth ==>
          if ProofSlot(t, l) in slots[..i]
          then proofs[t][l] == node && filled[t][l]
          else proofs[t][l] == old(proofs)[t][l] && filled[t][l] == old(filled)[t][l]
      {
        var slot := slots[i];
        assert slot in SlotsAt(wanted, level, idx);
        assert SlotBelongs(|leaves|, targets, |targets|, level, idx, slot);
        var row: seq<Hash32> := proofs[slot.targetPos][slot.proofLevel := node];
        proofs := proofs[slot.targetPos := row];
        filled := filled[slot.targetPos := filled[slot.targetPos][slot.proofLevel := true]];
        assert slots[..i + 1] == slots[..i] + [slot];
        i := i + 1;
      }
      assert slots[..i] == slots;
      forall t: nat, l: nat | t < |targets| && l < depth
        ensures ProofSlot(t, l) in slots <==> l == level && idx == WantedPosition(|leaves|, targets[t], l)
      {
        assert ProofSlot(t, l) in SlotsAt(wanted, level, idx) <==>
          SlotBelongs(|leaves|, targets, |targets|, level, idx, ProofSlot(t, l));
      }
    }

    /** Emits the next node of a level, merging upwards while a neighbour is waiting. */
    method EmitNode(base: nat, emitted: Hash32, ghost count: nat)
      requires Fixed() && Shaped() && Served() && Emitted(base, count)
      requires count < Width(|leaves|, base) && emitted == Node(h, leaves, base, count)
      modifies this
      ensures Shaped() && Served() && Emitted(base, count + 1)
    {
      hide Node;
      ghost var next0, pending0, hasPending0 := nextIndex, pending, hasPending;
      var level, node := base, emitted;
      while true
        invariant base <= level <= depth && Shaped() && Served()
        invariant Merged(h, leaves, base, count, level, node)
        invariant forall l {:trigger nextIndex[l]} {:trigger pending[l]} {:trigger hasPending[l]} :: 0 <= l <= depth ==>
          if base <= l < level then nextIndex[l] == next0[l] + 1 && !hasPending[l]
          else nextIndex[l] == next0[l] && pending[l] == pending0[l] && hasPending[l] == hasPending0[l]
        decreases depth - level
      {
        assert PendingAt(h, leaves, base, count, level, next0[level], pending0[level], hasPending0[level]);
        if level >= |nextIndex| {
          assert false; // the tables never have to grow
        }
        EmitAt(level, node);
        if !hasPending[level] {
          pending := pending[level := node];
          hasPending := hasPending[level := true];
          Advanced(base, count, level, next0, pending0, hasPending0);
          return;
        }
        MergeStep(h, leaves, base, count, level, next0[level], pending[level], node);
        TopIsEmpty(base, count, level);
        node := Pair(h, pending[level], node);
        hasPending := hasPending[level := false];
        level := level + 1;
      }
    }

    /** Counts a node in on its level and hands it to the proofs waiting for it. */
    method EmitAt(level: nat, node: Hash32)
      requires Fixed() && Shaped() && Served() && level <= depth
      requires nextIndex[level] < Width(|leaves|, level) && node == Node(h, leaves, level, nextIndex[level])
      modifies this`proofs, this`filled, this`nextIndex
      ensures Shaped() && Served()
      ensures nextIndex == old(nextIndex)[level := old(nextIndex)[level] + 1]
    {
      var idx := nextIndex[level];
      nextIndex := nextIndex[level := idx + 1];
      label counted:
      AssignWanted(level, idx, node);
      forall t, l {:trigger proofs[t][l]} | 0 <= t < |targets| && 0 <= l < depth
        ensures EntryServed(h, leaves, targets[t], l, nextIndex[l], proofs[t][l], filled[t][l])
      {
        assert old(EntryServed(h, leaves, targets[t], l, nextIndex[l], proofs[t][l], filled[t][l]));
      }
    }

    /** Only the root enters the top level, so nothing is ever waiting there. */
    lemma TopIsEmpty(base: nat, count: nat, level: nat)
      requires Fixed() && base <= level <= depth && count < Width(|leaves|, base)
      requires Shr(count, level - base) % 2 == 1
      ensures level < depth
    {
      EmittedInWidth(|leaves|, base, count, level);
      WidthAtDepth(|leaves|);
    }

    lemma Advanced(base: nat, count: nat, stop: nat, next0: seq<nat>, pending0: seq<Hash32>, hasPending0: seq<bool>)
      requires Fixed() && Shaped() && base <= stop <= depth && count < Width(|leaves|, base)
      requires |next0| == |pending0| == |hasPending0| == depth + 1
      requires forall l {:trigger next0[l]} :: 0 <= l < base ==> next0[l] == Width(|leaves|, l)
      requires forall l {:trigger next0[l]} {:trigger pending0[l]} {:trigger hasPending0[l]} :: base <= l <= depth ==>
        PendingAt(h, leaves, base, count, l, next0[l], pending0[l], hasPending0[l])
      requires !hasPending0[stop] && Merged(h, leaves, base, count, stop, pending[stop]) && hasPending[stop]
      requires forall l {:trigger nextIndex[l]} :: 0 <= l <= depth ==>
        nextIndex[l] == if base <= l <= stop then next0[l] + 1 else next0[l]
      requires forall l {:trigger hasPending[l]} :: base <= l < stop ==> !hasPending[l]
      requires forall l {:trigger pending[l]} {:trigger hasPending[l]} :: stop < l <= depth ==>
        pending[l] == pending0[l] && hasPending[l] == hasPending0[l]
      ensures Emitted(base, count + 1)
    {
      forall l {:trigger nextIndex[l]} {:trigger pending[l]} {:trigger hasPending[l]} | base <= l <= depth
        ensures PendingAt(h, leaves, base, count + 1, l, nextIndex[l], pending[l], hasPending[l])
      {
        EmissionAdvances(h, leaves, base, count, stop, l, next0[l], pending0[l], hasPending0[l],
                         nextIndex[l], pending[l], hasPending[l]);
      }
    }
  }

  // ----- preparing the tables -----

  /** Strictly ascending, so without repeats. */
  ghost predicate Ascending(s: seq<nat>) {
    forall i, j :: 0 <= i < j < |s| ==> s[i] < s[j]
  }

  /** The requested indices in ascending order, each once, or an error when one is out of range. */
  method UniqueIndices(n: nat, indices: seq<nat>) returns (r: Result<seq<nat>>)
    ensures r.Ok? <==> Targets(n, indices)
    ensures r.Ok? ==> Targets(n, r.value) && Ascending(r.value) && forall i :: i in r.value <==> i in indices
  {
    var uniq: seq<nat> := [];
    var seen: set<nat> := {};
    var i := 0;
    while i < |indices|
      invariant 0 <= i <= |indices|
      invariant Targets(n, indices[..i]) && Targets(n, uniq)
      invariant forall x :: x in seen <==> x in indices[..i]
      invariant forall x :: x in uniq <==> x in indices[..i]
      invariant forall j, k :: 0 <= j < k < |uniq| ==> uniq[j] != uniq[k]
    {
      var idx := indices[i];
      if idx >= n {
        return Err("merkle proof index out of range");
      }
      assert indices[..i + 1] == indices[..i] + [idx];
      if idx !in seen {
        seen := seen + {idx};
        uniq := uniq + [idx];
      }
      i := i + 1;
    }
    assert indices[..i] == indices;
    var sorted := Sort(uniq);
    assert forall t :: 0 <= t < |sorted| ==> sorted[t] in uniq;
    r := Ok(sorted);
  }

  function InsertSorted(x: nat, s: seq<nat>): (r: seq<nat>) {
    if s == [] then [x]
    else if x <= s[0] then [x] + s
    else [s[0]] + InsertSorted(x, s[1..])
  }

  lemma {:induction false} InsertMembers(x: nat, s: seq<nat>, y: nat)
    ensures y in InsertSorted(x, s) <==> y == x || y in s
  {
    if s != [] && x > s[0] {
      assert s == [s[0]] + s[1..];
      InsertMembers(x, s[1..], y);
    }
  }

  lemma {:induction false} InsertKeepsAscending(x: nat, s: seq<nat>)
    requires Ascending(s) && x !in s
    ensures Ascending(InsertSorted(x, s))
  {
    if s != [] && x > s[0] {
      InsertKeepsAscending(x, s[1..]);
      var rest := InsertSorted(x, s[1..]);
      forall j | 0 <= j < |rest|
        ensures s[0] < rest[j]
      {
        InsertMembers(x, s[1..], rest[j]);
      }
    }
  }

  /** Sorting indices of which none is repeated. */
  method Sort(s: seq<nat>) returns (r: seq<nat>)
    requires forall j, k :: 0 <= j < k < |s| ==> s[j] != s[k]
    ensures Ascending(r) && forall x :: x in r <==> x in s
  {
    r := [];
    for i := 0 to |s|
      invariant Ascending(r) && forall x :: x in r <==> x in s[..i]
    {
      InsertKeepsAscending(s[i], r);
      forall x
        ensures x in InsertSorted(s[i], r) <==> x == s[i] || x in r
      {
        InsertMembers(s[i], r, x);
      }
      r := InsertSorted(s[i], r);
      assert s[..i + 1] == s[..i] + [s[i]];
    }
    assert s[..|s|] == s;
  }

  lemma WidthSteps(n: nat, level: nat)
    ensures Width(n, 0) == n && Width(n, level + 1) == (Width(n, level) + 1) / 2
  {
  }

  method LevelCounts(n: nat) returns (counts: seq<nat>)
    requires n > 0
    ensures |counts| == Depth(n) + 1
    ensures forall level :: 0 <= level < |counts| ==> counts[level] == Width(n, level)
  {
    hide Depth, Width;
    WidthSteps(n, 0);
    counts := [n];
    while counts[|counts| - 1] > 1
      invariant |counts| > 0 && counts[|counts| - 1] > 0
      invariant forall level :: 0 <= level < |counts| ==> counts[level] == Width(n, level)
      invariant |counts| == 1 || Width(n, |counts| - 2) > 1
      decreases counts[|counts| - 1]
    {
      WidthSteps(n, |counts| - 1);
      counts := counts + [(counts[|counts| - 1] + 1) / 2];
    }
    DepthUnique(n, |counts| - 1);
  }

  function AddSlot(wanted: WantedTable, level: nat, pos: nat, slot: ProofSlot): WantedTable
    requires level < |wanted|
  {
    var row: map<nat, seq<ProofSlot>> := wanted[level][pos := SlotsAt(wanted, level, pos) + [slot]];
    wanted[level := row]
  }

  lemma SlotAdded(wanted: WantedTable, level: nat, pos: nat, slot: ProofSlot, l: nat, p: nat, x: ProofSlot)
    requires level < |wanted|
    ensures x in SlotsAt(AddSlot(wanted, level, pos, slot), l, p) <==>
            x in SlotsAt(wanted, l, p) || (l == level && p == pos && x == slot)
  {
  }

  method WantedSlots(n: nat, targets: seq<nat>, counts: seq<nat>, depth: nat) returns (wanted: WantedTable)
    requires n > 0 && Targets(n, targets) && depth == Depth(n) && |counts| == depth + 1
    requires forall level :: 0 <= level < |counts| ==> counts[level] == Width(n, level)
    ensures WantedBy(n, targets, |targets|, wanted)
  {
    wanted := seq(depth, _ => map[]);
    for t := 0 to |targets|
      invariant WantedBy(n, targets, t, wanted)
    {
      for level := 0 to depth
        invariant |wanted| == depth
        invariant forall l: nat, pos: nat, slot: ProofSlot :: slot in SlotsAt(wanted, l, pos) <==>
          || SlotBelongs(n, targets, t, l, pos, slot)
          || (l < level && slot == ProofSlot(t, l) && SlotBelongs(n, targets, t + 1, l, pos, slot))
      {
        var pos := Shr(targets[t], level);
        AncestorInWidth(n, targets[t], level);
        var sibling := Xor(pos, 1);
        if sibling >= counts[level] {
          sibling := pos;
        }
        forall l: nat, p: nat, x: ProofSlot {
          SlotAdded(wanted, level, sibling, ProofSlot(t, level), l, p, x);
        }
        wanted := AddSlot(wanted, level, sibling, ProofSlot(t, level));
      }
    }
  }

  // ----- the builder -----

  /** Bringing a complete level to the next one is one emission when its width is odd, none when even. */
  lemma NextBase(h: Bytes -> Hash32, leaves: seq<Hash32>, base: nat, level: nat, next: nat, pending: Hash32,
                 occupied: bool)
    requires base < level
    requires PendingAt(h, leaves, base, Width(|leaves|, base), level, next, pending, occupied)
    ensures PendingAt(h, leaves, base + 1, Width(|leaves|, base) / 2, level, next, pending, occupied)
  {
    ShrCompose(Width(|leaves|, base), 1, level - base - 1);
  }

  method EmitLeaves(b: MultiProofBuilder, cells: seq<Bytes>)
    requires b.Fixed() && b.Shaped() && b.Served() && b.Emitted(0, 0) && b.leaves == Leaves(b.h, cells)
    modifies b
    ensures b.Shaped() && b.Served() && b.Emitted(0, |cells|)
  {
    for i := 0 to |cells|
      invariant b.Shaped() && b.Served() && b.Emitted(0, i)
    {
      b.EmitNode(0, b.h(cells[i]), i);
    }
  }

  /** The tail of an odd level is paired with itself, level by level, until only the root is left. */
  method FinishLevels(b: MultiProofBuilder)
    requires b.Fixed() && b.Shaped() && b.Served() && b.Emitted(0, |b.leaves|)
    modifies b
    ensures b.Shaped() && b.Served() && b.Emitted(b.depth, 1)
  {
    WidthAtDepth(|b.leaves|);
    for level := 0 to b.depth
      invariant b.Shaped() && b.Served() && b.Emitted(level, Width(|b.leaves|, level))
    {
      RaiseBase(b, level);
      if b.hasPending[level] {
        PairTail(b, level);
      }
    }
  }

  method PairTail(b: MultiProofBuilder, level: nat)
    requires b.Fixed() && b.Shaped() && b.Served() && level < b.depth && b.hasPending[level]
    requires Width(|b.leaves|, level) % 2 == 1
    requires b.pending[level] == Node(b.h, b.leaves, level, Width(|b.leaves|, level) - 1)
    requires b.Emitted(level + 1, Width(|b.leaves|, level) / 2)
    modifies b
    ensures b.Shaped() && b.Served() && b.Emitted(level + 1, Width(|b.leaves|, level + 1))
  {
    LastPairsWithItself(b.h, b.leaves, level);
    b.EmitNode(level + 1, Pair(b.h, b.pending[level], b.pending[level]), Width(|b.leaves|, level) / 2);
    b.hasPending := b.hasPending[level := false];
  }

  /** A complete level is in its successor as far as its nodes come in pairs, and holds back an odd one. */
  lemma FullBase(h: Bytes -> Hash32, leaves: seq<Hash32>, base: nat, next: nat, pending: Hash32, occupied: bool)
    requires PendingAt(h, leaves, base, Width(|leaves|, base), base, next, pending, occupied)
    ensures next == Width(|leaves|, base) && next / 2 <= Width(|leaves|, base + 1)
    ensures occupied <==> next % 2 == 1
    ensures occupied ==> pending == Node(h, leaves, base, next - 1)
  {
    hide Node;
  }

  lemma RaiseBase(b: MultiProofBuilder, level: nat)
    requires b.Fixed() && b.Shaped() && level < b.depth && b.Emitted(level, Width(|b.leaves|, level))
    ensures b.Emitted(level + 1, Width(|b.leaves|, level) / 2)
    ensures b.hasPending[level] <==> Width(|b.leaves|, level) % 2 == 1
    ensures b.hasPending[level] ==> b.pending[level] == Node(b.h, b.leaves, level, Width(|b.leaves|, level) - 1)
  {
    hide Node, Depth, LevelHolds, PendingAt;
    var w := Width(|b.leaves|, level);
    FullBase(b.h, b.leaves, level, b.nextIndex[level], b.pending[level], b.hasPending[level]);
    forall l {:trigger b.nextIndex[l]} {:trigger b.pending[l]} {:trigger b.hasPending[l]} | level + 1 <= l <= b.depth
      ensures PendingAt(b.h, b.leaves, level + 1, w / 2, l, b.nextIndex[l], b.pending[l], b.hasPending[l])
    {
      NextBase(b.h, b.leaves, level, l, b.nextIndex[l], b.pending[l], b.hasPending[l]);
    }
  }

  /** Every entry of every proof has been filled by now. */
  method CollectProofs(b: MultiProofBuilder, uniq: seq<nat>, depth: nat) returns (out: map<nat, seq<Hash32>>)
    requires b.Fixed() && b.Shaped() && b.Served() && b.Emitted(b.depth, 1)
    requires uniq == b.targets && depth == b.depth
    ensures forall i :: i in out <==> i in uniq
    ensures forall i :: i in out ==> i < |b.leaves| && out[i] == ProofFor(b.h, b.leaves, i)
  {
    out := map[];
    for t := 0 to |uniq|
      invariant forall i :: i in out <==> i in uniq[..t]
      invariant forall i :: i in out ==> i < |b.leaves| && out[i] == ProofFor(b.h, b.leaves, i)
    {
      for level := 0 to depth
        invariant forall l :: 0 <= l < level ==> b.proofs[t][l] == ProofStep(b.h, b.leaves, uniq[t], l)
      {
        assert EntryServed(b.h, b.leaves, uniq[t], level, b.nextIndex[level], b.proofs[t][level], b.filled[t][level]);
        if !b.filled[t][level] {
          assert false; // no proof is incomplete
        }
      }
      assert b.proofs[t] == ProofFor(b.h, b.leaves, uniq[t]);
      out := out[uniq[t] := b.proofs[t]];
      assert uniq[..t + 1] == uniq[..t] + [uniq[t]];
    }
    assert uniq[..|uniq|] == uniq;
  }

  method BuildMerkleMultiProof(h: Bytes -> Hash32, cells: seq<Bytes>, nodeSize: nat, indices: seq<nat>)
    returns (r: Result<(Hash32, map<nat, seq<Hash32>>)>)
    requires forall i :: 0 <= i < |cells| ==> |cells[i]| == nodeSize
    ensures r.Ok? <==> cells != [] && nodeSize != 0 && Targets(|cells|, indices)
    ensures r.Ok? ==> r.value.0 == Root(h, Leaves(h, cells))
    ensures r.Ok? ==> forall i :: i in r.value.1 <==> i in indices
    ensures r.Ok? ==> forall i :: i in r.value.1 ==> i < |cells| && r.value.1[i] == ProofFor(h, Leaves(h, cells), i)
  {
    if |cells| == 0 {
      return Err("dag is empty");
    }
    if nodeSize == 0 {
      return Err("node size must be > 0");
    }
    var uniq := UniqueIndices(|cells|, indices);
    if uniq.Err? {
      return Err(uniq.message);
    }
    var counts := LevelCounts(|cells|);
    var depth := |counts| - 1;
    var wanted := WantedSlots(|cells|, uniq.value, counts, depth);
    ghost var leaves := Leaves(h, cells);
    var b := new MultiProofBuilder(h, leaves, uniq.value, depth, wanted);
    EmitLeaves(b, cells);
    FinishLevels(b);
    var rootLevel := |counts| - 1;
    WidthAtDepth(|leaves|);
    if rootLevel < 0 || !b.hasPending[rootLevel] {
      assert false; // the root is always there
    }
    var proofs := CollectProofs(b, uniq.value, depth);
    r := Ok((b.pending[rootLevel], proofs));
  }
}
