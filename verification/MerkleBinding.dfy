/**
 What an accepted Merkle proof binds. No hash is assumed to be injective: from an accepted proof for
 different data the functions below compute an explicit pair of inputs with one digest.
 */
module MerkleBinding {
  import opened Base
  import opened MerkleTree
  import opened MultiProof

  /** The cells a DAG commits to. */
  ghost predicate SizedCells(cells: seq<Bytes>, size: nat) {
    forall i :: 0 <= i < |cells| ==> |cells[i]| == size
  }

  /** The value a proof has hashed up to after its first `steps` entries. */
  function ClimbTo(h: Bytes -> Hash32, leaf: Hash32, idx: nat, proof: seq<Hash32>, steps: nat): Hash32
    requires steps <= |proof|
  {
    if steps == 0 then leaf
    else ClimbStep(h, ClimbTo(h, leaf, idx, proof, steps - 1), Shr(idx, steps - 1), proof[steps - 1])
  }

  lemma {:induction false} ClimbToAll(h: Bytes -> Hash32, leaf: Hash32, idx: nat, proof: seq<Hash32>, steps: nat)
    requires steps <= |proof|
    ensures Climb(h, ClimbTo(h, leaf, idx, proof, steps), Shr(idx, steps), proof[steps..]) == Climb(h, leaf, idx, proof)
  {
    if steps == 0 {
      assert proof[0..] == proof;
    } else {
      ClimbToAll(h, leaf, idx, proof, steps - 1);
      assert proof[steps - 1..][0] == proof[steps - 1];
      assert proof[steps - 1..][1..] == proof[steps..];
    }
  }

  predicate Same(inputs: (Bytes, Bytes)) {
    inputs.0 == inputs.1
  }

  ghost predicate SameDigest(h: Bytes -> Hash32, inputs: (Bytes, Bytes)) {
    h(inputs.0) == h(inputs.1)
  }

  /** Two different inputs with one digest. */
  ghost predicate Collides(h: Bytes -> Hash32, inputs: (Bytes, Bytes)) {
    Collision(h, inputs.0, inputs.1)
  }

  /** What the verifier hashes at a step: 64 bytes. */
  function StepInput(h: Bytes -> Hash32, leaf: Hash32, idx: nat, proof: seq<Hash32>, step: nat): (input: Bytes)
    requires step < |proof|
    ensures |input| == 64
    ensures h(input) == ClimbTo(h, leaf, idx, proof, step + 1)
  {
    var node := ClimbTo(h, leaf, idx, proof, step);
    if Shr(idx, step) % 2 == 0 then node + proof[step] else proof[step] + node
  }

  /** What the tree hashes to get a node: a cell, or 64 bytes. */
  function NodeInput(h: Bytes -> Hash32, cells: seq<Bytes>, level: nat, pos: nat): (input: Bytes)
    requires pos < Width(|cells|, level)
    ensures h(input) == Node(h, Leaves(h, cells), level, pos)
    ensures if level == 0 then input == cells[pos] else |input| == 64
  {
    if level == 0 then cells[pos]
    else
      var leaves := Leaves(h, cells);
      Node(h, leaves, level - 1, 2 * pos) + Node(h, leaves, level - 1, RightChild(|cells|, level, pos))
  }

  function RightChild(n: nat, level: nat, pos: nat): (right: nat)
    requires level > 0 && pos < Width(n, level)
    ensures right < Width(n, level - 1)
  {
    if 2 * pos + 1 < Width(n, level - 1) then 2 * pos + 1 else 2 * pos
  }

  /** The node under (level, pos) that the climb went through on its way up. */
  function ChildOnPath(n: nat, level: nat, pos: nat, idx: nat, step: nat): (child: nat)
    requires level > 0 && pos < Width(n, level)
    ensures child < Width(n, level - 1)
  {
    if Shr(idx, step) % 2 == 0 then 2 * pos else RightChild(n, level, pos)
  }

  /**
   Walks down the tree and the climb together and stops at the first pair of different inputs, or
   where one of the two ends. Both inputs have the same digest.
   */
  function Separate(h: Bytes -> Hash32, cells: seq<Bytes>, data: Bytes, idx: nat, proof: seq<Hash32>,
                    steps: nat, level: nat, pos: nat): (Bytes, Bytes)
    requires steps <= |proof| && pos < Width(|cells|, level)
    decreases steps
  {
    var climbed := if steps == 0 then data else StepInput(h, h(data), idx, proof, steps - 1);
    var committed := NodeInput(h, cells, level, pos);
    if steps == 0 || level == 0 || climbed != committed then (climbed, committed)
    else Separate(h, cells, data, idx, proof, steps - 1, level - 1, ChildOnPath(|cells|, level, pos, idx, steps - 1))
  }

  lemma {:induction false} SeparateSound(h: Bytes -> Hash32, cells: seq<Bytes>, data: Bytes, idx: nat,
                                         proof: seq<Hash32>,
                                         steps: nat, level: nat, pos: nat)
    requires steps <= |proof| && pos < Width(|cells|, level)
    requires ClimbTo(h, h(data), idx, proof, steps) == Node(h, Leaves(h, cells), level, pos)
    requires SizedCells(cells, 256) && (|data| != 64 || steps >= level)
    ensures SameDigest(h, Separate(h, cells, data, idx, proof, steps, level, pos))
    ensures Same(Separate(h, cells, data, idx, proof, steps, level, pos)) ==> steps == level
    decreases steps
  {
    if steps > 0 && level > 0 && StepInput(h, h(data), idx, proof, steps - 1) == NodeInput(h, cells, level, pos) {
      EqualInputs(h, cells, data, idx, proof, steps, level, pos);
      SeparateSound(h, cells, data, idx, proof, steps - 1, level - 1, ChildOnPath(|cells|, level, pos, idx, steps - 1));
    }
  }

  lemma ChildIsAncestor(n: nat, idx: nat, level: nat)
    requires level > 0 && idx < n && Shr(idx, level) < Width(n, level)
    ensures ChildOnPath(n, level, Shr(idx, level), idx, level - 1) == Shr(idx, level - 1)
  {
    AncestorInWidth(n, idx, level - 1);
  }

  ghost predicate HonestBelow(h: Bytes -> Hash32, cells: seq<Bytes>, idx: nat, proof: seq<Hash32>, level: nat)
    requires idx < |cells| && level <= |proof|
  {
    level == 0 || (HonestBelow(h, cells, idx, proof, level - 1) && HonestAt(h, cells, idx, proof, level - 1))
  }

  ghost predicate HonestAt(h: Bytes -> Hash32, cells: seq<Bytes>, idx: nat, proof: seq<Hash32>, level: nat)
    requires idx < |cells| && level < |proof|
  {
    proof[level] == ProofStep(h, Leaves(h, cells), idx, level)
  }

  lemma SeparatedAtLeaf(h: Bytes -> Hash32, cells: seq<Bytes>, data: Bytes, idx: nat, proof: seq<Hash32>)
    requires idx < |cells| && Same(Separate(h, cells, data, idx, proof, 0, 0, idx))
    ensures data == cells[idx] && HonestBelow(h, cells, idx, proof, 0)
  {
  }

  /** When the walk finds no difference, the climb was the honest one. */
  lemma {:induction false} NothingSeparated(h: Bytes -> Hash32, cells: seq<Bytes>, data: Bytes, idx: nat,
                                            proof: seq<Hash32>,
                                            level: nat)
    requires idx < |cells| && level <= |proof| && Shr(idx, level) < Width(|cells|, level)
    requires Same(Separate(h, cells, data, idx, proof, level, level, Shr(idx, level)))
    ensures data == cells[idx] && HonestBelow(h, cells, idx, proof, level)
  {
    hide Separate, Node, HonestAt;
    if level == 0 {
      SeparatedAtLeaf(h, cells, data, idx, proof);
    } else {
      AncestorInWidth(|cells|, idx, level - 1);
      SeparatedBelow(h, cells, data, idx, proof, level);
      NothingSeparated(h, cells, data, idx, proof, level - 1);
    }
  }

  lemma SeparatedBelow(h: Bytes -> Hash32, cells: seq<Bytes>, data: Bytes, idx: nat, proof: seq<Hash32>, level: nat)
    requires idx < |cells| && 0 < level <= |proof| && Shr(idx, level) < Width(|cells|, level)
    requires Shr(idx, level - 1) < Width(|cells|, level - 1)
    requires Same(Separate(h, cells, data, idx, proof, level, level, Shr(idx, level)))
    ensures Same(Separate(h, cells, data, idx, proof, level - 1, level - 1, Shr(idx, level - 1)))
    ensures HonestAt(h, cells, idx, proof, level - 1)
  {
    ChildIsAncestor(|cells|, idx, level);
    StepSame(h, cells, data, idx, proof, level, Shr(idx, level));
    EqualInputs(h, cells, data, idx, proof, level, level, Shr(idx, level));
  }

  lemma {:induction false} HonestEverywhere(h: Bytes -> Hash32, cells: seq<Bytes>, idx: nat, proof: seq<Hash32>,
                                            level: nat)
    requires idx < |cells| && level <= |proof| && HonestBelow(h, cells, idx, proof, level)
    ensures forall l :: 0 <= l < level ==> HonestAt(h, cells, idx, proof, l)
  {
    if level > 0 {
      HonestEverywhere(h, cells, idx, proof, level - 1);
    }
  }

  lemma HonestIsProof(h: Bytes -> Hash32, cells: seq<Bytes>, idx: nat, proof: seq<Hash32>)
    requires idx < |cells| && |proof| == Depth(|cells|) && HonestBelow(h, cells, idx, proof, |proof|)
    ensures proof == ProofFor(h, Leaves(h, cells), idx)
  {
    HonestEverywhere(h, cells, idx, proof, |proof|);
    var honest := ProofFor(h, Leaves(h, cells), idx);
    forall l | 0 <= l < |proof|
      ensures proof[l] == honest[l]
    {
      assert HonestAt(h, cells, idx, proof, l);
    }
  }

  lemma StepSame(h: Bytes -> Hash32, cells: seq<Bytes>, data: Bytes, idx: nat, proof: seq<Hash32>, level: nat, pos: nat)
    requires 0 < level <= |proof| && pos < Width(|cells|, level)
    requires Same(Separate(h, cells, data, idx, proof, level, level, pos))
    ensures StepInput(h, h(data), idx, proof, level - 1) == NodeInput(h, cells, level, pos)
    ensures Separate(h, cells, data, idx, proof, level, level, pos)
         == Separate(h, cells, data, idx, proof, level - 1, level - 1, ChildOnPath(|cells|, level, pos, idx, level - 1))
  {
  }

  /** Equal 64-byte inputs have equal halves, so the climb was at the child and used its sibling. */
  lemma EqualInputs(h: Bytes -> Hash32, cells: seq<Bytes>, data: Bytes, idx: nat, proof: seq<Hash32>,
                    steps: nat, level: nat, pos: nat)
    requires 0 < steps <= |proof| && 0 < level && pos < Width(|cells|, level)
    requires StepInput(h, h(data), idx, proof, steps - 1) == NodeInput(h, cells, level, pos)
    ensures ClimbTo(h, h(data), idx, proof, steps - 1)
         == Node(h, Leaves(h, cells), level - 1, ChildOnPath(|cells|, level, pos, idx, steps - 1))
    ensures idx < |cells| && pos == Shr(idx, level) && steps == level ==>
         proof[level - 1] == ProofStep(h, Leaves(h, cells), idx, level - 1)
  {
    var node := ClimbTo(h, h(data), idx, proof, steps - 1);
    var input := StepInput(h, h(data), idx, proof, steps - 1);
    var left := Node(h, Leaves(h, cells), level - 1, 2 * pos);
    var right := Node(h, Leaves(h, cells), level - 1, RightChild(|cells|, level, pos));
    assert input[..32] == left && input[32..] == right;
    if Shr(idx, steps - 1) % 2 == 0 {
      assert input[..32] == node && input[32..] == proof[steps - 1];
    } else {
      assert input[..32] == proof[steps - 1] && input[32..] == node;
    }
    if idx < |cells| && pos == Shr(idx, level) && steps == level {
      AncestorInWidth(|cells|, idx, level - 1);
      XorOne(Shr(idx, level - 1));
    }
  }

  /** The pair of inputs an accepted proof for the wrong data gives away. */
  function ProofCollision(h: Bytes -> Hash32, cells: seq<Bytes>, data: Bytes, idx: nat,
                          proof: seq<Hash32>): (Bytes, Bytes)
    requires cells != []
  {
    WidthAtDepth(|cells|);
    Separate(h, cells, data, idx, proof, |proof|, Depth(|cells|), 0)
  }

  /** Data that could stand for an interior node: 64 bytes under a proof that stops above the leaves. */
  predicate InteriorShaped(n: nat, data: Bytes, proof: seq<Hash32>)
    requires n > 0
  {
    |data| == 64 && |proof| < Depth(n)
  }

  lemma WalkFindsNothing(h: Bytes -> Hash32, cells: seq<Bytes>, data: Bytes, idx: nat, proof: seq<Hash32>)
    requires SizedCells(cells, 256) && cells != [] && !InteriorShaped(|cells|, data, proof)
    requires Climb(h, h(data), idx, proof) == Root(h, Leaves(h, cells))
    requires !Collides(h, ProofCollision(h, cells, data, idx, proof))
    ensures |proof| == Depth(|cells|) && Same(ProofCollision(h, cells, data, idx, proof))
  {
    WidthAtDepth(|cells|);
    ClimbToAll(h, h(data), idx, proof, |proof|);
    SeparateSound(h, cells, data, idx, proof, |proof|, Depth(|cells|), 0);
  }

  /**
   An accepted proof, of any length, for an index in range either carries the committed cell together
   with exactly the honest proof, or yields a collision. The one exception is interior-shaped data.
   */
  lemma AcceptedProofBinds(h: Bytes -> Hash32, cells: seq<Bytes>, data: Bytes, idx: nat, proof: seq<Hash32>)
    requires SizedCells(cells, 256) && idx < |cells|
    requires Climb(h, h(data), idx, proof) == Root(h, Leaves(h, cells))
    requires !Collides(h, ProofCollision(h, cells, data, idx, proof))
    ensures data == cells[idx] <==> !InteriorShaped(|cells|, data, proof)
    ensures data == cells[idx] ==> proof == ProofFor(h, Leaves(h, cells), idx)
  {
    hide Climb, Node, Separate, Collides, ProofFor, Leaves;
    if !InteriorShaped(|cells|, data, proof) {
      WalkFindsNothing(h, cells, data, idx, proof);
      WidthAtDepth(|cells|);
      AncestorInWidth(|cells|, idx, Depth(|cells|));
      NothingSeparated(h, cells, data, idx, proof, |proof|);
      HonestIsProof(h, cells, idx, proof);
    }
  }

  /**
   The exception is real: when there are two cells or more, the two hashes below the root pass as the
   cell of every index, under an empty proof.
   */
  lemma InteriorShapedDataVerifies(h: Bytes -> Hash32, cells: seq<Bytes>, idx: nat)
    requires SizedCells(cells, 256) && |cells| > 1 && idx < |cells|
    ensures Width(|cells|, Depth(|cells|)) == 1
    ensures var data := NodeInput(h, cells, Depth(|cells|), 0);
            InteriorShaped(|cells|, data, []) && data != cells[idx] &&
            Climb(h, h(data), idx, []) == Root(h, Leaves(h, cells))
  {
    WidthAtDepth(|cells|);
  }
}
