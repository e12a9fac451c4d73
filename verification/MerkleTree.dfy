/**
 Merkle trees in which the last node of an odd level is paired with itself. `Node` names every node
 by level and position; it is the reference against which each construction is proved.
 */
module MerkleTree {
  import opened Base

  function Pair(h: Bytes -> Hash32, left: Hash32, right: Hash32): Hash32 {
    h(left + right)
  }

  /** The number of nodes on a level of the tree over n leaves. */
  function Width(n: nat, level: nat): nat {
    if level == 0 then n else (Width(n, level - 1) + 1) / 2
  }

  /** The position a node at `pos` is hashed with: its neighbour, or itself when it has none. */
  function SiblingOf(width: nat, pos: nat): nat
    requires pos < width
  {
    if Xor(pos, 1) >= width then pos else Xor(pos, 1)
  }

  function Node(h: Bytes -> Hash32, leaves: seq<Hash32>, level: nat, pos: nat): Hash32
    requires pos < Width(|leaves|, level)
  {
    if level == 0 then leaves[pos]
    else
      var left := 2 * pos;
      var right := if left + 1 < Width(|leaves|, level - 1) then left + 1 else left;
      Pair(h, Node(h, leaves, level - 1, left), Node(h, leaves, level - 1, right))
  }

  function Depth(n: nat): nat
    requires n > 0
  {
    if n == 1 then 0 else 1 + Depth((n + 1) / 2)
  }

  function Root(h: Bytes -> Hash32, leaves: seq<Hash32>): Hash32
    requires leaves != []
  {
    WidthAtDepth(|leaves|);
    Node(h, leaves, Depth(|leaves|), 0)
  }

  /** The sibling hashes on the way from a leaf to the root. */
  function ProofFor(h: Bytes -> Hash32, leaves: seq<Hash32>, index: nat): (proof: seq<Hash32>)
    requires index < |leaves|
    ensures |proof| == Depth(|leaves|)
  {
    seq(Depth(|leaves|), level requires 0 <= level < Depth(|leaves|) => ProofStep(h, leaves, index, level))
  }

  function ProofStep(h: Bytes -> Hash32, leaves: seq<Hash32>, index: nat, level: nat): Hash32
    requires index < |leaves|
  {
    AncestorInWidth(|leaves|, index, level);
    Node(h, leaves, level, SiblingOf(Width(|leaves|, level), Shr(index, level)))
  }

  /** What a proof hashes up to, starting from `leaf` at position `idx`. */
  function Climb(h: Bytes -> Hash32, leaf: Hash32, idx: nat, proof: seq<Hash32>): Hash32
    decreases proof
  {
    if proof == [] then leaf else Climb(h, ClimbStep(h, leaf, idx, proof[0]), idx / 2, proof[1..])
  }

  function ClimbStep(h: Bytes -> Hash32, node: Hash32, idx: nat, sibling: Hash32): Hash32 {
    if idx % 2 == 0 then Pair(h, node, sibling) else Pair(h, sibling, node)
  }

  // ----- arithmetic of levels -----

  lemma XorOne(pos: nat)
    ensures Xor(pos, 1) == if pos % 2 == 0 then pos + 1 else pos - 1
  {
    assert pos / 2 > 0 ==> Xor(pos / 2, 0) == pos / 2;
    assert pos == 2 * (pos / 2) + pos % 2;
  }

  lemma {:induction false} WidthCompose(n: nat, a: nat, b: nat)
    ensures Width(n, a + b) == Width(Width(n, a), b)
  {
    if b > 0 {
      WidthCompose(n, a, b - 1);
      assert a + b - 1 == a + (b - 1);
    }
  }

  lemma {:induction false} WidthAtDepth(n: nat)
    requires n > 0
    ensures Width(n, Depth(n)) == 1
    ensures forall level :: 0 <= level < Depth(n) ==> Width(n, level) > 1
  {
    if n > 1 {
      var half := (n + 1) / 2;
      WidthAtDepth(half);
      WidthCompose(n, 1, Depth(half));
      forall level | 0 <= level < Depth(n)
        ensures Width(n, level) > 1
      {
        if level > 0 {
          WidthCompose(n, 1, level - 1);
          assert Width(half, level - 1) > 1;
        }
      }
    }
  }

  /** The depth is the base-two logarithm of the leaf count, rounded up. */
  lemma {:induction false} DepthIsCeilLog(n: nat)
    requires n > 0
    ensures n <= Pow2(Depth(n)) && (n > 1 ==> Depth(n) > 0 && Pow2(Depth(n) - 1) < n)
  {
    if n > 1 {
      DepthIsCeilLog((n + 1) / 2);
    }
  }

  /** The depth is the only level on which the width first becomes one. */
  lemma DepthUnique(n: nat, level: nat)
    requires n > 0 && Width(n, level) == 1
    requires level == 0 || Width(n, level - 1) > 1
    ensures level == Depth(n)
  {
    WidthAtDepth(n);
    if level > Depth(n) {
      WidthStaysOne(n, Depth(n), level - 1 - Depth(n));
    }
  }

  lemma {:induction false} WidthStaysOne(n: nat, level: nat, more: nat)
    requires Width(n, level) == 1
    ensures Width(n, level + more) == 1
  {
    if more > 0 {
      WidthStaysOne(n, level, more - 1);
    }
  }

  lemma {:induction false} AncestorInWidth(n: nat, index: nat, level: nat)
    requires index < n
    ensures Shr(index, level) < Width(n, level)
  {
    if level > 0 { AncestorInWidth(n, index, level - 1); }
  }

  lemma {:induction false} ShrCompose(n: nat, a: nat, b: nat)
    ensures Shr(n, a + b) == Shr(Shr(n, a), b)
  {
    if b > 0 {
      ShrCompose(n, a, b - 1);
      assert a + b - 1 == a + (b - 1);
    }
  }

  // ----- construction, level by level -----

  ghost predicate IsLevel(h: Bytes -> Hash32, leaves: seq<Hash32>, level: nat, nodes: seq<Hash32>) {
    && |nodes| == Width(|leaves|, level)
    && forall pos :: 0 <= pos < |nodes| ==> nodes[pos] == Node(h, leaves, level, pos)
  }

  ghost predicate AreLevels(h: Bytes -> Hash32, leaves: seq<Hash32>, levels: seq<seq<Hash32>>) {
    forall k :: 0 <= k < |levels| ==> IsLevel(h, leaves, k, levels[k])
  }

  /** One pass over a level: adjacent nodes are hashed together, an odd last one with itself. */
  method NextLevel(h: Bytes -> Hash32, ghost leaves: seq<Hash32>, ghost k: nat, level: seq<Hash32>)
    returns (next: seq<Hash32>)
    requires IsLevel(h, leaves, k, level)
    ensures IsLevel(h, leaves, k + 1, next)
  {
    next := [];
    var i := 0;
    while i < |level|
      invariant i == 2 * |next| && |next| <= Width(|leaves|, k + 1)
      invariant forall pos :: 0 <= pos < |next| ==> next[pos] == Node(h, leaves, k + 1, pos)
    {
      var left := level[i];
      var right := left;
      if i + 1 < |level| {
        right := level[i + 1];
      }
      assert Pair(h, left, right) == Node(h, leaves, k + 1, |next|);
      next := next + [Pair(h, left, right)];
      i := i + 2;
    }
  }

  method BuildMerkleRoot(h: Bytes -> Hash32, leaves: seq<Hash32>) returns (root: Hash32)
    ensures leaves == [] ==> root == ZERO_HASH
    ensures leaves != [] ==> root == Root(h, leaves)
  {
    if |leaves| == 0 {
      return ZERO_HASH;
    }
    var level := leaves;
    ghost var k := 0;
    while |level| > 1
      invariant IsLevel(h, leaves, k, level) && |level| > 0
      invariant k == 0 || Width(|leaves|, k - 1) > 1
      decreases |level|
    {
      level := NextLevel(h, leaves, k, level);
      k := k + 1;
    }
    DepthUnique(|leaves|, k);
    root := level[0];
  }

  method BuildMerkleLevels(h: Bytes -> Hash32, leaves: seq<Hash32>) returns (levels: seq<seq<Hash32>>)
    requires leaves != []
    ensures |levels| == Depth(|leaves|) + 1
    ensures AreLevels(h, leaves, levels)
  {
    var level := leaves;
    levels := [level];
    while |level| > 1
      invariant |levels| > 0 && level == levels[|levels| - 1] && |level| > 0
      invariant AreLevels(h, leaves, levels)
      invariant |levels| == 1 || Width(|leaves|, |levels| - 2) > 1
      decreases |level|
    {
      level := NextLevel(h, leaves, |levels| - 1, level);
      levels := levels + [level];
    }
    DepthUnique(|leaves|, |levels| - 1);
  }

  /** The prover that keeps every level. */
  datatype LevelMerkleProver = LevelMerkleProver(levels: seq<seq<Hash32>>) {

    ghost predicate ProverFor(h: Bytes -> Hash32, leaves: seq<Hash32>) {
      leaves != [] && |levels| == Depth(|leaves|) + 1 && AreLevels(h, leaves, levels)
    }

    method LeafCount(h: Bytes -> Hash32, ghost leaves: seq<Hash32>) returns (count: nat)
      requires ProverFor(h, leaves)
      ensures count == |leaves|
    {
      assert IsLevel(h, leaves, 0, levels[0]);
      count := |levels[0]|;
    }

    method GetRoot(h: Bytes -> Hash32, ghost leaves: seq<Hash32>) returns (root: Hash32)
      requires ProverFor(h, leaves)
      ensures root == Root(h, leaves)
    {
      var top := levels[|levels| - 1];
      WidthAtDepth(|leaves|);
      assert IsLevel(h, leaves, |levels| - 1, top);
      root := top[0];
    }

    method Proof(h: Bytes -> Hash32, ghost leaves: seq<Hash32>, index: int) returns (r: Result<seq<Hash32>>)
      requires ProverFor(h, leaves)
      ensures r.Ok? <==> 0 <= index < |leaves|
      ensures r.Ok? ==> r.value == ProofFor(h, leaves, index)
    {
      assert IsLevel(h, leaves, 0, levels[0]);
      if index < 0 || index >= |levels[0]| {
        return Err("merkle proof index out of range");
      }
      var proof: seq<Hash32> := [];
      var idx: nat := index;
      var level := 0;
      while level < |levels| - 1
        invariant 0 <= level <= |levels| - 1 && |proof| == level
        invariant idx == Shr(index, level)
        invariant forall k :: 0 <= k < level ==> proof[k] == ProofStep(h, leaves, index, k)
      {
        var nodes := levels[level];
        assert IsLevel(h, leaves, level, nodes);
        AncestorInWidth(|leaves|, index, level);
        var sibling := Xor(idx, 1);
        if sibling >= |nodes| {
          sibling := idx;
        }
        proof := proof + [nodes[sibling]];
        idx := idx / 2;
        level := level + 1;
      }
      assert proof == ProofFor(h, leaves, index);
      r := Ok(proof);
    }
  }

  method NewMerkleProverFromLeaves(h: Bytes -> Hash32, leaves: seq<Hash32>) returns (r: Result<LevelMerkleProver>)
    ensures r.Ok? <==> leaves != []
    ensures r.Ok? ==> r.value.ProverFor(h, leaves)
  {
    if |leaves| == 0 {
      return Err("merkle leaves are empty");
    }
    var levels := BuildMerkleLevels(h, leaves);
    r := Ok(LevelMerkleProver(levels));
  }

  // ----- verification -----

  method VerifyMerkleProof(h: Bytes -> Hash32, root: Hash32, leaf: Hash32, index: nat, proof: seq<Hash32>)
    returns (ok: bool)
    ensures ok <==> Climb(h, leaf, index, proof) == root
  {
    var node := leaf;
    var idx := index;
    var i := 0;
    while i < |proof|
      invariant 0 <= i <= |proof|
      invariant Climb(h, node, idx, proof[i..]) == Climb(h, leaf, index, proof)
    {
      assert proof[i..][0] == proof[i] && proof[i..][1..] == proof[i + 1..];
      var sib := proof[i];
      if idx % 2 == 0 {
        node := Pair(h, node, sib);
      } else {
        node := Pair(h, sib, node);
      }
      idx := idx / 2;
      i := i + 1;
    }
    ok := node == root;
  }

  /** Hashing a node with its sibling in index order gives its parent. */
  lemma ClimbStepIsParent(h: Bytes -> Hash32, leaves: seq<Hash32>, level: nat, pos: nat)
    requires pos < Width(|leaves|, level)
    ensures pos / 2 < Width(|leaves|, level + 1)
    ensures var sibling := SiblingOf(Width(|leaves|, level), pos);
            ClimbStep(h, Node(h, leaves, level, pos), pos, Node(h, leaves, level, sibling))
              == Node(h, leaves, level + 1, pos / 2)
  {
    XorOne(pos);
  }

  /** Every proof the prover hands out is accepted against the root. */
  lemma ProofVerifies(h: Bytes -> Hash32, leaves: seq<Hash32>, index: nat)
    requires index < |leaves|
    ensures Climb(h, leaves[index], index, ProofFor(h, leaves, index)) == Root(h, leaves)
  {
    var proof := ProofFor(h, leaves, index);
    assert proof == proof[0..];
    ClimbFromLevel(h, leaves, index, 0);
  }

  lemma {:induction false} ClimbFromLevel(h: Bytes -> Hash32, leaves: seq<Hash32>, index: nat, level: nat)
    requires index < |leaves| && level <= Depth(|leaves|)
    requires Shr(index, level) < Width(|leaves|, level)
    ensures Climb(h, Node(h, leaves, level, Shr(index, level)), Shr(index, level), ProofFor(h, leaves, index)[level..])
         == Root(h, leaves)
    decreases Depth(|leaves|) - level
  {
    var proof := ProofFor(h, leaves, index);
    if level == Depth(|leaves|) {
      WidthAtDepth(|leaves|);
    } else {
      var pos := Shr(index, level);
      ClimbStepIsParent(h, leaves, level, pos);
      assert proof[level..][0] == ProofStep(h, leaves, index, level);
      assert proof[level..][1..] == proof[level + 1..];
      ClimbFromLevel(h, leaves, index, level + 1);
    }
  }

  /** The smallest tree with an odd tail, written out: the third leaf is paired with itself. */
  lemma ThreeLeaves(h: Bytes -> Hash32, a: Hash32, b: Hash32, c: Hash32)
    ensures Root(h, [a, b, c]) == h(h(a + b) + h(c + c))
    ensures ProofFor(h, [a, b, c], 0) == [b, h(c + c)] && ProofFor(h, [a, b, c], 2) == [c, h(a + b)]
  {
    var leaves := [a, b, c];
    assert Depth(2) == 1 && Depth(3) == 2;
    assert Width(3, 1) == 2 && Width(3, 2) == 1;
    assert Node(h, leaves, 1, 0) == h(a + b) && Node(h, leaves, 1, 1) == h(c + c);
  }
}
