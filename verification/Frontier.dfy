/**
 The streaming root. Leaves are folded into a binary counter of perfect subtrees, which is then
 collapsed from the lowest level up. The result is the root of the level-by-level tree.
 */
module Frontier {
  import opened Base
  import opened MerkleTree

  /** All of the low `level` bits of k are one. */
  predicate LowOnes(k: nat, level: nat) {
    level == 0 || (LowOnes(k, level - 1) && Shr(k, level - 1) % 2 == 1)
  }

  /** Some of the low `level` bits of n are one. */
  predicate LowAny(n: nat, level: nat) {
    level > 0 && (LowAny(n, level - 1) || Shr(n, level - 1) % 2 == 1)
  }

  /** Shifting rounds down and halving levels rounds up; they differ by a non-zero remainder. */
  lemma {:induction false} WidthIsCeiling(n: nat, level: nat)
    ensures Width(n, level) == Shr(n, level) + if LowAny(n, level) then 1 else 0
  {
    if level > 0 { WidthIsCeiling(n, level - 1); }
  }

  /** Adding one carries exactly through the trailing ones. */
  lemma {:induction false} ShrSuccessor(k: nat, level: nat)
    ensures Shr(k + 1, level) == Shr(k, level) + if LowOnes(k, level) then 1 else 0
  {
    if level > 0 { ShrSuccessor(k, level - 1); }
  }

  lemma {:induction false} ShrZeroAbove(n: nat, level: nat, more: nat)
    requires Shr(n, level) == 0
    ensures Shr(n, level + more) == 0
  {
    if more > 0 { ShrZeroAbove(n, level, more - 1); }
  }

  /** Two adjacent subtrees hash to the node above them. */
  lemma PairIsParent(h: Bytes -> Hash32, leaves: seq<Hash32>, level: nat, pos: nat)
    requires pos % 2 == 1 && pos < Width(|leaves|, level)
    ensures Pair(h, Node(h, leaves, level, pos - 1), Node(h, leaves, level, pos)) == Node(h, leaves, level + 1, pos / 2)
  {
  }

  /** A last node without a neighbour hashes with itself. */
  lemma LastPairsWithItself(h: Bytes -> Hash32, leaves: seq<Hash32>, level: nat)
    requires leaves != [] && Width(|leaves|, level) % 2 == 1
    ensures var last := Width(|leaves|, level) - 1;
            Width(|leaves|, level + 1) == last / 2 + 1 &&
            Pair(h, Node(h, leaves, level, last), Node(h, leaves, level, last)) == Node(h, leaves, level + 1, last / 2)
  {
  }

  /** The counter after k leaves: level l is occupied exactly when bit l of k is one. */
  ghost predicate Counter(h: Bytes -> Hash32, leaves: seq<Hash32>, k: nat, frontier: seq<Hash32>, present: seq<bool>) {
    && k <= |leaves| && |frontier| == |present|
    && Shr(k, |present|) == 0
    && (|present| > 0 ==> Shr(k, |present| - 1) > 0)
    && forall l {:trigger frontier[l]} {:trigger present[l]} :: 0 <= l < |present| ==>
      LevelHolds(h, leaves, Shr(k, l), l, frontier[l], present[l])
  }

  ghost predicate LevelHolds(h: Bytes -> Hash32, leaves: seq<Hash32>, count: nat, l: nat, node: Hash32,
                             occupied: bool) {
    && (occupied <==> count % 2 == 1)
    && (occupied ==> count <= Width(|leaves|, l) && node == Node(h, leaves, l, count - 1))
  }

  method AddLeaf(h: Bytes -> Hash32, ghost leaves: seq<Hash32>, ghost k: nat, leaf: Hash32,
                 frontier0: seq<Hash32>, present0: seq<bool>)
    returns (frontier: seq<Hash32>, present: seq<bool>)
    requires k < |leaves| && leaf == leaves[k]
    requires Counter(h, leaves, k, frontier0, present0)
    ensures Counter(h, leaves, k + 1, frontier, present)
  {
    frontier, present := frontier0, present0;
    var node := leaf;
    var level := 0;
    while true
      invariant |frontier| == |present| == |present0| && level <= |present|
      invariant Carried(h, leaves, k, level, node)
      invariant forall l :: 0 <= l < level ==> !present[l]
      invariant forall l :: level <= l < |present| ==> frontier[l] == frontier0[l] && present[l] == present0[l]
      decreases |present| - level
    {
      if level >= |frontier| {
        frontier := frontier + [ZERO_HASH];
        present := present + [false];
      }
      if !present[level] {
        frontier := frontier[level := node];
        present := present[level := true];
        FirstZero(h, leaves, k, level, frontier0, present0);
        CounterAdvances(h, leaves, k, level, frontier0, present0, frontier, present);
        break;
      }
      Carry(h, leaves, k, level, frontier[level], node);
      node := Pair(h, frontier[level], node);
      present := present[level := false];
      level := level + 1;
    }
  }

  /** The new leaf's subtree has been merged through the trailing ones below `level`. */
  ghost predicate Carried(h: Bytes -> Hash32, leaves: seq<Hash32>, k: nat, level: nat, node: Hash32) {
    LowOnes(k, level) && Shr(k, level) < Width(|leaves|, level) && node == Node(h, leaves, level, Shr(k, level))
  }

  lemma Carry(h: Bytes -> Hash32, leaves: seq<Hash32>, k: nat, level: nat, waiting: Hash32, node: Hash32)
    requires Carried(h, leaves, k, level, node)
    requires LevelHolds(h, leaves, Shr(k, level), level, waiting, true)
    ensures Carried(h, leaves, k, level + 1, Pair(h, waiting, node))
  {
    PairIsParent(h, leaves, level, Shr(k, level));
  }

  lemma FirstZero(h: Bytes -> Hash32, leaves: seq<Hash32>, k: nat, level: nat, frontier: seq<Hash32>,
                  present: seq<bool>)
    requires Counter(h, leaves, k, frontier, present)
    requires level <= |present| && (level < |present| ==> !present[level])
    ensures Shr(k, level) % 2 == 0
  {
    if level < |present| {
      assert LevelHolds(h, leaves, Shr(k, level), level, frontier[level], present[level]);
    }
  }

  /** Which bits an increment changes: the trailing ones, and the first zero above them. */
  lemma CarryShape(k: nat, level: nat, l: nat)
    requires LowOnes(k, level) && Shr(k, level) % 2 == 0
    ensures l < level ==> Shr(k, l) % 2 == 1
    ensures Shr(k + 1, l) == Shr(k, l) + if l <= level then 1 else 0
  {
    ShrSuccessor(k, l);
    if l <= level {
      LowOnesBelow(k, level, l);
    } else {
      NotLowOnesAbove(k, level, l);
    }
  }

  lemma {:induction false} LowOnesBelow(k: nat, level: nat, l: nat)
    requires LowOnes(k, level) && l <= level
    ensures LowOnes(k, l) && (l < level ==> Shr(k, l) % 2 == 1)
  {
    if l < level { LowOnesBelow(k, level - 1, l); }
  }

  lemma {:induction false} NotLowOnesAbove(k: nat, level: nat, l: nat)
    requires Shr(k, level) % 2 == 0 && level < l
    ensures !LowOnes(k, l)
  {
    if l > level + 1 { NotLowOnesAbove(k, level, l - 1); }
  }

  lemma LevelAdvances(h: Bytes -> Hash32, leaves: seq<Hash32>, k: nat, level: nat, l: nat,
                      node0: Hash32, occupied0: bool, node: Hash32, occupied: bool)
    requires LowOnes(k, level) && Shr(k, level) % 2 == 0
    requires l < level ==> !occupied
    requires l == level ==> occupied && Shr(k, l) < Width(|leaves|, l) && node == Node(h, leaves, l, Shr(k, l))
    requires l > level ==>
      LevelHolds(h, leaves, Shr(k, l), l, node0, occupied0) && node == node0 && occupied == occupied0
    ensures LevelHolds(h, leaves, Shr(k + 1, l), l, node, occupied)
  {
    CarryShape(k, level, l);
  }

  /** Storing the carried node on the first free level is one step of the counter. */
  lemma CounterAdvances(h: Bytes -> Hash32, leaves: seq<Hash32>, k: nat, level: nat,
                        frontier0: seq<Hash32>, present0: seq<bool>, frontier: seq<Hash32>, present: seq<bool>)
    requires k < |leaves| && Counter(h, leaves, k, frontier0, present0)
    requires |frontier| == |present| && level <= |present0|
    requires |present| == if level < |present0| then |present0| else level + 1
    requires LowOnes(k, level) && Shr(k, level) % 2 == 0
    requires Shr(k, level) < Width(|leaves|, level) && frontier[level] == Node(h, leaves, level, Shr(k, level))
    requires present[level]
    requires forall l :: 0 <= l < level ==> !present[l]
    requires forall l :: level < l < |present| ==> frontier[l] == frontier0[l] && present[l] == present0[l]
    ensures Counter(h, leaves, k + 1, frontier, present)
  {
    hide LevelHolds, Node, LowOnes, Width;
    CounterTop(k, level, |present0|);
    forall l {:trigger present[l]} | 0 <= l < |present|
      ensures LevelHolds(h, leaves, Shr(k + 1, l), l, frontier[l], present[l])
    {
      var above := l > level;
      LevelAdvances(h, leaves, k, level, l, if above then frontier0[l] else ZERO_HASH, above && present0[l],
                    frontier[l], present[l]);
    }
  }

  /** The counter grows by a level exactly when the carry leaves its top. */
  lemma CounterTop(k: nat, level: nat, top: nat)
    requires LowOnes(k, level) && Shr(k, level) % 2 == 0 && level <= top
    requires Shr(k, top) == 0 && (top > 0 ==> Shr(k, top - 1) > 0)
    ensures var newTop := if level < top then top else level + 1;
            newTop > 0 && Shr(k + 1, newTop) == 0 && Shr(k + 1, newTop - 1) > 0
  {
    var newTop := if level < top then top else level + 1;
    CarryShape(k, level, newTop);
    CarryShape(k, level, newTop - 1);
  }

  /** The root of a DAG's cells, one pass over the leaves. */
  method DagMerkleRootStreaming(h: Bytes -> Hash32, leaves: seq<Hash32>) returns (root: Hash32)
    ensures leaves == [] ==> root == ZERO_HASH
    ensures leaves != [] ==> root == Root(h, leaves)
  {
    if |leaves| == 0 {
      return ZERO_HASH;
    }
    var frontier: seq<Hash32>, present: seq<bool> := [], [];
    var i := 0;
    while i < |leaves|
      invariant 0 <= i <= |leaves|
      invariant Counter(h, leaves, i, frontier, present)
    {
      frontier, present := AddLeaf(h, leaves, i, leaves[i], frontier, present);
      i := i + 1;
    }
    root := Collapse(h, leaves, frontier, present);
  }

  ghost predicate IsLast(h: Bytes -> Hash32, leaves: seq<Hash32>, level: nat, node: Hash32) {
    Width(|leaves|, level) > 0 && node == Node(h, leaves, level, Width(|leaves|, level) - 1)
  }

  predicate OddBetween(n: nat, from: nat, to: nat) {
    forall l {:trigger Width(n, l)} :: from <= l < to ==> Width(n, l) % 2 == 1
  }

  /** Where the running tail stands once the levels below `level` have been folded. */
  predicate Tail(n: nat, level: nat, hasAcc: bool, accLevel: nat) {
    && (hasAcc <==> LowAny(n, level))
    && (hasAcc ==> accLevel <= level && OddBetween(n, accLevel, level))
    && (hasAcc && Shr(n, level - 1) % 2 == 1 ==> accLevel == if LowAny(n, level - 1) then level else level - 1)
  }

  lemma TailSkips(n: nat, level: nat, hasAcc: bool, accLevel: nat)
    requires Tail(n, level, hasAcc, accLevel) && Shr(n, level) % 2 == 0
    ensures Tail(n, level + 1, hasAcc, accLevel)
  {
    WidthIsCeiling(n, level);
  }

  lemma TailTakes(n: nat, level: nat, hasAcc: bool, accLevel: nat)
    requires Tail(n, level, hasAcc, accLevel) && Shr(n, level) % 2 == 1
    ensures Tail(n, level + 1, true, if hasAcc then level + 1 else level)
  {
    WidthIsCeiling(n, level);
  }

  /** The tail after the highest occupied level is the root. */
  lemma TailEndsAtRoot(n: nat, top: nat, accLevel: nat)
    requires n > 0 && top > 0 && Shr(n, top) == 0 && Shr(n, top - 1) > 0
    requires Tail(n, top, true, accLevel)
    ensures Width(n, accLevel) == 1 && accLevel == Depth(n)
  {
    WidthIsCeiling(n, top);
    WidthIsCeiling(n, top - 1);
    assert Shr(n, top - 1) == 1;
    if accLevel == top - 1 && top > 1 {
      WidthIsCeiling(n, top - 2);
    }
    DepthUnique(n, accLevel);
  }

  /** Folds the occupied levels, duplicating the running tail up to the next occupied level. */
  method Collapse(h: Bytes -> Hash32, ghost leaves: seq<Hash32>, frontier: seq<Hash32>, present: seq<bool>)
    returns (acc: Hash32)
    requires leaves != [] && Counter(h, leaves, |leaves|, frontier, present)
    ensures acc == Root(h, leaves)
  {
    acc := ZERO_HASH;
    var accLevel := 0;
    var hasAcc := false;
    var level := 0;
    while level < |frontier|
      invariant 0 <= level <= |frontier|
      invariant Tail(|leaves|, level, hasAcc, accLevel)
      invariant hasAcc ==> IsLast(h, leaves, accLevel, acc)
    {
      assert LevelHolds(h, leaves, Shr(|leaves|, level), level, frontier[level], present[level]);
      if !present[level] {
        TailSkips(|leaves|, level, hasAcc, accLevel);
      } else {
        TailTakes(|leaves|, level, hasAcc, accLevel);
        if !hasAcc {
          WidthIsCeiling(|leaves|, level);
          acc := frontier[level];
          accLevel := level;
          hasAcc := true;
        } else {
          acc := Lift(h, leaves, acc, accLevel, level);
          LastPairsWithFrontier(h, leaves, level, frontier[level], acc);
          acc := Pair(h, frontier[level], acc);
          accLevel := level + 1;
        }
      }
      level := level + 1;
    }
    TailEndsAtRoot(|leaves|, level, accLevel);
  }

  method Lift(h: Bytes -> Hash32, ghost leaves: seq<Hash32>, tail: Hash32, from: nat, to: nat) returns (acc: Hash32)
    requires leaves != [] && from <= to && IsLast(h, leaves, from, tail) && OddBetween(|leaves|, from, to)
    ensures IsLast(h, leaves, to, acc)
  {
    acc := tail;
    var accLevel := from;
    while accLevel < to
      invariant from <= accLevel <= to && IsLast(h, leaves, accLevel, acc)
    {
      LastPairsWithItself(h, leaves, accLevel);
      acc := Pair(h, acc, acc);
      accLevel := accLevel + 1;
    }
  }

  lemma LastPairsWithFrontier(h: Bytes -> Hash32, leaves: seq<Hash32>, level: nat, node: Hash32, acc: Hash32)
    requires LowAny(|leaves|, level) && Shr(|leaves|, level) % 2 == 1
    requires LevelHolds(h, leaves, Shr(|leaves|, level), level, node, true) && IsLast(h, leaves, level, acc)
    ensures IsLast(h, leaves, level + 1, Pair(h, node, acc))
  {
    WidthIsCeiling(|leaves|, level);
    PairIsParent(h, leaves, level, Shr(|leaves|, level));
  }
}
