/**
 What a block store answers after any sequence of stores and tip moves, told from the sequence alone:
 the last block stored under a hash or at a height, the first genesis block, the last tip asked for.
 */
module StoreLaws {
  import opened Base
  import opened ChainStore
  import opened Header

  datatype Op = Store(hash: Hash32, b: Block, work: nat) | SetTip(hash: Hash32)

  function Apply(ops: seq<Op>): Chain {
    if ops == [] then EMPTY_CHAIN
    else
      var before := Apply(ops[..|ops| - 1]);
      match ops[|ops| - 1]
      case Store(hash, b, work) => before.Store(hash, b, work)
      case SetTip(hash) => before.MoveTip(hash)
  }

  predicate StoresHash(op: Op, hash: Hash32) {
    op.Store? && op.hash == hash
  }

  predicate StoresHeight(op: Op, height: Uint64) {
    op.Store? && op.b.header.height == height
  }

  /** What is under a hash is what was stored there last. */
  lemma {:induction false} LastUnderHash(ops: seq<Op>, hash: Hash32, i: nat)
    requires i < |ops| && StoresHash(ops[i], hash)
    requires forall j :: i < j < |ops| ==> !StoresHash(ops[j], hash)
    ensures var c := Apply(ops);
            && hash in c.blocks && c.blocks[hash] == ops[i].b
            && c.WorkOf(hash) == Some(ops[i].work) && c.HeaderOf(hash) == Some(ops[i].b.header)
  {
    if i < |ops| - 1 {
      LastUnderHash(ops[..|ops| - 1], hash, i);
    }
  }

  lemma {:induction false} NothingUnderHash(ops: seq<Op>, hash: Hash32)
    requires forall j :: 0 <= j < |ops| ==> !StoresHash(ops[j], hash)
    ensures hash !in Apply(ops).blocks && Apply(ops).WorkOf(hash) == None
  {
    if ops != [] {
      NothingUnderHash(ops[..|ops| - 1], hash);
    }
  }

  /** At a height is the block last stored there, as it was last stored under its hash. */
  lemma {:induction false} LastAtHeight(ops: seq<Op>, height: Uint64, i: nat)
    requires i < |ops| && StoresHeight(ops[i], height)
    requires forall j :: i < j < |ops| ==> !StoresHeight(ops[j], height)
    ensures var c := Apply(ops);
            && height in c.heights && c.heights[height] == ops[i].hash && ops[i].hash in c.blocks
            && c.BlockAtHeight(height) == Some(c.blocks[ops[i].hash])
  {
    if i < |ops| - 1 {
      LastAtHeight(ops[..|ops| - 1], height, i);
    }
  }

  lemma {:induction false} NothingAtHeight(ops: seq<Op>, height: Uint64)
    requires forall j :: 0 <= j < |ops| ==> !StoresHeight(ops[j], height)
    ensures Apply(ops).BlockAtHeight(height) == None
  {
    if ops != [] {
      NothingAtHeight(ops[..|ops| - 1], height);
    }
  }

  ghost predicate NoZeroHash(ops: seq<Op>) {
    forall i :: 0 <= i < |ops| ==> ops[i].hash != ZERO_HASH
  }

  /** The genesis block is the first one stored at height zero. */
  lemma {:induction false} FirstGenesis(ops: seq<Op>, i: nat)
    requires NoZeroHash(ops) && i < |ops| && StoresHeight(ops[i], 0)
    requires forall j :: 0 <= j < i ==> !StoresHeight(ops[j], 0)
    ensures Apply(ops).genesis == ops[i].hash
  {
    var init := ops[..|ops| - 1];
    if i < |ops| - 1 {
      FirstGenesis(init, i);
    } else {
      NoGenesis(init);
    }
  }

  lemma {:induction false} NoGenesis(ops: seq<Op>)
    requires forall j :: 0 <= j < |ops| ==> !StoresHeight(ops[j], 0)
    ensures Apply(ops).genesis == ZERO_HASH
  {
    if ops != [] {
      NoGenesis(ops[..|ops| - 1]);
    }
  }

  /** The step asks for a tip that has been stored before. */
  ghost predicate Moves(ops: seq<Op>, i: nat)
    requires i < |ops|
  {
    ops[i].SetTip? && exists j :: 0 <= j < i && StoresHash(ops[j], ops[i].hash)
  }

  lemma {:induction false} StoredBefore(ops: seq<Op>, hash: Hash32)
    ensures hash in Apply(ops).blocks <==> exists j :: 0 <= j < |ops| && StoresHash(ops[j], hash)
  {
    if ops != [] {
      var init := ops[..|ops| - 1];
      StoredBefore(init, hash);
      assert forall j :: 0 <= j < |init| ==> ops[j] == init[j];
    }
  }

  lemma MovesInPrefix(ops: seq<Op>, i: nat)
    requires i < |ops| - 1
    ensures Moves(ops[..|ops| - 1], i) <==> Moves(ops, i)
  {
    var init := ops[..|ops| - 1];
    assert forall j :: 0 <= j <= i ==> ops[j] == init[j];
  }

  /** The tip is the last stored block asked for, from when it was asked for. */
  lemma {:induction false} LastMove(ops: seq<Op>, i: nat)
    requires NoZeroHash(ops) && i < |ops| && Moves(ops, i) && forall j :: i < j < |ops| ==> !Moves(ops, j)
    ensures Apply(ops).tip == ops[i].hash
  {
    var init := ops[..|ops| - 1];
    StoredBefore(init, ops[|ops| - 1].hash);
    if i < |ops| - 1 {
      MovesInPrefix(ops, i);
      forall j | i < j < |init|
        ensures !Moves(init, j)
      {
        MovesInPrefix(ops, j);
      }
      LastMove(init, i);
      LastStep(ops);
    } else {
      MoveFinds(ops);
    }
  }

  lemma MoveFinds(ops: seq<Op>)
    requires ops != [] && Moves(ops, |ops| - 1)
    ensures ops[|ops| - 1].hash in Apply(ops[..|ops| - 1]).blocks
  {
    var init := ops[..|ops| - 1];
    var hash := ops[|ops| - 1].hash;
    StoredBefore(init, hash);
    var j :| 0 <= j < |ops| - 1 && StoresHash(ops[j], hash);
    assert StoresHash(init[j], hash);
  }

  /** A last step that moves no tip leaves one that is there alone. */
  lemma LastStep(ops: seq<Op>)
    requires ops != [] && !Moves(ops, |ops| - 1) && Apply(ops[..|ops| - 1]).tip != ZERO_HASH
    ensures Apply(ops).tip == Apply(ops[..|ops| - 1]).tip
  {
    var init := ops[..|ops| - 1];
    StoredBefore(init, ops[|ops| - 1].hash);
    assert forall j :: 0 <= j < |init| ==> ops[j] == init[j];
  }

  /** Until then it is the first block stored. */
  lemma {:induction false} FirstTip(ops: seq<Op>, i: nat)
    requires NoZeroHash(ops) && i < |ops| && ops[i].Store? && forall j :: 0 <= j < i ==> ops[j].SetTip?
    requires forall j :: 0 <= j < |ops| ==> !Moves(ops, j)
    ensures Apply(ops).tip == ops[i].hash
  {
    var init := ops[..|ops| - 1];
    if i < |ops| - 1 {
      forall j | 0 <= j < |init|
        ensures !Moves(init, j)
      {
        MovesInPrefix(ops, j);
      }
      FirstTip(init, i);
      LastStep(ops);
    } else {
      NoTip(init);
    }
  }

  lemma {:induction false} NoTip(ops: seq<Op>)
    requires forall j :: 0 <= j < |ops| ==> ops[j].SetTip?
    ensures Apply(ops) == EMPTY_CHAIN
  {
    if ops != [] {
      NoTip(ops[..|ops| - 1]);
    }
  }
}
