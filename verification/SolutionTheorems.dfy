/** What acceptance means: the verifier and the full-DAG hash agree, in both directions. */
module SolutionTheorems {
  import opened Base
  import opened ChainSpec
  import opened MerkleBinding
  import opened MerkleTree
  import MultiProof
  import opened Solution
  import Target
  import opened TraceHash

  /** The specification describes exactly these cells. */
  ghost predicate DescribesDag(spec: Spec, cells: seq<Bytes>) {
    && spec.nodeSize == COLOSSUSX_NODE_SIZE
    && cells != [] && spec.NodeCount() == |cells| && SizedCells(cells, COLOSSUSX_NODE_SIZE)
  }

  // ----- completeness -----

  /** A supplied cell that is the one the walk reads keeps the two mixes together. */
  lemma MixesStayTogether(hs: HashSuite, cells: seq<Bytes>, supplied: seq<SolutionCell>, initial: Hash64, round: nat)
    requires cells != [] && round < |supplied|
    requires ReplayMix(hs, supplied, initial, round) == MixAt(hs, cells, initial, round)
    requires supplied[round].data == cells[AccessedAt(hs, cells, initial, round)]
    ensures ReplayMix(hs, supplied, initial, round + 1) == MixAt(hs, cells, initial, round + 1)
  {
  }

  lemma HonestCellData(hs: HashSuite, cells: seq<Bytes>, initial: Hash64, total: nat, k: nat)
    requires cells != [] && k < total
    ensures HonestCells(hs, cells, Accessed(hs, cells, initial, total))[k].data ==
      cells[AccessedAt(hs, cells, initial, k)]
  {
  }

  lemma {:induction false} HonestReplay(hs: HashSuite, cells: seq<Bytes>, initial: Hash64, total: nat, rounds: nat)
    requires cells != [] && rounds <= total
    ensures ReplayMix(hs, HonestCells(hs, cells, Accessed(hs, cells, initial, total)), initial, rounds)
         == MixAt(hs, cells, initial, rounds)
  {
    hide RoundMix, AccessedAt, ReadIndex, MultiProof.Leaves, ProofFor;
    if rounds > 0 {
      HonestReplay(hs, cells, initial, total, rounds - 1);
      var supplied := HonestCells(hs, cells, Accessed(hs, cells, initial, total));
      HonestCellData(hs, cells, initial, total, rounds - 1);
      MixesStayTogether(hs, cells, supplied, initial, rounds - 1);
    }
  }

  lemma HonestCellProven(hs: HashSuite, cells: seq<Bytes>, index: Uint32)
    requires index < |cells|
    ensures CellProven(hs, DagRoot(hs, cells), HonestCell(hs, cells, index))
  {
    ProofVerifies(hs.blake3, MultiProof.Leaves(hs.blake3, cells), index);
  }

  lemma HonestMiningCell(hs: HashSuite, spec: Spec, cells: seq<Bytes>, initial: Hash64, total: nat, k: nat)
    requires DescribesDag(spec, cells) && k < total
    ensures var supplied := HonestCells(hs, cells, Accessed(hs, cells, initial, total));
            MiningCellOk(hs, spec, DagRoot(hs, cells), supplied, initial, k)
  {
    HonestReplay(hs, cells, initial, total, k);
    HonestCellProven(hs, cells, AccessedAt(hs, cells, initial, k));
  }

  /** The verifier counts reads with a signed number, so it takes no solution at all beyond 63 bits. */
  lemma TooManyReads(hs: HashSuite, spec: Spec, header: Bytes, target: Hash32, root: Hash32, s: ColossusXSolution)
    requires spec.NodeCount() > 0 && spec.readsPerHash >= TWO_63
    ensures !Accepts(hs, spec, header, target, root, s)
  {
  }

  /**
   The miner's own solution is accepted exactly when its hash meets the target and its length is one the
   verifier can count to: a number of reads past 63 bits turns negative there.
   */
  lemma HonestSolutionAccepted(hs: HashSuite, spec: Spec, cells: seq<Bytes>, header: Bytes, target: Hash32,
                               nonce: Uint64)
    requires DescribesDag(spec, cells)
    ensures var honest := HonestSolution(hs, cells, spec.readsPerHash, header, nonce);
            var result := TraceOf(hs, cells, spec.readsPerHash, header, nonce).result;
            Accepts(hs, spec, header, target, DagRoot(hs, cells), honest) <==>
              spec.readsPerHash < TWO_63 && Target.Value(result) <= Target.Value(target)
  {
    hide MiningCellOk, RoundMix, ReadIndex, MultiProof.Leaves, ProofFor, Climb;
    var rounds := spec.readsPerHash;
    var s := HonestSolution(hs, cells, rounds, header, nonce);
    var initial := InitialHash(hs, header, nonce);
    HonestReplay(hs, cells, initial, rounds, rounds);
    forall k | 0 <= k < rounds
      ensures MiningCellOk(hs, spec, DagRoot(hs, cells), s.miningCells, initial, k)
    {
      HonestMiningCell(hs, spec, cells, initial, rounds, k);
    }
    forall k | 0 <= k < AUDIT_CELL_COUNT
      ensures AuditCellOk(hs, spec, DagRoot(hs, cells), ReplayedSolutionHash(hs, header, s), s.auditCells, k)
    {
      HonestCellProven(hs, cells, AuditIndexAt(hs, ReplayedSolutionHash(hs, header, s), |cells|, k));
    }
  }

  // ----- soundness -----

  /** The proof of this cell gives away two inputs with one BLAKE3 digest. */
  ghost predicate RevealsCollision(hs: HashSuite, cells: seq<Bytes>, c: SolutionCell)
    requires cells != []
  {
    Collides(hs.blake3, ProofCollision(hs.blake3, cells, c.data, c.index, c.proof))
  }

  ghost predicate SomeCellRevealsCollision(hs: HashSuite, cells: seq<Bytes>, s: ColossusXSolution)
    requires cells != []
  {
    exists c :: c in s.miningCells + s.auditCells && RevealsCollision(hs, cells, c)
  }

  lemma ProvenCellBinds(hs: HashSuite, cells: seq<Bytes>, c: SolutionCell)
    requires SizedCells(cells, COLOSSUSX_NODE_SIZE) && c.index < |cells|
    requires CellProven(hs, DagRoot(hs, cells), c) && !RevealsCollision(hs, cells, c)
    ensures c == HonestCell(hs, cells, c.index) <==> !InteriorShaped(|cells|, c.data, c.proof)
  {
    AcceptedProofBinds(hs.blake3, cells, c.data, c.index, c.proof);
  }

  lemma AcceptedRoundIsHonest(hs: HashSuite, spec: Spec, cells: seq<Bytes>, supplied: seq<SolutionCell>,
                              initial: Hash64, round: nat)
    requires DescribesDag(spec, cells) && round < |supplied|
    requires MiningCellOk(hs, spec, DagRoot(hs, cells), supplied, initial, round)
    requires !RevealsCollision(hs, cells, supplied[round])
    requires ReplayMix(hs, supplied, initial, round) == MixAt(hs, cells, initial, round)
    ensures ReplayMix(hs, supplied, initial, round + 1) == MixAt(hs, cells, initial, round + 1)
    ensures RoundIsHonest(hs, cells, supplied, initial, round)
  {
    ProvenCellBinds(hs, cells, supplied[round]);
    MixesStayTogether(hs, cells, supplied, initial, round);
  }

  ghost predicate RoundIsHonest(hs: HashSuite, cells: seq<Bytes>, supplied: seq<SolutionCell>, initial: Hash64,
                                round: nat)
    requires cells != [] && round < |supplied|
  {
    supplied[round] == HonestCell(hs, cells, AccessedAt(hs, cells, initial, round))
  }

  ghost predicate NoneReveals(hs: HashSuite, cells: seq<Bytes>, supplied: seq<SolutionCell>, rounds: nat)
    requires cells != [] && rounds <= |supplied|
  {
    forall k :: 0 <= k < rounds ==> !RevealsCollision(hs, cells, supplied[k])
  }

  ghost predicate WalkIsHonest(hs: HashSuite, cells: seq<Bytes>, supplied: seq<SolutionCell>, initial: Hash64,
                               rounds: nat)
    requires cells != [] && rounds <= |supplied|
  {
    forall k :: 0 <= k < rounds ==> RoundIsHonest(hs, cells, supplied, initial, k)
  }

  lemma OneRoundLess(hs: HashSuite, spec: Spec, cells: seq<Bytes>, supplied: seq<SolutionCell>, initial: Hash64,
                     rounds: nat)
    requires DescribesDag(spec, cells) && 0 < rounds <= |supplied|
    requires MiningOk(hs, spec, DagRoot(hs, cells), supplied, initial, rounds)
    requires NoneReveals(hs, cells, supplied, rounds)
    ensures MiningOk(hs, spec, DagRoot(hs, cells), supplied, initial, rounds - 1)
    ensures NoneReveals(hs, cells, supplied, rounds - 1)
    ensures MiningCellOk(hs, spec, DagRoot(hs, cells), supplied, initial, rounds - 1)
    ensures !RevealsCollision(hs, cells, supplied[rounds - 1])
  {
    hide MiningCellOk, RevealsCollision;
  }

  lemma {:induction false} AcceptedWalkIsHonest(hs: HashSuite, spec: Spec, cells: seq<Bytes>,
                                                supplied: seq<SolutionCell>,
                                                initial: Hash64, rounds: nat)
    requires DescribesDag(spec, cells) && rounds <= |supplied|
    requires MiningOk(hs, spec, DagRoot(hs, cells), supplied, initial, rounds)
    requires NoneReveals(hs, cells, supplied, rounds)
    ensures ReplayMix(hs, supplied, initial, rounds) == MixAt(hs, cells, initial, rounds)
    ensures WalkIsHonest(hs, cells, supplied, initial, rounds)
  {
    hide MiningOk, MiningCellOk, RevealsCollision, NoneReveals, RoundIsHonest, RoundMix, ReadIndex, SizedCells;
    if rounds > 0 {
      OneRoundLess(hs, spec, cells, supplied, initial, rounds);
      AcceptedWalkIsHonest(hs, spec, cells, supplied, initial, rounds - 1);
      AcceptedRoundIsHonest(hs, spec, cells, supplied, initial, rounds - 1);
    }
  }

  /**
   Soundness. A solution accepted against the true root either gives away a collision, or its walk is
   the full-DAG walk for its own nonce: same cells, same proofs, same digest, and a hash that meets
   the target.
   */
  lemma AcceptedSolutionIsHonest(hs: HashSuite, spec: Spec, cells: seq<Bytes>, header: Bytes, target: Hash32,
                                 s: ColossusXSolution)
    requires DescribesDag(spec, cells)
    requires Accepts(hs, spec, header, target, DagRoot(hs, cells), s)
    requires !SomeCellRevealsCollision(hs, cells, s)
    ensures var trace := TraceOf(hs, cells, spec.readsPerHash, header, s.nonce);
            var honest := HonestSolution(hs, cells, spec.readsPerHash, header, s.nonce);
            && Target.Value(trace.result) <= Target.Value(target)
            && s.mixDigest == trace.mixDigest
            && s.miningCells == honest.miningCells
            && (s == honest <==> forall c :: c in s.auditCells ==> !InteriorShaped(|cells|, c.data, c.proof))
  {
    AcceptedMining(hs, spec, cells, header, target, s);
    AcceptedAudit(hs, spec, cells, header, target, s);
  }

  lemma AcceptedMining(hs: HashSuite, spec: Spec, cells: seq<Bytes>, header: Bytes, target: Hash32,
                       s: ColossusXSolution)
    requires DescribesDag(spec, cells)
    requires WalkAccepted(hs, spec, header, target, DagRoot(hs, cells), s)
    requires !SomeCellRevealsCollision(hs, cells, s)
    ensures var initial := InitialHash(hs, header, s.nonce);
            s.mixDigest == MixAt(hs, cells, initial, spec.readsPerHash) &&
            s.miningCells == HonestCells(hs, cells, Accessed(hs, cells, initial, spec.readsPerHash))
  {
    var initial := InitialHash(hs, header, s.nonce);
    var rounds := spec.readsPerHash;
    forall k | 0 <= k < rounds
      ensures !RevealsCollision(hs, cells, s.miningCells[k])
    {
      assert s.miningCells[k] in s.miningCells + s.auditCells;
    }
    AcceptedWalkIsHonest(hs, spec, cells, s.miningCells, initial, rounds);
    forall k | 0 <= k < rounds
      ensures s.miningCells[k] == HonestCells(hs, cells, Accessed(hs, cells, initial, rounds))[k]
    {
      assert RoundIsHonest(hs, cells, s.miningCells, initial, k);
    }
  }

  lemma AcceptedAudit(hs: HashSuite, spec: Spec, cells: seq<Bytes>, header: Bytes, target: Hash32, s: ColossusXSolution)
    requires DescribesDag(spec, cells)
    requires Accepts(hs, spec, header, target, DagRoot(hs, cells), s)
    requires !SomeCellRevealsCollision(hs, cells, s)
    ensures s.auditCells ==
      HonestCells(hs, cells, AuditIndices(hs, ReplayedSolutionHash(hs, header, s), |cells|, AUDIT_CELL_COUNT))
      <==> forall c :: c in s.auditCells ==> !InteriorShaped(|cells|, c.data, c.proof)
  {
    var solutionHash := ReplayedSolutionHash(hs, header, s);
    forall k | 0 <= k < |s.auditCells|
      ensures s.auditCells[k].index == AuditIndexAt(hs, solutionHash, |cells|, k)
      ensures s.auditCells[k] == HonestCell(hs, cells, AuditIndexAt(hs, solutionHash, |cells|, k))
         <==> !InteriorShaped(|cells|, s.auditCells[k].data, s.auditCells[k].proof)
    {
      assert AuditCellOk(hs, spec, DagRoot(hs, cells), solutionHash, s.auditCells, k);
      assert s.auditCells[k] in s.miningCells + s.auditCells;
      ProvenCellBinds(hs, cells, s.auditCells[k]);
    }
  }

  // ----- what the audit cells do not bind -----

  /** The solution with the data of every audit cell replaced by the two hashes below the root. */
  function WithForgedAudit(hs: HashSuite, cells: seq<Bytes>, s: ColossusXSolution): ColossusXSolution
    requires |cells| > 1
  {
    WidthAtDepth(|cells|);
    var data := NodeInput(hs.blake3, cells, Depth(|cells|), 0);
    var forged := seq(|s.auditCells|, k requires 0 <= k < |s.auditCells| =>
      SolutionCell(s.auditCells[k].index, data, []));
    s.(auditCells := forged)
  }

  lemma ForgedCell(hs: HashSuite, spec: Spec, cells: seq<Bytes>, header: Bytes, s: ColossusXSolution, k: nat)
    requires DescribesDag(spec, cells) && |cells| > 1 && k < |s.auditCells| && k < AUDIT_CELL_COUNT
    requires AuditCellOk(hs, spec, DagRoot(hs, cells), ReplayedSolutionHash(hs, header, s), s.auditCells, k)
    ensures var forged := WithForgedAudit(hs, cells, s);
            && AuditCellOk(hs, spec, DagRoot(hs, cells), ReplayedSolutionHash(hs, header, forged), forged.auditCells, k)
            && InteriorShaped(|cells|, forged.auditCells[k].data, forged.auditCells[k].proof)
            && forged.auditCells[k].data != cells[forged.auditCells[k].index]
  {
    InteriorShapedDataVerifies(hs.blake3, cells, s.auditCells[k].index);
  }

  /**
   On every DAG of two cells or more, every accepted solution stays accepted when all its audit cells
   are replaced by data that is no cell at all; its walk is untouched.
   */
  lemma ForgedAuditAccepted(hs: HashSuite, spec: Spec, cells: seq<Bytes>, header: Bytes, target: Hash32,
                            s: ColossusXSolution)
    requires DescribesDag(spec, cells) && |cells| > 1 && Accepts(hs, spec, header, target, DagRoot(hs, cells), s)
    ensures var forged := WithForgedAudit(hs, cells, s);
            && Accepts(hs, spec, header, target, DagRoot(hs, cells), forged)
            && |forged.auditCells| == AUDIT_CELL_COUNT
            && forall c :: c in forged.auditCells ==> InteriorShaped(|cells|, c.data, c.proof) && IsNoCell(cells, c)
  {
    hide AuditCellOk, MiningOk, InteriorShaped, NodeInput;
    var forged := WithForgedAudit(hs, cells, s);
    forall k | 0 <= k < AUDIT_CELL_COUNT
      ensures AuditCellOk(hs, spec, DagRoot(hs, cells), ReplayedSolutionHash(hs, header, forged), forged.auditCells, k)
      ensures InteriorShaped(|cells|, forged.auditCells[k].data, forged.auditCells[k].proof)
      ensures IsNoCell(cells, forged.auditCells[k])
    {
      ForgedCell(hs, spec, cells, header, s, k);
      AuditIndexInRange(hs, spec, cells, header, s, k);
    }
  }

  lemma AuditIndexInRange(hs: HashSuite, spec: Spec, cells: seq<Bytes>, header: Bytes, s: ColossusXSolution, k: nat)
    requires DescribesDag(spec, cells) && k < |s.auditCells| && k < AUDIT_CELL_COUNT
    requires AuditCellOk(hs, spec, DagRoot(hs, cells), ReplayedSolutionHash(hs, header, s), s.auditCells, k)
    ensures s.auditCells[k].index < |cells|
  {
  }

  /** The cell does not carry the DAG's data for its index. */
  predicate IsNoCell(cells: seq<Bytes>, c: SolutionCell) {
    c.index < |cells| && c.data != cells[c.index]
  }
}
