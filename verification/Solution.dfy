/**
 ColossusX solutions: building them from a DAG, and verifying them without one. The verifier replays
 the walk from the supplied cells alone, so what it accepts has to be tied back to the real DAG.
 */
module Solution {
  import opened Base
  import opened ChainSpec
  import MerkleBinding
  import opened MerkleTree
  import opened MultiProof
  import opened Target
  import opened TraceHash

  datatype SolutionCell = SolutionCell(index: Uint32, data: Bytes, proof: seq<Hash32>)

  datatype ColossusXSolution = ColossusXSolution(
    nonce: Uint64,
    mixDigest: Hash64,
    miningCells: seq<SolutionCell>,
    auditCells: seq<SolutionCell>)

  function DagRoot(hs: HashSuite, cells: seq<Bytes>): Hash32
    requires cells != []
  {
    Root(hs.blake3, Leaves(hs.blake3, cells))
  }

  function HonestCell(hs: HashSuite, cells: seq<Bytes>, index: Uint32): SolutionCell
    requires index < |cells|
  {
    SolutionCell(index, cells[index], ProofFor(hs.blake3, Leaves(hs.blake3, cells), index))
  }

  function HonestCells(hs: HashSuite, cells: seq<Bytes>, indices: seq<Uint32>): (r: seq<SolutionCell>)
    requires forall k :: 0 <= k < |indices| ==> indices[k] < |cells|
    ensures |r| == |indices|
  {
    seq(|indices|, k requires 0 <= k < |indices| => HonestCell(hs, cells, indices[k]))
  }

  /** The solution a miner holding the whole DAG makes for a nonce. */
  function HonestSolution(hs: HashSuite, cells: seq<Bytes>, rounds: nat, header: Bytes,
                          nonce: Uint64): ColossusXSolution
    requires cells != []
  {
    var trace := TraceOf(hs, cells, rounds, header, nonce);
    ColossusXSolution(nonce, trace.mixDigest,
                      HonestCells(hs, cells, trace.accessed),
                      HonestCells(hs, cells, AuditIndices(hs, trace.solutionHash, |cells|, AUDIT_CELL_COUNT)))
  }

  // ----- building -----

  method CellsFromProver(hs: HashSuite, cells: seq<Bytes>, prover: LevelMerkleProver, ghost leaves: seq<Hash32>,
                         indices: seq<Uint32>)
    returns (out: seq<SolutionCell>)
    requires prover.ProverFor(hs.blake3, leaves) && |leaves| == |cells|
    requires forall k :: 0 <= k < |indices| ==> indices[k] < |cells|
    ensures leaves == Leaves(hs.blake3, cells) ==> out == HonestCells(hs, cells, indices)
  {
    out := [];
    for k := 0 to |indices|
      invariant |out| == k
      invariant leaves == Leaves(hs.blake3, cells) ==> forall j :: 0 <= j < k ==>
        out[j] == HonestCell(hs, cells, indices[j])
    {
      var proof := prover.Proof(hs.blake3, leaves, indices[k]);
      out := out + [SolutionCell(indices[k], cells[indices[k]], proof.value)];
    }
  }

  method BuildColossusXSolution(hs: HashSuite, rounds: nat, header: Bytes, nonce: Uint64, cells: seq<Bytes>,
                                leaves: seq<Hash32>)
    returns (r: Result<(ColossusXSolution, Hash32)>)
    ensures r.Ok? <==> cells != [] && |leaves| == |cells|
    ensures cells != [] && leaves == Leaves(hs.blake3, cells) ==>
      r == Ok((HonestSolution(hs, cells, rounds, header, nonce), DagRoot(hs, cells)))
  {
    var built := NewMerkleProverFromLeaves(hs.blake3, leaves);
    if built.Err? {
      return Err(built.message);
    }
    var prover := built.value;
    if |cells| == 0 {
      return Err("dag is empty");
    }
    var count := prover.LeafCount(hs.blake3, leaves);
    if count != |cells| {
      return Err("merkle leaves must match dag node count");
    }
    var root := prover.GetRoot(hs.blake3, leaves);
    var trace := ColossusXTraceHash(hs, rounds, header, nonce, cells);
    var mining := CellsFromProver(hs, cells, prover, leaves, trace.accessed);
    var auditIdx := ColossusXAuditIndices(hs, trace.solutionHash, |cells|, AUDIT_CELL_COUNT);
    var audit := CellsFromProver(hs, cells, prover, leaves, auditIdx);
    r := Ok((ColossusXSolution(nonce, trace.mixDigest, mining, audit), root));
  }

  /** Adds the indices not seen before, keeping first occurrences in order. */
  method AppendUnseen(needed0: seq<nat>, seen0: set<nat>, indices: seq<Uint32>)
    returns (needed: seq<nat>, seen: set<nat>)
    requires forall x :: x in seen0 <==> x in needed0
    ensures forall x :: x in seen <==> x in needed
    ensures forall x :: x in needed <==> x in needed0 || x in indices
  {
    needed, seen := needed0, seen0;
    for k := 0 to |indices|
      invariant forall x :: x in seen <==> x in needed
      invariant forall x :: x in needed <==> x in needed0 || x in indices[..k]
    {
      assert indices[..k + 1] == indices[..k] + [indices[k]];
      if indices[k] !in seen {
        seen := seen + {indices[k]};
        needed := needed + [indices[k]];
      }
    }
    assert indices[..|indices|] == indices;
  }

  method CellsFromProofs(hs: HashSuite, cells: seq<Bytes>, proofs: map<nat, seq<Hash32>>, indices: seq<Uint32>)
    returns (out: seq<SolutionCell>)
    requires forall k :: 0 <= k < |indices| ==> indices[k] < |cells| && indices[k] in proofs
    requires forall i :: i in proofs ==> i < |cells| && proofs[i] == ProofFor(hs.blake3, Leaves(hs.blake3, cells), i)
    ensures out == HonestCells(hs, cells, indices)
  {
    out := [];
    for k := 0 to |indices|
      invariant |out| == k && forall j :: 0 <= j < k ==> out[j] == HonestCell(hs, cells, indices[j])
    {
      out := out + [SolutionCell(indices[k], cells[indices[k]], proofs[indices[k]])];
    }
  }

  /** Building in one pass over the DAG gives the same solution and root as building from all leaves. */
  method BuildColossusXSolutionStreaming(hs: HashSuite, spec: Spec, header: Bytes, nonce: Uint64, cells: seq<Bytes>)
    returns (r: Result<(ColossusXSolution, Hash32)>)
    requires spec.Valid() && MerkleBinding.SizedCells(cells, spec.nodeSize)
    ensures r == if cells == [] then Err("dag is empty")
                 else Ok((HonestSolution(hs, cells, spec.readsPerHash, header, nonce), DagRoot(hs, cells)))
  {
    if |cells| == 0 {
      return Err("dag is empty");
    }
    var trace := ColossusXTraceHash(hs, spec.readsPerHash, header, nonce, cells);
    var auditIdx := ColossusXAuditIndices(hs, trace.solutionHash, |cells|, AUDIT_CELL_COUNT);
    var needed, seen := AppendUnseen([], {}, trace.accessed);
    needed, seen := AppendUnseen(needed, seen, auditIdx);
    IndicesInRange(hs, cells, spec.readsPerHash, header, nonce);
    assert forall t :: 0 <= t < |needed| ==> needed[t] in needed;
    var multi := BuildMerkleMultiProof(hs.blake3, cells, spec.nodeSize, needed);
    if multi.Err? {
      assert false; // every index the walk reads is in range
    }
    var (root, proofs) := multi.value;
    var mining := CellsFromProofs(hs, cells, proofs, trace.accessed);
    var audit := CellsFromProofs(hs, cells, proofs, auditIdx);
    r := Ok((ColossusXSolution(nonce, trace.mixDigest, mining, audit), root));
  }

  lemma IndicesInRange(hs: HashSuite, cells: seq<Bytes>, rounds: nat, header: Bytes, nonce: Uint64)
    requires cells != []
    ensures var trace := TraceOf(hs, cells, rounds, header, nonce);
            (forall i :: i in trace.accessed ==> i < |cells|) &&
            (forall i :: i in AuditIndices(hs, trace.solutionHash, |cells|, AUDIT_CELL_COUNT) ==> i < |cells|)
  {
  }

  // ----- verifying -----

  /** A length as a signed 64-bit integer. */
  function SignedLength(n: Uint64): int {
    if n < TWO_63 then n else n - TWO_64
  }

  /** The mix replayed from the supplied cells. */
  function ReplayMix(hs: HashSuite, supplied: seq<SolutionCell>, initial: Hash64, rounds: nat): Hash64
    requires rounds <= |supplied|
  {
    if rounds == 0 then initial
    else RoundMix(hs, ReplayMix(hs, supplied, initial, rounds - 1), supplied[rounds - 1].data)
  }

  function ExpectedIndex(hs: HashSuite, spec: Spec, supplied: seq<SolutionCell>, initial: Hash64, round: nat): nat
    requires round < |supplied| && spec.NodeCount() > 0
  {
    ReadIndex(ReplayMix(hs, supplied, initial, round), round, spec.NodeCount())
  }

  predicate CellProven(hs: HashSuite, root: Hash32, cell: SolutionCell) {
    Climb(hs.blake3, hs.blake3(cell.data), cell.index, cell.proof) == root
  }

  predicate MiningCellOk(hs: HashSuite, spec: Spec, root: Hash32, supplied: seq<SolutionCell>, initial: Hash64,
                         round: nat)
    requires round < |supplied| && spec.NodeCount() > 0
  {
    && supplied[round].index == ExpectedIndex(hs, spec, supplied, initial, round)
    && |supplied[round].data| == spec.nodeSize
    && CellProven(hs, root, supplied[round])
  }

  function ReplayedSolutionHash(hs: HashSuite, header: Bytes, s: ColossusXSolution): Hash32 {
    SolutionHashOf(hs, InitialHash(hs, header, s.nonce), s.mixDigest, s.nonce)
  }

  predicate AuditCellOk(hs: HashSuite, spec: Spec, root: Hash32, solutionHash: Hash32, supplied: seq<SolutionCell>,
                        k: nat)
    requires k < |supplied| && k < AUDIT_CELL_COUNT && spec.NodeCount() > 0
  {
    && supplied[k].index == AuditIndexAt(hs, solutionHash, spec.NodeCount(), k)
    && CellProven(hs, root, supplied[k])
  }

  ghost predicate MiningOk(hs: HashSuite, spec: Spec, root: Hash32, supplied: seq<SolutionCell>, initial: Hash64,
                           rounds: nat)
    requires rounds <= |supplied| && spec.NodeCount() > 0
  {
    forall k :: 0 <= k < rounds ==> MiningCellOk(hs, spec, root, supplied, initial, k)
  }

  ghost predicate AuditOk(hs: HashSuite, spec: Spec, root: Hash32, solutionHash: Hash32, supplied: seq<SolutionCell>,
                          count: nat)
    requires count <= |supplied| && count <= AUDIT_CELL_COUNT && spec.NodeCount() > 0
  {
    forall k :: 0 <= k < count ==> AuditCellOk(hs, spec, root, solutionHash, supplied, k)
  }

  /** The mining half of the check: the walk, the digest and the target. */
  ghost predicate WalkAccepted(hs: HashSuite, spec: Spec, header: Bytes, target: Hash32, root: Hash32,
                               s: ColossusXSolution)
    requires spec.NodeCount() > 0
  {
    var initial := InitialHash(hs, header, s.nonce);
    && |s.miningCells| == SignedLength(spec.readsPerHash)
    && MiningOk(hs, spec, root, s.miningCells, initial, |s.miningCells|)
    && s.mixDigest == ReplayMix(hs, s.miningCells, initial, |s.miningCells|)
    && Value(PowOf(hs, initial, s.mixDigest)) <= Value(target)
  }

  ghost predicate Accepts(hs: HashSuite, spec: Spec, header: Bytes, target: Hash32, root: Hash32, s: ColossusXSolution)
    requires spec.NodeCount() > 0
  {
    && WalkAccepted(hs, spec, header, target, root, s)
    && |s.auditCells| == AUDIT_CELL_COUNT
    && AuditOk(hs, spec, root, ReplayedSolutionHash(hs, header, s), s.auditCells, |s.auditCells|)
  }

  datatype Verdict =
    | Accepted
    | InvalidMiningCellCount
    | InvalidMiningIndex
    | InvalidMiningCellSize
    | InvalidMiningProof
    | MixDigestMismatch
    | PowTargetMismatch
    | InvalidAuditCellCount
    | InvalidAuditIndex
    | InvalidAuditProof

  /** Each verdict names the first check that fails. */
  ghost predicate Explains(v: Verdict, hs: HashSuite, spec: Spec, header: Bytes, target: Hash32, root: Hash32,
                           s: ColossusXSolution)
    requires spec.NodeCount() > 0
  {
    var initial := InitialHash(hs, header, s.nonce);
    (v == InvalidMiningCellCount <==> |s.miningCells| != SignedLength(spec.readsPerHash)) &&
    match v
    case Accepted => Accepts(hs, spec, header, target, root, s)
    case InvalidMiningCellCount => true
    case InvalidMiningIndex => FirstBadRound(v, hs, spec, root, s, initial)
    case InvalidMiningCellSize => FirstBadRound(v, hs, spec, root, s, initial)
    case InvalidMiningProof => FirstBadRound(v, hs, spec, root, s, initial)
    case MixDigestMismatch =>
      && MiningOk(hs, spec, root, s.miningCells, initial, |s.miningCells|)
      && s.mixDigest != ReplayMix(hs, s.miningCells, initial, |s.miningCells|)
    case PowTargetMismatch =>
      && MiningOk(hs, spec, root, s.miningCells, initial, |s.miningCells|)
      && s.mixDigest == ReplayMix(hs, s.miningCells, initial, |s.miningCells|)
      && Value(PowOf(hs, initial, s.mixDigest)) > Value(target)
    case InvalidAuditCellCount =>
      WalkAccepted(hs, spec, header, target, root, s) && |s.auditCells| != AUDIT_CELL_COUNT
    case InvalidAuditIndex =>
      WalkAccepted(hs, spec, header, target, root, s) && FirstBadAudit(v, hs, spec, header, root, s)
    case InvalidAuditProof =>
      WalkAccepted(hs, spec, header, target, root, s) && FirstBadAudit(v, hs, spec, header, root, s)
  }

  ghost predicate FirstBadRound(v: Verdict, hs: HashSuite, spec: Spec, root: Hash32, s: ColossusXSolution,
                                initial: Hash64)
    requires spec.NodeCount() > 0
  {
    exists k :: 0 <= k < |s.miningCells| && MiningOk(hs, spec, root, s.miningCells, initial, k)
      && BadRound(v, hs, spec, root, s.miningCells, initial, k)
  }

  predicate BadRound(v: Verdict, hs: HashSuite, spec: Spec, root: Hash32, supplied: seq<SolutionCell>,
                     initial: Hash64, k: nat)
    requires k < |supplied| && spec.NodeCount() > 0
  {
    var c := supplied[k];
    var indexOk := c.index == ExpectedIndex(hs, spec, supplied, initial, k);
    match v
    case InvalidMiningIndex => !indexOk
    case InvalidMiningCellSize => indexOk && |c.data| != spec.nodeSize
    case InvalidMiningProof => indexOk && |c.data| == spec.nodeSize && !CellProven(hs, root, c)
    case _ => false
  }

  ghost predicate FirstBadAudit(v: Verdict, hs: HashSuite, spec: Spec, header: Bytes, root: Hash32,
                                s: ColossusXSolution)
    requires spec.NodeCount() > 0
  {
    && |s.auditCells| == AUDIT_CELL_COUNT
    && exists k :: 0 <= k < |s.auditCells|
        && AuditOk(hs, spec, root, ReplayedSolutionHash(hs, header, s), s.auditCells, k)
        && BadAudit(v, hs, spec, root, ReplayedSolutionHash(hs, header, s), s.auditCells, k)
  }

  predicate BadAudit(v: Verdict, hs: HashSuite, spec: Spec, root: Hash32, solutionHash: Hash32,
                     supplied: seq<SolutionCell>, k: nat)
    requires k < |supplied| && k < AUDIT_CELL_COUNT && spec.NodeCount() > 0
  {
    var c := supplied[k];
    var indexOk := c.index == AuditIndexAt(hs, solutionHash, spec.NodeCount(), k);
    match v
    case InvalidAuditIndex => !indexOk
    case InvalidAuditProof => indexOk && !CellProven(hs, root, c)
    case _ => false
  }

  method VerifyMiningCells(hs: HashSuite, spec: Spec, root: Hash32, s: ColossusXSolution, initial: Hash64)
    returns (v: Verdict, mix: Hash64)
    requires spec.NodeCount() > 0
    ensures v == Accepted ==>
      && MiningOk(hs, spec, root, s.miningCells, initial, |s.miningCells|)
      && mix == ReplayMix(hs, s.miningCells, initial, |s.miningCells|)
    ensures v != Accepted ==> FirstBadRound(v, hs, spec, root, s, initial)
  {
    hide RoundMix, Climb;
    mix := initial;
    var round := 0;
    while round < |s.miningCells|
      invariant 0 <= round <= |s.miningCells|
      invariant mix == ReplayMix(hs, s.miningCells, initial, round)
      invariant MiningOk(hs, spec, root, s.miningCells, initial, round)
    {
      var c := s.miningCells[round];
      var f := Fnv1a32(round % TWO_32, Word(mix, 0));
      QuotientRemainder(f, spec.NodeCount());
      var expected := f % spec.NodeCount();
      if c.index != expected {
        v := InvalidMiningIndex;
        assert BadRound(v, hs, spec, root, s.miningCells, initial, round);
        return;
      }
      if |c.data| != spec.nodeSize {
        v := InvalidMiningCellSize;
        assert BadRound(v, hs, spec, root, s.miningCells, initial, round);
        return;
      }
      var ok := VerifyMerkleProof(hs.blake3, root, hs.blake3(c.data), c.index, c.proof);
      if !ok {
        v := InvalidMiningProof;
        assert BadRound(v, hs, spec, root, s.miningCells, initial, round);
        return;
      }
      assert MiningCellOk(hs, spec, root, s.miningCells, initial, round);
      mix := ColossusXRoundMix(hs, mix, c.data);
      round := round + 1;
    }
    v := Accepted;
  }

  method VerifyAuditCells(hs: HashSuite, spec: Spec, header: Bytes, root: Hash32, s: ColossusXSolution,
                          solutionHash: Hash32)
    returns (v: Verdict)
    requires spec.NodeCount() > 0 && solutionHash == ReplayedSolutionHash(hs, header, s)
    ensures v == Accepted ==>
      |s.auditCells| == AUDIT_CELL_COUNT && AuditOk(hs, spec, root, solutionHash, s.auditCells, |s.auditCells|)
    ensures v == InvalidAuditCellCount ==> |s.auditCells| != AUDIT_CELL_COUNT
    ensures v != Accepted && v != InvalidAuditCellCount ==> FirstBadAudit(v, hs, spec, header, root, s)
    ensures v in {Accepted, InvalidAuditCellCount, InvalidAuditIndex, InvalidAuditProof}
  {
    var expectAudit := ColossusXAuditIndices(hs, solutionHash, spec.NodeCount(), AUDIT_CELL_COUNT);
    if |s.auditCells| != |expectAudit| {
      return InvalidAuditCellCount;
    }
    var i := 0;
    while i < |s.auditCells|
      invariant 0 <= i <= |s.auditCells|
      invariant AuditOk(hs, spec, root, solutionHash, s.auditCells, i)
    {
      var c := s.auditCells[i];
      if c.index != expectAudit[i] {
        v := InvalidAuditIndex;
        assert BadAudit(v, hs, spec, root, solutionHash, s.auditCells, i);
        return;
      }
      var ok := VerifyMerkleProof(hs.blake3, root, hs.blake3(c.data), c.index, c.proof);
      if !ok {
        v := InvalidAuditProof;
        assert BadAudit(v, hs, spec, root, solutionHash, s.auditCells, i);
        return;
      }
      assert AuditCellOk(hs, spec, root, solutionHash, s.auditCells, i);
      i := i + 1;
    }
    v := Accepted;
  }

  method VerifyColossusXSolution(hs: HashSuite, spec: Spec, header: Bytes, target: Hash32, root: Hash32,
                                 s: ColossusXSolution)
    returns (v: Verdict)
    requires spec.NodeCount() > 0
    ensures Explains(v, hs, spec, header, target, root, s)
    ensures v == Accepted <==> Accepts(hs, spec, header, target, root, s)
  {
    var initial := hs.sha3x512(header + NonceBytes(s.nonce));
    if |s.miningCells| != SignedLength(spec.readsPerHash) {
      v := InvalidMiningCellCount;
      VerdictsDisagree(v, hs, spec, header, target, root, s);
      return;
    }
    var mix: Hash64;
    v, mix := VerifyMiningCells(hs, spec, root, s, initial);
    if v != Accepted {
      VerdictsDisagree(v, hs, spec, header, target, root, s);
      return;
    }
    if mix != s.mixDigest {
      v := MixDigestMismatch;
      VerdictsDisagree(v, hs, spec, header, target, root, s);
      return;
    }
    var result := hs.blake3(initial + mix);
    var ok := LessOrEqualBE(result, target);
    if !ok {
      v := PowTargetMismatch;
      VerdictsDisagree(v, hs, spec, header, target, root, s);
      return;
    }
    var solutionHash := hs.blake3(initial + mix + NonceBytes(s.nonce));
    v := VerifyAuditCells(hs, spec, header, root, s, solutionHash);
    if v != Accepted {
      VerdictsDisagree(v, hs, spec, header, target, root, s);
    }
  }

  /** A verdict other than acceptance is never given to a solution that passes every check. */
  lemma VerdictsDisagree(v: Verdict, hs: HashSuite, spec: Spec, header: Bytes, target: Hash32, root: Hash32,
                         s: ColossusXSolution)
    requires spec.NodeCount() > 0 && v != Accepted
    requires Explains(v, hs, spec, header, target, root, s)
    ensures !Accepts(hs, spec, header, target, root, s)
  {
    var initial := InitialHash(hs, header, s.nonce);
    match v
    case InvalidMiningIndex => BadRoundRejects(v, hs, spec, root, s, initial);
    case InvalidMiningCellSize => BadRoundRejects(v, hs, spec, root, s, initial);
    case InvalidMiningProof => BadRoundRejects(v, hs, spec, root, s, initial);
    case InvalidAuditIndex => BadAuditRejects(v, hs, spec, header, root, s);
    case InvalidAuditProof => BadAuditRejects(v, hs, spec, header, root, s);
    case _ =>
  }

  lemma BadRoundRejects(v: Verdict, hs: HashSuite, spec: Spec, root: Hash32, s: ColossusXSolution, initial: Hash64)
    requires spec.NodeCount() > 0 && FirstBadRound(v, hs, spec, root, s, initial)
    ensures !MiningOk(hs, spec, root, s.miningCells, initial, |s.miningCells|)
  {
    var k :| 0 <= k < |s.miningCells| && BadRound(v, hs, spec, root, s.miningCells, initial, k);
    BadRoundFails(v, hs, spec, root, s.miningCells, initial, k);
  }

  lemma BadRoundFails(v: Verdict, hs: HashSuite, spec: Spec, root: Hash32, supplied: seq<SolutionCell>,
                      initial: Hash64, k: nat)
    requires k < |supplied| && spec.NodeCount() > 0 && BadRound(v, hs, spec, root, supplied, initial, k)
    ensures !MiningCellOk(hs, spec, root, supplied, initial, k)
  {
  }

  lemma BadAuditRejects(v: Verdict, hs: HashSuite, spec: Spec, header: Bytes, root: Hash32, s: ColossusXSolution)
    requires spec.NodeCount() > 0 && FirstBadAudit(v, hs, spec, header, root, s)
    ensures !AuditOk(hs, spec, root, ReplayedSolutionHash(hs, header, s), s.auditCells, |s.auditCells|)
  {
    var solutionHash := ReplayedSolutionHash(hs, header, s);
    var k :| 0 <= k < |s.auditCells| && BadAudit(v, hs, spec, root, solutionHash, s.auditCells, k);
    BadAuditFails(v, hs, spec, root, solutionHash, s.auditCells, k);
  }

  lemma BadAuditFails(v: Verdict, hs: HashSuite, spec: Spec, root: Hash32, solutionHash: Hash32,
                      supplied: seq<SolutionCell>, k: nat)
    requires k < |supplied| && k < AUDIT_CELL_COUNT && spec.NodeCount() > 0
    requires BadAudit(v, hs, spec, root, solutionHash, supplied, k)
    ensures !AuditCellOk(hs, spec, root, solutionHash, supplied, k)
  {
  }
}
