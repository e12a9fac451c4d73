/**
 Insertions running at the same time. Each store call is atomic but an insertion makes several, and
 nothing holds a lock across them, so any number of insertions may interleave call by call.
 */
module Interleaving {
  import opened Base
  import opened ChainStore
  import opened ForkChoice
  import opened Header
  import Target

  /** The next store call of an insertion. */
  datatype Pc =
    | Validate
    | CheckKnown
    | ReadKnownWork
    | ReadParentWork
    | StoreBlock(work: nat)
    | ReadTip(work: nat)
    | MoveTip(work: nat)
    | Finished(result: InsertResult)

  datatype Thread = Thread(block: Block, now: int, pc: Pc)

  datatype State = State(chain: Chain, threads: seq<Thread>)

  /** One store call of one thread: the new chain and where the thread goes next. */
  function Step(rules: Rules, c: Chain, t: Thread): (Chain, Pc)
    requires rules.spec.Valid()
  {
    var hash := rules.hashOf(t.block.header);
    match t.pc
    case Validate =>
      var err := BlockError(rules, c, t.block, t.now);
      (c, if err.Some? then Finished(Rejected(err.value)) else CheckKnown)
    case CheckKnown =>
      (c, if hash in c.blocks then ReadKnownWork
          else if t.block.header.height > 0 then ReadParentWork
          else StoreBlock(Target.CalcBlockWork(t.block.header.target)))
    case ReadKnownWork =>
      (c, Finished(if hash in c.work then Inserted(c.work[hash], false) else Rejected(NotFound)))
    case ReadParentWork =>
      (c, match TotalWorkOn(c, t.block.header)
          case Some(work) => StoreBlock(work)
          case None => Finished(Rejected(NotFound)))
    case StoreBlock(work) =>
      (c.Store(hash, t.block, work), ReadTip(work))
    case ReadTip(work) =>
      (c, match c.CurrentTip()
          case None => MoveTip(work)
          case Some((tip, tipWork)) =>
            if SelectBestChainByTotalWork(rules.hashOf(tip.header), tipWork, hash, work) == hash
            then MoveTip(work) else Finished(Inserted(work, false)))
    case MoveTip(work) =>
      (c.MoveTip(hash), Finished(if hash in c.blocks then Inserted(work, true) else Rejected(NotFound)))
    case Finished(_) => (c, t.pc)
  }

  function StepThread(rules: Rules, s: State, i: nat): State
    requires rules.spec.Valid()
  {
    if i < |s.threads| then
      var (c, pc) := Step(rules, s.chain, s.threads[i]);
      State(c, s.threads[i := s.threads[i].(pc := pc)])
    else s
  }

  /** A schedule names, step by step, the thread whose store call runs next. */
  function RunSchedule(rules: Rules, s: State, schedule: seq<nat>): State
    requires rules.spec.Valid()
  {
    if schedule == [] then s
    else StepThread(rules, RunSchedule(rules, s, schedule[..|schedule| - 1]), schedule[|schedule| - 1])
  }

  // ----- what every interleaving keeps -----

  ghost predicate TipStored(c: Chain) {
    if c.tip == ZERO_HASH then c.blocks == map[] else c.tip in c.blocks
  }

  /** What a thread has learned stays true, whatever the others do. */
  ghost predicate Knows(rules: Rules, c: Chain, t: Thread) {
    var hash := rules.hashOf(t.block.header);
    && hash != ZERO_HASH
    && (hash in c.blocks ==> c.blocks[hash].header == t.block.header)
    && match t.pc
       case Validate => true
       case CheckKnown => LinkedBelow(c, t.block.header)
       case ReadKnownWork => hash in c.blocks
       case ReadParentWork => LinkedBelow(c, t.block.header)
       case StoreBlock(work) => LinkedBelow(c, t.block.header) && TotalWorkOn(c, t.block.header) == Some(work)
       case ReadTip(work) => hash in c.blocks && c.WorkOf(hash) == Some(work)
       case MoveTip(work) => hash in c.blocks && c.WorkOf(hash) == Some(work)
       case Finished(result) => result.Inserted? ==> hash in c.blocks && c.WorkOf(hash) == Some(result.work)
  }

  ghost predicate LinkedBelow(c: Chain, h: BlockHeader) {
    LinkError(h, c.HeaderOf(h.parentHash)).None?
  }

  /** Two insertions with one hash carry one header. */
  ghost predicate NoClash(rules: Rules, a: Thread, b: Thread) {
    rules.hashOf(a.block.header) == rules.hashOf(b.block.header) ==> a.block.header == b.block.header
  }

  ghost predicate NoClashes(rules: Rules, threads: seq<Thread>) {
    forall i, j :: 0 <= i < |threads| && 0 <= j < |threads| ==> NoClash(rules, threads[i], threads[j])
  }

  ghost predicate Invariant(rules: Rules, s: State) {
    && AllLinked(rules.hashOf, s.chain) && TipStored(s.chain)
    && NoClashes(rules, s.threads)
    && forall i :: 0 <= i < |s.threads| ==> Knows(rules, s.chain, s.threads[i])
  }

  /** Stored headers and their work never change and never go away. */
  ghost predicate Extends(c: Chain, d: Chain) {
    && (forall hash :: hash in c.blocks ==> hash in d.blocks && c.blocks[hash].header == d.blocks[hash].header)
    && (forall hash :: hash in c.work ==> hash in d.work && c.work[hash] == d.work[hash])
  }

  lemma LinkIsStable(c: Chain, d: Chain, h: BlockHeader)
    requires Extends(c, d) && LinkedBelow(c, h)
    ensures LinkedBelow(d, h)
    ensures TotalWorkOn(c, h).Some? ==> TotalWorkOn(d, h) == TotalWorkOn(c, h)
  {
  }

  lemma KnowledgeIsStable(rules: Rules, c: Chain, d: Chain, t: Thread)
    requires Extends(c, d) && Knows(rules, c, t)
    requires var hash := rules.hashOf(t.block.header); hash in d.blocks ==> d.blocks[hash].header == t.block.header
    ensures Knows(rules, d, t)
  {
    match t.pc
    case CheckKnown => LinkIsStable(c, d, t.block.header);
    case ReadParentWork => LinkIsStable(c, d, t.block.header);
    case StoreBlock(_) => LinkIsStable(c, d, t.block.header);
    case _ =>
  }

  /** Storing a block again, with the header and work it already has, changes no link. */
  lemma StoringAgain(hashOf: BlockHeader -> Hash32, c: Chain, b: Block, work: nat)
    requires AllLinked(hashOf, c) && hashOf(b.header) in c.blocks
    requires c.blocks[hashOf(b.header)].header == b.header && TotalWorkOn(c, b.header) == Some(work)
    ensures AllLinked(hashOf, c.Store(hashOf(b.header), b, work)) && Extends(c, c.Store(hashOf(b.header), b, work))
  {
    WorkIsForced(hashOf, c, b, work);
    StoringAgainExtends(hashOf, c, b, work);
    SameBlocksStayLinked(hashOf, c, c.Store(hashOf(b.header), b, work));
  }

  lemma WorkIsForced(hashOf: BlockHeader -> Hash32, c: Chain, b: Block, work: nat)
    requires AllLinked(hashOf, c) && hashOf(b.header) in c.blocks
    requires c.blocks[hashOf(b.header)].header == b.header && TotalWorkOn(c, b.header) == Some(work)
    ensures c.work[hashOf(b.header)] == work
  {
    assert Linked(hashOf, c, hashOf(b.header));
  }

  lemma StoringAgainExtends(hashOf: BlockHeader -> Hash32, c: Chain, b: Block, work: nat)
    requires hashOf(b.header) in c.blocks && c.blocks[hashOf(b.header)].header == b.header
    requires c.WorkOf(hashOf(b.header)) == Some(work)
    ensures var d := c.Store(hashOf(b.header), b, work);
            Extends(c, d) && d.blocks.Keys == c.blocks.Keys && d.work.Keys == c.work.Keys
  {
  }

  lemma SameBlocksStayLinked(hashOf: BlockHeader -> Hash32, c: Chain, d: Chain)
    requires AllLinked(hashOf, c) && Extends(c, d) && d.blocks.Keys == c.blocks.Keys && d.work.Keys == c.work.Keys
    ensures AllLinked(hashOf, d)
  {
    forall hash | hash in d.blocks
      ensures Linked(hashOf, d, hash)
    {
      assert Linked(hashOf, c, hash);
      SameHeadersStayLinked(hashOf, c, d, hash);
    }
  }

  lemma SameHeadersStayLinked(hashOf: BlockHeader -> Hash32, c: Chain, d: Chain, hash: Hash32)
    requires Extends(c, d) && hash in c.blocks && Linked(hashOf, c, hash)
    ensures Linked(hashOf, d, hash)
  {
  }

  lemma StoreStep(rules: Rules, c: Chain, t: Thread)
    requires AllLinked(rules.hashOf, c) && Knows(rules, c, t) && t.pc.StoreBlock?
    ensures var d := c.Store(rules.hashOf(t.block.header), t.block, t.pc.work);
            AllLinked(rules.hashOf, d) && Extends(c, d)
  {
    if rules.hashOf(t.block.header) in c.blocks {
      StoringAgain(rules.hashOf, c, t.block, t.pc.work);
    } else {
      StoreKeepsLinks(rules.hashOf, c, t.block, t.pc.work);
    }
  }

  /** A call that only looks leaves the chain alone, and the thread knows what it has seen. */
  lemma LookingKeeps(rules: Rules, c: Chain, t: Thread)
    requires rules.spec.Valid() && AllLinked(rules.hashOf, c) && Knows(rules, c, t)
    requires !t.pc.StoreBlock? && !t.pc.MoveTip?
    ensures var (d, pc) := Step(rules, c, t);
            d == c && Knows(rules, c, t.(pc := pc))
  {
    hide Linked, Target.CalcBlockWork, HeaderError, SelectBestChainByTotalWork;
    match t.pc
    case Validate =>
      if BlockError(rules, c, t.block, t.now).None? {
        ValidMeansLinked(rules, c, t.block, t.now);
      }
    case ReadKnownWork =>
      assert Linked(rules.hashOf, c, rules.hashOf(t.block.header));
    case _ =>
  }

  /** Storing the block leaves it readable with the work the thread computed. */
  lemma StoreCallKeeps(rules: Rules, c: Chain, t: Thread)
    requires rules.spec.Valid() && AllLinked(rules.hashOf, c) && TipStored(c) && Knows(rules, c, t)
    requires t.pc.StoreBlock?
    ensures var (d, pc) := Step(rules, c, t);
            AllLinked(rules.hashOf, d) && TipStored(d) && Extends(c, d) && Knows(rules, d, t.(pc := pc))
  {
    hide Linked, LinkedBelow, TotalWorkOn;
    StoreStep(rules, c, t);
    hide AllLinked, Extends;
  }

  /** The tip moves to a stored block, and nothing else changes. */
  lemma MoveCallKeeps(rules: Rules, c: Chain, t: Thread)
    requires rules.spec.Valid() && AllLinked(rules.hashOf, c) && TipStored(c) && Knows(rules, c, t)
    requires t.pc.MoveTip?
    ensures var (d, pc) := Step(rules, c, t);
            AllLinked(rules.hashOf, d) && TipStored(d) && Extends(c, d) && Knows(rules, d, t.(pc := pc))
  {
    hide Linked, LinkedBelow, TotalWorkOn;
    SameBlocksStayLinked(rules.hashOf, c, c.MoveTip(rules.hashOf(t.block.header)));
    hide AllLinked;
  }

  lemma StepKeeps(rules: Rules, c: Chain, t: Thread)
    requires rules.spec.Valid() && AllLinked(rules.hashOf, c) && TipStored(c) && Knows(rules, c, t)
    ensures var (d, pc) := Step(rules, c, t);
            AllLinked(rules.hashOf, d) && TipStored(d) && Extends(c, d) && Knows(rules, d, t.(pc := pc))
  {
    hide AllLinked, TipStored, Knows, Step;
    if t.pc.StoreBlock? {
      StoreCallKeeps(rules, c, t);
    } else if t.pc.MoveTip? {
      MoveCallKeeps(rules, c, t);
    } else {
      LookingKeeps(rules, c, t);
    }
  }

  /** Only the thread that runs can store its hash. */
  lemma StoredHeader(rules: Rules, c: Chain, t: Thread, u: Thread)
    requires rules.spec.Valid() && NoClash(rules, t, u) && Knows(rules, c, u)
    ensures var hash := rules.hashOf(u.block.header);
            var d := Step(rules, c, t).0;
            hash in d.blocks ==> d.blocks[hash].header == u.block.header
  {
  }

  lemma StepThreadKeeps(rules: Rules, s: State, i: nat)
    requires rules.spec.Valid() && Invariant(rules, s)
    ensures Invariant(rules, StepThread(rules, s, i)) && Extends(s.chain, StepThread(rules, s, i).chain)
  {
    hide AllLinked, TipStored, Knows;
    if i < |s.threads| {
      var s' := StepThread(rules, s, i);
      StepKeeps(rules, s.chain, s.threads[i]);
      forall j | 0 <= j < |s'.threads|
        ensures Knows(rules, s'.chain, s'.threads[j])
      {
        if j != i {
          StoredHeader(rules, s.chain, s.threads[i], s.threads[j]);
          KnowledgeIsStable(rules, s.chain, s'.chain, s.threads[j]);
        }
      }
      forall j, k | 0 <= j < |s'.threads| && 0 <= k < |s'.threads|
        ensures NoClash(rules, s'.threads[j], s'.threads[k])
      {
        assert NoClash(rules, s.threads[j], s.threads[k]);
      }
    }
  }

  /**
   Under every schedule of store calls: stored blocks stay on stored parents with the work of their
   path, nothing stored is lost, and the tip is a stored block.
   */
  lemma {:induction false} EveryInterleavingKeeps(rules: Rules, s: State, schedule: seq<nat>)
    requires rules.spec.Valid() && Invariant(rules, s)
    ensures Invariant(rules, RunSchedule(rules, s, schedule)) && Extends(s.chain, RunSchedule(rules, s, schedule).chain)
  {
    if schedule != [] {
      var before := RunSchedule(rules, s, schedule[..|schedule| - 1]);
      EveryInterleavingKeeps(rules, s, schedule[..|schedule| - 1]);
      StepThreadKeeps(rules, before, schedule[|schedule| - 1]);
    }
  }

  /** Fresh insertions on a chain whose stored headers they do not contradict. */
  lemma StartsInvariant(rules: Rules, c: Chain, threads: seq<Thread>)
    requires AllLinked(rules.hashOf, c) && TipStored(c) && NoClashes(rules, threads)
    requires forall i :: 0 <= i < |threads| ==>
      threads[i].pc == Validate && rules.hashOf(threads[i].block.header) != ZERO_HASH
    requires forall i :: 0 <= i < |threads| && rules.hashOf(threads[i].block.header) in c.blocks ==>
      c.blocks[rules.hashOf(threads[i].block.header)].header == threads[i].block.header
    ensures Invariant(rules, State(c, threads))
  {
  }

  // ----- what an uninterrupted insertion is -----

  function RunAlone(rules: Rules, c: Chain, t: Thread, steps: nat): (Chain, Pc)
    requires rules.spec.Valid()
    decreases steps
  {
    if steps == 0 then (c, t.pc)
    else
      var (d, pc) := Step(rules, c, t);
      RunAlone(rules, d, t.(pc := pc), steps - 1)
  }

  lemma {:induction false} FinishedStays(rules: Rules, c: Chain, t: Thread, steps: nat)
    requires rules.spec.Valid() && t.pc.Finished?
    ensures RunAlone(rules, c, t, steps) == (c, t.pc)
  {
    if steps > 0 {
      assert t.(pc := t.pc) == t;
      FinishedStays(rules, c, t, steps - 1);
    }
  }

  lemma AloneFromStore(rules: Rules, c: Chain, t: Thread, steps: nat)
    requires rules.spec.Valid() && t.pc.StoreBlock? && steps >= 3
    ensures RunAlone(rules, c, t, steps) ==
      (StoreAndCompete(rules.hashOf, c, t.block, t.pc.work).0,
       Finished(StoreAndCompete(rules.hashOf, c, t.block, t.pc.work).1))
  {
    hide Target.Value, Target.CalcBlockWork, BlockError, HeaderError, SelectBestChainByTotalWork;
    var t1 := t.(pc := ReadTip(t.pc.work));
    var stored := c.Store(rules.hashOf(t.block.header), t.block, t.pc.work);
    assert RunAlone(rules, c, t, steps) == RunAlone(rules, stored, t1, steps - 1);
    var t2 := t1.(pc := Step(rules, stored, t1).1);
    assert RunAlone(rules, stored, t1, steps - 1) == RunAlone(rules, stored, t2, steps - 2);
    if t2.pc.Finished? {
      FinishedStays(rules, stored, t2, steps - 2);
    } else {
      var (moved, pc3) := Step(rules, stored, t2);
      assert RunAlone(rules, stored, t2, steps - 2) == RunAlone(rules, moved, t2.(pc := pc3), steps - 3);
      FinishedStays(rules, moved, t2.(pc := pc3), steps - 3);
    }
  }

  lemma AloneFromCheck(rules: Rules, c: Chain, t: Thread, steps: nat)
    requires rules.spec.Valid() && t.pc.CheckKnown? && steps >= 5
    ensures RunAlone(rules, c, t, steps) ==
      (InsertValid(rules.hashOf, c, t.block).0, Finished(InsertValid(rules.hashOf, c, t.block).1))
  {
    var t1 := t.(pc := Step(rules, c, t).1);
    assert RunAlone(rules, c, t, steps) == RunAlone(rules, c, t1, steps - 1);
    if t1.pc.StoreBlock? {
      AloneFromStore(rules, c, t1, steps - 1);
    } else {
      var t2 := t1.(pc := Step(rules, c, t1).1);
      assert RunAlone(rules, c, t1, steps - 1) == RunAlone(rules, c, t2, steps - 2);
      if t2.pc.StoreBlock? {
        AloneFromStore(rules, c, t2, steps - 2);
      } else {
        FinishedStays(rules, c, t2, steps - 2);
      }
    }
  }

  /** A thread that is never interrupted does exactly what the serial insertion does, within six calls. */
  lemma AloneIsSerial(rules: Rules, c: Chain, t: Thread)
    requires rules.spec.Valid() && t.pc == Validate
    ensures RunAlone(rules, c, t, 6) ==
      (Insert(rules, c, t.block, t.now).0, Finished(Insert(rules, c, t.block, t.now).1))
  {
    var t1 := t.(pc := Step(rules, c, t).1);
    assert RunAlone(rules, c, t, 6) == RunAlone(rules, c, t1, 5);
    if t1.pc.Finished? {
      FinishedStays(rules, c, t1, 5);
    } else {
      AloneFromCheck(rules, c, t1, 5);
    }
  }
}
