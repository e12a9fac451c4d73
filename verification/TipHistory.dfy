/**
 Exactly which schedules keep the best tip. Once stored, the best block is the tip, or an insertion of it
 still competes, or the tip has been taken from it when none did: and then it does not get the tip back
 unless it is stored once more.
 */
module TipHistory {
  import opened Base
  import opened ChainStore
  import opened ForkChoice
  import opened InterleavedTip
  import opened Interleaving

  /** The block that is or beats every stored block. */
  ghost predicate IsBest(c: Chain, best: Hash32) {
    WorkKnown(c) && best in c.blocks && forall hash :: hash in c.blocks ==> IsOrBeats(c, best, hash)
  }

  /** The step takes the tip from the block while no insertion of it competes. */
  ghost predicate TakesTip(rules: Rules, s: State, i: nat, best: Hash32)
    requires rules.spec.Valid()
  {
    s.chain.tip == best && StepThread(rules, s, i).chain.tip != best && !Pending(rules, s, best)
  }

  /** The step stores the block, which will then compete. */
  predicate Stores(rules: Rules, s: State, i: nat, best: Hash32) {
    i < |s.threads| && s.threads[i].pc.StoreBlock? && HashAt(rules, s, i) == best
  }

  /** Since the block was last stored, the tip has been taken from it while no insertion of it competed. */
  ghost predicate LosesTip(rules: Rules, s: State, schedule: seq<nat>, best: Hash32)
    requires rules.spec.Valid()
  {
    schedule != [] &&
    (var init, last := schedule[..|schedule| - 1], schedule[|schedule| - 1];
     var before := RunSchedule(rules, s, init);
     (LosesTip(rules, s, init, best) && !Stores(rules, before, last, best)) || TakesTip(rules, before, last, best))
  }

  // ----- until the tip is taken from it, the best block has it or competes for it -----

  ghost predicate HasOrWants(rules: Rules, s: State, best: Hash32) {
    best in s.chain.blocks ==> s.chain.tip == best || Pending(rules, s, best)
  }

  lemma MovingHasOrWants(rules: Rules, s: State, i: nat, best: Hash32)
    requires rules.spec.Valid() && Invariant(rules, s) && i < |s.threads| && s.threads[i].pc.MoveTip?
    requires HasOrWants(rules, s, best)
    ensures HasOrWants(rules, StepThread(rules, s, i), best) || TakesTip(rules, s, i, best)
  {
    hide Step, StepThread, AllLinked, Knows, NoClashes;
    MoverIsStored(rules, s, i);
    MoveShape(rules, s, i);
    var s' := StepThread(rules, s, i);
    if Pending(rules, s, best) && HashAt(rules, s, i) != best {
      OthersStayPending(rules, s, s', i, s'.threads[i].pc, best);
    }
  }

  lemma StoringHasOrWants(rules: Rules, s: State, i: nat, best: Hash32)
    requires rules.spec.Valid() && Invariant(rules, s) && i < |s.threads| && s.threads[i].pc.StoreBlock?
    requires HasOrWants(rules, s, best) && best != ZERO_HASH
    ensures HasOrWants(rules, StepThread(rules, s, i), best)
  {
    hide Step, StepThread, AllLinked, Knows, NoClashes;
    StoreShape(rules, s, i);
    var s' := StepThread(rules, s, i);
    StoredIsPending(rules, s, s', i);
    if Pending(rules, s, best) {
      OthersStayPending(rules, s, s', i, s'.threads[i].pc, best);
    }
  }

  lemma ReadingHasOrWants(rules: Rules, s: State, i: nat, best: Hash32)
    requires rules.spec.Valid() && Invariant(rules, s) && i < |s.threads| && s.threads[i].pc.ReadTip?
    requires HasOrWants(rules, s, best)
    requires best in s.chain.blocks ==> IsBest(s.chain, best)
    ensures HasOrWants(rules, StepThread(rules, s, i), best)
  {
    hide Step, StepThread, Linked, NoClashes;
    ReadShape(rules, s, i);
    var s', pc := StepThread(rules, s, i), Step(rules, s.chain, s.threads[i]).1;
    if best in s.chain.blocks && s.chain.tip != best {
      if HashAt(rules, s, i) == best {
        BestWillMove(rules, s, i);
      }
      OthersStayPending(rules, s, s', i, pc, best);
    }
  }

  /** The insertion of the best block finds that it beats whatever is the tip. */
  lemma BestWillMove(rules: Rules, s: State, i: nat)
    requires rules.spec.Valid() && Invariant(rules, s) && i < |s.threads| && s.threads[i].pc.ReadTip?
    requires IsBest(s.chain, HashAt(rules, s, i)) && s.chain.tip != HashAt(rules, s, i)
    ensures Step(rules, s.chain, s.threads[i]).1.MoveTip?
  {
    hide Invariant, Step;
    TipIsLinked(rules, s);
    ReaderKnowsWork(rules, s, i);
    BeatingMeansMoving(rules, s, i, s.chain.work[s.chain.tip]);
    hide Beats;
  }

  lemma TipIsLinked(rules: Rules, s: State)
    requires Invariant(rules, s) && s.chain.blocks != map[]
    ensures s.chain.tip != ZERO_HASH && s.chain.tip in s.chain.blocks && s.chain.tip in s.chain.work
    ensures rules.hashOf(s.chain.blocks[s.chain.tip].header) == s.chain.tip
  {
    hide Knows, NoClashes;
    assert Linked(rules.hashOf, s.chain, s.chain.tip);
  }

  lemma ReaderKnowsWork(rules: Rules, s: State, i: nat)
    requires Invariant(rules, s) && i < |s.threads| && s.threads[i].pc.ReadTip?
    ensures s.chain.WorkOf(HashAt(rules, s, i)) == Some(s.threads[i].pc.work)
  {
    hide AllLinked, NoClashes;
    assert Knows(rules, s.chain, s.threads[i]);
  }

  lemma QuietHasOrWants(rules: Rules, s: State, i: nat, best: Hash32)
    requires rules.spec.Valid() && i < |s.threads| && HasOrWants(rules, s, best)
    requires var pc := s.threads[i].pc; !pc.StoreBlock? && !pc.ReadTip? && !pc.MoveTip?
    ensures HasOrWants(rules, StepThread(rules, s, i), best)
  {
    hide Step, StepThread;
    QuietShape(rules, s, i);
    var s' := StepThread(rules, s, i);
    if Pending(rules, s, best) {
      OthersStayPending(rules, s, s', i, s'.threads[i].pc, best);
    }
  }

  lemma StepHasOrWants(rules: Rules, s: State, i: nat, best: Hash32)
    requires rules.spec.Valid() && Invariant(rules, s) && HasOrWants(rules, s, best) && best != ZERO_HASH
    requires best in s.chain.blocks ==> IsBest(s.chain, best)
    ensures HasOrWants(rules, StepThread(rules, s, i), best) || TakesTip(rules, s, i, best)
  {
    if i < |s.threads| {
      hide Invariant, HasOrWants, TakesTip, StepThread, IsBest;
      match s.threads[i].pc
      case StoreBlock(_) => StoringHasOrWants(rules, s, i, best);
      case ReadTip(_) => ReadingHasOrWants(rules, s, i, best);
      case MoveTip(_) => MovingHasOrWants(rules, s, i, best);
      case _ => QuietHasOrWants(rules, s, i, best);
    }
  }

  lemma StoringWants(rules: Rules, s: State, i: nat)
    requires rules.spec.Valid() && i < |s.threads| && s.threads[i].pc.StoreBlock?
    ensures HasOrWants(rules, StepThread(rules, s, i), HashAt(rules, s, i))
  {
    hide Step, StepThread;
    StoreShape(rules, s, i);
    StoredIsPending(rules, s, StepThread(rules, s, i), i);
  }

  /** What is best in the end was best as soon as it was stored. */
  lemma BestAllAlong(c: Chain, d: Chain, best: Hash32)
    requires Extends(c, d) && WorkKnown(c) && IsBest(d, best) && best in c.blocks
    ensures IsBest(c, best)
  {
    hide Beats;
    forall hash | hash in c.blocks
      ensures IsOrBeats(c, best, hash)
    {
      assert IsOrBeats(d, best, hash);
    }
  }

  lemma {:induction false} HasOrWantsOrLost(rules: Rules, s: State, schedule: seq<nat>, d: Chain, best: Hash32)
    requires rules.spec.Valid() && Invariant(rules, s) && HasOrWants(rules, s, best) && best != ZERO_HASH
    requires Extends(RunSchedule(rules, s, schedule).chain, d) && IsBest(d, best)
    ensures HasOrWants(rules, RunSchedule(rules, s, schedule), best) || LosesTip(rules, s, schedule, best)
  {
    if schedule != [] {
      hide Invariant, HasOrWants, TakesTip, StepThread, IsBest, Extends;
      var init, last := schedule[..|schedule| - 1], schedule[|schedule| - 1];
      var before := RunSchedule(rules, s, init);
      EveryInterleavingKeeps(rules, s, init);
      StepThreadKeeps(rules, before, last);
      ExtendsTransitive(before.chain, RunSchedule(rules, s, schedule).chain, d);
      HasOrWantsOrLost(rules, s, init, d, best);
      InvariantKnowsWork(rules, before);
      if best in before.chain.blocks {
        BestAllAlong(before.chain, d, best);
      }
      if HasOrWants(rules, before, best) {
        StepHasOrWants(rules, before, last, best);
      } else if Stores(rules, before, last, best) {
        StoringWants(rules, before, last);
      }
    }
  }

  lemma ExtendsTransitive(a: Chain, b: Chain, c: Chain)
    requires Extends(a, b) && Extends(b, c)
    ensures Extends(a, c)
  {
  }

  lemma InvariantKnowsWork(rules: Rules, s: State)
    requires Invariant(rules, s)
    ensures WorkKnown(s.chain) && ZERO_HASH !in s.chain.blocks
  {
    StoredHashesNonZero(rules.hashOf, s.chain);
  }

  // ----- once it has been taken, the tip never comes back -----

  ghost predicate Gone(rules: Rules, s: State, best: Hash32) {
    && best in s.chain.blocks && s.chain.tip != best && s.chain.tip != ZERO_HASH
    && !Pending(rules, s, best)
  }

  lemma PendingBefore(rules: Rules, s: State, s': State, i: nat, pc: Pc, hash: Hash32)
    requires i < |s.threads| && s'.threads == WithPc(s, i, pc) && Pending(rules, s', hash)
    requires HashAt(rules, s, i) == hash && (pc.ReadTip? || pc.MoveTip?) ==> PendingAt(rules, s, i, hash)
    ensures Pending(rules, s, hash)
  {
    var j :| 0 <= j < |s'.threads| && PendingAt(rules, s', j, hash);
    assert PendingAt(rules, s, j, hash);
  }

  lemma GoneStays(rules: Rules, s: State, i: nat, best: Hash32)
    requires rules.spec.Valid() && Invariant(rules, s) && Gone(rules, s, best) && !Stores(rules, s, i, best)
    ensures Gone(rules, StepThread(rules, s, i), best)
  {
    hide Step, Pending, PendingAt, Invariant;
    InvariantKnowsWork(rules, s);
    if i < |s.threads| {
      hide StepThread;
      var s' := StepThread(rules, s, i);
      TipAndPending(rules, s, i);
      OwnPending(rules, s, i, best);
      if s.threads[i].pc.MoveTip? {
        MoverIsStored(rules, s, i);
      }
      if Pending(rules, s', best) {
        PendingBefore(rules, s, s', i, s'.threads[i].pc, best);
      }
    }
  }

  lemma OwnPending(rules: Rules, s: State, i: nat, hash: Hash32)
    requires i < |s.threads| && !Pending(rules, s, hash)
    ensures HashAt(rules, s, i) == hash ==> !s.threads[i].pc.ReadTip? && !s.threads[i].pc.MoveTip?
  {
    assert !PendingAt(rules, s, i, hash);
  }

  lemma TipAndPending(rules: Rules, s: State, i: nat)
    requires rules.spec.Valid() && i < |s.threads| && s.chain.tip != ZERO_HASH
    ensures var s' := StepThread(rules, s, i);
            && s'.threads == WithPc(s, i, s'.threads[i].pc) && s.chain.blocks.Keys <= s'.chain.blocks.Keys
            && (s'.chain.tip != s.chain.tip ==> s.threads[i].pc.MoveTip? && s'.chain.tip == HashAt(rules, s, i))
            && (s.threads[i].pc.MoveTip? ==> s'.threads[i].pc.Finished?)
            && (s'.threads[i].pc.ReadTip? || s'.threads[i].pc.MoveTip? ==>
                  s.threads[i].pc.StoreBlock? || s.threads[i].pc.ReadTip? || s.threads[i].pc.MoveTip?)
  {
    hide BlockError, TotalWorkOn, SelectBestChainByTotalWork;
  }

  lemma TakenIsGone(rules: Rules, s: State, i: nat, best: Hash32)
    requires rules.spec.Valid() && Invariant(rules, s) && TakesTip(rules, s, i, best) && best != ZERO_HASH
    ensures Gone(rules, StepThread(rules, s, i), best)
  {
    var s' := StepThread(rules, s, i);
    TipAndPending(rules, s, i);
    MoverIsStored(rules, s, i);
    hide Step, StepThread, Knows, AllLinked, NoClashes;
    if Pending(rules, s', best) {
      PendingBefore(rules, s, s', i, s'.threads[i].pc, best);
    }
  }

  lemma {:induction false} LostIsGone(rules: Rules, s: State, schedule: seq<nat>, best: Hash32)
    requires rules.spec.Valid() && Invariant(rules, s) && best != ZERO_HASH && LosesTip(rules, s, schedule, best)
    ensures Gone(rules, RunSchedule(rules, s, schedule), best)
  {
    hide Invariant, Gone, TakesTip, Stores, StepThread;
    var init, last := schedule[..|schedule| - 1], schedule[|schedule| - 1];
    var before := RunSchedule(rules, s, init);
    EveryInterleavingKeeps(rules, s, init);
    if TakesTip(rules, before, last, best) {
      TakenIsGone(rules, before, last, best);
    } else {
      LostIsGone(rules, s, init, best);
      GoneStays(rules, before, last, best);
    }
  }

  // ----- the theorem -----

  lemma {:induction false} BestOf(c: Chain, hashes: set<Hash32>) returns (best: Hash32)
    requires WorkKnown(c) && hashes <= c.blocks.Keys && hashes != {}
    ensures best in hashes && forall hash :: hash in hashes ==> IsOrBeats(c, best, hash)
  {
    hide Beats;
    var one :| one in hashes;
    if hashes == {one} {
      return one;
    }
    best := BestOf(c, hashes - {one});
    IsOrBeatsTotal(c, best, one);
    if IsOrBeats(c, one, best) {
      forall hash | hash in hashes
        ensures IsOrBeats(c, one, hash)
      {
        if hash != one { IsOrBeatsTransitive(c, one, best, hash); }
      }
      best := one;
    }
  }

  lemma TipIsBestIsTip(c: Chain, best: Hash32)
    requires IsBest(c, best) && ZERO_HASH !in c.blocks
    ensures TipIsBest(c) <==> c.tip == best
  {
    hide Beats;
    if c.tip in c.blocks {
      IsOrBeatsTotal(c, c.tip, best);
    }
  }

  /**
   Fresh insertions on a chain with its best tip, under any schedule. The block that is best in the end
   is the tip, or still competes for it, if and only if since it was last stored no step took the tip
   from it while no insertion of it competed. With nothing competing, that is when the best tip is kept.
   */
  lemma BestTipIff(rules: Rules, c: Chain, threads: seq<Thread>, schedule: seq<nat>, best: Hash32)
    requires rules.spec.Valid() && ChainInvariant(rules.hashOf, c) && Invariant(rules, State(c, threads))
    requires forall i :: 0 <= i < |threads| ==> threads[i].pc == Validate
    requires IsBest(RunSchedule(rules, State(c, threads), schedule).chain, best)
    ensures var after := RunSchedule(rules, State(c, threads), schedule);
            && (after.chain.tip == best || Pending(rules, after, best) <==>
                  !LosesTip(rules, State(c, threads), schedule, best))
            && (NothingPending(after) ==>
                  (TipIsBest(after.chain) <==> !LosesTip(rules, State(c, threads), schedule, best)))
  {
    hide Invariant, IsBest, LosesTip, Gone, Pending, AllLinked, TipIsBest;
    var s := State(c, threads);
    var after := RunSchedule(rules, s, schedule);
    EveryInterleavingKeeps(rules, s, schedule);
    InvariantKnowsWork(rules, s);
    InvariantKnowsWork(rules, after);
    BestIsStored(after.chain, best);
    StartsWithBest(rules, s, after.chain, best);
    HasOrWantsOrLost(rules, s, schedule, after.chain, best);
    if LosesTip(rules, s, schedule, best) {
      LostIsGone(rules, s, schedule, best);
      GoneIsGone(rules, after, best);
    }
    TipIsBestIsTip(after.chain, best);
    if NothingPending(after) {
      NobodyPending(rules, after, best);
    }
  }

  lemma GoneIsGone(rules: Rules, s: State, best: Hash32)
    requires Gone(rules, s, best)
    ensures s.chain.tip != best && !Pending(rules, s, best)
  {
  }

  lemma BestIsStored(c: Chain, best: Hash32)
    requires IsBest(c, best)
    ensures best in c.blocks
  {
  }

  lemma NobodyPending(rules: Rules, s: State, hash: Hash32)
    requires NothingPending(s)
    ensures !Pending(rules, s, hash)
  {
  }

  lemma StartsWithBest(rules: Rules, s: State, d: Chain, best: Hash32)
    requires rules.spec.Valid() && ChainInvariant(rules.hashOf, s.chain) && Invariant(rules, s)
    requires Extends(s.chain, d) && IsBest(d, best)
    ensures HasOrWants(rules, s, best)
  {
    hide AllLinked, IsBest, TipIsBest;
    InvariantKnowsWork(rules, s);
    if best in s.chain.blocks {
      BestAllAlong(s.chain, d, best);
      TipIsBestIsTip(s.chain, best);
    }
  }

  /** There is such a block as soon as anything is stored. */
  lemma SomeBlockIsBest(rules: Rules, s: State) returns (best: Hash32)
    requires Invariant(rules, s) && s.chain.blocks != map[]
    ensures IsBest(s.chain, best)
  {
    InvariantKnowsWork(rules, s);
    hide Invariant, IsOrBeats;
    var one :| one in s.chain.blocks;
    assert one in s.chain.blocks.Keys;
    best := BestOf(s.chain, s.chain.blocks.Keys);
  }
}
