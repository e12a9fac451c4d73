/**
 The best tip when insertions interleave. It survives every schedule in which no insertion moves the tip
 between the moment another reads it and the moment that other moves it; a schedule that breaks this
 rule loses it exactly when the block that moves last is not the better one.
 */
module InterleavedTip {
  import opened Base
  import opened ChainSpec
  import opened ChainStore
  import opened ForkChoice
  import opened Header
  import opened Interleaving
  import opened Target

  function HashAt(rules: Rules, s: State, i: nat): Hash32
    requires i < |s.threads|
  {
    rules.hashOf(s.threads[i].block.header)
  }

  /** The insertion of a stored block that has still to compete for the tip. */
  ghost predicate Pending(rules: Rules, s: State, hash: Hash32) {
    exists i :: 0 <= i < |s.threads| && PendingAt(rules, s, i, hash)
  }

  ghost predicate PendingAt(rules: Rules, s: State, i: nat, hash: Hash32)
    requires i < |s.threads|
  {
    HashAt(rules, s, i) == hash && (s.threads[i].pc.ReadTip? || s.threads[i].pc.MoveTip?)
  }

  ghost predicate WorkKnown(c: Chain) {
    c.work.Keys == c.blocks.Keys
  }

  ghost predicate IsOrBeats(c: Chain, a: Hash32, b: Hash32)
    requires WorkKnown(c) && a in c.blocks && b in c.blocks
  {
    a == b || Beats(a, c.work[a], b, c.work[b])
  }

  /** The tip beats every stored block that has finished competing for it. */
  ghost predicate TipCovers(rules: Rules, s: State)
    requires WorkKnown(s.chain)
  {
    if s.chain.tip == ZERO_HASH then s.chain.blocks == map[]
    else
      && s.chain.tip in s.chain.blocks
      && forall hash :: hash in s.chain.blocks ==> IsOrBeats(s.chain, s.chain.tip, hash) || Pending(rules, s, hash)
  }

  /** Whoever is about to move the tip moves it to something better. */
  ghost predicate MoversWin(rules: Rules, s: State)
    requires WorkKnown(s.chain)
  {
    forall i :: 0 <= i < |s.threads| && s.threads[i].pc.MoveTip? ==> MoverWins(rules, s, i)
  }

  ghost predicate MoverWins(rules: Rules, s: State, i: nat)
    requires WorkKnown(s.chain) && i < |s.threads|
  {
    && s.chain.tip in s.chain.blocks && HashAt(rules, s, i) in s.chain.blocks
    && IsOrBeats(s.chain, HashAt(rules, s, i), s.chain.tip)
  }

  /** If the step moves the tip, nobody else stands between reading the tip and moving it. */
  ghost predicate MovesAlone(s: State, i: nat) {
    i < |s.threads| && s.threads[i].pc.MoveTip? ==>
      forall j :: 0 <= j < |s.threads| && j != i ==> !s.threads[j].pc.MoveTip?
  }

  /** No tip is moved inside the window of another insertion. */
  ghost predicate WindowsApart(rules: Rules, s: State, schedule: seq<nat>)
    requires rules.spec.Valid()
  {
    schedule == [] ||
    (var init := schedule[..|schedule| - 1];
     WindowsApart(rules, s, init) && MovesAlone(RunSchedule(rules, s, init), schedule[|schedule| - 1]))
  }

  ghost predicate Good(rules: Rules, s: State) {
    Invariant(rules, s) && TipCovers(rules, s) && MoversWin(rules, s)
  }

  // ----- the order of blocks -----

  lemma IsOrBeatsTransitive(c: Chain, a: Hash32, b: Hash32, d: Hash32)
    requires WorkKnown(c) && a in c.blocks && b in c.blocks && d in c.blocks
    requires IsOrBeats(c, a, b) && IsOrBeats(c, b, d)
    ensures IsOrBeats(c, a, d)
  {
    BeatsIsTotalOrder(a, c.work[a], b, c.work[b], d, c.work[d]);
  }

  lemma IsOrBeatsTotal(c: Chain, a: Hash32, b: Hash32)
    requires WorkKnown(c) && a in c.blocks && b in c.blocks
    ensures IsOrBeats(c, a, b) || IsOrBeats(c, b, a)
    ensures IsOrBeats(c, a, b) && IsOrBeats(c, b, a) ==> a == b
  {
    BeatsIsTotalOrder(a, c.work[a], b, c.work[b], a, c.work[a]);
  }

  // ----- one step -----

  function WithPc(s: State, i: nat, pc: Pc): seq<Thread>
    requires i < |s.threads|
  {
    s.threads[i := s.threads[i].(pc := pc)]
  }

  lemma StoreShape(rules: Rules, s: State, i: nat)
    requires rules.spec.Valid() && i < |s.threads| && s.threads[i].pc.StoreBlock?
    ensures var t := s.threads[i];
            StepThread(rules, s, i) ==
              State(s.chain.Store(HashAt(rules, s, i), t.block, t.pc.work), WithPc(s, i, ReadTip(t.pc.work)))
  {
  }

  lemma ReadShape(rules: Rules, s: State, i: nat)
    requires rules.spec.Valid() && i < |s.threads| && s.threads[i].pc.ReadTip?
    ensures var pc := Step(rules, s.chain, s.threads[i]).1;
            (pc.MoveTip? || pc.Finished?) && StepThread(rules, s, i) == State(s.chain, WithPc(s, i, pc))
  {
  }

  lemma MoveShape(rules: Rules, s: State, i: nat)
    requires rules.spec.Valid() && i < |s.threads| && s.threads[i].pc.MoveTip? && HashAt(rules, s, i) in s.chain.blocks
    ensures var t := s.threads[i];
            StepThread(rules, s, i) ==
              State(s.chain.(tip := HashAt(rules, s, i)), WithPc(s, i, Finished(Inserted(t.pc.work, true))))
  {
  }

  lemma QuietShape(rules: Rules, s: State, i: nat)
    requires rules.spec.Valid() && i < |s.threads|
    requires var pc := s.threads[i].pc; !pc.StoreBlock? && !pc.ReadTip? && !pc.MoveTip?
    ensures var pc := Step(rules, s.chain, s.threads[i]).1;
            !pc.ReadTip? && !pc.MoveTip? && StepThread(rules, s, i) == State(s.chain, WithPc(s, i, pc))
  {
    hide BlockError, TotalWorkOn, CalcBlockWork;
  }

  /** What a thread finds out when it reads the tip. */
  lemma ReadingTheTip(rules: Rules, s: State, i: nat)
    requires rules.spec.Valid() && Good(rules, s) && i < |s.threads| && s.threads[i].pc.ReadTip?
    ensures s.chain.tip in s.chain.blocks && HashAt(rules, s, i) in s.chain.blocks
    ensures var pc := Step(rules, s.chain, s.threads[i]).1;
            if pc.MoveTip? then IsOrBeats(s.chain, HashAt(rules, s, i), s.chain.tip)
            else IsOrBeats(s.chain, s.chain.tip, HashAt(rules, s, i))
  {
    hide MoversWin, NoClashes, LinkedBelow, CalcBlockWork;
    var c, hash := s.chain, HashAt(rules, s, i);
    assert Knows(rules, c, s.threads[i]);
    assert Linked(rules.hashOf, c, c.tip);
    SelectionIsMaximum(c.tip, c.work[c.tip], hash, c.work[hash]);
    IsOrBeatsTotal(c, c.tip, hash);
  }

  /** The others stay pending when one thread takes a step. */
  lemma OthersStayPending(rules: Rules, s: State, s': State, i: nat, pc: Pc, hash: Hash32)
    requires i < |s.threads| && s'.threads == WithPc(s, i, pc) && Pending(rules, s, hash)
    requires PendingAt(rules, s, i, hash) ==> pc.ReadTip? || pc.MoveTip?
    ensures Pending(rules, s', hash)
  {
    var j :| 0 <= j < |s.threads| && PendingAt(rules, s, j, hash);
    assert PendingAt(rules, s', j, hash);
  }

  /** Movers stay winners when the chain keeps its tip and its works. */
  lemma OthersStayMovers(rules: Rules, s: State, s': State, i: nat, pc: Pc)
    requires WorkKnown(s.chain) && WorkKnown(s'.chain) && Extends(s.chain, s'.chain) && MoversWin(rules, s)
    requires i < |s.threads| && s'.threads == WithPc(s, i, pc)
    requires s'.chain.tip == s.chain.tip || forall j :: 0 <= j < |s.threads| && j != i ==> !s.threads[j].pc.MoveTip?
    requires pc.MoveTip? ==> MoverWins(rules, s', i)
    ensures MoversWin(rules, s')
  {
    hide Beats;
    forall j | 0 <= j < |s'.threads| && s'.threads[j].pc.MoveTip?
      ensures MoverWins(rules, s', j)
    {
      if j != i { assert MoverWins(rules, s, j); }
    }
  }

  /** Looking around changes nothing. */
  lemma QuietStep(rules: Rules, s: State, i: nat)
    requires rules.spec.Valid() && Good(rules, s) && i < |s.threads|
    requires var pc := s.threads[i].pc; !pc.StoreBlock? && !pc.ReadTip? && !pc.MoveTip?
    ensures var s' := StepThread(rules, s, i);
            s'.chain == s.chain && TipCovers(rules, s') && MoversWin(rules, s')
  {
    hide Step, StepThread, MoversWin, IsOrBeats, Linked, Knows, NoClashes;
    QuietShape(rules, s, i);
    var s', pc := StepThread(rules, s, i), Step(rules, s.chain, s.threads[i]).1;
    forall hash | hash in s.chain.blocks && Pending(rules, s, hash)
      ensures Pending(rules, s', hash)
    {
      OthersStayPending(rules, s, s', i, pc, hash);
    }
    OthersStayMovers(rules, s, s', i, pc);
  }

  lemma StoringCovers(rules: Rules, s: State, s': State, i: nat)
    requires WorkKnown(s.chain) && TipCovers(rules, s) && i < |s.threads| && s.threads[i].pc.StoreBlock?
    requires var t := s.threads[i];
             s' == State(s.chain.Store(HashAt(rules, s, i), t.block, t.pc.work), WithPc(s, i, ReadTip(t.pc.work)))
    requires WorkKnown(s'.chain) && Extends(s.chain, s'.chain) && HashAt(rules, s, i) != ZERO_HASH
    ensures TipCovers(rules, s')
  {
    hide Beats, Pending;
    var added := HashAt(rules, s, i);
    StoredIsPending(rules, s, s', i);
    forall hash | hash in s'.chain.blocks
      ensures IsOrBeats(s'.chain, s'.chain.tip, hash) || Pending(rules, s', hash)
    {
      if hash != added && Pending(rules, s, hash) {
        OthersStayPending(rules, s, s', i, ReadTip(s.threads[i].pc.work), hash);
      }
    }
  }

  lemma StoredIsPending(rules: Rules, s: State, s': State, i: nat)
    requires i < |s.threads| && s.threads[i].pc.StoreBlock? && s'.threads == WithPc(s, i, ReadTip(s.threads[i].pc.work))
    ensures Pending(rules, s', HashAt(rules, s, i))
  {
    assert PendingAt(rules, s', i, HashAt(rules, s, i));
  }

  lemma MoverIsStored(rules: Rules, s: State, j: nat)
    requires Invariant(rules, s) && j < |s.threads| && s.threads[j].pc.MoveTip?
    ensures HashAt(rules, s, j) in s.chain.blocks && s.chain.tip != ZERO_HASH
  {
    assert Knows(rules, s.chain, s.threads[j]);
  }

  /** A stored block waits for its turn, or is the first block there is. */
  lemma StoringStep(rules: Rules, s: State, i: nat)
    requires rules.spec.Valid() && Good(rules, s) && i < |s.threads| && s.threads[i].pc.StoreBlock?
    ensures var s' := StepThread(rules, s, i);
            WorkKnown(s'.chain) && TipCovers(rules, s') && MoversWin(rules, s')
  {
    hide Step, StepThread, MoversWin, TipCovers, Linked, NoClashes, LinkedBelow;
    var s' := StepThread(rules, s, i);
    StepThreadKeeps(rules, s, i);
    StoreShape(rules, s, i);
    assert Knows(rules, s.chain, s.threads[i]);
    StoringCovers(rules, s, s', i);
    forall j | 0 <= j < |s.threads| && s.threads[j].pc.MoveTip?
      ensures s'.chain.tip == s.chain.tip
    {
      MoverIsStored(rules, s, j);
    }
    OthersStayMovers(rules, s, s', i, ReadTip(s.threads[i].pc.work));
  }

  /** Reading the tip ends the competition, or starts a move that is sure to win. */
  lemma ReadingStep(rules: Rules, s: State, i: nat)
    requires rules.spec.Valid() && Good(rules, s) && i < |s.threads| && s.threads[i].pc.ReadTip?
    ensures var s' := StepThread(rules, s, i);
            s'.chain == s.chain && TipCovers(rules, s') && MoversWin(rules, s')
  {
    hide Step, StepThread, MoversWin, IsOrBeats, Linked, Knows, NoClashes, Pending;
    ReadingTheTip(rules, s, i);
    ReadShape(rules, s, i);
    var s', mine := StepThread(rules, s, i), HashAt(rules, s, i);
    var pc := Step(rules, s.chain, s.threads[i]).1;
    forall hash | hash in s.chain.blocks
      ensures IsOrBeats(s.chain, s.chain.tip, hash) || Pending(rules, s', hash)
    {
      if Pending(rules, s, hash) && (hash != mine || pc.MoveTip?) {
        OthersStayPending(rules, s, s', i, pc, hash);
      } else if hash == mine && pc.MoveTip? {
        MoverIsPending(rules, s', i);
      }
    }
    OthersStayMovers(rules, s, s', i, pc);
  }

  lemma MoverIsPending(rules: Rules, s: State, i: nat)
    requires i < |s.threads| && s.threads[i].pc.MoveTip?
    ensures Pending(rules, s, HashAt(rules, s, i))
  {
    assert PendingAt(rules, s, i, HashAt(rules, s, i));
  }

  /** A move to a block that is or beats the tip keeps every finished block beaten. */
  lemma MovingCovers(rules: Rules, s: State, s': State, i: nat)
    requires WorkKnown(s.chain) && TipCovers(rules, s) && i < |s.threads| && MoverWins(rules, s, i)
    requires s.chain.tip != ZERO_HASH && HashAt(rules, s, i) != ZERO_HASH && s.threads[i].pc.MoveTip?
    requires s' ==
      State(s.chain.(tip := HashAt(rules, s, i)), WithPc(s, i, Finished(Inserted(s.threads[i].pc.work, true))))
    ensures TipCovers(rules, s')
  {
    hide Beats, Pending;
    var mine := HashAt(rules, s, i);
    forall hash | hash in s'.chain.blocks
      ensures IsOrBeats(s'.chain, mine, hash) || Pending(rules, s', hash)
    {
      if hash != mine {
        if IsOrBeats(s.chain, s.chain.tip, hash) {
          IsOrBeatsTransitive(s.chain, mine, s.chain.tip, hash);
        } else {
          OthersStayPending(rules, s, s', i, s'.threads[i].pc, hash);
        }
      }
    }
  }

  lemma MovingStep(rules: Rules, s: State, i: nat)
    requires rules.spec.Valid() && Good(rules, s) && i < |s.threads| && s.threads[i].pc.MoveTip? && MovesAlone(s, i)
    ensures var s' := StepThread(rules, s, i);
            WorkKnown(s'.chain) && TipCovers(rules, s') && MoversWin(rules, s')
  {
    assert MoverWins(rules, s, i);
    MoverIsStored(rules, s, i);
    assert Knows(rules, s.chain, s.threads[i]);
    MoveShape(rules, s, i);
    hide Step, StepThread, TipCovers, MoverWins, Linked, NoClashes;
    var s' := StepThread(rules, s, i);
    MovingCovers(rules, s, s', i);
    OthersStayMovers(rules, s, s', i, s'.threads[i].pc);
  }

  lemma StepStaysGood(rules: Rules, s: State, i: nat)
    requires rules.spec.Valid() && Good(rules, s) && MovesAlone(s, i)
    ensures Good(rules, StepThread(rules, s, i))
  {
    StepThreadKeeps(rules, s, i);
    if i < |s.threads| {
      hide Step, StepThread, Invariant, TipCovers, MoversWin;
      match s.threads[i].pc
      case StoreBlock(_) => StoringStep(rules, s, i);
      case ReadTip(_) => ReadingStep(rules, s, i);
      case MoveTip(_) => MovingStep(rules, s, i);
      case _ => QuietStep(rules, s, i);
    }
  }

  // ----- whole schedules -----

  lemma {:induction false} ApartStaysGood(rules: Rules, s: State, schedule: seq<nat>)
    requires rules.spec.Valid() && Good(rules, s) && WindowsApart(rules, s, schedule)
    ensures Good(rules, RunSchedule(rules, s, schedule))
  {
    if schedule != [] {
      var init := schedule[..|schedule| - 1];
      ApartStaysGood(rules, s, init);
      StepStaysGood(rules, RunSchedule(rules, s, init), schedule[|schedule| - 1]);
    }
  }

  ghost predicate NothingPending(s: State) {
    forall i :: 0 <= i < |s.threads| ==> !s.threads[i].pc.ReadTip? && !s.threads[i].pc.MoveTip?
  }

  lemma CoveredIsBest(rules: Rules, s: State)
    requires Invariant(rules, s) && NothingPending(s)
    ensures TipCovers(rules, s) <==> TipIsBest(s.chain)
  {
  }

  /**
   Insertions that start on a chain with its best tip end on one, under every schedule in which no tip
   is moved inside the window of another insertion.
   */
  lemma BestTipSurvives(rules: Rules, c: Chain, threads: seq<Thread>, schedule: seq<nat>)
    requires rules.spec.Valid() && ChainInvariant(rules.hashOf, c) && Invariant(rules, State(c, threads))
    requires forall i :: 0 <= i < |threads| ==> threads[i].pc == Validate
    requires WindowsApart(rules, State(c, threads), schedule)
    requires NothingPending(RunSchedule(rules, State(c, threads), schedule))
    ensures ChainInvariant(rules.hashOf, RunSchedule(rules, State(c, threads), schedule).chain)
  {
    var s := State(c, threads);
    CoveredIsBest(rules, s);
    ApartStaysGood(rules, s, schedule);
    CoveredIsBest(rules, RunSchedule(rules, s, schedule));
  }

  // ----- when the rule is broken -----

  /**
   Exactly which moves are harmless: unless the tip's own insertion is still pending, moving the tip
   keeps every finished block beaten if and only if the new tip is or beats the old one.
   */
  lemma HarmlessMove(rules: Rules, s: State, i: nat)
    requires rules.spec.Valid() && Invariant(rules, s) && TipCovers(rules, s)
    requires i < |s.threads| && s.threads[i].pc.MoveTip? && !Pending(rules, StepThread(rules, s, i), s.chain.tip)
    ensures WorkKnown(StepThread(rules, s, i).chain)
    ensures TipCovers(rules, StepThread(rules, s, i)) <==> MoverWins(rules, s, i)
  {
    MoverIsStored(rules, s, i);
    assert Knows(rules, s.chain, s.threads[i]);
    MoveShape(rules, s, i);
    hide Step, StepThread, Linked, NoClashes, Pending, Knows;
    var s', mine := StepThread(rules, s, i), HashAt(rules, s, i);
    assert TipCovers(rules, s') ==> IsOrBeats(s'.chain, mine, s.chain.tip);
    if MoverWins(rules, s, i) {
      MovingCovers(rules, s, s', i);
    }
  }

  /** The insertion of a stored block that is going to move the tip if it reads it now. */
  ghost predicate AboutToMove(rules: Rules, s: State, i: nat)
    requires rules.spec.Valid()
  {
    i < |s.threads| && s.threads[i].pc.ReadTip? && Step(rules, s.chain, s.threads[i]).1.MoveTip?
  }

  function BothRead(first: nat, last: nat): seq<nat> {
    [first, last, first, last]
  }

  lemma FourSteps(rules: Rules, s: State, a: nat, b: nat, c: nat, d: nat)
    requires rules.spec.Valid()
    ensures RunSchedule(rules, s, [a, b, c, d]) ==
              StepThread(rules, StepThread(rules, StepThread(rules, StepThread(rules, s, a), b), c), d)
  {
    hide StepThread;
    assert [a, b, c, d][..3] == [a, b, c] && [a, b, c][..2] == [a, b] && [a, b][..1] == [a] && [a][..0] == [];
    assert RunSchedule(rules, s, [a]) == StepThread(rules, s, a);
    assert RunSchedule(rules, s, [a, b]) == StepThread(rules, RunSchedule(rules, s, [a]), b);
    assert RunSchedule(rules, s, [a, b, c]) == StepThread(rules, RunSchedule(rules, s, [a, b]), c);
  }

  /** Two insertions that read the same tip both move it: the one that moves last wins. */
  lemma LastMoverWins(rules: Rules, s: State, first: nat, last: nat)
    requires rules.spec.Valid() && Invariant(rules, s)
    requires first != last && AboutToMove(rules, s, first) && AboutToMove(rules, s, last)
    ensures RunSchedule(rules, s, BothRead(first, last)).chain == s.chain.(tip := HashAt(rules, s, last))
    ensures HashAt(rules, s, first) in s.chain.blocks && HashAt(rules, s, last) in s.chain.blocks
  {
    assert Knows(rules, s.chain, s.threads[first]) && Knows(rules, s.chain, s.threads[last]);
    hide Step, StepThread, Invariant, Knows;
    ReadShape(rules, s, first);
    var s1 := StepThread(rules, s, first);
    ReadShape(rules, s1, last);
    var s2 := StepThread(rules, s1, last);
    MoveShape(rules, s2, first);
    var s3 := StepThread(rules, s2, first);
    MoveShape(rules, s3, last);
    FourSteps(rules, s, first, last, first, last);
  }

  /**
   When the last mover beats all the other stored blocks, the tip it leaves is the best one if and only
   if it also beats the block that moved before it.
   */
  lemma BestTipIffLastIsBetter(rules: Rules, s: State, first: nat, last: nat)
    requires rules.spec.Valid() && Invariant(rules, s)
    requires first != last && AboutToMove(rules, s, first) && AboutToMove(rules, s, last)
    requires WorkKnown(s.chain) && HashAt(rules, s, first) in s.chain.blocks && HashAt(rules, s, last) in s.chain.blocks
    requires forall hash :: hash in s.chain.blocks && hash != HashAt(rules, s, first) ==>
      IsOrBeats(s.chain, HashAt(rules, s, last), hash)
    ensures WorkKnown(RunSchedule(rules, s, BothRead(first, last)).chain)
    ensures var after := RunSchedule(rules, s, BothRead(first, last)).chain;
            TipIsBest(after) <==> IsOrBeats(s.chain, HashAt(rules, s, last), HashAt(rules, s, first))
  {
    assert Knows(rules, s.chain, s.threads[last]);
    LastMoverWins(rules, s, first, last);
  }

  // ----- a race that loses the best tip -----

  /** Two threads taking turns, so many times each. */
  function Turns(n: nat): seq<nat> {
    if n == 0 then [] else Turns(n - 1) + [0] + [1]
  }

  lemma OneMoreTurn(rules: Rules, s: State, n: nat)
    requires rules.spec.Valid()
    ensures RunSchedule(rules, s, Turns(n + 1)) ==
              StepThread(rules, StepThread(rules, RunSchedule(rules, s, Turns(n)), 0), 1)
  {
    hide StepThread;
    var t := Turns(n);
    assert (t + [0] + [1])[..|t| + 1] == t + [0] && (t + [0])[..|t|] == t;
    assert RunSchedule(rules, s, t + [0]) == StepThread(rules, RunSchedule(rules, s, t), 0);
  }

  /** A fresh insertion of a block that is valid on the chain and not stored yet. */
  ghost predicate Contender(rules: Rules, c: Chain, t: Thread, work: nat)
    requires rules.spec.Valid()
  {
    && t.pc == Validate && t.block.header.height > 0
    && BlockError(rules, c, t.block, t.now).None?
    && rules.hashOf(t.block.header) !in c.blocks && rules.hashOf(t.block.header) != ZERO_HASH
    && TotalWorkOn(c, t.block.header) == Some(work)
  }

  lemma TurnOfTwo(rules: Rules, c: Chain, a: Thread, b: Thread)
    requires rules.spec.Valid()
    ensures var (d, p) := Step(rules, c, a);
            var (e, q) := Step(rules, d, b);
            StepThread(rules, StepThread(rules, State(c, [a, b]), 0), 1) == State(e, [a.(pc := p), b.(pc := q)])
  {
    hide Step;
  }

  lemma ContenderSteps(rules: Rules, c: Chain, t: Thread, work: nat)
    requires rules.spec.Valid() && Contender(rules, c, t, work)
    ensures Step(rules, c, t) == (c, CheckKnown)
    ensures Step(rules, c, t.(pc := CheckKnown)) == (c, ReadParentWork)
    ensures Step(rules, c, t.(pc := ReadParentWork)) == (c, StoreBlock(work))
  {
    hide BlockError, TotalWorkOn;
  }

  lemma ThreeTurns(rules: Rules, c: Chain, heavy: Thread, light: Thread, more: nat, less: nat)
    requires rules.spec.Valid() && Contender(rules, c, heavy, more) && Contender(rules, c, light, less)
    ensures RunSchedule(rules, State(c, [heavy, light]), Turns(3)) ==
              State(c, [heavy.(pc := StoreBlock(more)), light.(pc := StoreBlock(less))])
  {
    hide Step, StepThread, Contender;
    ContenderSteps(rules, c, heavy, more);
    ContenderSteps(rules, c, light, less);
    OneMoreTurn(rules, State(c, [heavy, light]), 0);
    OneMoreTurn(rules, State(c, [heavy, light]), 1);
    OneMoreTurn(rules, State(c, [heavy, light]), 2);
    TurnOfTwo(rules, c, heavy, light);
    TurnOfTwo(rules, c, heavy.(pc := CheckKnown), light.(pc := CheckKnown));
    TurnOfTwo(rules, c, heavy.(pc := ReadParentWork), light.(pc := ReadParentWork));
  }

  function BothStored(rules: Rules, c: Chain, heavy: Thread, light: Thread, more: nat, less: nat): Chain {
    var first := c.Store(rules.hashOf(heavy.block.header), heavy.block, more);
    first.Store(rules.hashOf(light.block.header), light.block, less)
  }

  lemma FourTurns(rules: Rules, c: Chain, heavy: Thread, light: Thread, more: nat, less: nat)
    requires rules.spec.Valid() && Contender(rules, c, heavy, more) && Contender(rules, c, light, less)
    ensures RunSchedule(rules, State(c, [heavy, light]), Turns(4)) ==
              State(BothStored(rules, c, heavy, light, more, less),
                    [heavy.(pc := ReadTip(more)), light.(pc := ReadTip(less))])
  {
    hide Contender, StepThread, RunSchedule, Turns;
    ThreeTurns(rules, c, heavy, light, more, less);
    OneMoreTurn(rules, State(c, [heavy, light]), 3);
    TurnOfTwo(rules, c, heavy.(pc := StoreBlock(more)), light.(pc := StoreBlock(less)));
  }

  /** A stored block that beats the tip is about to move it. */
  lemma BeatingMeansMoving(rules: Rules, s: State, i: nat, tipWork: nat)
    requires rules.spec.Valid() && i < |s.threads| && s.threads[i].pc.ReadTip?
    requires s.chain.tip != ZERO_HASH && s.chain.tip in s.chain.blocks && s.chain.WorkOf(s.chain.tip) == Some(tipWork)
    requires rules.hashOf(s.chain.blocks[s.chain.tip].header) == s.chain.tip
    requires Beats(HashAt(rules, s, i), s.threads[i].pc.work, s.chain.tip, tipWork)
    ensures AboutToMove(rules, s, i)
  {
    SelectionIsMaximum(s.chain.tip, tipWork, HashAt(rules, s, i), s.threads[i].pc.work);
    hide SelectBestChainByTotalWork, Beats, BlockError, TotalWorkOn;
  }

  lemma TipUntouched(rules: Rules, c: Chain, heavy: Thread, light: Thread, more: nat, less: nat)
    requires rules.spec.Valid() && ChainInvariant(rules.hashOf, c) && c.tip != ZERO_HASH
    requires rules.hashOf(heavy.block.header) !in c.blocks && rules.hashOf(light.block.header) !in c.blocks
    ensures c.tip in c.blocks && c.tip in c.work
    ensures var d := BothStored(rules, c, heavy, light, more, less);
            && d.tip == c.tip && d.tip in d.blocks && rules.hashOf(d.blocks[d.tip].header) == d.tip
            && d.WorkOf(d.tip) == Some(c.work[c.tip])
  {
    hide CalcBlockWork, Beats;
    assert Linked(rules.hashOf, c, c.tip);
  }

  /** Both read the old tip and beat it. */
  lemma BothAboutToMove(rules: Rules, c: Chain, heavy: Thread, light: Thread, more: nat, less: nat)
    requires rules.spec.Valid() && ChainInvariant(rules.hashOf, c) && c.tip != ZERO_HASH
    requires Contender(rules, c, heavy, more) && Contender(rules, c, light, less)
    requires Beats(rules.hashOf(heavy.block.header), more, c.tip, c.work[c.tip])
    requires Beats(rules.hashOf(light.block.header), less, c.tip, c.work[c.tip])
    ensures var s := RunSchedule(rules, State(c, [heavy, light]), Turns(4));
            AboutToMove(rules, s, 0) && AboutToMove(rules, s, 1)
  {
    FourTurns(rules, c, heavy, light, more, less);
    TipUntouched(rules, c, heavy, light, more, less);
    hide RunSchedule, Contender, AllLinked, TipIsBest, Beats, BothStored, AboutToMove;
    var s := RunSchedule(rules, State(c, [heavy, light]), Turns(4));
    BeatingMeansMoving(rules, s, 0, c.work[c.tip]);
    BeatingMeansMoving(rules, s, 1, c.work[c.tip]);
  }

  lemma TurnsAreBothRead(rules: Rules, s: State)
    requires rules.spec.Valid()
    ensures RunSchedule(rules, s, Turns(6)) == RunSchedule(rules, RunSchedule(rules, s, Turns(4)), BothRead(0, 1))
  {
    OneMoreTurn(rules, s, 4);
    OneMoreTurn(rules, s, 5);
    FourSteps(rules, RunSchedule(rules, s, Turns(4)), 0, 1, 0, 1);
    hide StepThread;
  }

  lemma LighterTip(rules: Rules, c: Chain, heavy: Thread, light: Thread, more: nat, less: nat)
    requires WorkKnown(c) && rules.hashOf(light.block.header) != ZERO_HASH
    requires rules.hashOf(heavy.block.header) != rules.hashOf(light.block.header)
    requires Beats(rules.hashOf(heavy.block.header), more, rules.hashOf(light.block.header), less)
    ensures var d := BothStored(rules, c, heavy, light, more, less).(tip := rules.hashOf(light.block.header));
            WorkKnown(d) && !TipIsBest(d)
  {
    var h, l := rules.hashOf(heavy.block.header), rules.hashOf(light.block.header);
    var d := BothStored(rules, c, heavy, light, more, less);
    BeatsIsTotalOrder(h, more, l, less, h, more);
    assert d.work[h] == more && d.work[l] == less;
  }

  lemma NonZeroHash(rules: Rules, c: Chain, t: Thread, work: nat)
    requires rules.spec.Valid() && Contender(rules, c, t, work)
    ensures rules.hashOf(t.block.header) != ZERO_HASH
  {
  }

  lemma RaceStarts(rules: Rules, c: Chain, heavy: Thread, light: Thread, more: nat, less: nat)
    requires rules.spec.Valid() && ChainInvariant(rules.hashOf, c)
    requires Contender(rules, c, heavy, more) && Contender(rules, c, light, less)
    requires rules.hashOf(heavy.block.header) != rules.hashOf(light.block.header)
    ensures Invariant(rules, State(c, [heavy, light]))
  {
    hide AllLinked, BlockError, TotalWorkOn, Knows;
    StartsInvariant(rules, c, [heavy, light]);
  }

  lemma RaceEnds(rules: Rules, c: Chain, heavy: Thread, light: Thread, more: nat, less: nat)
    requires rules.spec.Valid() && ChainInvariant(rules.hashOf, c) && c.tip != ZERO_HASH
    requires Contender(rules, c, heavy, more) && Contender(rules, c, light, less)
    requires Invariant(rules, State(c, [heavy, light]))
    requires Beats(rules.hashOf(heavy.block.header), more, c.tip, c.work[c.tip])
    requires Beats(rules.hashOf(light.block.header), less, c.tip, c.work[c.tip])
    ensures RunSchedule(rules, State(c, [heavy, light]), Turns(6)).chain ==
              BothStored(rules, c, heavy, light, more, less).(tip := rules.hashOf(light.block.header))
  {
    hide RunSchedule, Contender, AllLinked, TipIsBest, Beats, BothStored, AboutToMove, Invariant;
    var s := State(c, [heavy, light]);
    EveryInterleavingKeeps(rules, s, Turns(4));
    FourTurns(rules, c, heavy, light, more, less);
    BothAboutToMove(rules, c, heavy, light, more, less);
    TurnsAreBothRead(rules, s);
    LastMoverWins(rules, RunSchedule(rules, s, Turns(4)), 0, 1);
  }

  /**
   From any chain with its best tip: two fresh insertions of valid blocks that both beat the tip, taking
   turns, leave the lighter one as the tip.
   */
  lemma RaceLosesBestTip(rules: Rules, c: Chain, heavy: Thread, light: Thread, more: nat, less: nat)
    requires rules.spec.Valid() && ChainInvariant(rules.hashOf, c) && c.tip != ZERO_HASH
    requires Contender(rules, c, heavy, more) && Contender(rules, c, light, less)
    requires rules.hashOf(heavy.block.header) != rules.hashOf(light.block.header)
    requires Beats(rules.hashOf(heavy.block.header), more, rules.hashOf(light.block.header), less)
    requires Beats(rules.hashOf(light.block.header), less, c.tip, c.work[c.tip])
    ensures Invariant(rules, State(c, [heavy, light]))
    ensures WorkKnown(RunSchedule(rules, State(c, [heavy, light]), Turns(6)).chain)
    ensures !TipIsBest(RunSchedule(rules, State(c, [heavy, light]), Turns(6)).chain)
  {
    hide RunSchedule, Invariant, Contender, Linked, Beats, BothStored;
    var h, l := rules.hashOf(heavy.block.header), rules.hashOf(light.block.header);
    BeatsIsTotalOrder(h, more, l, less, c.tip, c.work[c.tip]);
    BeatsIsTotalOrder(h, more, h, more, h, more);
    NonZeroHash(rules, c, light, less);
    RaceStarts(rules, c, heavy, light, more, less);
    RaceEnds(rules, c, heavy, light, more, less);
    LighterTip(rules, c, heavy, light, more, less);
  }

  // ----- one such race, in numbers -----

  const RACE_SPEC: Spec := Spec(MODE_COLOSSUSX, 256, 256, 256, 256, 1, 1000, 2, ZERO_HASH)

  /** Block hashes that just number the nonces, and any proof of work accepted. */
  function NumberedHash(nonce: nat): Hash32 {
    LittleEndian(nonce + 1, 32)
  }

  function RaceRules(hs: HashSuite): Rules {
    Rules(hs, RACE_SPEC, (h: BlockHeader) => NumberedHash(h.nonce), (b: Block) => true)
  }

  function RaceTarget(value: nat): Hash32 {
    BigEndian(value, 32)
  }

  function RaceBlock(hs: HashSuite, height: Uint32, parent: Hash32, nonce: Uint64, target: nat): Block {
    Block(BlockHeader(1, 2, height, parent, height, RaceTarget(target), nonce, RACE_SPEC.EpochSeedForHeight(hs, 0), 256,
                      NumberedHash(0), ZERO_HASH, ZERO_HASH), [], None, None)
  }

  function RaceGenesis(hs: HashSuite): Block {
    RaceBlock(hs, 0, ZERO_HASH, 0, 255)
  }

  /** The chain that holds the genesis block. */
  function RaceChain(hs: HashSuite): Chain {
    EMPTY_CHAIN.Store(NumberedHash(0), RaceGenesis(hs), CalcBlockWork(RaceTarget(255)))
  }

  function RaceThread(hs: HashSuite, nonce: Uint64, target: nat): Thread {
    Thread(RaceBlock(hs, 1, NumberedHash(0), nonce, target), 1, Validate)
  }

  lemma HashesDiffer(m: Uint64, n: Uint64)
    ensures NumberedHash(m) != ZERO_HASH
    ensures NumberedHash(m) == NumberedHash(n) ==> m == n
  {
    hide LittleEndian, FromLittleEndian, Pow256;
    WideEnough();
    LittleEndianRoundTrip(m + 1, 32);
    LittleEndianRoundTrip(n + 1, 32);
    ZeroIsZero(32);
  }

  lemma WideEnough()
    ensures Pow256(32) > TWO_64
  {
    SixtyFourBits();
    Pow256Sum(8, 24);
    assert Pow256(24) > 1 by { assert Pow256(24) == 256 * Pow256(23); Pow256Sum(1, 23); }
  }

  lemma {:induction false} ZeroIsZero(n: nat)
    ensures FromLittleEndian(ZeroBytes(n)) == 0
  {
    if n > 0 {
      assert ZeroBytes(n)[1..] == ZeroBytes(n - 1);
      ZeroIsZero(n - 1);
    }
  }

  lemma RaceWork(target: Uint32)
    requires target > 0
    ensures RaceTarget(target) != ZERO_HASH && CalcBlockWork(RaceTarget(target)) == TWO_256 / (target + 1)
  {
    WideEnough();
    BigEndianRoundTrip(target, 32);
    BigZeroIsZero(32);
  }

  lemma {:induction false} BigZeroIsZero(n: nat)
    ensures FromBigEndian(ZeroBytes(n)) == 0
  {
    if n > 0 {
      assert ZeroBytes(n)[..n - 1] == ZeroBytes(n - 1);
      BigZeroIsZero(n - 1);
    }
  }

  lemma RaceEpoch(hs: HashSuite, height: Uint32, parent: Hash32, nonce: Uint64, target: nat)
    requires height <= 1
    ensures RACE_SPEC.Valid()
    ensures EpochAcceptable(hs, RACE_SPEC, ClaimOf(RaceBlock(hs, height, parent, nonce, target).header))
  {
    hide BigEndian, RaceTarget, NumberedHash;
    assert RACE_SPEC.EpochOf(height) == 0 && RACE_SPEC.EpochOf(0) == 0;
  }

  /** Both blocks are fine on top of the genesis block. */
  lemma RaceContender(hs: HashSuite, nonce: Uint64, target: Uint32)
    requires nonce > 0 && target > 0
    ensures RACE_SPEC.Valid()
    ensures Contender(RaceRules(hs), RaceChain(hs), RaceThread(hs, nonce, target),
                      TWO_256 / (target + 1) + RaceChain(hs).work[NumberedHash(0)])
  {
    hide BigEndian, LittleEndian, CalcBlockWork, EpochAcceptable, RaceTarget, NumberedHash;
    RaceEpoch(hs, 1, NumberedHash(0), nonce, target);
    RaceWork(target);
    HashesDiffer(nonce, 0);
    HashesDiffer(0, 0);
  }

  lemma RaceChainInvariant(hs: HashSuite)
    ensures RACE_SPEC.Valid() && ChainInvariant(RaceRules(hs).hashOf, RaceChain(hs)) && RaceChain(hs).tip != ZERO_HASH
  {
    hide BigEndian, LittleEndian, CalcBlockWork, RaceTarget, NumberedHash;
    HashesDiffer(0, 0);
  }

  lemma MoreWorkBeats(a: Hash32, aWork: int, b: Hash32, bWork: int)
    requires aWork > bWork
    ensures Beats(a, aWork, b, bWork)
  {
  }

  /** On that chain, the block with half of all hashes as its work loses the tip to one with a third of them. */
  lemma ARaceLosesBestTip(hs: HashSuite)
    ensures RACE_SPEC.Valid() && ChainInvariant(RaceRules(hs).hashOf, RaceChain(hs))
    ensures var s := State(RaceChain(hs), [RaceThread(hs, 1, 1), RaceThread(hs, 2, 2)]);
            && Invariant(RaceRules(hs), s)
            && WorkKnown(RunSchedule(RaceRules(hs), s, Turns(6)).chain)
            && !TipIsBest(RunSchedule(RaceRules(hs), s, Turns(6)).chain)
  {
    hide RunSchedule, Invariant, Contender, AllLinked, TipIsBest, NumberedHash, CalcBlockWork, RaceTarget, Turns,
      WorkKnown, Beats;
    RaceChainInvariant(hs);
    RaceContender(hs, 1, 1);
    RaceContender(hs, 2, 2);
    HashesDiffer(1, 2);
    var genesis := RaceChain(hs).work[NumberedHash(0)];
    MoreWorkBeats(NumberedHash(1), TWO_256 / 2 + genesis, NumberedHash(2), TWO_256 / 3 + genesis);
    MoreWorkBeats(NumberedHash(2), TWO_256 / 3 + genesis, NumberedHash(0), genesis);
    RaceLosesBestTip(RaceRules(hs), RaceChain(hs), RaceThread(hs, 1, 1), RaceThread(hs, 2, 2),
                     TWO_256 / 2 + genesis, TWO_256 / 3 + genesis);
  }
}
