/**
 The nonce search. Workers walk interleaved strides of the range and share a found flag, a result
 channel of capacity one and a cancellation; any schedule of their steps is allowed.
 */
module Miner {
  import opened Base
  import opened Arithmetic

  /** Adding to a 64-bit nonce, or nothing when the sum does not fit. */
  function AddUint64(nonce: Uint64, delta: Uint64): (r: Option<Uint64>)
    ensures r.Some? <==> nonce + delta < TWO_64
    ensures r.Some? ==> r.value == nonce + delta
  {
    if TWO_64 - 1 - nonce < delta then None else Some(nonce + delta)
  }

  /** A search: how many workers, where to start, how many nonces (zero: no limit), and which nonces hit. */
  datatype Search = Search(workers: Uint64, start: Uint64, maxNonces: Uint64, hits: Uint64 -> bool) {
    predicate Valid() {
      workers > 0
    }

    /** The nonces the search is allowed to try. */
    predicate InRange(nonce: int) {
      start <= nonce < TWO_64 && (maxNonces > 0 ==> nonce - start < maxNonces)
    }
  }

  datatype Pc =
    | CheckContext
    | CheckFound
    | HashNonce
    | Swap
    | Send
    | Cancel
    | Next
    | Done

  datatype Worker = Worker(nonce: Uint64, pc: Pc)

  /** `log` lists every nonce in the order it was hashed. */
  datatype State = State(
    workers: seq<Worker>,
    found: bool,
    cancelled: bool,
    channel: seq<Uint64>,
    log: seq<Uint64>)

  function StartWorker(s: Search, id: Uint64): Worker {
    match AddUint64(s.start, id)
    case Some(nonce) => Worker(nonce, CheckContext)
    case None => Worker(0, Done)
  }

  function Initial(s: Search): (m: State)
    ensures |m.workers| == s.workers
  {
    State(seq(s.workers, id requires 0 <= id < s.workers => StartWorker(s, id)), false, false, [], [])
  }

  /** Whether the worker's own limit check lets it hash its nonce. */
  predicate WithinLimit(s: Search, nonce: Uint64) {
    s.maxNonces > 0 ==> (nonce - s.start) % TWO_64 < s.maxNonces
  }

  /** One step of one worker. Steps that only touch its own nonce go with the step before them. */
  function Step(s: Search, m: State, w: nat): State
    requires w < |m.workers|
  {
    var me := m.workers[w];
    match me.pc
    case CheckContext => Goto(m, w, if m.cancelled then Done else CheckFound)
    case CheckFound => Goto(m, w, if m.found || !WithinLimit(s, me.nonce) then Done else HashNonce)
    case HashNonce => Goto(m.(log := m.log + [me.nonce]), w, if s.hits(me.nonce) then Swap else Next)
    case Swap => if m.found then Goto(m, w, Done) else Goto(m.(found := true), w, Send)
    case Send => Goto(m.(channel := m.channel + [me.nonce]), w, Cancel)
    case Cancel => Goto(m.(cancelled := true), w, Done)
    case Next =>
      (match AddUint64(me.nonce, s.workers)
       case Some(nonce) => m.(workers := m.workers[w := Worker(nonce, CheckContext)])
       case None => Goto(m, w, Done))
    case Done => m
  }

  function Goto(m: State, w: nat, pc: Pc): State
    requires w < |m.workers|
  {
    m.(workers := m.workers[w := m.workers[w].(pc := pc)])
  }

  /** A run is driven by a schedule of worker numbers. */
  function Run(s: Search, schedule: seq<nat>): (m: State)
    ensures |m.workers| == s.workers
  {
    if schedule == [] then Initial(s)
    else
      var before := Run(s, schedule[..|schedule| - 1]);
      var w := schedule[|schedule| - 1];
      if w < |before.workers| then Step(s, before, w) else before
  }

  predicate Terminated(m: State) {
    forall w :: 0 <= w < |m.workers| ==> m.workers[w].pc == Done
  }

  // ----- who hashes what -----

  /** The nonce worker w tries on its i-th turn. */
  function Turn(s: Search, w: nat, i: nat): int {
    s.start + w + i * s.workers
  }

  /** Every nonce at or after the start is one worker's one turn. */
  lemma TurnUnique(s: Search, nonce: int, w: nat, i: nat)
    requires s.Valid() && w < s.workers && nonce == Turn(s, w, i)
    ensures w == (nonce - s.start) % s.workers && i == (nonce - s.start) / s.workers
  {
    QuotientUnique(nonce - s.start, s.workers, i, w);
  }

  lemma TurnOf(s: Search, nonce: int)
    requires s.Valid() && nonce >= s.start
    ensures var w, i := (nonce - s.start) % s.workers, (nonce - s.start) / s.workers;
            0 <= w < s.workers && i >= 0 && nonce == Turn(s, w, i)
  {
    DivMod(nonce - s.start, s.workers);
    MulMonotone((nonce - s.start) / s.workers, -1, s.workers);
    MulMonotone(-1, (nonce - s.start) / s.workers, s.workers);
  }

  predicate HasHashed(pc: Pc) {
    pc in {Swap, Send, Cancel, Next}
  }

  /** A worker is on turn `taken`, is dealing with the turn before it, or has stopped for good reason. */
  ghost predicate WorkerInv(s: Search, w: nat, me: Worker, taken: nat, found: bool) {
    && (me.pc in {CheckContext, CheckFound, HashNonce} ==> me.nonce == Turn(s, w, taken))
    && (HasHashed(me.pc) ==> taken > 0 && me.nonce == Turn(s, w, taken - 1))
    && (HasHashed(me.pc) || me.pc == HashNonce ==> s.InRange(me.nonce))
    && (me.pc in {Swap, Send, Cancel} ==> s.hits(me.nonce))
    && (me.pc in {Send, Cancel} ==> found)
    && (me.pc == Done && !found ==> !s.InRange(Turn(s, w, taken)))
  }

  ghost predicate WorkersInv(s: Search, m: State, taken: seq<nat>) {
    && |m.workers| == |taken| == s.workers
    && forall w :: 0 <= w < |taken| ==> WorkerInv(s, w, m.workers[w], taken[w], m.found)
  }

  /** Worker number and turn of a nonce that has been tried. */
  predicate Tried(s: Search, taken: seq<nat>, nonce: int)
    requires s.Valid() && |taken| == s.workers
  {
    nonce >= s.start && (TurnOf(s, nonce); (nonce - s.start) / s.workers < taken[(nonce - s.start) % s.workers])
  }

  /** The log holds exactly the tried nonces, each once. */
  ghost predicate LogInv(s: Search, m: State, taken: seq<nat>)
    requires s.Valid() && |taken| == s.workers
  {
    && (forall nonce: Uint64 :: multiset(m.log)[nonce] == if Tried(s, taken, nonce) then 1 else 0)
    && (forall nonce: Uint64 :: nonce in m.log ==> s.InRange(nonce))
  }

  /** A hit that has been hashed is being claimed, or something has been found. */
  ghost predicate HitsInv(s: Search, m: State) {
    !m.found ==> forall nonce: Uint64 :: nonce in m.log && s.hits(nonce) ==> Claiming(m, nonce)
  }

  ghost predicate Claiming(m: State, nonce: Uint64) {
    exists w :: 0 <= w < |m.workers| && m.workers[w] == Worker(nonce, Swap)
  }

  ghost predicate Sending(m: State) {
    exists w :: 0 <= w < |m.workers| && m.workers[w].pc == Send
  }

  /** One winner: it is about to send, or its nonce is the only one in the channel. */
  ghost predicate ChannelInv(s: Search, m: State) {
    && |m.channel| <= 1
    && (forall nonce :: nonce in m.channel ==> s.hits(nonce) && s.InRange(nonce))
    && (m.found <==> Sending(m) || m.channel != [])
    && (Sending(m) ==> m.channel == [])
    && (forall v, w ::
      0 <= v < |m.workers| && 0 <= w < |m.workers| && m.workers[v].pc == Send && m.workers[w].pc == Send ==> v == w)
    && (forall w :: 0 <= w < |m.workers| && m.workers[w].pc == Cancel ==> m.channel != [])
    && (m.cancelled ==> m.channel != [])
  }

  ghost predicate Inv(s: Search, m: State, taken: seq<nat>) {
    && s.Valid() && WorkersInv(s, m, taken)
    && LogInv(s, m, taken) && HitsInv(s, m) && ChannelInv(s, m)
  }

  lemma TurnNext(s: Search, w: nat, i: nat)
    ensures Turn(s, w, i + 1) == Turn(s, w, i) + s.workers
  {
    assert (i + 1) * s.workers == i * s.workers + s.workers;
  }

  lemma InitialInv(s: Search) returns (taken: seq<nat>)
    requires s.Valid()
    ensures Inv(s, Initial(s), taken)
  {
    taken := seq(s.workers, _ => 0);
    var m := Initial(s);
    forall nonce: Uint64
      ensures !Tried(s, taken, nonce)
    {
      if nonce >= s.start { TurnOf(s, nonce); }
    }
  }

  /** The turns taken after a step: one more for a worker that hashes. */
  ghost function TakenAfter(m: State, w: nat, taken: seq<nat>): seq<nat>
    requires w < |m.workers| == |taken|
  {
    if m.workers[w].pc == HashNonce then taken[w := taken[w] + 1] else taken
  }

  lemma StepWorkers(s: Search, m: State, w: nat, taken: seq<nat>)
    requires Inv(s, m, taken) && w < |m.workers|
    ensures WorkersInv(s, Step(s, m, w), TakenAfter(m, w, taken))
  {
    var me := m.workers[w];
    var m' := Step(s, m, w);
    var taken' := TakenAfter(m, w, taken);
    assert WorkerInv(s, w, me, taken[w], m.found);
    StepOne(s, m, w, taken);
    forall v | 0 <= v < |taken'|
      ensures WorkerInv(s, v, m'.workers[v], taken'[v], m'.found)
    {
      if v != w {
        assert WorkerInv(s, v, m.workers[v], taken[v], m.found);
      }
    }
  }

  lemma StepOne(s: Search, m: State, w: nat, taken: seq<nat>)
    requires s.Valid() && w < |m.workers| == |taken| == s.workers && WorkerInv(s, w, m.workers[w], taken[w], m.found)
    requires m.cancelled ==> m.found
    ensures var m' := Step(s, m, w);
            WorkerInv(s, w, m'.workers[w], TakenAfter(m, w, taken)[w], m'.found) && (m.found ==> m'.found)
  {
    var me := m.workers[w];
    MulMonotone(0, taken[w], s.workers);
    match me.pc
    case Next =>
      TurnNext(s, w, taken[w] - 1);
    case _ =>
  }

  /** Taking one more turn adds exactly the nonce of that turn. */
  lemma TriedOneMore(s: Search, taken: seq<nat>, w: nat, nonce: int)
    requires s.Valid() && w < |taken| == s.workers
    ensures Tried(s, taken[w := taken[w] + 1], nonce) <==> Tried(s, taken, nonce) || nonce == Turn(s, w, taken[w])
    ensures !Tried(s, taken, Turn(s, w, taken[w]))
  {
    MulMonotone(0, taken[w], s.workers);
    TurnUnique(s, Turn(s, w, taken[w]), w, taken[w]);
    if nonce >= s.start {
      TurnOf(s, nonce);
    }
  }

  lemma StepLog(s: Search, m: State, w: nat, taken: seq<nat>)
    requires Inv(s, m, taken) && w < |m.workers|
    ensures LogInv(s, Step(s, m, w), TakenAfter(m, w, taken))
  {
    var me := m.workers[w];
    HashingShape(s, m, w);
    assert WorkerInv(s, w, me, taken[w], m.found);
    if me.pc == HashNonce {
      hide Step, Tried, Turn, HitsInv, ChannelInv, WorkersInv;
      var m' := Step(s, m, w);
      forall nonce: Uint64
        ensures multiset(m'.log)[nonce] == if Tried(s, TakenAfter(m, w, taken), nonce) then 1 else 0
      {
        TriedOneMore(s, taken, w, nonce);
      }
    }
  }

  /** Only hashing adds to the log. */
  lemma HashingShape(s: Search, m: State, w: nat)
    requires w < |m.workers|
    ensures Step(s, m, w).log == if m.workers[w].pc == HashNonce then m.log + [m.workers[w].nonce] else m.log
  {
  }

  lemma StepHits(s: Search, m: State, w: nat, taken: seq<nat>)
    requires Inv(s, m, taken) && w < |m.workers|
    ensures HitsInv(s, Step(s, m, w))
  {
    var me := m.workers[w];
    var m' := Step(s, m, w);
    if !m'.found {
      forall nonce: Uint64 | nonce in m'.log && s.hits(nonce)
        ensures Claiming(m', nonce)
      {
        if nonce in m.log {
          var v :| 0 <= v < |m.workers| && m.workers[v] == Worker(nonce, Swap);
          assert v != w;
          assert m'.workers[v] == Worker(nonce, Swap);
        } else {
          assert m'.workers[w] == Worker(nonce, Swap);
        }
      }
    }
  }

  lemma StepChannel(s: Search, m: State, w: nat, taken: seq<nat>)
    requires Inv(s, m, taken) && w < |m.workers|
    ensures ChannelInv(s, Step(s, m, w))
  {
    var me := m.workers[w];
    var m' := Step(s, m, w);
    assert WorkerInv(s, w, me, taken[w], m.found);
    forall v | 0 <= v < |m.workers| && v != w
      ensures m'.workers[v] == m.workers[v]
    {
    }
    if Sending(m) && me.pc != Send {
      var v :| 0 <= v < |m.workers| && m.workers[v].pc == Send;
      assert m'.workers[v].pc == Send;
    }
    if me.pc == Swap && !m.found {
      assert m'.workers[w].pc == Send;
    }
  }

  /** Every schedule keeps the invariant. */
  lemma {:induction false} RunInv(s: Search, schedule: seq<nat>) returns (taken: seq<nat>)
    requires s.Valid()
    ensures Inv(s, Run(s, schedule), taken)
  {
    if schedule == [] {
      taken := InitialInv(s);
    } else {
      var init, w := schedule[..|schedule| - 1], schedule[|schedule| - 1];
      taken := RunInv(s, init);
      var m := Run(s, init);
      if w < |m.workers| {
        StepWorkers(s, m, w, taken);
        StepLog(s, m, w, taken);
        StepHits(s, m, w, taken);
        StepChannel(s, m, w, taken);
        taken := TakenAfter(m, w, taken);
      }
    }
  }

  // ----- what a search can return -----

  /** At any moment of any schedule: at most one result, and it is a hit from the range. */
  lemma AtMostOneResult(s: Search, schedule: seq<nat>)
    requires s.Valid()
    ensures var m := Run(s, schedule);
            |m.channel| <= 1 && forall nonce :: nonce in m.channel ==> s.hits(nonce) && s.InRange(nonce)
  {
    var _ := RunInv(s, schedule);
  }

  /** No nonce is ever hashed twice, and none outside the range. */
  lemma NeverTwice(s: Search, schedule: seq<nat>, nonce: Uint64)
    requires s.Valid()
    ensures multiset(Run(s, schedule).log)[nonce] <= if s.InRange(nonce) then 1 else 0
  {
    var taken := RunInv(s, schedule);
  }

  /**
   When all workers are done without a result, every nonce of the range was hashed exactly once and
   missed; when there is a hit in the range, a result has been sent.
   */
  lemma FinishedSearch(s: Search, schedule: seq<nat>)
    requires s.Valid() && Terminated(Run(s, schedule))
    ensures var m := Run(s, schedule);
            m.channel == [] ==>
              forall nonce: Uint64 :: s.InRange(nonce) ==> multiset(m.log)[nonce] == 1 && !s.hits(nonce)
    ensures Run(s, schedule).channel != [] <==> exists nonce: Uint64 :: s.InRange(nonce) && s.hits(nonce)
  {
    var taken := RunInv(s, schedule);
    var m := Run(s, schedule);
    if m.channel == [] {
      assert !m.found;
      forall nonce: Uint64 | s.InRange(nonce)
        ensures multiset(m.log)[nonce] == 1 && !s.hits(nonce)
      {
        RangeCovered(s, m, taken, nonce);
      }
    } else {
      assert m.channel[0] in m.channel;
    }
  }

  /**
   After a search that found nothing, the nonces hashed are those from the start on, up to the limit or
   to the last 64-bit number, each one once.
   */
  lemma HashedExactly(s: Search, schedule: seq<nat>, nonce: Uint64)
    requires s.Valid() && Terminated(Run(s, schedule)) && Run(s, schedule).channel == []
    ensures multiset(Run(s, schedule).log)[nonce] ==
      if s.start <= nonce && (s.maxNonces == 0 || nonce < s.start + s.maxNonces) then 1 else 0
  {
    FinishedSearch(s, schedule);
    NeverTwice(s, schedule, nonce);
  }

  lemma RangeCovered(s: Search, m: State, taken: seq<nat>, nonce: Uint64)
    requires Inv(s, m, taken) && Terminated(m) && !m.found && s.InRange(nonce)
    ensures multiset(m.log)[nonce] == 1 && !s.hits(nonce)
  {
    TurnOf(s, nonce);
    var w, i := (nonce - s.start) % s.workers, (nonce - s.start) / s.workers;
    assert WorkerInv(s, w, m.workers[w], taken[w], m.found);
    MulMonotone(taken[w], i, s.workers);
    MulMonotone(0, taken[w], s.workers);
    assert Tried(s, taken, nonce);
    assert nonce in multiset(m.log);
  }

  // ----- termination -----

  function Rank(pc: Pc): nat {
    match pc
    case CheckContext => 6
    case CheckFound => 5
    case HashNonce => 4
    case Swap => 3
    case Send => 2
    case Cancel => 1
    case Next => 1
    case Done => 0
  }

  /** Remaining nonces of a worker, then its place in the loop. */
  function WorkerMeasure(me: Worker): nat {
    8 * (TWO_64 - me.nonce) + Rank(me.pc)
  }

  function Measure(workers: seq<Worker>): nat {
    if workers == [] then 0 else Measure(workers[..|workers| - 1]) + WorkerMeasure(workers[|workers| - 1])
  }

  lemma {:induction false} MeasureDrops(workers: seq<Worker>, w: nat, me: Worker)
    requires w < |workers| && WorkerMeasure(me) < WorkerMeasure(workers[w])
    ensures Measure(workers[w := me]) < Measure(workers)
  {
    var init := workers[..|workers| - 1];
    if w == |workers| - 1 {
      assert workers[w := me][..w] == init;
    } else {
      MeasureDrops(init, w, me);
      assert workers[w := me][..|workers| - 1] == init[w := me];
    }
  }

  /** Every step of a worker that is not done makes the measure smaller. */
  lemma StepTerminates(s: Search, m: State, w: nat)
    requires s.Valid() && w < |m.workers| && m.workers[w].pc != Done
    ensures Measure(Step(s, m, w).workers) < Measure(m.workers)
  {
    var me := Step(s, m, w).workers[w];
    assert Step(s, m, w).workers == m.workers[w := me];
    MeasureDrops(m.workers, w, me);
  }

  /** Each step is taken by a worker that is still running. */
  ghost predicate Productive(s: Search, schedule: seq<nat>) {
    schedule == [] ||
    (var init, w := schedule[..|schedule| - 1], schedule[|schedule| - 1];
     Productive(s, init) && w < s.workers && Run(s, init).workers[w].pc != Done)
  }

  /** No schedule can keep running workers busy for more steps than the initial measure. */
  lemma {:induction false} SearchTerminates(s: Search, schedule: seq<nat>)
    requires s.Valid() && Productive(s, schedule)
    ensures |schedule| + Measure(Run(s, schedule).workers) <= Measure(Initial(s).workers)
  {
    if schedule != [] {
      var init, w := schedule[..|schedule| - 1], schedule[|schedule| - 1];
      SearchTerminates(s, init);
      StepTerminates(s, Run(s, init), w);
    }
  }

  // ----- the batch search -----

  const DEFAULT_BATCH: Uint64 := 100000

  /** Hashes consecutive nonces and stops early where the next nonce would not fit 64 bits. */
  method HashBatch(s: Search, count: Uint64) returns (results: seq<bool>)
    ensures |results| <= count && s.start + |results| <= TWO_64
    ensures |results| < count ==> s.start + |results| == TWO_64
    ensures forall i :: 0 <= i < |results| ==> results[i] == s.hits(s.start + i)
  {
    results := [];
    var i := 0;
    while i < count
      invariant 0 <= i <= count && |results| == i && s.start + i <= TWO_64
      invariant forall j :: 0 <= j < i ==> results[j] == s.hits(s.start + j)
    {
      var nonce := AddUint64(s.start, i);
      if nonce.None? {
        return;
      }
      results := results + [s.hits(nonce.value)];
      i := i + 1;
    }
  }

  /** The batch search returns the least hit of its range. */
  method MineBatch(s: Search) returns (r: Option<Uint64>)
    ensures var limit := if s.maxNonces == 0 then 100000 else s.maxNonces;
            match r
            case Some(nonce) => s.start <= nonce < s.start + limit && s.hits(nonce) &&
              forall n: Uint64 :: s.start <= n && s.hits(n) ==> nonce <= n
            case None => forall n: Uint64 :: s.start <= n < s.start + limit ==> !s.hits(n)
  {
    var maxNonces := s.maxNonces;
    if maxNonces == 0 {
      maxNonces := DEFAULT_BATCH;
    }
    var results := HashBatch(s, maxNonces);
    ghost var range := if s.maxNonces == 0 then s.(maxNonces := DEFAULT_BATCH) else s;
    assert forall n: Uint64 :: range.InRange(n) ==> n - s.start < |results|;
    var i := 0;
    while i < |results|
      invariant 0 <= i <= |results|
      invariant forall n: Uint64 :: range.InRange(n) && n < s.start + i ==> !s.hits(n)
    {
      if results[i] {
        r := AddUint64(s.start, i);
        return;
      }
      i := i + 1;
    }
    r := None;
  }

  /** With a limit, a finished concurrent search has a result exactly when the batch search has one. */
  lemma SearchesAgree(s: Search, schedule: seq<nat>, batch: Option<Uint64>)
    requires s.Valid() && s.maxNonces > 0 && Terminated(Run(s, schedule))
    requires match batch
             case Some(nonce) => s.InRange(nonce) && s.hits(nonce)
             case None => forall n: Uint64 :: s.InRange(n) ==> !s.hits(n)
    ensures Run(s, schedule).channel != [] <==> batch.Some?
    ensures batch.None? ==> forall n: Uint64 :: s.InRange(n) ==> multiset(Run(s, schedule).log)[n] == 1
  {
    FinishedSearch(s, schedule);
  }
}
