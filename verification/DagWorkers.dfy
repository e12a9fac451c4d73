/**
 Workers filling one DAG buffer at the same time, each its own chunk of cells. Any schedule of their
 steps leaves the buffer a single sequential pass would leave.
 */
module DagWorkers {
  import opened Base
  import Arithmetic
  import ChainSpec

  const CELL: nat := 256

  /** How many cells there are, how many workers, and what each cell holds. */
  datatype Job = Job(count: Uint64, workers: nat, cellAt: Uint64 -> Cell) {
    predicate Valid() {
      count < 0x100_0000_0000_0000 && 0 < workers < TWO_63
    }

    function Chunk(): (chunk: Uint64)
      requires Valid()
      ensures chunk > 0
      ensures chunk * workers <= count || chunk == 1
    {
      Arithmetic.DivMod(count, workers);
      Arithmetic.QuotientBound(count, workers);
      if count / workers == 0 then 1 else count / workers
    }

    /** The range worker w is started with, or nothing when the cells ran out before it. */
    function RangeOf(w: nat): (r: Option<(Uint64, Uint64)>)
      requires Valid() && w < workers
    {
      ChunkFits(this, w);
      var from: Uint64 := w * Chunk();
      var to: Uint64 := from + Chunk();
      var end := if w == workers - 1 || to > count then count else to;
      if from >= count then None else Some((from, end))
    }

    /** Where worker w's cells begin: the chunks follow one another up to the last cell. */
    function Start(w: nat): (start: Uint64)
      requires Valid() && w <= workers
      ensures start <= count
    {
      if w == workers then count
      else Arithmetic.MulMonotone(0, w, Chunk()); ChainSpec.Min(w * Chunk(), count)
    }
  }

  /** No chunk boundary leaves 64 bits. */
  lemma ChunkFits(job: Job, w: nat)
    requires job.Valid() && w < job.workers
    ensures 0 <= w * job.Chunk() && w * job.Chunk() + job.Chunk() < TWO_64
  {
    Arithmetic.MulMonotone(0, w, job.Chunk());
    Arithmetic.MulMonotone(w, job.workers, job.Chunk());
    assert job.workers * job.Chunk() == job.Chunk() * job.workers;
  }

  /** The ranges cover the cells from first to last without gap or overlap. */
  lemma RangesPartition(job: Job, w: nat)
    requires job.Valid() && w < job.workers
    ensures job.Start(0) == 0 && job.Start(job.workers) == job.count && job.Start(w) <= job.Start(w + 1)
    ensures match job.RangeOf(w)
            case None => job.Start(w) == job.Start(w + 1)
            case Some((from, to)) => from == job.Start(w) && to == job.Start(w + 1)
  {
    var chunk := job.Chunk();
    assert (w + 1) * chunk == w * chunk + chunk;
    ChunkFits(job, w);
  }

  lemma {:induction false} StartMonotone(job: Job, v: nat, w: nat)
    requires job.Valid() && v <= w <= job.workers
    ensures job.Start(v) <= job.Start(w)
    decreases w - v
  {
    if v < w {
      RangesPartition(job, w - 1);
      StartMonotone(job, v, w - 1);
    }
  }

  // ----- steps -----

  /** A worker is about to write cell `next`, or has written it and is about to report it. */
  datatype Worker = Worker(next: nat, written: bool)

  /** `log` lists the cells in the order they were written; `done` counts the reports. */
  datatype State = State(workers: seq<Worker>, buffer: Bytes, done: nat, log: seq<nat>)

  function Initial(job: Job, buffer: Bytes): State
    requires job.Valid()
  {
    State(seq(job.workers, w requires 0 <= w < job.workers => Worker(job.Start(w), false)), buffer, 0, [])
  }

  function CellOf(buffer: Bytes, i: nat): (cell: Bytes)
    requires (i + 1) * CELL <= |buffer|
    ensures |cell| == CELL
  {
    buffer[i * CELL..(i + 1) * CELL]
  }

  function WriteCell(buffer: Bytes, i: nat, cell: Cell): (r: Bytes)
    requires (i + 1) * CELL <= |buffer|
    ensures |r| == |buffer|
  {
    buffer[..i * CELL] + cell + buffer[(i + 1) * CELL..]
  }

  predicate Fits(job: Job, buffer: Bytes) {
    job.count * CELL <= |buffer|
  }

  function Step(job: Job, m: State, w: nat): (r: State)
    requires job.Valid() && |m.workers| == job.workers && Fits(job, m.buffer)
    ensures |r.workers| == job.workers && |r.buffer| == |m.buffer|
  {
    if w >= job.workers || m.workers[w].next >= job.Start(w + 1) then m
    else
      var i := m.workers[w].next;
      if m.workers[w].written then
        m.(workers := m.workers[w := Worker(i + 1, false)], done := m.done + 1)
      else
        Arithmetic.MulMonotone(i + 1, job.count, CELL);
        m.(workers := m.workers[w := Worker(i, true)],
           buffer := WriteCell(m.buffer, i, job.cellAt(i)),
           log := m.log + [i])
  }

  function Run(job: Job, buffer: Bytes, schedule: seq<nat>): (m: State)
    requires job.Valid() && Fits(job, buffer)
    ensures |m.workers| == job.workers && |m.buffer| == |buffer|
  {
    if schedule == [] then Initial(job, buffer)
    else Step(job, Run(job, buffer, schedule[..|schedule| - 1]), schedule[|schedule| - 1])
  }

  predicate Terminated(job: Job, m: State)
    requires job.Valid() && |m.workers| == job.workers
  {
    forall w :: 0 <= w < job.workers ==> m.workers[w].next >= job.Start(w + 1)
  }

  // ----- what every schedule keeps -----

  /** Cell i lies in worker w's range and w is past it. */
  predicate WrittenBy(job: Job, m: State, w: nat, i: nat)
    requires job.Valid() && w < job.workers == |m.workers|
  {
    job.Start(w) <= i && (i < m.workers[w].next || (i == m.workers[w].next && m.workers[w].written))
  }

  predicate Written(job: Job, m: State, i: nat)
    requires job.Valid() && |m.workers| == job.workers
  {
    exists w :: 0 <= w < job.workers && WrittenBy(job, m, w, i)
  }

  ghost predicate WorkerInv(job: Job, w: nat, me: Worker)
    requires job.Valid() && w < job.workers
  {
    job.Start(w) <= me.next <= job.Start(w + 1) && (me.written ==> me.next < job.Start(w + 1))
  }

  ghost predicate CellInv(job: Job, buffer: Bytes, m: State, i: nat)
    requires job.Valid() && |m.workers| == job.workers && i < job.count
  {
    && (i + 1) * CELL <= |buffer| == |m.buffer|
    && CellOf(m.buffer, i) == if Written(job, m, i) then job.cellAt(i) else CellOf(buffer, i)
  }

  /** The reports made so far by workers below k. */
  function Reports(job: Job, m: State, k: nat): int
    requires job.Valid() && |m.workers| == job.workers && k <= job.workers
  {
    if k == 0 then 0 else Reports(job, m, k - 1) + m.workers[k - 1].next - job.Start(k - 1)
  }

  lemma CellBound(job: Job, size: nat, i: nat)
    requires job.count * CELL <= size && i < job.count
    ensures (i + 1) * CELL <= size
  {
  }

  ghost predicate WorkersInv(job: Job, m: State)
    requires job.Valid() && |m.workers| == job.workers
  {
    forall w :: 0 <= w < job.workers ==> WorkerInv(job, w, m.workers[w])
  }

  ghost predicate CellsInv(job: Job, buffer: Bytes, m: State)
    requires job.Valid() && |m.workers| == job.workers && Fits(job, buffer) && |m.buffer| == |buffer|
  {
    forall i :: 0 <= i < job.count ==> CellInv(job, buffer, m, i)
  }

  ghost predicate LogInv(job: Job, m: State)
    requires job.Valid() && |m.workers| == job.workers
  {
    forall i: nat :: multiset(m.log)[i] == if Written(job, m, i) then 1 else 0
  }

  ghost predicate Inv(job: Job, buffer: Bytes, m: State)
    requires job.Valid() && |m.workers| == job.workers && Fits(job, buffer) && |m.buffer| == |buffer|
  {
    && WorkersInv(job, m) && CellsInv(job, buffer, m) && LogInv(job, m)
    && m.done == Reports(job, m, job.workers)
    && m.buffer[job.count * CELL..] == buffer[job.count * CELL..]
  }

  /** The cell a worker writes has not been written by any worker. */
  lemma NotYetWritten(job: Job, m: State, w: nat)
    requires job.Valid() && |m.workers| == job.workers && WorkersInv(job, m)
    requires w < job.workers && m.workers[w].next < job.Start(w + 1) && !m.workers[w].written
    ensures !Written(job, m, m.workers[w].next)
  {
    var i := m.workers[w].next;
    assert WorkerInv(job, w, m.workers[w]);
    forall v | 0 <= v < job.workers
      ensures !WrittenBy(job, m, v, i)
    {
      assert WorkerInv(job, v, m.workers[v]);
      if v < w { StartMonotone(job, v + 1, w); }
      if w < v { StartMonotone(job, w + 1, v); }
    }
  }

  /** A write adds its cell to the written ones; a report changes nothing there. */
  lemma StepWritten(job: Job, m: State, w: nat, i: nat)
    requires job.Valid() && |m.workers| == job.workers && Fits(job, m.buffer) && WorkersInv(job, m)
    requires w < job.workers && m.workers[w].next < job.Start(w + 1)
    ensures Written(job, Step(job, m, w), i) <==>
              Written(job, m, i) || (!m.workers[w].written && i == m.workers[w].next)
  {
    var m' := Step(job, m, w);
    assert WorkerInv(job, w, m.workers[w]);
    forall v | 0 <= v < job.workers && v != w
      ensures WrittenBy(job, m', v, i) == WrittenBy(job, m, v, i)
    {
    }
    assert WrittenBy(job, m', w, i) <==> WrittenBy(job, m, w, i) || (!m.workers[w].written && i == m.workers[w].next);
  }

  lemma WriteCellRead(buffer: Bytes, i: nat, cell: Cell, k: nat)
    requires (i + 1) * CELL <= |buffer| && (k + 1) * CELL <= |buffer|
    ensures CellOf(WriteCell(buffer, i, cell), k) == if k == i then cell else CellOf(buffer, k)
  {
    var r := WriteCell(buffer, i, cell);
    if k < i {
      Arithmetic.MulMonotone(k + 1, i, CELL);
      assert r[..i * CELL] == buffer[..i * CELL];
      SliceOfPrefix(r, buffer, i * CELL, k * CELL, (k + 1) * CELL);
    } else if i < k {
      Arithmetic.MulMonotone(i + 1, k, CELL);
      assert r[(i + 1) * CELL..] == buffer[(i + 1) * CELL..];
      SliceOfSuffix(r, buffer, (i + 1) * CELL, k * CELL, (k + 1) * CELL);
    } else {
      assert r[i * CELL..(i + 1) * CELL] == cell;
    }
  }

  lemma SliceOfPrefix<T>(a: seq<T>, b: seq<T>, n: nat, lo: nat, hi: nat)
    requires lo <= hi <= n <= |a| && n <= |b| && a[..n] == b[..n]
    ensures a[lo..hi] == b[lo..hi]
  {
    assert a[lo..hi] == a[..n][lo..hi] && b[lo..hi] == b[..n][lo..hi];
  }

  lemma SliceOfSuffix<T>(a: seq<T>, b: seq<T>, n: nat, lo: nat, hi: nat)
    requires n <= lo <= hi <= |a| == |b| && a[n..] == b[n..]
    ensures a[lo..hi] == b[lo..hi]
  {
    forall j | lo <= j < hi
      ensures a[j] == b[j]
    {
      assert a[j] == a[n..][j - n] && b[j] == b[n..][j - n];
    }
  }

  lemma WriteCellTail(buffer: Bytes, i: nat, cell: Cell, from: nat)
    requires (i + 1) * CELL <= from <= |buffer|
    ensures WriteCell(buffer, i, cell)[from..] == buffer[from..]
  {
  }

  lemma {:induction false} StepReports(job: Job, m: State, w: nat, next: nat, written: bool, k: nat)
    requires job.Valid() && |m.workers| == job.workers && w < job.workers && k <= job.workers
    ensures Reports(job, m.(workers := m.workers[w := Worker(next, written)]), k) ==
              Reports(job, m, k) + if w < k then next - m.workers[w].next else 0
  {
    if k > 0 {
      StepReports(job, m, w, next, written, k - 1);
    }
  }

  lemma {:induction false} ReportsOfWorkers(job: Job, m: State, n: State, k: nat)
    requires job.Valid() && |m.workers| == job.workers && m.workers == n.workers && k <= job.workers
    ensures Reports(job, m, k) == Reports(job, n, k)
  {
    if k > 0 {
      ReportsOfWorkers(job, m, n, k - 1);
    }
  }

  lemma StepKeepsCells(job: Job, buffer: Bytes, m: State, w: nat)
    requires job.Valid() && |m.workers| == job.workers && Fits(job, buffer) && |m.buffer| == |buffer|
    requires WorkersInv(job, m) && CellsInv(job, buffer, m) && w < job.workers && m.workers[w].next < job.Start(w + 1)
    ensures CellsInv(job, buffer, Step(job, m, w))
  {
    var m' := Step(job, m, w);
    forall i | 0 <= i < job.count
      ensures CellInv(job, buffer, m', i)
    {
      CellBound(job, |buffer|, i);
      assert CellInv(job, buffer, m, i);
      StepWritten(job, m, w, i);
      if !m.workers[w].written {
        CellBound(job, |buffer|, m.workers[w].next);
        WriteCellRead(m.buffer, m.workers[w].next, job.cellAt(m.workers[w].next), i);
      }
    }
  }

  lemma StepKeepsLog(job: Job, m: State, w: nat)
    requires job.Valid() && |m.workers| == job.workers && Fits(job, m.buffer)
    requires WorkersInv(job, m) && LogInv(job, m) && w < job.workers && m.workers[w].next < job.Start(w + 1)
    ensures LogInv(job, Step(job, m, w))
  {
    var m' := Step(job, m, w);
    if !m.workers[w].written {
      NotYetWritten(job, m, w);
    }
    forall i: nat
      ensures multiset(m'.log)[i] == if Written(job, m', i) then 1 else 0
    {
      StepWritten(job, m, w, i);
    }
  }

  lemma StepKeepsRest(job: Job, buffer: Bytes, m: State, w: nat)
    requires job.Valid() && |m.workers| == job.workers && Fits(job, buffer) && |m.buffer| == |buffer|
    requires Inv(job, buffer, m) && w < job.workers && m.workers[w].next < job.Start(w + 1)
    ensures var m' := Step(job, m, w);
            WorkersInv(job, m') && m'.done == Reports(job, m', job.workers)
    ensures Step(job, m, w).buffer[job.count * CELL..] == buffer[job.count * CELL..]
  {
    var m' := Step(job, m, w);
    var i := m.workers[w].next;
    assert WorkerInv(job, w, m.workers[w]);
    StepReports(job, m, w, m'.workers[w].next, m'.workers[w].written, job.workers);
    ReportsOfWorkers(job, m', m.(workers := m'.workers), job.workers);
    if !m.workers[w].written {
      CellBound(job, |buffer|, i);
      WriteCellTail(m.buffer, i, job.cellAt(i), job.count * CELL);
    }
  }

  lemma InitialInv(job: Job, buffer: Bytes)
    requires job.Valid() && Fits(job, buffer)
    ensures Inv(job, buffer, Initial(job, buffer))
  {
    var m := Initial(job, buffer);
    forall w | 0 <= w < job.workers
      ensures WorkerInv(job, w, m.workers[w])
    {
      RangesPartition(job, w);
    }
    forall i: nat
      ensures !Written(job, m, i)
    {
    }
    NoReports(job, m, job.workers);
  }

  lemma {:induction false} NoReports(job: Job, m: State, k: nat)
    requires job.Valid() && |m.workers| == job.workers && k <= job.workers
    requires forall w :: 0 <= w < job.workers ==> m.workers[w].next == job.Start(w)
    ensures Reports(job, m, k) == 0
  {
    if k > 0 {
      NoReports(job, m, k - 1);
    }
  }

  lemma {:induction false} RunInv(job: Job, buffer: Bytes, schedule: seq<nat>)
    requires job.Valid() && Fits(job, buffer)
    ensures Inv(job, buffer, Run(job, buffer, schedule))
  {
    if schedule == [] {
      InitialInv(job, buffer);
    } else {
      var init, w := schedule[..|schedule| - 1], schedule[|schedule| - 1];
      RunInv(job, buffer, init);
      var m := Run(job, buffer, init);
      if w < job.workers && m.workers[w].next < job.Start(w + 1) {
        StepKeepsCells(job, buffer, m, w);
        StepKeepsLog(job, m, w);
        StepKeepsRest(job, buffer, m, w);
      }
    }
  }

  // ----- the finished buffer -----

  /** The buffer after one sequential pass over the first `count` cells. */
  function Filled(cellAt: Uint64 -> Cell, buffer: Bytes, count: Uint64): (r: Bytes)
    requires count * CELL <= |buffer|
    ensures |r| == |buffer|
  {
    if count == 0 then buffer else WriteCell(Filled(cellAt, buffer, count - 1), count - 1, cellAt(count - 1))
  }

  lemma {:induction false} FilledCell(cellAt: Uint64 -> Cell, buffer: Bytes, count: Uint64, i: nat)
    requires i < count && count * CELL <= |buffer| && (i + 1) * CELL <= |buffer|
    ensures CellOf(Filled(cellAt, buffer, count), i) == cellAt(i)
  {
    WriteCellRead(Filled(cellAt, buffer, count - 1), count - 1, cellAt(count - 1), i);
    if i < count - 1 {
      FilledCell(cellAt, buffer, count - 1, i);
    }
  }

  lemma {:induction false} FilledTail(cellAt: Uint64 -> Cell, buffer: Bytes, count: Uint64, from: nat)
    requires count * CELL <= from <= |buffer|
    ensures Filled(cellAt, buffer, count)[from..] == buffer[from..]
  {
    if count > 0 {
      FilledTail(cellAt, buffer, count - 1, from);
      WriteCellTail(Filled(cellAt, buffer, count - 1), count - 1, cellAt(count - 1), from);
    }
  }

  /** Buffers that agree cell by cell agree. */
  lemma {:induction false} SameCells(a: Bytes, b: Bytes, count: nat)
    requires count * CELL <= |a| && |a| == |b|
    requires forall i :: 0 <= i < count ==> SameCell(a, b, i)
    ensures a[..count * CELL] == b[..count * CELL]
  {
    if count > 0 {
      SameCells(a, b, count - 1);
      assert SameCell(a, b, count - 1);
      assert a[..count * CELL] == a[..(count - 1) * CELL] + CellOf(a, count - 1);
      assert b[..count * CELL] == b[..(count - 1) * CELL] + CellOf(b, count - 1);
    }
  }

  predicate SameCell(a: Bytes, b: Bytes, i: nat) {
    (i + 1) * CELL <= |a| == |b| && CellOf(a, i) == CellOf(b, i)
  }

  lemma AllWritten(job: Job, m: State, i: nat)
    requires job.Valid() && |m.workers| == job.workers && Terminated(job, m) && i < job.count
    ensures Written(job, m, i)
  {
    var w := Owner(job, i, job.workers);
    assert WrittenBy(job, m, w, i);
  }

  /** The worker below k whose range holds cell i. */
  lemma {:induction false} Owner(job: Job, i: nat, k: nat) returns (w: nat)
    requires job.Valid() && k <= job.workers && i < job.Start(k)
    ensures w < k && job.Start(w) <= i < job.Start(w + 1)
  {
    if k == 0 {
      RangesPartition(job, 0);
      assert false;
    } else if job.Start(k - 1) <= i {
      w := k - 1;
    } else {
      w := Owner(job, i, k - 1);
    }
  }

  lemma {:induction false} AllReports(job: Job, m: State, k: nat)
    requires job.Valid() && |m.workers| == job.workers && k <= job.workers && Terminated(job, m) && WorkersInv(job, m)
    ensures Reports(job, m, k) == job.Start(k)
  {
    RangesPartition(job, 0);
    if k > 0 {
      AllReports(job, m, k - 1);
      assert WorkerInv(job, k - 1, m.workers[k - 1]);
    }
  }

  /**
   Whatever the number of workers and however they were scheduled: the buffer is the one a sequential
   pass leaves, every cell was written once, and every cell was reported.
   */
  lemma FinishedBuffer(job: Job, buffer: Bytes, schedule: seq<nat>)
    requires job.Valid() && Fits(job, buffer) && Terminated(job, Run(job, buffer, schedule))
    ensures var m := Run(job, buffer, schedule);
            && m.buffer == Filled(job.cellAt, buffer, job.count)
            && m.done == job.count
            && forall i: nat :: multiset(m.log)[i] == if i < job.count then 1 else 0
  {
    RunInv(job, buffer, schedule);
    var m := Run(job, buffer, schedule);
    AllReports(job, m, job.workers);
    RangesPartition(job, 0);
    FinishedCells(job, buffer, m);
    forall i: nat
      ensures Written(job, m, i) <==> i < job.count
    {
      if i < job.count { AllWritten(job, m, i); } else { NothingBeyond(job, m, i); }
    }
  }

  lemma NothingBeyond(job: Job, m: State, i: nat)
    requires job.Valid() && |m.workers| == job.workers && WorkersInv(job, m) && i >= job.count
    ensures !Written(job, m, i)
  {
    forall w | 0 <= w < job.workers
      ensures !WrittenBy(job, m, w, i)
    {
      assert WorkerInv(job, w, m.workers[w]);
    }
  }

  lemma FinishedCells(job: Job, buffer: Bytes, m: State)
    requires job.Valid() && |m.workers| == job.workers && Fits(job, buffer) && |m.buffer| == |buffer|
    requires Inv(job, buffer, m) && Terminated(job, m)
    ensures m.buffer == Filled(job.cellAt, buffer, job.count)
  {
    var filled := Filled(job.cellAt, buffer, job.count);
    forall i | 0 <= i < job.count
      ensures SameCell(m.buffer, filled, i)
    {
      CellBound(job, |buffer|, i);
      assert CellInv(job, buffer, m, i);
      AllWritten(job, m, i);
      FilledCell(job.cellAt, buffer, job.count, i);
    }
    var size := job.count * CELL;
    SameCells(m.buffer, filled, job.count);
    FilledTail(job.cellAt, buffer, job.count, size);
    assert m.buffer == m.buffer[..size] + m.buffer[size..];
    assert filled == filled[..size] + filled[size..];
  }

  /** Two runs over the same cells leave the same buffer. */
  lemma ScheduleDoesNotMatter(a: Job, b: Job, buffer: Bytes, s: seq<nat>, t: seq<nat>)
    requires a.Valid() && b.Valid() && a.count == b.count && a.cellAt == b.cellAt && Fits(a, buffer)
    requires Terminated(a, Run(a, buffer, s)) && Terminated(b, Run(b, buffer, t))
    ensures Run(a, buffer, s).buffer == Run(b, buffer, t).buffer
  {
    FinishedBuffer(a, buffer, s);
    FinishedBuffer(b, buffer, t);
  }

  // ----- termination -----

  /** Writes and reports that workers below k still have to make. */
  function Remaining(job: Job, m: State, k: nat): int
    requires job.Valid() && |m.workers| == job.workers && k <= job.workers
  {
    if k == 0 then 0
    else
      var me := m.workers[k - 1];
      Remaining(job, m, k - 1) + 2 * (job.Start(k) - me.next) - if me.written then 1 else 0
  }

  lemma {:induction false} RemainingAfter(job: Job, m: State, w: nat, k: nat)
    requires job.Valid() && |m.workers| == job.workers && Fits(job, m.buffer) && k <= job.workers
    requires w < job.workers && m.workers[w].next < job.Start(w + 1)
    ensures Remaining(job, Step(job, m, w), k) == Remaining(job, m, k) - if w < k then 1 else 0
  {
    if k > 0 {
      RemainingAfter(job, m, w, k - 1);
    }
  }

  lemma {:induction false} RemainingBounded(job: Job, m: State, k: nat)
    requires job.Valid() && |m.workers| == job.workers && WorkersInv(job, m) && k <= job.workers
    ensures Remaining(job, m, k) >= 0
  {
    if k > 0 {
      RemainingBounded(job, m, k - 1);
      assert WorkerInv(job, k - 1, m.workers[k - 1]);
    }
  }

  /** Each step of a worker with work left uses up one of the remaining actions. */
  lemma StepTerminates(job: Job, buffer: Bytes, schedule: seq<nat>, w: nat)
    requires job.Valid() && Fits(job, buffer) && w < job.workers
    requires Run(job, buffer, schedule).workers[w].next < job.Start(w + 1)
    ensures var m := Run(job, buffer, schedule);
            0 <= Remaining(job, Step(job, m, w), job.workers) < Remaining(job, m, job.workers)
  {
    var m := Run(job, buffer, schedule);
    RunInv(job, buffer, schedule);
    RemainingAfter(job, m, w, job.workers);
    assert (schedule + [w])[..|schedule| + 1 - 1] == schedule;
    RunInv(job, buffer, schedule + [w]);
    RemainingBounded(job, Step(job, m, w), job.workers);
  }
}
