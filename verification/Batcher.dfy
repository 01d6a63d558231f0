/** The console's ingest batcher (src/hookguard_console/batcher.py): the drop-oldest enqueue, the
  * drain, the per-batch increments, and the ticker task as a state machine. */
module Batcher {
  import opened Models
  import opened Rollups
  import opened DropOldest

  /** `rollup_deltas`: `counts` is the dict's items in insertion order. */
  method RollupDeltas(events: seq<Event>) returns (deltas: seq<Delta>)
    ensures deltas == DeltasOf(events)
    ensures Distinct(deltas) && Positive(deltas)
    ensures forall sel :: Total(deltas, sel) == Count(events, sel)
  {
    var counts: seq<Delta> := [];
    for i := 0 to |events|
      invariant counts == DeltasOf(events[..i])
    {
      assert events[..i + 1][..i] == events[..i];
      counts := AddTo(counts, Delta(BucketOf(events[i]), 1));
    }
    assert events[..|events|] == events;
    DeltasShape(events);
    forall sel
      ensures Total(DeltasOf(events), sel) == Count(events, sel)
    {
      DeltasTotal(events, sel);
    }
    return counts;
  }

  class IngestBatcher {
    const queue: AsyncQueue<Event>
    var dropped: int
    /** Everything that ever entered and left the queue. */
    ghost var log: Log<Event>

    ghost predicate IsValid()
      reads this, queue
    {
      && DropOldest.Valid(log) && log.cap == queue.maxsize && log.queue == queue.items
      && dropped == DroppedCount(log.removed)
    }

    constructor (queueSize: int)
      ensures IsValid() && log == Empty(queueSize) && dropped == 0
      ensures fresh(queue)
    {
      queue := new AsyncQueue(queueSize);
      dropped := 0;
      log := Empty(queueSize);
    }

    /** `enqueue`: never blocks; `dropped` counts exactly the events the queue gave up. */
    method Enqueue(event: Event)
      requires IsValid()
      modifies this, queue
      ensures IsValid() && log == DropOldest.Enqueue(old(log), event)
      ensures var full := queue.maxsize > 0 && |old(queue.items)| >= queue.maxsize;
              && dropped == old(dropped) + (if full then 1 else 0)
              && queue.items == (if full then old(queue.items)[1..] else old(queue.items)) + [event]
    {
      EnqueueValid(log, event);
      var ok := queue.PutNowait(event);
      if ok {
        log := DropOldest.Enqueue(log, event);
        return;
      }
      var oldest := queue.GetNowait();
      if oldest.Some? {
        dropped := dropped + 1;
      }
      ok := queue.PutNowait(event);
      // Room was just made, so the second put cannot fail.
      assert ok;
      log := DropOldest.Enqueue(log, event);
    }

    /** `_drain`: everything queued, oldest first. */
    method Drain() returns (pending: seq<Event>)
      requires IsValid()
      modifies this, queue
      ensures IsValid() && pending == old(queue.items) && queue.items == []
      ensures log == TakeAll(old(log)) && dropped == old(dropped)
      ensures TakenItems(log.removed) == old(TakenItems(log.removed)) + pending
    {
      pending := [];
      TakeAllValid(log);
      while true
        invariant pending + queue.items == old(queue.items)
        invariant log == old(log) && dropped == old(dropped)
        decreases |queue.items|
      {
        var next := queue.GetNowait();
        if next.None? {
          log := TakeAll(log);
          return;
        }
        pending := pending + [next.value];
      }
    }
  }

  // ---------------------------------------------------------------- the ticker task

  /** Where `_run` stands: at the loop test, in the timed wait, inside `_persist` with the batch it
    * drained, at the final drain, inside the final `_persist`, or finished. `done` is what the wait
    * returned. */
  datatype Pc = AtTest | Waiting | Persisting(done: bool) | Finally | FinallyPersisting | Done

  /** `batches` holds the batches handed to `_persist`; `atStop` is how many events had been
    * enqueued when shutdown was first asked for. */
  datatype Task = Task(log: Log<Event>, pc: Pc, stopping: bool, batches: seq<seq<Event>>, atStop: nat)

  datatype Step =
    | Enqueued(event: Event) | AskStop
    | Test | Wake(done: bool) | PersistReturns | FinalDrain

  function Start(queueSize: int): Task {
    Task(Empty(queueSize), AtTest, false, [], 0)
  }

  /** The wait reports `done` only once stopping is set; a timeout can still come after that. */
  predicate Enabled(s: Task, step: Step) {
    match step
    case Enqueued(_) => true
    case AskStop => true
    case Test => s.pc == AtTest
    case Wake(done) => s.pc == Waiting && (done ==> s.stopping)
    case PersistReturns => s.pc.Persisting? || s.pc == FinallyPersisting
    case FinalDrain => s.pc == Finally
  }

  /** `_drain_and_persist` up to its await: an empty drain goes straight on to `after`. */
  function DrainAndPersist(s: Task, busy: Pc, after: Pc): Task {
    if s.log.queue == [] then s.(pc := after)
    else s.(pc := busy, log := TakeAll(s.log), batches := s.batches + [s.log.queue])
  }

  function AfterPersist(done: bool): Pc {
    if done then Finally else AtTest
  }

  function Next(s: Task, step: Step): Task
    requires Enabled(s, step)
  {
    match step
    case Enqueued(event) => s.(log := DropOldest.Enqueue(s.log, event))
    case AskStop => if s.stopping then s else s.(stopping := true, atStop := |s.log.enqueued|)
    case Test => s.(pc := if s.stopping then Finally else Waiting)
    case Wake(done) => DrainAndPersist(s, Persisting(done), AfterPersist(done))
    case PersistReturns => s.(pc := if s.pc == FinallyPersisting then Done else AfterPersist(s.pc.done))
    case FinalDrain => DrainAndPersist(s, FinallyPersisting, Done)
  }

  /** The state after any interleaving of steps; a step that cannot happen is skipped. */
  function After(queueSize: int, steps: seq<Step>): Task {
    if steps == [] then Start(queueSize)
    else
      var s, step := After(queueSize, steps[..|steps| - 1]), steps[|steps| - 1];
      if Enabled(s, step) then Next(s, step) else s
  }

  ghost function Concat(batches: seq<seq<Event>>): seq<Event> {
    if batches == [] then [] else Concat(batches[..|batches| - 1]) + batches[|batches| - 1]
  }

  ghost predicate Invariant(s: Task) {
    && DropOldest.Valid(s.log)
    && TakenItems(s.log.removed) == Concat(s.batches)
    && (s.pc in {Finally, FinallyPersisting, Done} || s.pc == Persisting(true) ==> s.stopping)
    && (s.stopping ==> s.atStop <= |s.log.enqueued|)
    && (s.pc in {FinallyPersisting, Done} ==> s.atStop <= |s.log.removed|)
  }

  lemma NextKeepsInvariant(s: Task, step: Step)
    requires Invariant(s) && Enabled(s, step)
    ensures Invariant(Next(s, step))
  {
    match step
    case Enqueued(event) => EnqueueValid(s.log, event);
    case Wake(_) => DrainFacts(s);
    case FinalDrain => DrainFacts(s);
    case _ =>
  }

  lemma DrainFacts(s: Task)
    requires Invariant(s)
    ensures var l := TakeAll(s.log);
            && DropOldest.Valid(l) && l.enqueued == s.log.enqueued && |l.removed| == |l.enqueued|
            && TakenItems(l.removed) == Concat(s.batches + [s.log.queue])
  {
    TakeAllValid(s.log);
    assert (s.batches + [s.log.queue])[..|s.batches|] == s.batches;
  }

  lemma {:induction false} RunInvariant(queueSize: int, steps: seq<Step>)
    ensures Invariant(After(queueSize, steps))
  {
    if steps == [] {
    } else {
      var s, step := After(queueSize, steps[..|steps| - 1]), steps[|steps| - 1];
      RunInvariant(queueSize, steps[..|steps| - 1]);
      if Enabled(s, step) {
        NextKeepsInvariant(s, step);
      }
    }
  }

  /** When shutdown returns, every event enqueued before it was asked for is in exactly one batch
    * handed to the store or was dropped by overflow, wherever the ticker stood: the `i`-th event to
    * leave the queue is the `i`-th that entered, all those entered before the call have left, and
    * the batches, end to end, are the events taken, in enqueue order. */
  lemma ShutdownLosesNothing(queueSize: int, steps: seq<Step>)
    requires After(queueSize, steps).pc == Done
    ensures var s := After(queueSize, steps);
            && s.atStop <= |s.log.removed| <= |s.log.enqueued|
            && Items(s.log.removed) == s.log.enqueued[..|s.log.removed|]
            && Concat(s.batches) == TakenItems(s.log.removed)
  {
    RunInvariant(queueSize, steps);
    var l := After(queueSize, steps).log;
    assert Items(l.removed) == (Items(l.removed) + l.queue)[..|l.removed|];
  }

  /** Shutdown is first asked for at step `k`. */
  ghost predicate FirstAsked(steps: seq<Step>, k: nat) {
    k < |steps| && steps[k].AskStop? && forall j :: 0 <= j < k ==> !steps[j].AskStop?
  }

  lemma {:induction false} NotStopping(queueSize: int, steps: seq<Step>)
    requires forall j :: 0 <= j < |steps| ==> !steps[j].AskStop?
    ensures !After(queueSize, steps).stopping
  {
    if steps == [] {
    } else {
      NotStopping(queueSize, steps[..|steps| - 1]);
    }
  }

  lemma {:induction false} StopIsRecorded(queueSize: int, steps: seq<Step>, k: nat)
    requires FirstAsked(steps, k)
    ensures var s, asked := After(queueSize, steps), After(queueSize, steps[..k]);
            s.stopping && s.atStop == |asked.log.enqueued| && asked.log.enqueued <= s.log.enqueued
  {
    var n := |steps| - 1;
    RunInvariant(queueSize, steps[..n]);
    if k == n {
      NotStopping(queueSize, steps[..k]);
    } else {
      assert steps[..n][..k] == steps[..k];
      StopIsRecorded(queueSize, steps[..n], k);
      TakeAllValid(After(queueSize, steps[..n]).log);
    }
  }

  /** In terms of the run: when shutdown returns, the events enqueued before it was first asked for are the
    * first to have left the queue, each once and in order. */
  lemma EnqueuedBeforeStopHasLeft(queueSize: int, steps: seq<Step>, k: nat)
    requires After(queueSize, steps).pc == Done && FirstAsked(steps, k)
    ensures After(queueSize, steps[..k]).log.enqueued <= Items(After(queueSize, steps).log.removed)
  {
    StopIsRecorded(queueSize, steps, k);
    ShutdownLosesNothing(queueSize, steps);
  }

  // ---------------------------------------------------------------- shutdown does return

  /** How far a stopping ticker is from done. */
  function Distance(s: Task): nat {
    match s.pc
    case Persisting(done) => if done then 3 else 4
    case Waiting => 5
    case AtTest => 3
    case Finally => 2
    case FinallyPersisting => 1
    case Done => 0
  }

  function TaskStep(s: Task): Step {
    match s.pc
    case AtTest => Test
    case Waiting => Wake(true)
    case Persisting(_) => PersistReturns
    case Finally => FinalDrain
    case FinallyPersisting => PersistReturns
    case Done => FinalDrain
  }

  /** A stopping ticker is never stuck short of done, and every step it can take, whichever it is,
    * brings it closer, whatever is enqueued meanwhile. */
  lemma StoppingTickerFinishes(s: Task, step: Step)
    requires Invariant(s) && s.stopping && s.pc != Done
    ensures Enabled(s, TaskStep(s)) && !TaskStep(s).Enqueued? && !TaskStep(s).AskStop?
    ensures Enabled(s, step) && !step.Enqueued? && !step.AskStop? ==> Distance(Next(s, step)) < Distance(s)
    ensures step.Enqueued? || step.AskStop? ==> Distance(Next(s, step)) == Distance(s)
  {}
}
