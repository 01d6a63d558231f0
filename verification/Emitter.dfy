/** The gateway's event emitter (src/hookguard_gateway/emitter.py): the drop-oldest enqueue, and the
  * delivery task as a state machine whose steps may interleave with enqueues and with shutdown. */
module Emitter {
  import opened Wrappers
  import opened DropOldest

  const QUEUE_SIZE: int := 256

  class EventEmitter<T> {
    const enabled: bool
    const queue: AsyncQueue<T>
    /** Everything that ever entered and left the queue. */
    ghost var log: Log<T>

    ghost predicate IsValid()
      reads this, queue
    {
      && DropOldest.Valid(log) && log.cap == queue.maxsize && log.queue == queue.items
      && queue.maxsize == QUEUE_SIZE
    }

    constructor (enabled: bool)
      ensures IsValid() && log == Empty(QUEUE_SIZE) && this.enabled == enabled
      ensures fresh(queue)
    {
      this.enabled := enabled;
      queue := new AsyncQueue(QUEUE_SIZE);
      log := Empty(QUEUE_SIZE);
    }

    /** `_emit`. */
    method Emit(event: T)
      requires IsValid()
      modifies this, queue
      ensures IsValid() && log == DropOldest.Enqueue(old(log), event)
      ensures queue.items == (if |old(queue.items)| >= 256 then old(queue.items)[1..] else old(queue.items)) + [event]
    {
      EnqueueValid(log, event);
      var ok := queue.PutNowait(event);
      if ok {
        log := DropOldest.Enqueue(log, event);
        return;
      }
      var oldest := queue.GetNowait();
      ok := queue.PutNowait(event);
      // Room was just made, so the second put cannot fail.
      assert ok;
      log := DropOldest.Enqueue(log, event);
    }

    /** `record`: one check when there is nobody to deliver to. */
    method Record(event: T)
      requires IsValid()
      modifies this, queue
      ensures IsValid()
      ensures log == if enabled then DropOldest.Enqueue(old(log), event) else old(log)
      ensures !enabled ==> queue.items == old(queue.items)
    {
      if !enabled {
        return;
      }
      Emit(event);
    }
  }

  // ---------------------------------------------------------------- the delivery task

  /** Where `_run` stands. `Waiting` is the wait on {getter, stopping}; `Posting` and `DrainPosting`
    * are the awaits inside the two loops. */
  datatype Pc = Waiting | Posting | Draining | DrainPosting | Done

  /** `got` is the finished getter's item, not yet posted. `posted` holds one entry a POST attempt.
    * `atStop` is how many events had been enqueued when shutdown was first asked for. */
  datatype Task<T> = Task(log: Log<T>, pc: Pc, got: Option<T>, stopping: bool, posted: seq<T>, atStop: nat)

  /** `WakeToStop` wakes with only `stopping` done: the unfinished getter is cancelled. */
  datatype Step<T> =
    | Enqueued(event: T) | AskStop
    | GetterFinishes | WakeWithEvent | WakeToStop | PostReturns | DrainOne | DrainEmpty

  function Start<T>(): Task<T> {
    Task(Empty(QUEUE_SIZE), Waiting, None, false, [], 0)
  }

  predicate Enabled<T>(s: Task<T>, step: Step<T>) {
    match step
    case Enqueued(_) => true
    case AskStop => true
    case GetterFinishes => s.pc == Waiting && s.got.None? && s.log.queue != []
    case WakeWithEvent => s.pc == Waiting && s.got.Some?
    case WakeToStop => s.pc == Waiting && s.got.None? && s.stopping
    case PostReturns => s.pc == Posting || s.pc == DrainPosting
    case DrainOne => s.pc == Draining && s.log.queue != []
    case DrainEmpty => s.pc == Draining && s.log.queue == []
  }

  function Next<T>(s: Task<T>, step: Step<T>): Task<T>
    requires Enabled(s, step)
  {
    match step
    case Enqueued(event) => s.(log := Enqueue(s.log, event))
    case AskStop => if s.stopping then s else s.(stopping := true, atStop := |s.log.enqueued|)
    case GetterFinishes => s.(got := Some(s.log.queue[0]), log := TakeOne(s.log))
    case WakeWithEvent => s.(pc := Posting, got := None, posted := s.posted + [s.got.value])
    case WakeToStop => s.(pc := Draining)
    case PostReturns => s.(pc := if s.pc == Posting then Waiting else Draining)
    case DrainOne => s.(pc := DrainPosting, log := TakeOne(s.log), posted := s.posted + [s.log.queue[0]])
    case DrainEmpty => s.(pc := Done)
  }

  /** The state after any interleaving of steps; a step that cannot happen is skipped. */
  function After<T>(steps: seq<Step<T>>): Task<T> {
    if steps == [] then Start()
    else
      var s, step := After(steps[..|steps| - 1]), steps[|steps| - 1];
      if Enabled(s, step) then Next(s, step) else s
  }

  function Held<T>(s: Task<T>): seq<T> {
    if s.got.Some? then [s.got.value] else []
  }

  ghost predicate Invariant<T>(s: Task<T>) {
    && DropOldest.Valid(s.log) && s.log.cap == QUEUE_SIZE
    && TakenItems(s.log.removed) == s.posted + Held(s)
    && (s.got.Some? ==> s.pc == Waiting)
    && (s.pc != Waiting && s.pc != Posting ==> s.stopping)
    && (s.stopping ==> s.atStop <= |s.log.enqueued|)
    && (s.pc == Done ==> s.atStop <= |s.log.removed|)
  }

  lemma NextKeepsInvariant<T>(s: Task<T>, step: Step<T>)
    requires Invariant(s) && Enabled(s, step)
    ensures Invariant(Next(s, step))
  {
    match step
    case Enqueued(event) => EnqueueValid(s.log, event);
    case GetterFinishes => TakeOneValid(s.log);
    case DrainOne => TakeOneValid(s.log);
    case _ =>
  }

  lemma {:induction false} RunInvariant<T>(steps: seq<Step<T>>)
    ensures Invariant(After(steps))
  {
    if steps == [] {
    } else {
      var s, step := After(steps[..|steps| - 1]), steps[|steps| - 1];
      RunInvariant(steps[..|steps| - 1]);
      if Enabled(s, step) {
        NextKeepsInvariant(s, step);
      }
    }
  }

  /** When shutdown returns, every event enqueued before it was asked for was posted once or dropped
    * once, wherever the loop stood: the `i`-th event to leave the queue is the `i`-th that entered,
    * all those entered before the call have left, and the posts are exactly the events taken, in
    * enqueue order. */
  lemma ShutdownLosesNothing<T>(steps: seq<Step<T>>)
    requires After(steps).pc == Done
    ensures var s := After(steps);
            && s.atStop <= |s.log.removed| <= |s.log.enqueued|
            && Items(s.log.removed) == s.log.enqueued[..|s.log.removed|]
            && s.posted == TakenItems(s.log.removed)
  {
    RunInvariant(steps);
    var l := After(steps).log;
    assert Items(l.removed) == (Items(l.removed) + l.queue)[..|l.removed|];
  }

  /** Shutdown is first asked for at step `k`. */
  ghost predicate FirstAsked<T>(steps: seq<Step<T>>, k: nat) {
    k < |steps| && steps[k].AskStop? && forall j :: 0 <= j < k ==> !steps[j].AskStop?
  }

  lemma {:induction false} NotStopping<T>(steps: seq<Step<T>>)
    requires forall j :: 0 <= j < |steps| ==> !steps[j].AskStop?
    ensures !After(steps).stopping
  {
    if steps == [] {
    } else {
      NotStopping(steps[..|steps| - 1]);
    }
  }

  lemma {:induction false} StopIsRecorded<T>(steps: seq<Step<T>>, k: nat)
    requires FirstAsked(steps, k)
    ensures var s, asked := After(steps), After(steps[..k]);
            s.stopping && s.atStop == |asked.log.enqueued| && asked.log.enqueued <= s.log.enqueued
  {
    var n := |steps| - 1;
    RunInvariant(steps[..n]);
    if k == n {
      NotStopping(steps[..k]);
    } else {
      assert steps[..n][..k] == steps[..k];
      StopIsRecorded(steps[..n], k);
    }
  }

  /** In terms of the run: when shutdown returns, the events enqueued before it was first asked for are the
    * first to have left the queue, each once and in order. */
  lemma EnqueuedBeforeStopHasLeft<T>(steps: seq<Step<T>>, k: nat)
    requires After(steps).pc == Done && FirstAsked(steps, k)
    ensures After(steps[..k]).log.enqueued <= Items(After(steps).log.removed)
  {
    StopIsRecorded(steps, k);
    ShutdownLosesNothing(steps);
  }

  // ---------------------------------------------------------------- shutdown does return

  predicate IsTaskStep<T>(step: Step<T>) {
    !step.Enqueued? && !step.AskStop?
  }

  /** How far a stopping task is from done. */
  function Distance<T>(s: Task<T>): nat {
    4 * |s.log.queue| +
    match s.pc
    case Waiting => if s.got.Some? then 4 else 2
    case Posting => 3
    case Draining => 1
    case DrainPosting => 2
    case Done => 0
  }

  function TaskStep<T>(s: Task<T>): Step<T> {
    match s.pc
    case Waiting => if s.got.Some? then WakeWithEvent else WakeToStop
    case Posting => PostReturns
    case DrainPosting => PostReturns
    case Draining => if s.log.queue != [] then DrainOne else DrainEmpty
    case Done => DrainEmpty
  }

  /** A stopping task is never stuck short of done, and with no further enqueues every step it can
    * take, whichever it is, brings it closer. */
  lemma StoppingTaskFinishes<T>(s: Task<T>, step: Step<T>)
    requires Invariant(s) && s.stopping && s.pc != Done
    ensures IsTaskStep(TaskStep(s)) && Enabled(s, TaskStep(s))
    ensures IsTaskStep(step) && Enabled(s, step) ==> Distance(Next(s, step)) < Distance(s)
  {}
}
