/** The telemetry pipeline as a state machine: enqueues, drains, several batches between their two
  * writes at once, writes that fail part way, and retention sweeps
  * (src/hookguard_console/batcher.py, store/events.py and retention.py). The dashboard reads the
  * rollups, so they must agree with what was ever inserted. */
module Pipeline {
  import opened Wrappers
  import opened Models
  import opened Rollups
  import opened EventStore
  import opened DropOldest
  import Batcher

  /** A batch on its way through `_persist`. */
  datatype Flight = Drained(batch: seq<Event>) | Inserted(batch: seq<Event>)

  /** `ever` lists the events ever inserted as rows. `missed` lists the increments that were due for
    * them and will never be applied, and `unwritten` the events that never became rows, because a
    * write failed. */
  datatype State = State(
    log: Log<Event>, flights: seq<Flight>, rows: seq<Row>, rollups: seq<Delta>,
    ever: seq<Event>, missed: seq<Delta>, unwritten: seq<Event>)

  /** `fault` is the row at which the database fails; a fault past the end is no fault. */
  datatype Step =
    | Enqueued(event: Event)
    | Drain
    | Insert(flight: nat, fault: nat)
    | Upsert(flight: nat, fault: nat)
    | Sweep(cutoff: int)

  function Start(queueSize: int): State {
    State(Empty(queueSize), [], [], [], [], [], [])
  }

  predicate Enabled(s: State, step: Step) {
    match step
    case Enqueued(_) => true
    case Drain => s.log.queue != []
    case Insert(i, _) => i < |s.flights| && s.flights[i].Drained?
    case Upsert(i, _) => i < |s.flights| && s.flights[i].Inserted?
    case Sweep(_) => true
  }

  function Without<T>(s: seq<T>, i: nat): seq<T>
    requires i < |s|
  {
    s[..i] + s[i + 1..]
  }

  function Rest<T>(s: seq<T>, limit: nat): seq<T> {
    if |s| <= limit then [] else s[limit..]
  }

  /** A failed insert ends the batch: the rows already written stay, and get no rollups. */
  function NextInsert(s: State, i: nat, fault: nat): State
    requires i < |s.flights|
  {
    var batch := s.flights[i].batch;
    var k := Writable(batch, fault);
    var wrote := s.(rows := InsertAll(s.rows, batch[..k]), ever := s.ever + batch[..k]);
    if k == |batch| then wrote.(flights := s.flights[i := Inserted(batch)])
    else
      wrote.(flights := Without(s.flights, i),
             missed := s.missed + DeltasOf(batch[..k]),
             unwritten := s.unwritten + batch[k..])
  }

  /** A failed upsert ends the batch too: the increments already applied stay. */
  function NextUpsert(s: State, i: nat, fault: nat): State
    requires i < |s.flights|
  {
    var deltas := DeltasOf(s.flights[i].batch);
    s.(rollups := AddAll(s.rollups, FirstFew(deltas, fault)),
       flights := Without(s.flights, i),
       missed := s.missed + Rest(deltas, fault))
  }

  function Next(s: State, step: Step): State
    requires Enabled(s, step)
  {
    match step
    case Enqueued(event) => s.(log := Enqueue(s.log, event))
    case Drain => s.(log := TakeAll(s.log), flights := s.flights + [Drained(s.log.queue)])
    case Insert(i, fault) => NextInsert(s, i, fault)
    case Upsert(i, fault) => NextUpsert(s, i, fault)
    case Sweep(cutoff) => s.(rows := Keep(s.rows, cutoff))
  }

  /** The state after any interleaving of steps; a step that cannot happen is skipped. */
  function After(queueSize: int, steps: seq<Step>): State {
    if steps == [] then Start(queueSize)
    else
      var s, step := After(queueSize, steps[..|steps| - 1]), steps[|steps| - 1];
      if Enabled(s, step) then Next(s, step) else s
  }

  // ---------------------------------------------------------------- conservation

  /** What a flight carries in one of its two stages: inserted or not yet. */
  function Pending(f: Flight, inserted: bool, sel: Selection): nat {
    if f.Inserted? == inserted then Count(f.batch, sel) else 0
  }

  function Carried(flights: seq<Flight>, inserted: bool, sel: Selection): nat {
    if flights == [] then 0
    else Carried(flights[..|flights| - 1], inserted, sel) + Pending(flights[|flights| - 1], inserted, sel)
  }

  /** Events inserted but not yet added to the rollups. */
  function InFlight(flights: seq<Flight>, sel: Selection): nat {
    Carried(flights, true, sel)
  }

  /** Events drained but not yet inserted. */
  function Uninserted(flights: seq<Flight>, sel: Selection): nat {
    Carried(flights, false, sel)
  }

  lemma {:induction false} CarriedAppend(a: seq<Flight>, b: seq<Flight>, inserted: bool, sel: Selection)
    ensures Carried(a + b, inserted, sel) == Carried(a, inserted, sel) + Carried(b, inserted, sel)
  {
    if b == [] {
      assert a + b == a;
    } else {
      var init := b[..|b| - 1];
      assert (a + b)[..|a + b| - 1] == a + init;
      CarriedAppend(a, init, inserted, sel);
    }
  }

  lemma CarriedOne(f: Flight, inserted: bool, sel: Selection)
    ensures Carried([f], inserted, sel) == Pending(f, inserted, sel)
  {
    assert [f][..0] == [];
    assert Carried([], inserted, sel) == 0;
  }

  /** One flight's share of what is carried. */
  lemma CarriedAt(flights: seq<Flight>, i: nat, inserted: bool, sel: Selection)
    requires i < |flights|
    ensures Carried(flights, inserted, sel)
         == Carried(Without(flights, i), inserted, sel) + Pending(flights[i], inserted, sel)
  {
    var before, f, after := flights[..i], flights[i], flights[i + 1..];
    assert flights == before + ([f] + after);
    CarriedAppend(before, [f] + after, inserted, sel);
    CarriedAppend([f], after, inserted, sel);
    CarriedOne(f, inserted, sel);
    CarriedAppend(before, after, inserted, sel);
  }

  /** Every event ever inserted is in the rollups, in flight towards them, or missed for good. */
  ghost predicate Conserved(s: State, sel: Selection) {
    Total(s.rollups, sel) + InFlight(s.flights, sel) + Total(s.missed, sel) == Count(s.ever, sel)
  }

  lemma InsertConserves(s: State, i: nat, fault: nat, sel: Selection)
    requires i < |s.flights| && s.flights[i].Drained? && Conserved(s, sel)
    ensures Conserved(NextInsert(s, i, fault), sel)
  {
    var batch := s.flights[i].batch;
    var k := Writable(batch, fault);
    CountAppend(s.ever, batch[..k], sel);
    CarriedAt(s.flights, i, true, sel);
    if k == |batch| {
      assert batch[..k] == batch;
      var flights := s.flights[i := Inserted(batch)];
      assert Without(flights, i) == Without(s.flights, i);
      CarriedAt(flights, i, true, sel);
    } else {
      DeltasTotal(batch[..k], sel);
      TotalAppend(s.missed, DeltasOf(batch[..k]), sel);
    }
  }

  lemma UpsertConserves(s: State, i: nat, fault: nat, sel: Selection)
    requires i < |s.flights| && s.flights[i].Inserted? && Conserved(s, sel)
    ensures Conserved(NextUpsert(s, i, fault), sel)
  {
    var batch := s.flights[i].batch;
    var deltas := DeltasOf(batch);
    var applied, lost := FirstFew(deltas, fault), Rest(deltas, fault);
    assert applied + lost == deltas;
    TotalAppend(applied, lost, sel);
    AddAllTotal(s.rollups, applied, sel);
    TotalAppend(s.missed, lost, sel);
    DeltasTotal(batch, sel);
    CarriedAt(s.flights, i, true, sel);
  }

  lemma NextConserves(s: State, step: Step, sel: Selection)
    requires Enabled(s, step) && Conserved(s, sel)
    ensures Conserved(Next(s, step), sel)
  {
    match step
    case Drain =>
      CarriedAppend(s.flights, [Drained(s.log.queue)], true, sel);
      CarriedOne(Drained(s.log.queue), true, sel);
    case Insert(i, fault) => InsertConserves(s, i, fault, sel);
    case Upsert(i, fault) => UpsertConserves(s, i, fault, sel);
    case _ =>
  }

  /** In every run, whatever fails: rollups, batches in flight and missed increments together count
    * exactly the events ever inserted, for every selection of buckets. */
  lemma {:induction false} RunConserves(queueSize: int, steps: seq<Step>, sel: Selection)
    ensures Conserved(After(queueSize, steps), sel)
  {
    if steps == [] {
    } else {
      var s, step := After(queueSize, steps[..|steps| - 1]), steps[|steps| - 1];
      RunConserves(queueSize, steps[..|steps| - 1], sel);
      if Enabled(s, step) {
        NextConserves(s, step, sel);
      }
    }
  }

  // ---------------------------------------------------------------- what else every step keeps

  ghost predicate Known(events: seq<Event>) {
    forall i :: 0 <= i < |events| ==> KnownVerdict(events[i].verdict)
  }

  ghost predicate Shaped(s: State) {
    && DropOldest.Valid(s.log)
    && Ascending(s.rows)
    && Distinct(s.rollups) && Positive(s.rollups) && Positive(s.missed)
    && Known(s.ever)
    && (forall r :: r in s.rows ==> r.event in s.ever)
  }

  lemma {:induction false} InsertedRowsAreHistory(rows: seq<Row>, ever: seq<Event>, events: seq<Event>)
    requires forall r :: r in rows ==> r.event in ever
    ensures forall r :: r in InsertAll(rows, events) ==> r.event in ever + events
  {
    if events == [] {
    } else {
      InsertedRowsAreHistory(rows, ever, events[..|events| - 1]);
      assert events == events[..|events| - 1] + [events[|events| - 1]];
    }
  }

  lemma InsertKeepsShape(s: State, i: nat, fault: nat)
    requires i < |s.flights| && s.flights[i].Drained? && Shaped(s)
    ensures Shaped(NextInsert(s, i, fault))
  {
    var batch := s.flights[i].batch;
    var wrote := batch[..Writable(batch, fault)];
    InsertAllAscending(s.rows, wrote);
    InsertedRowsAreHistory(s.rows, s.ever, wrote);
    DeltasShape(wrote);
  }

  lemma UpsertKeepsShape(s: State, i: nat, fault: nat)
    requires i < |s.flights| && s.flights[i].Inserted? && Shaped(s)
    ensures Shaped(NextUpsert(s, i, fault))
  {
    var deltas := DeltasOf(s.flights[i].batch);
    DeltasShape(s.flights[i].batch);
    AddAllShape(s.rollups, FirstFew(deltas, fault));
  }

  lemma {:induction false} RunIsShaped(queueSize: int, steps: seq<Step>)
    ensures Shaped(After(queueSize, steps))
  {
    if steps == [] {
    } else {
      var s, step := After(queueSize, steps[..|steps| - 1]), steps[|steps| - 1];
      RunIsShaped(queueSize, steps[..|steps| - 1]);
      if Enabled(s, step) {
        match step
        case Enqueued(event) => EnqueueValid(s.log, event);
        case Drain => TakeAllValid(s.log);
        case Insert(i, fault) => InsertKeepsShape(s, i, fault);
        case Upsert(i, fault) => UpsertKeepsShape(s, i, fault);
        case Sweep(cutoff) => KeepFacts(s.rows, cutoff);
      }
    }
  }

  /** The rollups, with whatever is in flight, never exceed what was ever inserted. */
  lemma RollupsNeverExceed(queueSize: int, steps: seq<Step>, sel: Selection)
    ensures var s := After(queueSize, steps);
            0 <= Total(s.rollups, sel) && Total(s.rollups, sel) + InFlight(s.flights, sel) <= Count(s.ever, sel)
  {
    RunConserves(queueSize, steps, sel);
    RunIsShaped(queueSize, steps);
    var s := After(queueSize, steps);
    TotalIsNonNegative(s.rollups, sel);
    TotalIsNonNegative(s.missed, sel);
  }

  /** A step whose write, if it is one, goes through whole. */
  ghost predicate Succeeds(s: State, step: Step) {
    match step
    case Insert(i, fault) =>
      Enabled(s, step) ==> |s.flights[i].batch| <= fault && Known(s.flights[i].batch)
    case Upsert(i, fault) =>
      Enabled(s, step) ==> |DeltasOf(s.flights[i].batch)| <= fault
    case _ => true
  }

  ghost predicate AllSucceed(queueSize: int, steps: seq<Step>) {
    forall i :: 0 <= i < |steps| ==> Succeeds(After(queueSize, steps[..i]), steps[i])
  }

  /** Where every write succeeds nothing is missed, so a rollup row and the batches still in flight
    * count exactly the events ever inserted in its bucket. */
  lemma {:induction false} SuccessfulRunAgrees(queueSize: int, steps: seq<Step>, b: Bucket)
    requires AllSucceed(queueSize, steps)
    ensures var s := After(queueSize, steps);
            && s.missed == []
            && Total(s.rollups, Only(b)) + InFlight(s.flights, Only(b)) == Count(s.ever, Only(b))
  {
    RunConserves(queueSize, steps, Only(b));
    if steps == [] {
    } else {
      var n := |steps| - 1;
      var s, step := After(queueSize, steps[..n]), steps[n];
      assert forall i :: 0 <= i < n ==> steps[..n][..i] == steps[..i];
      SuccessfulRunAgrees(queueSize, steps[..n], b);
      assert Succeeds(s, step);
    }
  }

  /** A batch whose insert is all or nothing, from what is known before the call: it is empty, the
    * database fails at once, its first verdict is unknown, or nothing stops it. */
  ghost predicate InsertsWhole(batch: seq<Event>, fault: nat) {
    || batch == []
    || fault == 0
    || !KnownVerdict(batch[0].verdict)
    || (Known(batch) && |batch| <= fault)
  }

  /** `insert_events` writes all of a batch or none of it exactly then. */
  lemma AllOrNothingIff(batch: seq<Event>, fault: nat)
    ensures Writable(batch, fault) == 0 || Writable(batch, fault) == |batch| <==> InsertsWhole(batch, fault)
  {
    var k := Writable(batch, fault);
    assert k == |batch| ==> Known(batch);
    assert Known(batch) && |batch| <= fault ==> k == |batch|;
  }

  /** A step that splits no write: an insert is all or nothing, an upsert goes through whole. */
  ghost predicate WritesWhole(s: State, step: Step) {
    match step
    case Insert(i, fault) => Enabled(s, step) ==> InsertsWhole(s.flights[i].batch, fault)
    case Upsert(i, fault) => Enabled(s, step) ==> |DeltasOf(s.flights[i].batch)| <= fault
    case _ => true
  }

  ghost predicate AllWriteWhole(queueSize: int, steps: seq<Step>) {
    forall i :: 0 <= i < |steps| ==> WritesWhole(After(queueSize, steps[..i]), steps[i])
  }

  lemma MissesNothingIff(s: State, step: Step)
    requires Enabled(s, step)
    ensures Next(s, step).missed == [] <==> s.missed == [] && WritesWhole(s, step)
  {
    match step
    case Insert(i, fault) =>
      var batch := s.flights[i].batch;
      var k := Writable(batch, fault);
      AllOrNothingIff(batch, fault);
      DeltasEmptyIff(batch[..k]);
    case Upsert(i, fault) =>
      var deltas := DeltasOf(s.flights[i].batch);
      assert Rest(deltas, fault) == [] <==> |deltas| <= fault;
    case _ =>
  }

  lemma DeltasEmptyIff(events: seq<Event>)
    ensures DeltasOf(events) == [] <==> events == []
  {
    if events != [] {
      AddToShape([], One(events[|events| - 1]));
      assert |AddTo(DeltasOf(events[..|events| - 1]), One(events[|events| - 1]))| > 0;
    }
  }

  /** A run loses no increment iff it splits no write. */
  lemma {:induction false} RunMissesNothingIff(queueSize: int, steps: seq<Step>)
    ensures After(queueSize, steps).missed == [] <==> AllWriteWhole(queueSize, steps)
  {
    if steps == [] {
    } else {
      var init, step := steps[..|steps| - 1], steps[|steps| - 1];
      RunMissesNothingIff(queueSize, init);
      assert steps == init + [step];
      AllWholeSnoc(queueSize, init, step);
      if Enabled(After(queueSize, init), step) {
        MissesNothingIff(After(queueSize, init), step);
      }
    }
  }

  lemma AllWholeSnoc(queueSize: int, init: seq<Step>, step: Step)
    ensures AllWriteWhole(queueSize, init + [step]) <==>
            AllWriteWhole(queueSize, init) && WritesWhole(After(queueSize, init), step)
  {
    var steps := init + [step];
    assert steps[..|init|] == init && steps[|init|] == step;
    assert forall i :: 0 <= i < |init| ==> steps[..i] == init[..i] && steps[i] == init[i];
    if AllWriteWhole(queueSize, steps) {
      assert WritesWhole(After(queueSize, steps[..|init|]), steps[|init|]);
      forall i | 0 <= i < |init|
        ensures WritesWhole(After(queueSize, init[..i]), init[i])
      {
        assert WritesWhole(After(queueSize, steps[..i]), steps[i]);
      }
    }
  }

  /** Rollups and history agree in every selection of buckets. */
  ghost predicate AgreesEverywhere(s: State) {
    forall sel :: Total(s.rollups, sel) == Count(s.ever, sel)
  }

  /** With nothing in flight, rollups agree with history in every selection of buckets iff the run
    * split no write: every insert was all or nothing and every upsert went through whole. */
  lemma QuietRollupsAgreeIff(queueSize: int, steps: seq<Step>)
    requires After(queueSize, steps).flights == []
    ensures AgreesEverywhere(After(queueSize, steps)) <==> AllWriteWhole(queueSize, steps)
  {
    var s := After(queueSize, steps);
    RunMissesNothingIff(queueSize, steps);
    RunIsShaped(queueSize, steps);
    forall sel
      ensures Total(s.rollups, sel) + Total(s.missed, sel) == Count(s.ever, sel)
    {
      RunConserves(queueSize, steps, sel);
    }
    if s.missed != [] {
      TotalIsPositive(s.missed);
      var sel := Only(s.missed[|s.missed| - 1].bucket);
      assert Total(s.rollups, sel) != Count(s.ever, sel);
    }
  }

  lemma TotalIsPositive(table: seq<Delta>)
    requires Positive(table) && table != []
    ensures Total(table, Only(table[|table| - 1].bucket)) > 0
  {
    TotalIsNonNegative(table[..|table| - 1], Only(table[|table| - 1].bucket));
  }

  /** The batch is documented as one transaction, and it is not: when an unknown verdict follows a
    * good event, the good one stays as a row that no rollup will ever count. */
  lemma RefusedBatchLeavesUncountedRows(good: Event, bad: Event, queueSize: int)
    requires KnownVerdict(good.verdict) && !KnownVerdict(bad.verdict) && queueSize >= 2
    ensures var s := After(queueSize, [Enqueued(good), Enqueued(bad), Drain, Insert(0, 2)]);
            && s.flights == [] && s.rows == [Row(1, good)] && s.rollups == []
            && Count(s.ever, Only(BucketOf(good))) == 1
  {
    var s1 := Start(queueSize).(log := Log(queueSize, [good], [good], []));
    var s2 := s1.(log := Log(queueSize, [good, bad], [good, bad], []));
    var steps := [Enqueued(good), Enqueued(bad), Drain, Insert(0, 2)];
    assert steps[..3][..2] == steps[..2] && steps[..2][..1] == steps[..1] && steps[..1][..0] == [];
    assert [good] + [bad] == [good, bad] && [] + [good] == [good];
    assert After(queueSize, steps[..1]) == s1;
    assert After(queueSize, steps[..2]) == s2;
    var s3 := Next(s2, Drain);
    assert After(queueSize, steps[..3]) == s3;
    assert s3.flights == [Drained([good, bad])];
    RefusedInsert(s3, good, bad);
  }

  lemma RefusedInsert(s: State, good: Event, bad: Event)
    requires s.flights == [Drained([good, bad])] && s.rows == [] && s.ever == []
    requires KnownVerdict(good.verdict) && !KnownVerdict(bad.verdict)
    ensures var t := NextInsert(s, 0, 2);
            && t.flights == [] && t.rows == [Row(1, good)] && t.rollups == s.rollups
            && Count(t.ever, Only(BucketOf(good))) == 1
  {
    var batch := [good, bad];
    assert batch[1..] == [bad];
    assert Writable([bad], 1) == 0 && Writable(batch, 2) == 1;
    assert batch[..1] == [good] && [good][..0] == [];
    assert InsertAll([], [good]) == [Row(1, good)];
    assert [] + [good] == [good] && Without(s.flights, 0) == [];
  }

  // ---------------------------------------------------------------- the same steps on the store

  /** `_persist`: an insert step and then, unless it failed, an upsert step. `lastIngest` is the
    * timestamp then written to the settings table. */
  method Persist(store: Store, pending: seq<Event>, insertFault: nat, upsertFault: nat)
    returns (lastIngest: Option<int>)
    requires store.IsValid() && pending != []
    modifies store
    ensures store.IsValid()
    ensures forall s: State, i: nat ::
              i < |s.flights| && s.flights[i] == Drained(pending)
              && s.rows == old(store.events) && s.rollups == old(store.rollups)
              ==> var inserted := NextInsert(s, i, insertFault);
                  if lastIngest == None then store.events == inserted.rows && store.rollups == inserted.rollups
                  else
                    i < |inserted.flights| && inserted.flights[i] == Inserted(pending)
                    && store.events == NextUpsert(inserted, i, upsertFault).rows
                    && store.rollups == NextUpsert(inserted, i, upsertFault).rollups
    ensures lastIngest
         == if Writable(pending, insertFault) == |pending| then Some(pending[|pending| - 1].receivedAt) else None
    // Written whole, a batch adds each of its events to its bucket once.
    ensures lastIngest.Some? && |DeltasOf(pending)| <= upsertFault ==>
              forall sel :: Total(store.rollups, sel) == old(Total(store.rollups, sel)) + Count(pending, sel)
  {
    var ok := store.InsertEvents(pending, insertFault);
    if !ok {
      return None;
    }
    var deltas := Batcher.RollupDeltas(pending);
    ghost var before := store.rollups;
    var upserted := store.UpsertRollups(deltas, upsertFault);
    forall sel | |deltas| <= upsertFault
      ensures Total(store.rollups, sel) == Total(before, sel) + Count(pending, sel)
    {
      AddAllTotal(before, deltas, sel);
    }
    return Some(pending[|pending| - 1].receivedAt);
  }
}
