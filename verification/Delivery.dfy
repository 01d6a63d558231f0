/** From the queue to the rollups: where every event ever enqueued is, in any run of the pipeline, and
  * what `flush` has done by the time it returns (src/hookguard_console/batcher.py). */
module Delivery {
  import opened Wrappers
  import opened Models
  import opened Rollups
  import opened EventStore
  import opened DropOldest
  import opened Pipeline

  // ---------------------------------------------------------------- every event is somewhere

  /** The events taken from the queue are inserted, waiting to be, or lost to a failed insert. */
  ghost predicate Collected(s: State, sel: Selection) {
    Count(TakenItems(s.log.removed), sel)
      == Count(s.ever, sel) + Uninserted(s.flights, sel) + Count(s.unwritten, sel)
  }

  lemma DrainCollects(s: State, sel: Selection)
    requires DropOldest.Valid(s.log) && s.log.queue != [] && Collected(s, sel)
    ensures Collected(Next(s, Drain), sel)
  {
    TakeAllValid(s.log);
    CountAppend(TakenItems(s.log.removed), s.log.queue, sel);
    CarriedAppend(s.flights, [Drained(s.log.queue)], false, sel);
    CarriedOne(Drained(s.log.queue), false, sel);
  }

  lemma InsertCollects(s: State, i: nat, fault: nat, sel: Selection)
    requires i < |s.flights| && s.flights[i].Drained? && Collected(s, sel)
    ensures Collected(NextInsert(s, i, fault), sel)
  {
    var batch := s.flights[i].batch;
    var k := Writable(batch, fault);
    assert batch == batch[..k] + batch[k..];
    CountAppend(batch[..k], batch[k..], sel);
    CountAppend(s.ever, batch[..k], sel);
    CountAppend(s.unwritten, batch[k..], sel);
    CarriedAt(s.flights, i, false, sel);
    if k == |batch| {
      var flights := s.flights[i := Inserted(batch)];
      assert Without(flights, i) == Without(s.flights, i);
      CarriedAt(flights, i, false, sel);
    }
  }

  lemma NextCollects(s: State, step: Step, sel: Selection)
    requires DropOldest.Valid(s.log) && Enabled(s, step) && Collected(s, sel)
    ensures Collected(Next(s, step), sel)
  {
    match step
    case Enqueued(event) => EnqueueValid(s.log, event);
    case Drain => DrainCollects(s, sel);
    case Insert(i, fault) => InsertCollects(s, i, fault, sel);
    case Upsert(i, _) => CarriedAt(s.flights, i, false, sel);
    case Sweep(_) =>
  }

  lemma {:induction false} RunCollects(queueSize: int, steps: seq<Step>, sel: Selection)
    ensures Collected(After(queueSize, steps), sel)
  {
    if steps == [] {
    } else {
      var s, step := After(queueSize, steps[..|steps| - 1]), steps[|steps| - 1];
      RunCollects(queueSize, steps[..|steps| - 1], sel);
      RunIsShaped(queueSize, steps[..|steps| - 1]);
      if Enabled(s, step) {
        NextCollects(s, step, sel);
      }
    }
  }

  lemma CountSnoc(events: seq<Event>, e: Event, sel: Selection)
    ensures Count(events + [e], sel) == Count(events, sel) + if Selects(sel, BucketOf(e)) then 1 else 0
  {
    assert (events + [e])[..|events|] == events;
  }

  ghost predicate CountsMatch(removed: seq<Removal<Event>>, sel: Selection) {
    Count(Items(removed), sel) == Count(TakenItems(removed), sel) + Count(DroppedItems(removed), sel)
  }

  lemma CountItemsSnoc(removed: seq<Removal<Event>>, r: Removal<Event>, sel: Selection)
    requires CountsMatch(removed, sel)
    ensures CountsMatch(removed + [r], sel)
  {
    assert (removed + [r])[..|removed|] == removed;
    TakenItemsSnoc(removed, r);
    CountSnoc(Items(removed), r.item, sel);
    if r.Taken? {
      assert DroppedItems(removed + [r]) == DroppedItems(removed);
      CountSnoc(TakenItems(removed), r.item, sel);
    } else {
      assert TakenItems(removed + [r]) == TakenItems(removed);
      CountSnoc(DroppedItems(removed), r.item, sel);
    }
  }

  lemma {:induction false} CountItems(removed: seq<Removal<Event>>, sel: Selection)
    ensures CountsMatch(removed, sel)
  {
    if removed == [] {
    } else {
      var init, last := removed[..|removed| - 1], removed[|removed| - 1];
      CountItems(init, sel);
      CountItemsSnoc(init, last, sel);
      assert removed == init + [last];
    }
  }

  /** What is written in the rollups, or lost to a failed write. */
  function Settled(s: State, sel: Selection): int {
    Total(s.rollups, sel) + Total(s.missed, sel) + Count(s.unwritten, sel)
  }

  lemma TakenAreSettledOrCarried(queueSize: int, steps: seq<Step>, sel: Selection)
    ensures var s := After(queueSize, steps);
            Count(TakenItems(s.log.removed), sel)
              == Settled(s, sel) + InFlight(s.flights, sel) + Uninserted(s.flights, sel)
  {
    RunConserves(queueSize, steps, sel);
    RunCollects(queueSize, steps, sel);
  }

  /** In every run, whatever fails, each event ever enqueued is in exactly one place: queued, dropped
    * by overflow, in a batch on its way, lost to a failed write, or counted in the rollups. */
  lemma EveryEventIsAccountedFor(queueSize: int, steps: seq<Step>, sel: Selection)
    ensures var s := After(queueSize, steps);
            Count(s.log.enqueued, sel)
              == Count(s.log.queue, sel) + Count(DroppedItems(s.log.removed), sel)
               + Uninserted(s.flights, sel) + InFlight(s.flights, sel)
               + Count(s.unwritten, sel) + Total(s.missed, sel) + Total(s.rollups, sel)
  {
    var log := After(queueSize, steps).log;
    RunIsShaped(queueSize, steps);
    CountAppend(Items(log.removed), log.queue, sel);
    CountItems(log.removed, sel);
    TakenAreSettledOrCarried(queueSize, steps, sel);
  }

  // ---------------------------------------------------------------- when nothing is lost

  ghost predicate LostNothing(s: State) {
    s.missed == [] && s.unwritten == []
  }

  lemma LosesNothingIff(s: State, step: Step)
    requires Enabled(s, step)
    ensures LostNothing(Next(s, step)) <==> LostNothing(s) && Succeeds(s, step)
  {
    match step
    case Insert(i, fault) =>
      var batch := s.flights[i].batch;
      var k := Writable(batch, fault);
      assert k == |batch| ==> Known(batch);
      assert Known(batch) && |batch| <= fault ==> k == |batch|;
      assert k < |batch| ==> s.unwritten + batch[k..] != [];
    case Upsert(i, fault) =>
      var deltas := DeltasOf(s.flights[i].batch);
      assert Rest(deltas, fault) == [] <==> |deltas| <= fault;
    case _ =>
  }

  lemma AllSucceedSnoc(queueSize: int, init: seq<Step>, step: Step)
    ensures AllSucceed(queueSize, init + [step]) <==>
            AllSucceed(queueSize, init) && Succeeds(After(queueSize, init), step)
  {
    var steps := init + [step];
    assert steps[..|init|] == init && steps[|init|] == step;
    assert forall i :: 0 <= i < |init| ==> steps[..i] == init[..i] && steps[i] == init[i];
    if AllSucceed(queueSize, steps) {
      assert Succeeds(After(queueSize, steps[..|init|]), steps[|init|]);
      forall i | 0 <= i < |init|
        ensures Succeeds(After(queueSize, init[..i]), init[i])
      {
        assert Succeeds(After(queueSize, steps[..i]), steps[i]);
      }
    }
  }

  lemma {:induction false} RunLosesNothingIff(queueSize: int, steps: seq<Step>)
    ensures LostNothing(After(queueSize, steps)) <==> AllSucceed(queueSize, steps)
  {
    if steps == [] {
    } else {
      var init, step := steps[..|steps| - 1], steps[|steps| - 1];
      RunLosesNothingIff(queueSize, init);
      assert steps == init + [step];
      AllSucceedSnoc(queueSize, init, step);
      if Enabled(After(queueSize, init), step) {
        LosesNothingIff(After(queueSize, init), step);
      }
    }
  }

  /** The rollups count exactly the events taken from the queue, in every selection of buckets. */
  ghost predicate CountsAllTaken(s: State) {
    forall sel :: Total(s.rollups, sel) == Count(TakenItems(s.log.removed), sel)
  }

  /** With nothing on its way, the dashboard counts every event taken from the queue iff every write
    * went through whole. */
  lemma QuietRollupsCountAllTakenIff(queueSize: int, steps: seq<Step>)
    requires After(queueSize, steps).flights == []
    ensures CountsAllTaken(After(queueSize, steps)) <==> AllSucceed(queueSize, steps)
  {
    var s := After(queueSize, steps);
    RunLosesNothingIff(queueSize, steps);
    RunIsShaped(queueSize, steps);
    forall sel
      ensures Count(TakenItems(s.log.removed), sel) == Settled(s, sel)
      ensures Total(s.missed, sel) >= 0
    {
      TakenAreSettledOrCarried(queueSize, steps, sel);
      TotalIsNonNegative(s.missed, sel);
    }
    if s.missed != [] {
      TotalIsPositive(s.missed);
      var sel := Only(s.missed[|s.missed| - 1].bucket);
      assert Total(s.rollups, sel) != Count(TakenItems(s.log.removed), sel);
    } else if s.unwritten != [] {
      var sel := Only(BucketOf(s.unwritten[|s.unwritten| - 1]));
      assert Count(s.unwritten, sel) > 0;
      assert Total(s.rollups, sel) != Count(TakenItems(s.log.removed), sel);
    }
  }

  // ---------------------------------------------------------------- flush

  /** The batch that `flush` drains and then waits for: none when it finds the queue empty. */
  function OwnBatch(s: State): Option<nat> {
    if s.log.queue == [] then None else Some(|s.flights|)
  }

  /** The step ends its flight: an upsert, or an insert that fails. */
  predicate Ends(s: State, step: Step)
    requires Enabled(s, step)
  {
    step.Upsert?
    || (step.Insert? && Writable(s.flights[step.flight].batch, step.fault) < |s.flights[step.flight].batch|)
  }

  /** Where a flight stands in the list after one more step; None once it has ended. */
  function Follow(s: State, i: Option<nat>, step: Step): Option<nat> {
    if i == None || !Enabled(s, step) || !Ends(s, step) || step.flight > i.value then i
    else if step.flight == i.value then None
    else Some(i.value - 1)
  }

  /** The run in which `flush` is called after `before`, and `during` follows its drain. */
  function Whole(before: seq<Step>, during: seq<Step>): seq<Step> {
    before + [Drain] + during
  }

  /** Where the batch of that `flush` stands. */
  function Own(queueSize: int, before: seq<Step>, during: seq<Step>): Option<nat> {
    if during == [] then OwnBatch(After(queueSize, before))
    else
      var init := during[..|during| - 1];
      Follow(After(queueSize, Whole(before, init)), Own(queueSize, before, init), during[|during| - 1])
  }

  ghost predicate FlushReturned(queueSize: int, before: seq<Step>, during: seq<Step>) {
    Own(queueSize, before, during) == None
  }

  /** By then every event taken up to the drain of the `flush` is in the rollups, or was lost to a
    * failed write. */
  ghost predicate NoneOnItsWay(queueSize: int, before: seq<Step>, during: seq<Step>) {
    var taken := TakenItems(After(queueSize, before + [Drain]).log.removed);
    forall sel :: Settled(After(queueSize, Whole(before, during)), sel) >= Count(taken, sel)
  }

  lemma WholeSnoc(queueSize: int, before: seq<Step>, during: seq<Step>)
    requires during != []
    ensures var init, step := during[..|during| - 1], during[|during| - 1];
            var s := After(queueSize, Whole(before, init));
            After(queueSize, Whole(before, during)) == if Enabled(s, step) then Next(s, step) else s
  {
    var run := Whole(before, during);
    assert run[..|run| - 1] == Whole(before, during[..|during| - 1]);
  }

  lemma DrainedState(queueSize: int, before: seq<Step>)
    ensures var s := After(queueSize, before);
            && Whole(before, []) == before + [Drain]
            && After(queueSize, before + [Drain]) == if s.log.queue == [] then s else Next(s, Drain)
  {
    assert (before + [Drain])[..|before|] == before;
  }

  lemma FollowHolds(s: State, i: Option<nat>, step: Step)
    requires Enabled(s, step) && (i.Some? ==> i.value < |s.flights|)
    ensures var j, t := Follow(s, i, step), Next(s, step);
            j.Some? ==> i.Some? && j.value < |t.flights| && t.flights[j.value].batch == s.flights[i.value].batch
  {}

  /** The flight followed is the one that `flush` drained. */
  lemma {:induction false} OwnHoldsTheQueue(queueSize: int, before: seq<Step>, during: seq<Step>)
    ensures var i, t := Own(queueSize, before, during), After(queueSize, Whole(before, during));
            i.Some? ==> i.value < |t.flights| && t.flights[i.value].batch == After(queueSize, before).log.queue
  {
    if during == [] {
      DrainedState(queueSize, before);
    } else {
      var init, step := during[..|during| - 1], during[|during| - 1];
      var t := After(queueSize, Whole(before, init));
      OwnHoldsTheQueue(queueSize, before, init);
      WholeSnoc(queueSize, before, during);
      if Enabled(t, step) {
        FollowHolds(t, Own(queueSize, before, init), step);
      }
    }
  }

  /** A step that ends a flight settles exactly its events, and no other step settles any. */
  lemma NextSettles(s: State, step: Step, sel: Selection)
    requires Enabled(s, step)
    ensures Settled(Next(s, step), sel)
         == Settled(s, sel) + if Ends(s, step) then Count(s.flights[step.flight].batch, sel) else 0
  {
    match step
    case Insert(i, fault) =>
      var batch := s.flights[i].batch;
      var k := Writable(batch, fault);
      assert batch == batch[..k] + batch[k..];
      CountAppend(batch[..k], batch[k..], sel);
      CountAppend(s.unwritten, batch[k..], sel);
      DeltasTotal(batch[..k], sel);
      TotalAppend(s.missed, DeltasOf(batch[..k]), sel);
    case Upsert(i, fault) =>
      var deltas := DeltasOf(s.flights[i].batch);
      var applied, lost := FirstFew(deltas, fault), Rest(deltas, fault);
      assert applied + lost == deltas;
      TotalAppend(applied, lost, sel);
      AddAllTotal(s.rollups, applied, sel);
      TotalAppend(s.missed, lost, sel);
      DeltasTotal(s.flights[i].batch, sel);
    case _ =>
  }

  /** With no other batch on its way at the call, what is not settled of what had been taken is the
    * batch of the `flush`. */
  lemma {:induction false} OnlyOwnIsUnsettled(queueSize: int, before: seq<Step>, during: seq<Step>, sel: Selection)
    requires After(queueSize, before).flights == []
    ensures Settled(After(queueSize, Whole(before, during)), sel)
            + (if Own(queueSize, before, during).Some? then Count(After(queueSize, before).log.queue, sel) else 0)
         >= Count(TakenItems(After(queueSize, before + [Drain]).log.removed), sel)
  {
    if during == [] {
      var s := After(queueSize, before);
      DrainedState(queueSize, before);
      TakenAreSettledOrCarried(queueSize, before + [Drain], sel);
      if s.log.queue != [] {
        assert After(queueSize, before + [Drain]).flights == [Drained(s.log.queue)];
        CarriedOne(Drained(s.log.queue), true, sel);
        CarriedOne(Drained(s.log.queue), false, sel);
      }
    } else {
      var init, step := during[..|during| - 1], during[|during| - 1];
      var t := After(queueSize, Whole(before, init));
      OnlyOwnIsUnsettled(queueSize, before, init, sel);
      OwnHoldsTheQueue(queueSize, before, init);
      WholeSnoc(queueSize, before, during);
      if Enabled(t, step) {
        NextSettles(t, step, sel);
      }
    }
  }

  lemma {:induction false} NoBatchIsEmpty(queueSize: int, steps: seq<Step>)
    ensures forall i :: 0 <= i < |After(queueSize, steps).flights| ==> After(queueSize, steps).flights[i].batch != []
  {
    if steps == [] {
    } else {
      NoBatchIsEmpty(queueSize, steps[..|steps| - 1]);
    }
  }

  /** The steps of a `flush` whose own batch fails at once, with nothing beside it. */
  function Shortest(s: State): seq<Step> {
    if s.log.queue == [] then [] else [Insert(|s.flights|, 0)]
  }

  lemma ShortestReturns(queueSize: int, before: seq<Step>)
    ensures var s := After(queueSize, before);
            var t := After(queueSize, Whole(before, Shortest(s)));
            && FlushReturned(queueSize, before, Shortest(s)) && t.flights == s.flights
            && t.log == After(queueSize, before + [Drain]).log
  {
    var s := After(queueSize, before);
    DrainedState(queueSize, before);
    if s.log.queue != [] {
      var during := Shortest(s);
      assert during[..0] == [];
      assert Own(queueSize, before, []) == Some(|s.flights|);
      WholeSnoc(queueSize, before, during);
      var d := Next(s, Drain);
      assert d.flights == s.flights + [Drained(s.log.queue)];
      assert Writable(s.log.queue, 0) == 0;
      assert Ends(d, during[0]);
      assert Without(d.flights, |s.flights|) == s.flights;
    }
  }

  lemma SomethingIsCarried(flights: seq<Flight>)
    requires flights != [] && flights[0].batch != []
    ensures var batch := flights[0].batch;
            var sel := Only(BucketOf(batch[|batch| - 1]));
            Carried(flights, true, sel) + Carried(flights, false, sel) > 0
  {
    var batch := flights[0].batch;
    var sel := Only(BucketOf(batch[|batch| - 1]));
    CarriedAt(flights, 0, true, sel);
    CarriedAt(flights, 0, false, sel);
    assert Count(batch, sel) > 0;
  }

  /** However it runs, a `flush` called now leaves no earlier event on its way when it returns. */
  ghost predicate FlushWaitsForAll(queueSize: int, before: seq<Step>) {
    forall during :: FlushReturned(queueSize, before, during) ==> NoneOnItsWay(queueSize, before, during)
  }

  /** `flush` is documented to persist everything enqueued before the call. Whatever runs beside it and
    * whatever fails, it has done so when it returns, exactly when no other batch is on its way at the
    * call: it waits for its own batch and for no other. */
  lemma FlushWaitsForAllIff(queueSize: int, before: seq<Step>)
    ensures FlushWaitsForAll(queueSize, before) <==> After(queueSize, before).flights == []
  {
    var s := After(queueSize, before);
    if s.flights == [] {
      forall during, sel | FlushReturned(queueSize, before, during)
        ensures Settled(After(queueSize, Whole(before, during)), sel)
             >= Count(TakenItems(After(queueSize, before + [Drain]).log.removed), sel)
      {
        OnlyOwnIsUnsettled(queueSize, before, during, sel);
      }
      assert forall during :: FlushReturned(queueSize, before, during) ==> NoneOnItsWay(queueSize, before, during);
    } else {
      var during := Shortest(s);
      ShortestReturns(queueSize, before);
      NoBatchIsEmpty(queueSize, before);
      SomethingIsCarried(s.flights);
      var sel := Only(BucketOf(s.flights[0].batch[|s.flights[0].batch| - 1]));
      TakenAreSettledOrCarried(queueSize, Whole(before, during), sel);
      assert !NoneOnItsWay(queueSize, before, during);
    }
  }

  /** So where every write succeeds, such a `flush` returns with every event taken by then counted. */
  lemma FlushCountsAll(queueSize: int, before: seq<Step>, during: seq<Step>, sel: Selection)
    requires After(queueSize, before).flights == [] && FlushReturned(queueSize, before, during)
    requires AllSucceed(queueSize, Whole(before, during))
    ensures Total(After(queueSize, Whole(before, during)).rollups, sel)
         >= Count(TakenItems(After(queueSize, before + [Drain]).log.removed), sel)
  {
    OnlyOwnIsUnsettled(queueSize, before, during, sel);
    RunLosesNothingIff(queueSize, Whole(before, during));
  }

  /** It does fail: when the ticker has drained the event and not yet written it, `flush` finds the
    * queue empty and returns, and nothing is stored. */
  lemma FlushReturnsFirst(queueSize: int, e: Event)
    ensures var before := [Enqueued(e), Drain];
            var t := After(queueSize, Whole(before, []));
            && FlushReturned(queueSize, before, [])
            && TakenItems(t.log.removed) == [e] && t.rows == [] && t.rollups == []
  {
    var before := [Enqueued(e), Drain];
    assert before[..1] == [Enqueued(e)] && [Enqueued(e)][..0] == [];
    var s1 := Next(Start(queueSize), Enqueued(e));
    assert After(queueSize, [Enqueued(e)][..0]) == Start(queueSize);
    assert After(queueSize, [Enqueued(e)]) == s1;
    assert s1.log.queue == [e];
    EnqueueValid(Empty<Event>(queueSize), e);
    TakeAllValid(s1.log);
    assert After(queueSize, before) == Next(s1, Drain);
    DrainedState(queueSize, before);
  }
}
