/** The log page (src/hookguard_console/routes/logs.py): the store's filter, the stream's filter, and
  * the polling cursor that tails the events table. */
module Logs {
  import opened Wrappers
  import opened Models
  import opened EventStore
  import opened Text
  import Like

  // ---------------------------------------------------------------- the two filters

  /** Unset fields, "" and 0, mean no filter. */
  datatype Filter = Filter(provider: string, verdict: string, reason: string, path: string, fromMs: int, toMs: int)

  /** The WHERE clause of `list_events`. */
  predicate Selects(f: Filter, e: Event) {
    && (f.provider != "" ==> e.provider == f.provider)
    && (f.verdict != "" ==> e.verdict == f.verdict)
    && (f.reason != "" ==> Like.Matches(Like.SubstringPattern(f.reason), e.reason))
    && (f.path != "" ==> Like.Matches(Like.SubstringPattern(f.path), e.path))
    && (f.fromMs > 0 ==> e.receivedAt >= f.fromMs)
    && (f.toMs > 0 ==> e.receivedAt <= f.toMs)
  }

  /** `_matches`: the stream filters in Python. */
  predicate Passes(f: Filter, e: Event) {
    if f.provider != "" && e.provider != f.provider then false
    else if f.verdict != "" && e.verdict != f.verdict then false
    else if f.reason != "" && !Contains(e.reason, f.reason) then false
    else if f.path != "" && !Contains(e.path, f.path) then false
    else if f.fromMs != 0 && e.receivedAt < f.fromMs then false
    else !(f.toMs != 0 && e.receivedAt > f.toMs)
  }

  /** What the store's filter means: its substring tests are literal and fold ASCII case. */
  ghost predicate SelectsMeaning(f: Filter, e: Event) {
    && (f.provider == "" || e.provider == f.provider)
    && (f.verdict == "" || e.verdict == f.verdict)
    && (f.reason == "" || Contains(Lower(e.reason), Lower(f.reason)))
    && (f.path == "" || Contains(Lower(e.path), Lower(f.path)))
    && (f.fromMs <= 0 || e.receivedAt >= f.fromMs)
    && (f.toMs <= 0 || e.receivedAt <= f.toMs)
  }

  lemma SelectsIff(f: Filter, e: Event)
    ensures Selects(f, e) <==> SelectsMeaning(f, e)
  {
    Like.PatternMeansSubstring(f.reason, e.reason);
    Like.PatternMeansSubstring(f.path, e.path);
  }

  /** What the stream's filter asks beyond the page's: the case of reason and path, and any time bound
    * before 1970, which the page does not apply. */
  ghost predicate StreamExtra(f: Filter, e: Event) {
    && (f.reason == "" || Contains(e.reason, f.reason))
    && (f.path == "" || Contains(e.path, f.path))
    && (f.fromMs < 0 ==> e.receivedAt >= f.fromMs)
    && (f.toMs < 0 ==> e.receivedAt <= f.toMs)
  }

  /** The stream shows exactly what the page selects and these extra tests pass, for all filters. */
  lemma StreamFitsPage(f: Filter, e: Event)
    ensures Passes(f, e) <==> Selects(f, e) && StreamExtra(f, e)
  {
    SelectsIff(f, e);
    if Contains(e.reason, f.reason) {
      Like.ContainsFolded(f.reason, e.reason);
    }
    if Contains(e.path, f.path) {
      Like.ContainsFolded(f.path, e.path);
    }
  }

  /** The two filters part on a bound before 1970: the page ignores it and the stream hides every event
    * after it. */
  lemma EarlyBoundSeparatesThem(e: Event, toMs: int)
    requires toMs < 0 <= e.receivedAt
    ensures var f := Filter("", "", "", "", 0, toMs);
            Selects(f, e) && !Passes(f, e)
  {
    SelectsIff(Filter("", "", "", "", 0, toMs), e);
  }

  /** The two filters do part on case: "X" finds the path "x" on the page and not in the stream. */
  lemma CaseSeparatesThem(e: Event)
    requires e.path == "x"
    ensures var f := Filter("", "", "", "X", 0, 0);
            Selects(f, e) && !Passes(f, e)
  {
    var f := Filter("", "", "", "X", 0, 0);
    SelectsIff(f, e);
    assert OccursAt(Lower("x"), Lower("X"), 0);
    assert "x"[0..1][0] == 'x';
  }

  // ---------------------------------------------------------------- when the two filters agree

  ghost predicate FiltersAgree(f: Filter) {
    forall e :: Selects(f, e) <==> Passes(f, e)
  }

  /** No event lies within the page's bounds. */
  ghost predicate EmptyWindow(f: Filter) {
    0 < f.toMs < f.fromMs
  }

  /** An event with these three fields that is otherwise as the filter asks. */
  ghost function Probe(f: Filter, receivedAt: int, path: string, reason: string): Event {
    Event(receivedAt, path, f.provider, f.verdict, reason, 0, 0, 0, "", "")
  }

  /** A time within the page's bounds, if there is one. */
  ghost function InBounds(f: Filter): int {
    if f.fromMs > 0 then f.fromMs else if f.toMs > 0 then f.toMs else 0
  }

  lemma ProbeIsSelected(f: Filter, receivedAt: int, path: string, reason: string)
    requires (f.fromMs <= 0 || receivedAt >= f.fromMs) && (f.toMs <= 0 || receivedAt <= f.toMs)
    requires Lower(path) == Lower(f.path) && Lower(reason) == Lower(f.reason)
    ensures Selects(f, Probe(f, receivedAt, path, reason))
  {
    Like.ContainsItself(Lower(path));
    Like.ContainsItself(Lower(reason));
    SelectsIff(f, Probe(f, receivedAt, path, reason));
  }

  /** Events that the page selects and the stream hides, where a condition below fails. */
  lemma FiltersPart(f: Filter)
    requires !EmptyWindow(f)
    requires Like.HasLetter(f.reason) || Like.HasLetter(f.path) || f.fromMs < 0 || f.toMs < 0
    ensures !FiltersAgree(f)
  {
    var e :=
      if f.fromMs < 0 then Probe(f, f.fromMs - 1, f.path, f.reason)
      else if Like.HasLetter(f.reason) then Probe(f, InBounds(f), f.path, Like.SwapCase(f.reason))
      else if Like.HasLetter(f.path) then Probe(f, InBounds(f), Like.SwapCase(f.path), f.reason)
      else Probe(f, InBounds(f), f.path, f.reason);
    Like.SwapCaseFacts(f.reason);
    Like.SwapCaseFacts(f.path);
    ProbeIsSelected(f, e.receivedAt, e.path, e.reason);
    assert !Passes(f, e);
  }

  /** Page and stream select the same events exactly when the page's bounds admit none, or the reason
    * and the path asked for hold no ASCII letter and neither bound lies before 1970. */
  lemma FiltersAgreeIff(f: Filter)
    ensures FiltersAgree(f) <==>
            || EmptyWindow(f)
            || (!Like.HasLetter(f.reason) && !Like.HasLetter(f.path) && f.fromMs >= 0 && f.toMs >= 0)
  {
    if EmptyWindow(f) || (!Like.HasLetter(f.reason) && !Like.HasLetter(f.path) && f.fromMs >= 0 && f.toMs >= 0) {
      forall e
        ensures Selects(f, e) <==> Passes(f, e)
      {
        StreamFitsPage(f, e);
        SelectsIff(f, e);
        if !EmptyWindow(f) {
          Like.CaselessContains(f.reason, e.reason);
          Like.CaselessContains(f.path, e.path);
        }
      }
    } else {
      FiltersPart(f);
    }
  }

  // ---------------------------------------------------------------- the page

  /** The selected rows, newest first. */
  function Selected(rows: seq<Row>, f: Filter): seq<Row> {
    if rows == [] then []
    else
      var last := rows[|rows| - 1];
      (if Selects(f, last.event) then [last] else []) + Selected(rows[..|rows| - 1], f)
  }

  /** `list_events`: the newest `limit` of them. */
  function ListEvents(rows: seq<Row>, f: Filter, limit: nat): seq<Row> {
    FirstFew(Selected(rows, f), limit)
  }

  lemma {:induction false} SelectedFacts(rows: seq<Row>, f: Filter)
    requires Ascending(rows)
    ensures forall r :: r in Selected(rows, f) <==> r in rows && Selects(f, r.event)
    ensures forall i, j :: 0 <= i < j < |Selected(rows, f)| ==> Selected(rows, f)[i].id > Selected(rows, f)[j].id
  {
    if rows == [] {
    } else {
      var init, last := rows[..|rows| - 1], rows[|rows| - 1];
      var before := Selected(init, f);
      SelectedFacts(init, f);
      assert rows == init + [last];
      assert Selected(rows, f) == (if Selects(f, last.event) then [last] else []) + before;
      forall i | 0 <= i < |before|
        ensures before[i].id < last.id
      {
        assert before[i] in init;
      }
    }
  }

  /** The page lists selected rows only, newest first, and leaves a selected row out only when it is
    * full of newer ones. */
  lemma ListedIsNewest(rows: seq<Row>, f: Filter, limit: nat)
    requires Ascending(rows)
    ensures var listed := ListEvents(rows, f, limit);
            && |listed| <= limit
            && (forall r :: r in listed ==> r in rows && Selects(f, r.event))
            && (forall i, j :: 0 <= i < j < |listed| ==> listed[i].id > listed[j].id)
            && (forall r :: r in rows && Selects(f, r.event) && r !in listed ==>
                  |listed| == limit && forall q :: q in listed ==> q.id > r.id)
  {
    SelectedFacts(rows, f);
    var selected, listed := Selected(rows, f), ListEvents(rows, f, limit);
    assert forall i :: 0 <= i < |listed| ==> listed[i] == selected[i] && selected[i] in listed;
    forall r | r in rows && Selects(f, r.event) && r !in listed
      ensures |listed| == limit && forall q :: q in listed ==> q.id > r.id
    {
      var k :| 0 <= k < |selected| && selected[k] == r;
      assert k >= |listed|;
    }
  }

  // ---------------------------------------------------------------- the tail

  const STREAM_BATCH_LIMIT: nat := 100

  function Passing(batch: seq<Row>, f: Filter): seq<Row> {
    if batch == [] then []
    else
      var last := batch[|batch| - 1];
      Passing(batch[..|batch| - 1], f) + if Passes(f, last.event) then [last] else []
  }

  /** A frame shows exactly the rows of its batch that pass the filter, in the batch's order. */
  lemma {:induction false} PassingFacts(batch: seq<Row>, f: Filter)
    requires forall i, j :: 0 <= i < j < |batch| ==> batch[i].id < batch[j].id
    ensures forall r :: r in Passing(batch, f) <==> r in batch && Passes(f, r.event)
    ensures forall i, j :: 0 <= i < j < |Passing(batch, f)| ==> Passing(batch, f)[i].id < Passing(batch, f)[j].id
  {
    if batch == [] {
    } else {
      var init, last := batch[..|batch| - 1], batch[|batch| - 1];
      PassingFacts(init, f);
      assert batch == init + [last];
      forall r | r in Passing(init, f)
        ensures r.id < last.id
      {
        assert r in init;
      }
    }
  }

  /** One connection's tail: the `events()` generator, one loop turn at a time. */
  class LogTail {
    const filter: Filter
    var cursor: int

    /** A fresh connection starts at the newest row. */
    constructor (store: Store, filter: Filter)
      ensures this.filter == filter && cursor == LatestId(store.events)
    {
      this.filter := filter;
      cursor := LatestId(store.events);
    }

    /** One poll. None is the keepalive frame. */
    method Poll(store: Store) returns (payload: Option<seq<Row>>)
      requires store.IsValid()
      modifies this
      ensures var batch := EventsSince(store.events, old(cursor), STREAM_BATCH_LIMIT);
              && cursor == (if batch == [] then old(cursor) else batch[|batch| - 1].id)
              && payload == (if Passing(batch, filter) == [] then None else Some(Passing(batch, filter)))
      // It is the poll step of the runs below.
      ensures forall s: State :: s.rows == store.events && s.cursor == old(cursor)
                                 ==> cursor == NextPoll(s).cursor && payload == Frame(s, filter)
    {
      var batch := EventsSince(store.events, cursor, STREAM_BATCH_LIMIT);
      if batch == [] {
        return None;
      }
      cursor := batch[|batch| - 1].id;
      var shown := Passing(batch, filter);
      payload := if shown != [] then Some(shown) else None;
    }
  }

  // ---------------------------------------------------------------- a tail among writers

  /** The table and one tail of it. `inserted` lists the rows inserted since the connection, `read`
    * the rows its polls returned, and `gone` the rows deleted before it reached them. */
  datatype State = State(rows: seq<Row>, cursor: int, inserted: seq<Row>, read: seq<Row>, gone: set<Row>)

  datatype Step = Insert(event: Event) | Sweep(cutoff: int) | Poll

  function Connect(rows: seq<Row>): State {
    State(rows, LatestId(rows), [], [], {})
  }

  function NewRow(rows: seq<Row>, e: Event): Row {
    Row(LatestId(rows) + 1, e)
  }

  function NextPoll(s: State): State {
    var batch := EventsSince(s.rows, s.cursor, STREAM_BATCH_LIMIT);
    if batch == [] then s else s.(cursor := batch[|batch| - 1].id, read := s.read + batch)
  }

  /** What this poll sends; None is the keepalive frame. */
  function Frame(s: State, f: Filter): Option<seq<Row>> {
    var shown := Passing(EventsSince(s.rows, s.cursor, STREAM_BATCH_LIMIT), f);
    if shown == [] then None else Some(shown)
  }

  function NextSweep(s: State, cutoff: int): State {
    s.(rows := Keep(s.rows, cutoff),
       gone := s.gone + set r | r in s.rows && r.event.receivedAt < cutoff && r.id > s.cursor)
  }

  function Next(s: State, step: Step): State {
    match step
    case Insert(e) => s.(rows := InsertRow(s.rows, e), inserted := s.inserted + [NewRow(s.rows, e)])
    case Sweep(cutoff) => NextSweep(s, cutoff)
    case Poll => NextPoll(s)
  }

  function After(s: State, steps: seq<Step>): State {
    if steps == [] then s else Next(After(s, steps[..|steps| - 1]), steps[|steps| - 1])
  }

  ghost predicate KeepsNewest(s: State, step: Step) {
    step.Sweep? && s.rows != [] ==> s.rows[|s.rows| - 1].event.receivedAt >= step.cutoff
  }

  /** No sweep of the run deletes the row with the highest id. */
  ghost predicate AlwaysKeepsNewest(s: State, steps: seq<Step>) {
    forall i :: 0 <= i < |steps| ==> KeepsNewest(After(s, steps[..i]), steps[i])
  }

  ghost predicate ReadInOrder(s: State) {
    && Ascending(s.rows)
    && (forall i, j :: 0 <= i < j < |s.read| ==> s.read[i].id < s.read[j].id)
    && (forall i :: 0 <= i < |s.read| ==> s.read[i].id <= s.cursor)
  }

  /** A batch is the waiting rows from the lowest id up, none left out below its last. */
  lemma BatchFacts(rows: seq<Row>, cursor: int, limit: nat)
    requires Ascending(rows) && limit > 0
    ensures var batch := EventsSince(rows, cursor, limit);
            && |batch| <= limit && (batch == [] <==> Newer(rows, cursor) == [])
            && (forall i, j :: 0 <= i < j < |batch| ==> batch[i].id < batch[j].id)
            && (forall r :: r in batch ==> r in rows && r.id > cursor)
            && (batch != [] ==> forall r :: r in rows && cursor < r.id <= batch[|batch| - 1].id ==> r in batch)
  {
    NewerFacts(rows, cursor);
    FirstFewFacts(Newer(rows, cursor), limit);
  }

  lemma FirstFewFacts(newer: seq<Row>, limit: nat)
    requires Ascending(newer) && limit > 0
    ensures var batch := FirstFew(newer, limit);
            && |batch| <= limit && (batch == [] <==> newer == [])
            && (forall i, j :: 0 <= i < j < |batch| ==> batch[i].id < batch[j].id)
            && (forall r :: r in batch ==> r in newer)
            && (batch != [] ==> forall r :: r in newer && r.id <= batch[|batch| - 1].id ==> r in batch)
  {
    var batch := FirstFew(newer, limit);
    assert forall i :: 0 <= i < |batch| ==> batch[i] == newer[i] && newer[i] in batch;
  }

  lemma PollReadsInOrder(s: State)
    requires ReadInOrder(s)
    ensures ReadInOrder(NextPoll(s)) && NextPoll(s).cursor >= s.cursor
  {
    BatchFacts(s.rows, s.cursor, STREAM_BATCH_LIMIT);
    var batch := EventsSince(s.rows, s.cursor, STREAM_BATCH_LIMIT);
    if batch != [] {
      assert forall i :: 0 <= i < |batch| ==> batch[i] in batch;
      assert batch[|batch| - 1].id > s.cursor;
      assert forall i :: 0 <= i < |batch| ==> batch[i].id <= batch[|batch| - 1].id;
    }
  }

  /** Whatever is inserted and swept, the ids a tail reads strictly increase: none comes twice. */
  lemma {:induction false} ReadsAreIncreasing(rows: seq<Row>, steps: seq<Step>)
    requires Ascending(rows)
    ensures ReadInOrder(After(Connect(rows), steps))
  {
    if steps == [] {
    } else {
      var s, step := After(Connect(rows), steps[..|steps| - 1]), steps[|steps| - 1];
      ReadsAreIncreasing(rows, steps[..|steps| - 1]);
      match step
      case Insert(e) => AscendingSnoc(s.rows, NewRow(s.rows, e));
      case Sweep(cutoff) => KeepFacts(s.rows, cutoff);
      case Poll => PollReadsInOrder(s);
    }
  }

  // ---------------------------------------------------------------- exactly once

  /** Where the rows inserted since the connection are: read, waiting above the cursor, or gone. */
  ghost predicate Accounted(s: State) {
    && ReadInOrder(s)
    && s.cursor <= LatestId(s.rows)
    && (forall i, j :: 0 <= i < j < |s.inserted| ==> s.inserted[i].id < s.inserted[j].id)
    && (forall r :: r in s.inserted ==> r.id <= LatestId(s.rows))
    && (forall r :: r in s.inserted ==> r in s.read || (r in s.rows && r.id > s.cursor) || r in s.gone)
    && (forall r :: r in s.read ==> r in s.inserted && r !in s.gone)
    && (forall r :: r in s.gone ==> r in s.inserted && r !in s.rows)
    && (forall r :: r in s.rows && r.id > s.cursor ==> r in s.inserted)
  }

  lemma InsertAccounts(s: State, e: Event)
    requires Accounted(s)
    ensures Accounted(Next(s, Insert(e)))
  {
    AscendingSnoc(s.rows, NewRow(s.rows, e));
    assert NewRow(s.rows, e) !in s.inserted;
  }

  lemma SweepAccounts(s: State, cutoff: int)
    requires Accounted(s) && KeepsNewest(s, Sweep(cutoff))
    ensures Accounted(NextSweep(s, cutoff))
  {
    KeepFacts(s.rows, cutoff);
  }

  lemma PollAccounts(s: State)
    requires Accounted(s)
    ensures Accounted(NextPoll(s))
  {
    PollReadsInOrder(s);
    BatchFacts(s.rows, s.cursor, STREAM_BATCH_LIMIT);
    var batch := EventsSince(s.rows, s.cursor, STREAM_BATCH_LIMIT);
    if batch != [] {
      assert batch[|batch| - 1] in batch;
      LatestIsHighest(s.rows);
    }
  }

  lemma StepAccounts(s: State, step: Step)
    requires Accounted(s) && KeepsNewest(s, step)
    ensures Accounted(Next(s, step))
  {
    match step
    case Insert(e) => InsertAccounts(s, e);
    case Sweep(cutoff) => SweepAccounts(s, cutoff);
    case Poll => PollAccounts(s);
  }

  lemma KeepsNewestInit(s: State, steps: seq<Step>, n: nat)
    requires AlwaysKeepsNewest(s, steps) && n < |steps|
    ensures AlwaysKeepsNewest(s, steps[..n]) && KeepsNewest(After(s, steps[..n]), steps[n])
  {
    forall i | 0 <= i < n
      ensures KeepsNewest(After(s, steps[..n][..i]), steps[..n][i])
    {
      assert steps[..n][..i] == steps[..i];
    }
  }

  /** While no sweep deletes the newest row, every row inserted after the connection is read exactly
    * once, or is still waiting above the cursor, or was deleted before the cursor reached it; a row
    * still present when the cursor passes its id has been read. */
  lemma {:induction false} TailReadsExactlyOnce(rows: seq<Row>, steps: seq<Step>)
    requires Ascending(rows) && AlwaysKeepsNewest(Connect(rows), steps)
    ensures Accounted(After(Connect(rows), steps))
  {
    if steps == [] {
      LatestIsHighest(rows);
    } else {
      var n := |steps| - 1;
      KeepsNewestInit(Connect(rows), steps, n);
      TailReadsExactlyOnce(rows, steps[..n]);
      StepAccounts(After(Connect(rows), steps[..n]), steps[n]);
    }
  }

  // ---------------------------------------------------------------- what the frames deliver

  function ShownIn(frame: Option<seq<Row>>): seq<Row> {
    if frame == None then [] else frame.value
  }

  /** The rows of all frames sent in a run, end to end. */
  function Delivered(s: State, steps: seq<Step>, f: Filter): seq<Row> {
    if steps == [] then []
    else
      var init, step := steps[..|steps| - 1], steps[|steps| - 1];
      Delivered(s, init, f) + if step.Poll? then ShownIn(Frame(After(s, init), f)) else []
  }

  lemma {:induction false} PassingAppend(a: seq<Row>, b: seq<Row>, f: Filter)
    ensures Passing(a + b, f) == Passing(a, f) + Passing(b, f)
  {
    if b == [] {
      assert a + b == a;
    } else {
      var init := b[..|b| - 1];
      assert (a + b)[..|a + b| - 1] == a + init;
      PassingAppend(a, init, f);
    }
  }

  /** Whatever is inserted and swept, the frames of a connection, end to end, are exactly the rows it
    * read that pass its filter, in order. */
  lemma {:induction false} FramesDeliverThePassing(rows: seq<Row>, steps: seq<Step>, f: Filter)
    ensures Delivered(Connect(rows), steps, f) == Passing(After(Connect(rows), steps).read, f)
  {
    if steps == [] {
    } else {
      var init, step := steps[..|steps| - 1], steps[|steps| - 1];
      var s := After(Connect(rows), init);
      FramesDeliverThePassing(rows, init, f);
      if step.Poll? {
        PassingAppend(s.read, EventsSince(s.rows, s.cursor, STREAM_BATCH_LIMIT), f);
      }
    }
  }

  /** While no sweep deletes the newest row, each inserted row that passes the filter is delivered
    * exactly once, in id order, or is still waiting, or was deleted first; and nothing else is. */
  lemma EachPassingRowIsDelivered(rows: seq<Row>, steps: seq<Step>, f: Filter)
    requires Ascending(rows) && AlwaysKeepsNewest(Connect(rows), steps)
    ensures var s, sent := After(Connect(rows), steps), Delivered(Connect(rows), steps, f);
            && (forall i, j :: 0 <= i < j < |sent| ==> sent[i].id < sent[j].id)
            && (forall r :: r in sent ==> r in s.inserted && Passes(f, r.event))
            && (forall r :: r in s.inserted && Passes(f, r.event) ==>
                  r in sent || (r in s.rows && r.id > s.cursor) || r in s.gone)
  {
    TailReadsExactlyOnce(rows, steps);
    FramesDeliverThePassing(rows, steps, f);
    PassingFacts(After(Connect(rows), steps).read, f);
  }

  // ---------------------------------------------------------------- when the newest row is deleted

  lemma {:induction false} LaterReadsAreAbove(s: State, steps: seq<Step>)
    requires ReadInOrder(s)
    ensures ReadInOrder(After(s, steps)) && After(s, steps).cursor >= s.cursor
    ensures s.read <= After(s, steps).read
    ensures forall i :: |s.read| <= i < |After(s, steps).read| ==> After(s, steps).read[i].id > s.cursor
  {
    if steps == [] {
    } else {
      var t, step := After(s, steps[..|steps| - 1]), steps[|steps| - 1];
      LaterReadsAreAbove(s, steps[..|steps| - 1]);
      match step
      case Insert(e) => AscendingSnoc(t.rows, NewRow(t.rows, e));
      case Sweep(cutoff) => KeepFacts(t.rows, cutoff);
      case Poll =>
        PollReadsInOrder(t);
        BatchFacts(t.rows, t.cursor, STREAM_BATCH_LIMIT);
    }
  }

  /** Below the cursor, a new row is never read, whatever follows. */
  lemma RowBelowIsNeverRead(s: State, e: Event, steps: seq<Step>)
    requires ReadInOrder(s) && LatestId(s.rows) < s.cursor
    ensures var t := After(Next(s, Insert(e)), steps);
            forall i :: |s.read| <= i < |t.read| ==> t.read[i].id > NewRow(s.rows, e).id
  {
    AscendingSnoc(s.rows, NewRow(s.rows, e));
    LaterReadsAreAbove(Next(s, Insert(e)), steps);
  }

  /** Where a given row is: read, waiting above the cursor, or deleted before the cursor reached it. */
  ghost predicate Placed(s: State, r: Row) {
    r in s.read || (r in s.rows && r.id > s.cursor) || r in s.gone
  }

  lemma PollPlaces(s: State, r: Row)
    requires Ascending(s.rows) && Placed(s, r)
    ensures Placed(NextPoll(s), r)
  {
    BatchFacts(s.rows, s.cursor, STREAM_BATCH_LIMIT);
  }

  lemma SweepPlaces(s: State, cutoff: int, r: Row)
    requires Ascending(s.rows) && Placed(s, r)
    ensures Placed(NextSweep(s, cutoff), r)
  {
    KeepFacts(s.rows, cutoff);
  }

  /** A row inserted while the highest id has not fallen below the cursor is read, or still waiting
    * above the cursor, or was deleted first, after any steps at all. It has not been listed as deleted
    * before: a reused id can bring a row back that was. */
  lemma {:induction false} RowAboveIsPlaced(s: State, e: Event, steps: seq<Step>)
    requires ReadInOrder(s) && LatestId(s.rows) >= s.cursor && NewRow(s.rows, e) !in s.gone
    ensures Placed(After(Next(s, Insert(e)), steps), NewRow(s.rows, e))
    ensures Ascending(After(Next(s, Insert(e)), steps).rows)
  {
    AscendingSnoc(s.rows, NewRow(s.rows, e));
    if steps == [] {
      assert NewRow(s.rows, e) in Next(s, Insert(e)).rows;
    } else {
      var t, step := After(Next(s, Insert(e)), steps[..|steps| - 1]), steps[|steps| - 1];
      RowAboveIsPlaced(s, e, steps[..|steps| - 1]);
      match step
      case Insert(other) => AscendingSnoc(t.rows, NewRow(t.rows, other));
      case Sweep(cutoff) =>
        KeepFacts(t.rows, cutoff);
        SweepPlaces(t, cutoff, NewRow(s.rows, e));
      case Poll => PollPlaces(t, NewRow(s.rows, e));
    }
  }

  /** It does fall: ids are reused once the highest row is swept, and the tail skips the newcomer. */
  lemma SweptNewestHidesTheNext(first: Event, second: Event)
    requires first.receivedAt < second.receivedAt
    ensures var s := After(Connect([Row(1, first)]), [Sweep(second.receivedAt), Insert(second), Poll]);
            s.rows == [Row(1, second)] && s.read == []
  {
    var s0 := Connect([Row(1, first)]);
    var steps := [Sweep(second.receivedAt), Insert(second), Poll];
    assert steps[..2][..1] == steps[..1] && steps[..1][..0] == [];
    assert [Row(1, first)][..0] == [];
    assert After(s0, steps[..1][..0]) == s0 && steps[..1][0] == steps[0];
    var s1 := After(s0, steps[..1]);
    assert s1 == NextSweep(s0, second.receivedAt);
    assert s0.rows[..|s0.rows| - 1] == [] && Keep([], second.receivedAt) == [];
    assert s1.rows == [];
    var s2 := After(s0, steps[..2]);
    assert s2.rows == [Row(1, second)];
    assert Newer(s2.rows, 1) == [];
  }

  // ---------------------------------------------------------------- catching up

  function Polls(s: State, n: nat): State
    decreases n
  {
    if n == 0 then s else Polls(NextPoll(s), n - 1)
  }

  lemma PollTakesABatch(s: State)
    requires Ascending(s.rows)
    ensures NextPoll(s).rows == s.rows
    ensures var k := |Newer(s.rows, s.cursor)|;
            |Newer(s.rows, NextPoll(s).cursor)| == if k <= STREAM_BATCH_LIMIT then 0 else k - STREAM_BATCH_LIMIT
  {
    var newer, batch := Newer(s.rows, s.cursor), EventsSince(s.rows, s.cursor, STREAM_BATCH_LIMIT);
    NewerIsTail(s.rows, s.cursor);
    if batch != [] {
      var k := |s.rows| - |newer|;
      assert batch[|batch| - 1] == s.rows[k + |batch| - 1];
      NewerFrom(s.rows, k + |batch|, batch[|batch| - 1].id);
    }
  }

  lemma NewerFrom(rows: seq<Row>, k: nat, cursor: int)
    requires Ascending(rows) && 0 < k <= |rows| && rows[k - 1].id == cursor
    ensures |Newer(rows, cursor)| == |rows| - k
  {
    NewerIsTail(rows, cursor);
  }

  /** With k rows waiting and none arriving, n polls leave max(0, k - 100 n): the tail has caught up
    * exactly when n reaches k / 100, rounded up. */
  lemma {:induction false} CatchesUp(s: State, n: nat)
    requires Ascending(s.rows)
    ensures var k := |Newer(s.rows, s.cursor)|;
            && Polls(s, n).rows == s.rows
            && |Newer(s.rows, Polls(s, n).cursor)|
               == (if k <= 100 * n then 0 else k - 100 * n)
            && (Newer(s.rows, Polls(s, n).cursor) == [] <==> n >= (k + 99) / 100)
    decreases n
  {
    if n == 0 {
    } else {
      PollTakesABatch(s);
      CatchesUp(NextPoll(s), n - 1);
    }
  }

  lemma {:induction false} PollsPlace(s: State, r: Row, n: nat)
    requires Ascending(s.rows) && Placed(s, r)
    ensures Placed(Polls(s, n), r) && Polls(s, n).gone == s.gone
    decreases n
  {
    if n == 0 {
    } else {
      PollPlaces(s, r);
      PollTakesABatch(s);
      PollsPlace(NextPoll(s), r, n - 1);
    }
  }

  lemma {:induction false} PollsReadMore(s: State, n: nat)
    requires ReadInOrder(s)
    ensures s.read <= Polls(s, n).read
    ensures forall i :: |s.read| <= i < |Polls(s, n).read| ==> Polls(s, n).read[i].id > s.cursor
    decreases n
  {
    if n == 0 {
    } else {
      PollReadsInOrder(s);
      BatchFacts(s.rows, s.cursor, STREAM_BATCH_LIMIT);
      PollsReadMore(NextPoll(s), n - 1);
    }
  }

  lemma {:induction false} PollsIgnoreGone(s: State, n: nat)
    ensures Polls(s.(gone := {}), n) == Polls(s, n).(gone := {})
    decreases n
  {
    if n == 0 {
    } else {
      assert NextPoll(s.(gone := {})) == NextPoll(s).(gone := {});
      PollsIgnoreGone(NextPoll(s), n - 1);
    }
  }

  /** `t` has read `r` since `s`. */
  ghost predicate ReadSince(s: State, t: State, r: Row) {
    exists i :: |s.read| <= i < |t.read| && t.read[i] == r
  }

  /** With k rows waiting once it is in, a row inserted above the cursor is read by the time of
    * k / 100 polls, rounded up. */
  lemma RowAboveIsReadInTime(s: State, e: Event, n: nat)
    requires ReadInOrder(s) && LatestId(s.rows) >= s.cursor
    requires n >= (|Newer(Next(s, Insert(e)).rows, s.cursor)| + STREAM_BATCH_LIMIT - 1) / STREAM_BATCH_LIMIT
    ensures ReadSince(s, Polls(Next(s, Insert(e)), n), NewRow(s.rows, e))
  {
    var clean := s.(gone := {});
    assert Next(clean, Insert(e)) == Next(s, Insert(e)).(gone := {});
    PollsIgnoreGone(Next(s, Insert(e)), n);
    CleanRowAboveIsReadInTime(clean, e, n);
  }

  lemma CleanRowAboveIsReadInTime(s: State, e: Event, n: nat)
    requires ReadInOrder(s) && s.gone == {} && LatestId(s.rows) >= s.cursor
    requires n >= (|Newer(Next(s, Insert(e)).rows, s.cursor)| + STREAM_BATCH_LIMIT - 1) / STREAM_BATCH_LIMIT
    ensures ReadSince(s, Polls(Next(s, Insert(e)), n), NewRow(s.rows, e))
  {
    var t, r := Next(s, Insert(e)), NewRow(s.rows, e);
    RowAboveIsPlaced(s, e, []);
    PollsReadMore(t, n);
    PlacedIsReadInTime(t, r, n);
    NewInRead(s.read, Polls(t, n).read, r);
  }

  lemma PlacedIsReadInTime(t: State, r: Row, n: nat)
    requires Ascending(t.rows) && Placed(t, r) && t.gone == {}
    requires n >= (|Newer(t.rows, t.cursor)| + STREAM_BATCH_LIMIT - 1) / STREAM_BATCH_LIMIT
    ensures r in Polls(t, n).read
  {
    var u := Polls(t, n);
    CatchesUp(t, n);
    PollsPlace(t, r, n);
    NewerFacts(u.rows, u.cursor);
  }

  lemma NewInRead(before: seq<Row>, after: seq<Row>, r: Row)
    requires before <= after && r in after && r !in before
    ensures exists i :: |before| <= i < |after| && after[i] == r
  {
    var i :| 0 <= i < |after| && after[i] == r;
    assert forall j :: 0 <= j < |before| ==> after[j] == before[j];
  }

  /** Some number of polls reads the row inserted now. */
  ghost predicate EverRead(s: State, e: Event) {
    exists n: nat :: ReadByPolls(s, e, n)
  }

  ghost predicate ReadByPolls(s: State, e: Event, n: nat) {
    ReadSince(s, Polls(Next(s, Insert(e)), n), NewRow(s.rows, e))
  }

  /** A newly inserted row is ever read by polling exactly when, as it is inserted, the table's highest
    * id has not fallen below the cursor. */
  lemma NextRowIsReadIff(s: State, e: Event)
    requires ReadInOrder(s)
    ensures EverRead(s, e) <==> LatestId(s.rows) >= s.cursor
  {
    var t, r := Next(s, Insert(e)), NewRow(s.rows, e);
    AscendingSnoc(s.rows, r);
    if LatestId(s.rows) >= s.cursor {
      var n := (|Newer(t.rows, s.cursor)| + STREAM_BATCH_LIMIT - 1) / STREAM_BATCH_LIMIT;
      RowAboveIsReadInTime(s, e, n);
      assert ReadByPolls(s, e, n);
    } else {
      forall n: nat
        ensures !ReadByPolls(s, e, n)
      {
        PollsReadMore(t, n);
      }
    }
  }
}
