/** The event tables and their statements (src/hookguard_console/store/events.py). Writes run in
  * autocommit, so a batched write that fails keeps the rows it had already written. */
module EventStore {
  import opened Models
  import opened Rollups

  /** One row of the events table. Rows are kept in id order. */
  datatype Row = Row(id: int, event: Event)

  ghost predicate Ascending(rows: seq<Row>) {
    && (forall i :: 0 <= i < |rows| ==> rows[i].id >= 1)
    && (forall i, j :: 0 <= i < j < |rows| ==> rows[i].id < rows[j].id)
  }

  /** SELECT MAX(id), 0 when the table is empty. */
  function LatestId(rows: seq<Row>): int {
    if rows == [] then 0 else rows[|rows| - 1].id
  }

  /** It is the id of a row, and no row has a higher one. */
  lemma LatestIsHighest(rows: seq<Row>)
    requires Ascending(rows)
    ensures if rows == [] then LatestId(rows) == 0 else exists r :: r in rows && r.id == LatestId(rows)
    ensures forall r :: r in rows ==> r.id <= LatestId(rows)
  {
    assert rows != [] ==> rows[|rows| - 1] in rows;
  }

  /** The id of the next row is the highest id plus one: the schema has no AUTOINCREMENT. */
  function InsertRow(rows: seq<Row>, e: Event): seq<Row> {
    rows + [Row(LatestId(rows) + 1, e)]
  }

  function InsertAll(rows: seq<Row>, events: seq<Event>): seq<Row> {
    if events == [] then rows
    else InsertRow(InsertAll(rows, events[..|events| - 1]), events[|events| - 1])
  }

  /** How many rows of a batch get written: up to the first verdict the table's CHECK refuses, and
    * no more than `fault`, the row at which the database fails. */
  function Writable(batch: seq<Event>, fault: nat): (k: nat)
    ensures k <= |batch| && k <= fault
    ensures forall i :: 0 <= i < k ==> KnownVerdict(batch[i].verdict)
    ensures k < |batch| && k < fault ==> !KnownVerdict(batch[k].verdict)
  {
    if batch == [] || fault == 0 || !KnownVerdict(batch[0].verdict) then 0
    else 1 + Writable(batch[1..], fault - 1)
  }

  /** Every event before the first with another verdict, and before the fault, is written, and no more. */
  lemma WritesUpToTheFirstRefused(batch: seq<Event>, fault: nat)
    ensures var k := Writable(batch, fault);
            && k <= |batch| && k <= fault
            && (forall i :: 0 <= i < k ==> batch[i].verdict in {"accepted", "rejected"})
            && (k < |batch| ==> k == fault || batch[k].verdict !in {"accepted", "rejected"})
    ensures Writable(batch, fault) == |batch| <==>
            |batch| <= fault && forall e :: e in batch ==> e.verdict in {"accepted", "rejected"}
  {
    var k := Writable(batch, fault);
    if k < |batch| {
      assert batch[k] in batch;
    }
  }

  /** DELETE ... WHERE received_at < cutoff, as what stays. */
  function Keep(rows: seq<Row>, cutoff: int): seq<Row> {
    if rows == [] then []
    else
      var last := rows[|rows| - 1];
      Keep(rows[..|rows| - 1], cutoff) + if last.event.receivedAt < cutoff then [] else [last]
  }

  function FirstFew<T>(s: seq<T>, limit: nat): seq<T> {
    if |s| <= limit then s else s[..limit]
  }

  /** The rows with an id above the cursor. */
  function Newer(rows: seq<Row>, cursor: int): seq<Row> {
    if rows == [] then []
    else if rows[|rows| - 1].id > cursor then Newer(rows[..|rows| - 1], cursor) + [rows[|rows| - 1]]
    else []
  }

  /** `events_since`: the oldest `limit` rows above the cursor. */
  function EventsSince(rows: seq<Row>, cursor: int, limit: nat): seq<Row> {
    FirstFew(Newer(rows, cursor), limit)
  }

  class Store {
    var events: seq<Row>
    var rollups: seq<Delta>

    ghost predicate IsValid()
      reads this
    {
      Ascending(events) && Distinct(rollups)
    }

    constructor ()
      ensures IsValid() && events == [] && rollups == []
    {
      events, rollups := [], [];
    }

    /** `insert_events`. False stands for the exception of a failed statement. */
    method InsertEvents(batch: seq<Event>, fault: nat) returns (ok: bool)
      requires IsValid()
      modifies this`events
      ensures IsValid()
      ensures events == InsertAll(old(events), batch[..Writable(batch, fault)])
      ensures ok == (Writable(batch, fault) == |batch|)
      ensures ok <==> |batch| <= fault && forall e :: e in batch ==> e.verdict in {"accepted", "rejected"}
    {
      ghost var before := events;
      WritesUpToTheFirstRefused(batch, fault);
      for i := 0 to |batch|
        invariant i <= Writable(batch, fault)
        invariant events == InsertAll(before, batch[..i]) && Ascending(events)
      {
        if i == fault || !KnownVerdict(batch[i].verdict) {
          return false;
        }
        assert batch[..i + 1][..i] == batch[..i];
        var row := Row(LatestId(events) + 1, batch[i]);
        AscendingSnoc(events, row);
        events := events + [row];
      }
      return true;
    }

    /** `upsert_rollups`. */
    method UpsertRollups(deltas: seq<Delta>, fault: nat) returns (ok: bool)
      requires IsValid()
      modifies this`rollups
      ensures IsValid()
      ensures rollups == AddAll(old(rollups), FirstFew(deltas, fault))
      ensures ok == (|deltas| <= fault)
    {
      ghost var before := rollups;
      assert deltas[..|deltas|] == deltas;
      for i := 0 to |deltas|
        invariant i <= fault && rollups == AddAll(before, deltas[..i]) && Distinct(rollups)
      {
        if i == fault {
          return false;
        }
        assert deltas[..i + 1][..i] == deltas[..i];
        AddToShape(rollups, deltas[i]);
        rollups := AddTo(rollups, deltas[i]);
      }
      return true;
    }

    /** `delete_events_older_than`: rollups stay. */
    method DeleteEventsOlderThan(cutoff: int) returns (deleted: int)
      requires IsValid()
      modifies this`events
      ensures IsValid()
      ensures events == Keep(old(events), cutoff) && deleted == |old(events)| - |events|
      ensures forall r :: r in events <==> r in old(events) && r.event.receivedAt >= cutoff
    {
      KeepFacts(events, cutoff);
      deleted := |events| - |Keep(events, cutoff)|;
      events := Keep(events, cutoff);
    }

    /** `rollup_count`: the bucket's n, 0 when there is no row. */
    method RollupCount(b: Bucket) returns (n: int)
      requires IsValid()
      ensures n == Total(rollups, Only(b))
      ensures forall i :: 0 <= i < |rollups| && rollups[i].bucket == b ==> n == rollups[i].n
      ensures (forall i :: 0 <= i < |rollups| ==> rollups[i].bucket != b) ==> n == 0
    {
      TotalOfBucket(rollups, b);
      for i := 0 to |rollups|
        invariant forall j :: 0 <= j < i ==> rollups[j].bucket != b
      {
        if rollups[i].bucket == b {
          return rollups[i].n;
        }
      }
      return 0;
    }
  }

  lemma {:induction false} InsertAllAscending(rows: seq<Row>, events: seq<Event>)
    requires Ascending(rows)
    ensures Ascending(InsertAll(rows, events)) && rows <= InsertAll(rows, events)
    ensures LatestId(InsertAll(rows, events)) == LatestId(rows) + |events|
    ensures |InsertAll(rows, events)| == |rows| + |events|
    ensures forall i :: 0 <= i < |events| ==>
              InsertAll(rows, events)[|rows| + i] == Row(LatestId(rows) + 1 + i, events[i])
  {
    if events == [] {
    } else {
      var init, last := events[..|events| - 1], events[|events| - 1];
      InsertAllAscending(rows, init);
      var before := InsertAll(rows, init);
      var row := Row(LatestId(before) + 1, last);
      assert InsertAll(rows, events) == before + [row];
      AscendingSnoc(before, row);
      assert forall i :: 0 <= i < |init| ==> init[i] == events[i];
    }
  }

  lemma {:induction false} KeepMembers(rows: seq<Row>, cutoff: int)
    ensures forall r :: r in Keep(rows, cutoff) <==> r in rows && r.event.receivedAt >= cutoff
  {
    if rows == [] {
    } else {
      KeepMembers(rows[..|rows| - 1], cutoff);
      assert rows == rows[..|rows| - 1] + [rows[|rows| - 1]];
    }
  }

  lemma AscendingSnoc(rows: seq<Row>, r: Row)
    requires Ascending(rows) && r.id >= 1 && LatestId(rows) < r.id
    ensures Ascending(rows + [r])
  {}

  lemma {:induction false} KeepAscending(rows: seq<Row>, cutoff: int)
    requires Ascending(rows)
    ensures Ascending(Keep(rows, cutoff)) && |Keep(rows, cutoff)| <= |rows|
    ensures LatestId(Keep(rows, cutoff)) <= LatestId(rows)
  {
    if rows == [] {
    } else {
      var init, last := rows[..|rows| - 1], rows[|rows| - 1];
      KeepAscending(init, cutoff);
      if last.event.receivedAt >= cutoff {
        AscendingSnoc(Keep(init, cutoff), last);
      }
    }
  }

  /** A sweep keeps exactly the rows from the cutoff on, in order, with their ids. */
  lemma KeepFacts(rows: seq<Row>, cutoff: int)
    requires Ascending(rows)
    ensures Ascending(Keep(rows, cutoff)) && |Keep(rows, cutoff)| <= |rows|
    ensures forall r :: r in Keep(rows, cutoff) <==> r in rows && r.event.receivedAt >= cutoff
    ensures LatestId(Keep(rows, cutoff)) <= LatestId(rows)
    ensures rows != [] && rows[|rows| - 1].event.receivedAt >= cutoff ==>
              LatestId(Keep(rows, cutoff)) == LatestId(rows)
  {
    KeepMembers(rows, cutoff);
    KeepAscending(rows, cutoff);
  }

  lemma {:induction false} NewerIsTail(rows: seq<Row>, cursor: int)
    ensures |Newer(rows, cursor)| <= |rows| && Newer(rows, cursor) == rows[|rows| - |Newer(rows, cursor)|..]
    ensures forall i :: |rows| - |Newer(rows, cursor)| <= i < |rows| ==> rows[i].id > cursor
    ensures |Newer(rows, cursor)| < |rows| ==> rows[|rows| - |Newer(rows, cursor)| - 1].id <= cursor
  {
    if rows != [] && rows[|rows| - 1].id > cursor {
      NewerIsTail(rows[..|rows| - 1], cursor);
    }
  }

  lemma TailFacts(rows: seq<Row>, k: nat, cursor: int)
    requires Ascending(rows) && k <= |rows|
    requires forall i :: k <= i < |rows| ==> rows[i].id > cursor
    requires k > 0 ==> rows[k - 1].id <= cursor
    ensures Ascending(rows[k..])
    ensures forall r :: r in rows[k..] <==> r in rows && r.id > cursor
  {
    var tail := rows[k..];
    assert forall i :: 0 <= i < |tail| ==> tail[i] == rows[k + i];
    forall r | r in rows && r.id > cursor
      ensures r in tail
    {
      var i :| 0 <= i < |rows| && rows[i] == r;
      assert i >= k;
      assert tail[i - k] == r;
    }
  }

  /** The rows above the cursor are the table's tail: every one of them, and in id order. */
  lemma NewerFacts(rows: seq<Row>, cursor: int)
    requires Ascending(rows)
    ensures |Newer(rows, cursor)| <= |rows| && Newer(rows, cursor) == rows[|rows| - |Newer(rows, cursor)|..]
    ensures forall r :: r in Newer(rows, cursor) <==> r in rows && r.id > cursor
    ensures Ascending(Newer(rows, cursor))
  {
    NewerIsTail(rows, cursor);
    TailFacts(rows, |rows| - |Newer(rows, cursor)|, cursor);
  }
}
