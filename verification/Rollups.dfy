/** Counting verdicts by (hour, provider, verdict): the increments of one batch and the table they
  * are added onto. An insertion-ordered dict and a table with a primary key are both a sequence of
  * rows with distinct buckets. */
module Rollups {
  import opened Wrappers
  import opened Models

  /** A choice of buckets: a range of hours, and optionally one provider and one verdict. */
  datatype Selection = Selection(lo: int, hi: int, provider: Option<string>, verdict: Option<string>)

  predicate Selects(sel: Selection, b: Bucket) {
    && sel.lo <= b.hour <= sel.hi
    && (sel.provider.Some? ==> b.provider == sel.provider.value)
    && (sel.verdict.Some? ==> b.verdict == sel.verdict.value)
  }

  /** The selection of exactly one bucket. */
  function Only(b: Bucket): Selection {
    Selection(b.hour, b.hour, Some(b.provider), Some(b.verdict))
  }

  function Share(sel: Selection, d: Delta): int {
    if Selects(sel, d.bucket) then d.n else 0
  }

  /** SELECT SUM(n) over the selected rows. */
  function Total(table: seq<Delta>, sel: Selection): int {
    if table == [] then 0 else Total(table[..|table| - 1], sel) + Share(sel, table[|table| - 1])
  }

  /** How many of these events fall in the selection. */
  function Count(events: seq<Event>, sel: Selection): nat {
    if events == [] then 0
    else
      Count(events[..|events| - 1], sel) + if Selects(sel, BucketOf(events[|events| - 1])) then 1 else 0
  }

  /** The bucket's first row, or the length when it has none. */
  function Find(table: seq<Delta>, b: Bucket): (i: nat)
    ensures i <= |table| && (i < |table| ==> table[i].bucket == b)
    ensures forall j :: 0 <= j < i ==> table[j].bucket != b
  {
    if table == [] || table[0].bucket == b then 0 else 1 + Find(table[1..], b)
  }

  /** Add a delta onto its bucket's row, or append a row for it. */
  function AddTo(table: seq<Delta>, d: Delta): seq<Delta> {
    var i := Find(table, d.bucket);
    if i < |table| then table[i := Delta(d.bucket, table[i].n + d.n)] else table + [d]
  }

  function AddAll(table: seq<Delta>, deltas: seq<Delta>): seq<Delta> {
    if deltas == [] then table
    else AddTo(AddAll(table, deltas[..|deltas| - 1]), deltas[|deltas| - 1])
  }

  function One(e: Event): Delta {
    Delta(BucketOf(e), 1)
  }

  /** The increments of a batch. */
  function DeltasOf(events: seq<Event>): seq<Delta> {
    if events == [] then [] else AddTo(DeltasOf(events[..|events| - 1]), One(events[|events| - 1]))
  }

  ghost predicate Distinct(table: seq<Delta>) {
    forall i, j :: 0 <= i < j < |table| ==> table[i].bucket != table[j].bucket
  }

  ghost predicate Positive(table: seq<Delta>) {
    forall i :: 0 <= i < |table| ==> table[i].n > 0
  }

  ghost predicate HasBucket(table: seq<Delta>, b: Bucket) {
    exists i :: 0 <= i < |table| && table[i].bucket == b
  }

  // ---------------------------------------------------------------- what is counted

  /** An event falls in a selection by its timestamp, its provider and its verdict. */
  lemma SelectedEvents(sel: Selection, e: Event)
    ensures Selects(sel, BucketOf(e)) <==>
            && sel.lo * 3_600_000 <= e.receivedAt < (sel.hi + 1) * 3_600_000
            && (sel.provider == None || sel.provider == Some(e.provider))
            && (sel.verdict == None || sel.verdict == Some(e.verdict))
  {
    var h := e.receivedAt / 1000 / 3600;
    assert 3_600_000 * h <= e.receivedAt < 3_600_000 * h + 3_600_000;
  }

  /** `Count` is the number of positions with a selected event. */
  lemma {:induction false} CountIsSize(events: seq<Event>, sel: Selection)
    ensures Count(events, sel) == |set i | 0 <= i < |events| && Selects(sel, BucketOf(events[i]))|
  {
    var all := set i | 0 <= i < |events| && Selects(sel, BucketOf(events[i]));
    if events == [] {
      assert all == {};
    } else {
      var n := |events| - 1;
      CountIsSize(events[..n], sel);
      var before := set i | 0 <= i < n && Selects(sel, BucketOf(events[..n][i]));
      assert all == before + if Selects(sel, BucketOf(events[n])) then {n} else {};
    }
  }

  // ---------------------------------------------------------------- totals

  lemma TotalSnoc(table: seq<Delta>, d: Delta, sel: Selection)
    ensures Total(table + [d], sel) == Total(table, sel) + Share(sel, d)
  {
    assert (table + [d])[..|table|] == table;
  }

  lemma {:induction false} TotalAppend(a: seq<Delta>, b: seq<Delta>, sel: Selection)
    ensures Total(a + b, sel) == Total(a, sel) + Total(b, sel)
  {
    if b == [] {
      assert a + b == a;
    } else {
      var init, last := b[..|b| - 1], b[|b| - 1];
      assert a + b == (a + init) + [last];
      TotalSnoc(a + init, last, sel);
      TotalAppend(a, init, sel);
    }
  }

  lemma {:induction false} CountAppend(a: seq<Event>, b: seq<Event>, sel: Selection)
    ensures Count(a + b, sel) == Count(a, sel) + Count(b, sel)
  {
    if b == [] {
      assert a + b == a;
    } else {
      var init := b[..|b| - 1];
      assert (a + b)[..|a + b| - 1] == a + init;
      CountAppend(a, init, sel);
    }
  }

  lemma {:induction false} TotalIsNonNegative(table: seq<Delta>, sel: Selection)
    requires Positive(table)
    ensures Total(table, sel) >= 0
  {
    if table == [] {
    } else {
      TotalIsNonNegative(table[..|table| - 1], sel);
    }
  }

  lemma {:induction false} TotalUpdate(table: seq<Delta>, i: nat, d: Delta, sel: Selection)
    requires i < |table|
    ensures Total(table[i := d], sel) == Total(table, sel) - Share(sel, table[i]) + Share(sel, d)
  {
    var n := |table| - 1;
    if i == n {
      assert table[i := d] == table[..n] + [d];
      TotalSnoc(table[..n], d, sel);
    } else {
      TotalUpdate(table[..n], i, d, sel);
      assert table[i := d] == table[..n][i := d] + [table[n]];
      TotalSnoc(table[..n][i := d], table[n], sel);
    }
  }

  lemma AddToTotal(table: seq<Delta>, d: Delta, sel: Selection)
    ensures Total(AddTo(table, d), sel) == Total(table, sel) + Share(sel, d)
  {
    var i := Find(table, d.bucket);
    if i < |table| {
      TotalUpdate(table, i, Delta(d.bucket, table[i].n + d.n), sel);
    } else {
      TotalSnoc(table, d, sel);
    }
  }

  /** Upserting a list of deltas adds exactly their totals, in every selection. */
  lemma {:induction false} AddAllTotal(table: seq<Delta>, deltas: seq<Delta>, sel: Selection)
    ensures Total(AddAll(table, deltas), sel) == Total(table, sel) + Total(deltas, sel)
  {
    if deltas == [] {
    } else {
      var init, last := deltas[..|deltas| - 1], deltas[|deltas| - 1];
      AddAllTotal(table, init, sel);
      AddToTotal(AddAll(table, init), last, sel);
    }
  }

  /** The increments of a batch count its events, in every selection. */
  lemma {:induction false} DeltasTotal(events: seq<Event>, sel: Selection)
    ensures Total(DeltasOf(events), sel) == Count(events, sel)
  {
    if events == [] {
    } else {
      var init, last := events[..|events| - 1], events[|events| - 1];
      DeltasTotal(init, sel);
      AddToTotal(DeltasOf(init), One(last), sel);
    }
  }

  // ---------------------------------------------------------------- shape

  lemma AddToShape(table: seq<Delta>, d: Delta)
    requires Distinct(table)
    ensures Distinct(AddTo(table, d))
    ensures forall b :: HasBucket(AddTo(table, d), b) <==> HasBucket(table, b) || b == d.bucket
  {
    var after := AddTo(table, d);
    var found := Find(table, d.bucket) < |table|;
    if !found {
      DistinctSnoc(table, d);
    }
    forall b
      ensures HasBucket(after, b) <==> HasBucket(table, b) || b == d.bucket
    {
      if found {
        SameBuckets(table, after, b);
        assert HasBucket(table, d.bucket);
      } else {
        HasBucketSnoc(table, d, b);
      }
    }
  }

  /** The increments come in the order in which their buckets are first seen: one more event adds to its
    * bucket's increment where that stands, or starts one at the end. */
  lemma BucketsInOrderSeen(events: seq<Event>, e: Event)
    ensures var before, after := DeltasOf(events), DeltasOf(events + [e]);
            if HasBucket(before, BucketOf(e)) then
              |after| == |before| && forall i :: 0 <= i < |before| ==>
                after[i] == if before[i].bucket == BucketOf(e) then Delta(BucketOf(e), before[i].n + 1) else before[i]
            else after == before + [Delta(BucketOf(e), 1)]
  {
    assert (events + [e])[..|events|] == events;
    DeltasShape(events);
  }

  lemma SameBuckets(s: seq<Delta>, t: seq<Delta>, b: Bucket)
    requires |s| == |t| && forall i :: 0 <= i < |s| ==> s[i].bucket == t[i].bucket
    ensures HasBucket(s, b) <==> HasBucket(t, b)
  {
    if HasBucket(s, b) {
      var i :| 0 <= i < |s| && s[i].bucket == b;
      assert t[i].bucket == b;
    }
    if HasBucket(t, b) {
      var i :| 0 <= i < |t| && t[i].bucket == b;
      assert s[i].bucket == b;
    }
  }

  lemma HasBucketSnoc(table: seq<Delta>, d: Delta, b: Bucket)
    ensures HasBucket(table + [d], b) <==> HasBucket(table, b) || d.bucket == b
  {
    var t := table + [d];
    if HasBucket(table, b) {
      var i :| 0 <= i < |table| && table[i].bucket == b;
      assert t[i].bucket == b;
    }
    assert t[|table|].bucket == d.bucket;
  }

  lemma DistinctSnoc(table: seq<Delta>, d: Delta)
    requires Distinct(table) && !HasBucket(table, d.bucket)
    ensures Distinct(table + [d])
  {}

  lemma AddToPositive(table: seq<Delta>, d: Delta)
    requires Positive(table) && d.n > 0
    ensures Positive(AddTo(table, d))
  {}

  lemma {:induction false} AddAllShape(table: seq<Delta>, deltas: seq<Delta>)
    requires Distinct(table) && Positive(table) && Positive(deltas)
    ensures Distinct(AddAll(table, deltas)) && Positive(AddAll(table, deltas))
  {
    if deltas == [] {
    } else {
      var init, last := deltas[..|deltas| - 1], deltas[|deltas| - 1];
      AddAllShape(table, init);
      AddToShape(AddAll(table, init), last);
      AddToPositive(AddAll(table, init), last);
    }
  }

  /** A batch's increments: one row a bucket, each at least one. */
  lemma {:induction false} DeltasShape(events: seq<Event>)
    ensures Distinct(DeltasOf(events)) && Positive(DeltasOf(events))
  {
    if events == [] {
    } else {
      var init, last := events[..|events| - 1], events[|events| - 1];
      DeltasShape(init);
      AddToShape(DeltasOf(init), One(last));
      AddToPositive(DeltasOf(init), One(last));
    }
  }

  // ---------------------------------------------------------------- single rows

  /** With distinct buckets, a bucket's total is its one row's n, and zero when it has no row. */
  lemma {:induction false} TotalOfBucket(table: seq<Delta>, b: Bucket)
    requires Distinct(table)
    ensures forall i :: 0 <= i < |table| && table[i].bucket == b ==> Total(table, Only(b)) == table[i].n
    ensures !HasBucket(table, b) ==> Total(table, Only(b)) == 0
  {
    if table == [] {
    } else {
      var last := |table| - 1;
      var init := table[..last];
      TotalOfBucket(init, b);
      HasBucketSnoc(init, table[last], b);
      assert init + [table[last]] == table;
      if table[last].bucket == b {
        assert forall i :: 0 <= i < |init| ==> init[i] == table[i];
        assert !HasBucket(init, b);
      } else {
        assert forall i :: 0 <= i < last ==> init[i] == table[i];
      }
    }
  }
}
