/** The median latency of src/hookguard_console/store/events.py: a bounded newest-first sample, and
  * the lower of the two middle values when its size is even. */
module Latency {
  import opened EventStore

  const LATENCY_SAMPLE_LIMIT: nat := 1000

  // ---------------------------------------------------------------- sorting

  ghost predicate IsSorted(s: seq<int>) {
    forall i, j :: 0 <= i < j < |s| ==> s[i] <= s[j]
  }

  function InsertSorted(x: int, s: seq<int>): seq<int> {
    if s == [] || x <= s[0] then [x] + s else [s[0]] + InsertSorted(x, s[1..])
  }

  /** Python's `sorted`. */
  function Sort(s: seq<int>): seq<int> {
    if s == [] then [] else InsertSorted(s[0], Sort(s[1..]))
  }

  lemma {:induction false} InsertSortedItems(x: int, s: seq<int>)
    ensures multiset(InsertSorted(x, s)) == multiset(s) + multiset{x}
  {
    if s != [] && x > s[0] {
      InsertSortedItems(x, s[1..]);
      assert s == [s[0]] + s[1..];
    }
  }

  lemma {:induction false} InsertSortedOrder(x: int, s: seq<int>)
    requires IsSorted(s)
    ensures IsSorted(InsertSorted(x, s))
    ensures InsertSorted(x, s)[0] == if s == [] || x <= s[0] then x else s[0]
  {
    if s != [] && x > s[0] {
      InsertSortedOrder(x, s[1..]);
      ConsSorted(s[0], InsertSorted(x, s[1..]));
    }
  }

  lemma ConsSorted(x: int, s: seq<int>)
    requires IsSorted(s) && (s == [] || x <= s[0])
    ensures IsSorted([x] + s)
  {}

  lemma {:induction false} SortFacts(s: seq<int>)
    ensures IsSorted(Sort(s)) && multiset(Sort(s)) == multiset(s) && |Sort(s)| == |s|
  {
    if s == [] {
    } else {
      SortFacts(s[1..]);
      InsertSortedItems(s[0], Sort(s[1..]));
      InsertSortedOrder(s[0], Sort(s[1..]));
      assert s == [s[0]] + s[1..];
      assert |multiset(Sort(s))| == |multiset(s)|;
    }
  }

  /** A sorted sequence is determined by its elements. */
  lemma {:induction false} SortedUnique(a: seq<int>, b: seq<int>)
    requires IsSorted(a) && IsSorted(b) && multiset(a) == multiset(b)
    ensures a == b
  {
    assert |multiset(a)| == |multiset(b)|;
    if a == [] {
    } else {
      SameHead(a, b);
      assert a == [a[0]] + a[1..] && b == [b[0]] + b[1..];
      assert multiset(a[1..]) == multiset(a) - multiset{a[0]};
      assert multiset(b[1..]) == multiset(b) - multiset{b[0]};
      SortedUnique(a[1..], b[1..]);
    }
  }

  lemma SameHead(a: seq<int>, b: seq<int>)
    requires IsSorted(a) && IsSorted(b) && multiset(a) == multiset(b) && a != [] && b != []
    ensures a[0] == b[0]
  {
    assert a[0] in multiset(b) && b[0] in multiset(a);
    assert a[0] in b && b[0] in a;
  }

  // ---------------------------------------------------------------- the median

  /** The middle value, or the lower of the two middle values. */
  function Middle(sorted: seq<int>): int
    requires sorted != []
  {
    var mid := |sorted| / 2;
    if |sorted| % 2 == 1 then sorted[mid] else sorted[mid - 1]
  }

  function P50(latencies: seq<int>): int {
    if latencies == [] then 0
    else
      SortFacts(latencies);
      Middle(Sort(latencies))
  }

  function AtMost(s: seq<int>, m: int): nat {
    if s == [] then 0 else (if s[0] <= m then 1 else 0) + AtMost(s[1..], m)
  }

  function AtLeast(s: seq<int>, m: int): nat {
    if s == [] then 0 else (if s[0] >= m then 1 else 0) + AtLeast(s[1..], m)
  }

  lemma {:induction false} InsertCounts(x: int, s: seq<int>, m: int)
    ensures AtMost(InsertSorted(x, s), m) == AtMost(s, m) + if x <= m then 1 else 0
    ensures AtLeast(InsertSorted(x, s), m) == AtLeast(s, m) + if x >= m then 1 else 0
  {
    if s == [] || x <= s[0] {
      assert ([x] + s)[1..] == s;
    } else {
      InsertCounts(x, s[1..], m);
      assert InsertSorted(x, s)[1..] == InsertSorted(x, s[1..]);
    }
  }

  lemma {:induction false} SortCounts(s: seq<int>, m: int)
    ensures AtMost(Sort(s), m) == AtMost(s, m) && AtLeast(Sort(s), m) == AtLeast(s, m)
  {
    if s == [] {
    } else {
      SortCounts(s[1..], m);
      InsertCounts(s[0], Sort(s[1..]), m);
    }
  }

  lemma {:induction false} SortedCounts(s: seq<int>, k: nat, m: int)
    requires IsSorted(s) && k < |s| && s[k] == m
    ensures AtMost(s, m) >= k + 1 && AtLeast(s, m) >= |s| - k
  {
    if k > 0 {
      SortedCounts(s[1..], k - 1, m);
    } else {
      AllAtLeast(s, m);
    }
  }

  lemma {:induction false} AllAtLeast(s: seq<int>, m: int)
    requires forall i :: 0 <= i < |s| ==> s[i] >= m
    ensures AtLeast(s, m) == |s|
  {
    if s == [] {
    } else {
      AllAtLeast(s[1..], m);
    }
  }

  /** Both parities pick sorted index (n - 1) / 2. */
  lemma MiddleIndex(sorted: seq<int>)
    requires sorted != []
    ensures Middle(sorted) == sorted[(|sorted| - 1) / 2]
  {}

  lemma MiddleOfSorted(s: seq<int>)
    requires IsSorted(s) && s != []
    ensures Middle(s) in s
    ensures AtMost(s, Middle(s)) >= (|s| + 1) / 2 && AtLeast(s, Middle(s)) >= |s| / 2 + 1
  {
    MiddleIndex(s);
    SortedCounts(s, (|s| - 1) / 2, Middle(s));
  }

  /** The figure is an element of the sample; at least half of the sample, rounded up, is at most
    * it, and more than half, rounded down, is at least it. */
  lemma P50IsLowerMedian(latencies: seq<int>)
    requires latencies != []
    ensures P50(latencies) in latencies
    ensures AtMost(latencies, P50(latencies)) >= (|latencies| + 1) / 2
    ensures AtLeast(latencies, P50(latencies)) >= |latencies| / 2 + 1
  {
    SortFacts(latencies);
    MiddleOfSorted(Sort(latencies));
    SortCounts(latencies, P50(latencies));
    SameMembers(Sort(latencies), latencies, P50(latencies));
  }

  lemma SameMembers(a: seq<int>, b: seq<int>, m: int)
    requires multiset(a) == multiset(b) && m in a
    ensures m in b
  {
    assert m in multiset(b);
  }

  /** The order in which the database lists the sample does not matter. */
  lemma P50IgnoresOrder(a: seq<int>, b: seq<int>)
    requires multiset(a) == multiset(b)
    ensures P50(a) == P50(b)
  {
    SortFacts(a);
    SortFacts(b);
    SortedUnique(Sort(a), Sort(b));
    assert |multiset(a)| == |multiset(b)|;
  }

  // ---------------------------------------------------------------- the sample

  function Eligible(rows: seq<Row>, sinceMs: int): seq<Row> {
    if rows == [] then []
    else
      var last := rows[|rows| - 1];
      Eligible(rows[..|rows| - 1], sinceMs) + if last.event.receivedAt >= sinceMs then [last] else []
  }

  /** ORDER BY received_at DESC LIMIT: as many eligible rows as the limit allows, none of them older
    * than an eligible row left out. Rows with equal timestamps may come in any order. */
  ghost predicate IsNewestSample(rows: seq<Row>, sinceMs: int, limit: nat, sample: seq<Row>) {
    var eligible := Eligible(rows, sinceMs);
    && multiset(sample) <= multiset(eligible)
    && |sample| == (if |eligible| <= limit then |eligible| else limit)
    && (forall i, j :: 0 <= i < j < |sample| ==> sample[i].event.receivedAt >= sample[j].event.receivedAt)
    && (forall kept, left :: kept in sample && left in multiset(eligible) - multiset(sample)
                             ==> left.event.receivedAt <= kept.event.receivedAt)
  }

  /** The eligible rows are the rows from `sinceMs` on, each as often as it is there. */
  lemma {:induction false} EligibleAreTheRowsSince(rows: seq<Row>, sinceMs: int, r: Row)
    ensures multiset(Eligible(rows, sinceMs))[r] == if r.event.receivedAt >= sinceMs then multiset(rows)[r] else 0
  {
    if rows == [] {
    } else {
      var init, last := rows[..|rows| - 1], rows[|rows| - 1];
      EligibleAreTheRowsSince(init, sinceMs, r);
      assert rows == init + [last];
    }
  }

  lemma EligibleRow(rows: seq<Row>, sinceMs: int, r: Row)
    ensures r in Eligible(rows, sinceMs) <==> r in rows && r.event.receivedAt >= sinceMs
  {
    EligibleAreTheRowsSince(rows, sinceMs, r);
    assert r in Eligible(rows, sinceMs) <==> r in multiset(Eligible(rows, sinceMs));
    assert r in rows <==> r in multiset(rows);
  }

  /** Every sample the query may return: rows from `sinceMs` on, all of them or `limit` of them, and none
    * older than such a row that it leaves out. */
  lemma SampleMeaning(rows: seq<Row>, sinceMs: int, limit: nat, sample: seq<Row>)
    requires IsNewestSample(rows, sinceMs, limit, sample)
    ensures forall r :: r in sample ==> r in rows && r.event.receivedAt >= sinceMs
    ensures |sample| <= limit
    ensures |sample| < limit ==> forall r :: r in rows && r.event.receivedAt >= sinceMs ==> r in sample
    ensures forall kept, left :: kept in sample && left in rows && left !in sample && left.event.receivedAt >= sinceMs
                                 ==> left.event.receivedAt <= kept.event.receivedAt
    ensures sample == [] <==> limit == 0 || forall r :: r in rows ==> r.event.receivedAt < sinceMs
  {
    var eligible := Eligible(rows, sinceMs);
    forall r
      ensures r in eligible <==> r in rows && r.event.receivedAt >= sinceMs
      ensures r in sample ==> r in eligible
    {
      EligibleRow(rows, sinceMs, r);
      assert r in sample ==> r in multiset(sample);
    }
    if |eligible| <= limit {
      SameSize(sample, eligible);
    }
    forall kept, left | kept in sample && left in rows && left !in sample && left.event.receivedAt >= sinceMs
      ensures left.event.receivedAt <= kept.event.receivedAt
    {
      assert left in eligible;
      assert left in multiset(eligible) - multiset(sample);
    }
    assert eligible != [] ==> eligible[0] in eligible;
  }

  lemma SameSize(sample: seq<Row>, eligible: seq<Row>)
    requires multiset(sample) <= multiset(eligible) && |sample| == |eligible|
    ensures forall r :: r in eligible ==> r in sample
  {
    var rest := multiset(eligible) - multiset(sample);
    assert |rest| == |multiset(eligible)| - |multiset(sample)| == 0;
    assert multiset(eligible) == multiset(sample) + rest;
    forall r | r in eligible
      ensures r in sample
    {
      assert r in multiset(eligible);
      assert r in multiset(sample);
    }
  }

  function Latencies(sample: seq<Row>): seq<int> {
    seq(|sample|, i requires 0 <= i < |sample| => sample[i].event.latencyMs)
  }

  ghost function RowsAtMost(sample: seq<Row>, m: int): set<int> {
    set i | 0 <= i < |sample| && sample[i].event.latencyMs <= m
  }

  ghost function RowsAtLeast(sample: seq<Row>, m: int): set<int> {
    set i | 0 <= i < |sample| && sample[i].event.latencyMs >= m
  }

  lemma RowsSnoc(init: seq<Row>, r: Row, m: int)
    ensures RowsAtMost(init + [r], m) == RowsAtMost(init, m) + if r.event.latencyMs <= m then {|init|} else {}
    ensures RowsAtLeast(init + [r], m) == RowsAtLeast(init, m) + if r.event.latencyMs >= m then {|init|} else {}
  {
    var sample := init + [r];
    assert forall i :: 0 <= i < |init| ==> sample[i] == init[i];
    assert sample[|init|] == r;
  }

  lemma {:induction false} CountRows(sample: seq<Row>, m: int)
    ensures |RowsAtMost(sample, m)| == AtMost(Latencies(sample), m)
    ensures |RowsAtLeast(sample, m)| == AtLeast(Latencies(sample), m)
  {
    if sample == [] {
      assert RowsAtMost(sample, m) == {} && RowsAtLeast(sample, m) == {};
    } else {
      var n := |sample| - 1;
      var init, x := sample[..n], sample[n].event.latencyMs;
      CountRows(init, m);
      assert sample == init + [sample[n]];
      RowsSnoc(init, sample[n], m);
      assert Latencies(sample) == Latencies(init) + [x];
      CountsSnoc(Latencies(init), x, m);
    }
  }

  lemma {:induction false} CountsSnoc(s: seq<int>, x: int, m: int)
    ensures AtMost(s + [x], m) == AtMost(s, m) + if x <= m then 1 else 0
    ensures AtLeast(s + [x], m) == AtLeast(s, m) + if x >= m then 1 else 0
  {
    if s == [] {
    } else {
      assert (s + [x])[1..] == s[1..] + [x];
      CountsSnoc(s[1..], x, m);
    }
  }

  /** `m` is the latency of a row of the sample; at least half of the sample's rows are no slower, and
    * more than half are no faster. */
  ghost predicate IsLowerMedian(sample: seq<Row>, m: int) {
    && (exists r :: r in sample && r.event.latencyMs == m)
    && 2 * |RowsAtMost(sample, m)| >= |sample|
    && 2 * |RowsAtLeast(sample, m)| > |sample|
  }

  lemma P50OfSample(sample: seq<Row>)
    requires sample != []
    ensures IsLowerMedian(sample, P50(Latencies(sample)))
  {
    var latencies := Latencies(sample);
    var m := P50(latencies);
    P50IsLowerMedian(latencies);
    CountRows(sample, m);
    var i :| 0 <= i < |latencies| && latencies[i] == m;
    assert sample[i] in sample && sample[i].event.latencyMs == m;
  }

  /** `_p50_latency_since`. `sample` is what the query returned. */
  method P50LatencySince(rows: seq<Row>, sinceMs: int, sample: seq<Row>) returns (p50: int)
    requires IsNewestSample(rows, sinceMs, LATENCY_SAMPLE_LIMIT, sample)
    ensures p50 == P50(Latencies(sample))
    // No row since then: zero. Otherwise the lower median of the sample, which is rows since then.
    ensures (forall r :: r in rows ==> r.event.receivedAt < sinceMs) ==> p50 == 0
    ensures (exists r :: r in rows && r.event.receivedAt >= sinceMs) ==> IsLowerMedian(sample, p50)
    ensures forall r :: r in sample ==> r in rows && r.event.receivedAt >= sinceMs
    ensures |sample| < 1000 ==> forall r :: r in rows && r.event.receivedAt >= sinceMs ==> r in sample
  {
    SampleMeaning(rows, sinceMs, LATENCY_SAMPLE_LIMIT, sample);
    if sample == [] {
      return 0;
    }
    var latencies := Latencies(sample);
    SortFacts(latencies);
    p50 := Middle(Sort(latencies));
    P50OfSample(sample);
  }
}
