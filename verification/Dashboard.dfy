/** The dashboard's figures (src/hookguard_console/store/events.py): the three window aggregates over
  * the rollups, and the median latency over a sample of rows. */
module Dashboard {
  import opened Wrappers
  import opened Models
  import opened Rollups
  import opened EventStore
  import Latency
  import Pipeline

  /** The last `hours` hour buckets, ending with the one that holds `nowUnix`. */
  function Window(nowUnix: int, hours: int, verdict: string): Selection {
    Selection(nowUnix / 3600 - hours + 1, nowUnix / 3600, None, Some(verdict))
  }

  // ---------------------------------------------------------------- GROUP BY

  /** What a query groups rollup rows by, besides the verdict. */
  datatype Grouping = ByVerdict | ByHour | ByProvider

  /** The columns of a bucket that the grouping keeps. */
  function Key(grouping: Grouping, b: Bucket): Bucket {
    match grouping
    case ByVerdict => Bucket(0, "", b.verdict)
    case ByHour => Bucket(b.hour, "", b.verdict)
    case ByProvider => Bucket(0, b.provider, b.verdict)
  }

  /** SELECT key, SUM(n) ... WHERE hour BETWEEN lo AND hi GROUP BY key. */
  function Grouped(table: seq<Delta>, grouping: Grouping, lo: int, hi: int): seq<Delta> {
    if table == [] then []
    else
      var groups, last := Grouped(table[..|table| - 1], grouping, lo, hi), table[|table| - 1];
      if lo <= last.bucket.hour <= hi then AddTo(groups, Delta(Key(grouping, last.bucket), last.n)) else groups
  }

  /** The rollup rows that a group of key `k` sums. */
  function Members(grouping: Grouping, k: Bucket, lo: int, hi: int): Selection {
    match grouping
    case ByVerdict => Selection(lo, hi, None, Some(k.verdict))
    case ByHour =>
      var first, last := if lo <= k.hour then k.hour else lo, if k.hour <= hi then k.hour else hi;
      Selection(first, last, None, Some(k.verdict))
    case ByProvider => Selection(lo, hi, Some(k.provider), Some(k.verdict))
  }

  predicate IsKey(grouping: Grouping, k: Bucket) {
    Key(grouping, k) == k
  }

  /** Each group's row holds the total of its members, and a key without members has no row. */
  lemma {:induction false} GroupedTotal(table: seq<Delta>, grouping: Grouping, lo: int, hi: int, k: Bucket)
    requires IsKey(grouping, k)
    ensures Distinct(Grouped(table, grouping, lo, hi))
    ensures Total(Grouped(table, grouping, lo, hi), Only(k)) == Total(table, Members(grouping, k, lo, hi))
  {
    if table == [] {
    } else {
      var init, last := table[..|table| - 1], table[|table| - 1];
      GroupedTotal(init, grouping, lo, hi, k);
      var d := Delta(Key(grouping, last.bucket), last.n);
      ShareOfGroup(last, grouping, lo, hi, k);
      if lo <= last.bucket.hour <= hi {
        AddToShape(Grouped(init, grouping, lo, hi), d);
        AddToTotal(Grouped(init, grouping, lo, hi), d, Only(k));
      }
    }
  }

  lemma ShareOfGroup(d: Delta, grouping: Grouping, lo: int, hi: int, k: Bucket)
    requires IsKey(grouping, k)
    ensures Share(Members(grouping, k, lo, hi), d)
         == if lo <= d.bucket.hour <= hi then Share(Only(k), Delta(Key(grouping, d.bucket), d.n)) else 0
  {}

  lemma {:induction false} GroupKeys(table: seq<Delta>, grouping: Grouping, lo: int, hi: int)
    ensures forall i :: 0 <= i < |Grouped(table, grouping, lo, hi)| ==>
              IsKey(grouping, Grouped(table, grouping, lo, hi)[i].bucket)
    ensures Distinct(Grouped(table, grouping, lo, hi))
    ensures forall k :: HasBucket(Grouped(table, grouping, lo, hi), k) ==> IsKey(grouping, k)
  {
    if table == [] {
    } else {
      var init, last := table[..|table| - 1], table[|table| - 1];
      GroupKeys(init, grouping, lo, hi);
      var groups := Grouped(table, grouping, lo, hi);
      if lo <= last.bucket.hour <= hi {
        AddToShape(Grouped(init, grouping, lo, hi), Delta(Key(grouping, last.bucket), last.n));
      }
      forall i | 0 <= i < |groups|
        ensures IsKey(grouping, groups[i].bucket)
      {
        assert HasBucket(groups, groups[i].bucket);
      }
    }
  }

  /** A row met while scanning groups is the first of its key, and carries the key's whole total. */
  lemma ScanGroup(groups: seq<Delta>, i: nat, k: Bucket)
    requires Distinct(groups) && i < |groups|
    ensures Total(groups[..i + 1], Only(k))
         == if groups[i].bucket == k then groups[i].n else Total(groups[..i], Only(k))
  {
    assert groups[..i + 1] == groups[..i] + [groups[i]];
    TotalSnoc(groups[..i], groups[i], Only(k));
    if groups[i].bucket == k {
      TotalOfBucket(groups[..i], k);
    }
  }

  // ---------------------------------------------------------------- the three aggregates

  /** The loop over the verdict groups. */
  method VerdictTotals(store: Store, nowUnix: int, hours: int) returns (accepted: int, rejected: int)
    requires store.IsValid()
    ensures accepted == Total(store.rollups, Window(nowUnix, hours, "accepted"))
    ensures rejected == Total(store.rollups, Window(nowUnix, hours, "rejected"))
  {
    var nowHour := nowUnix / 3600;
    var startHour := nowHour - hours + 1;
    var groups := Grouped(store.rollups, ByVerdict, startHour, nowHour);
    ghost var a, r := Bucket(0, "", "accepted"), Bucket(0, "", "rejected");
    GroupKeys(store.rollups, ByVerdict, startHour, nowHour);
    accepted, rejected := 0, 0;
    for i := 0 to |groups|
      invariant accepted == Total(groups[..i], Only(a)) && rejected == Total(groups[..i], Only(r))
    {
      ScanGroup(groups, i, a);
      ScanGroup(groups, i, r);
      if groups[i].bucket.verdict == "accepted" {
        accepted := groups[i].n;
      } else if groups[i].bucket.verdict == "rejected" {
        rejected := groups[i].n;
      }
    }
    assert groups[..|groups|] == groups;
    GroupedTotal(store.rollups, ByVerdict, startHour, nowHour, a);
    GroupedTotal(store.rollups, ByVerdict, startHour, nowHour, r);
  }

  datatype Summary = Summary(accepted: int, rejected: int, acceptRate: real, p50LatencyMs: int)

  /** The accepted share, exact; zero without traffic. */
  function AcceptRate(accepted: int, rejected: int): (rate: real)
    ensures accepted + rejected == 0 ==> rate == 0.0
    ensures accepted + rejected != 0 ==> rate * (accepted + rejected) as real == accepted as real
  {
    if accepted + rejected == 0 then 0.0 else accepted as real / (accepted + rejected) as real
  }

  /** The start of the window, in milliseconds. */
  function WindowStartMs(nowUnix: int, hours: int): int {
    (nowUnix / 3600 - hours + 1) * 3600 * 1000
  }

  /** The latency query's bound is the start of the window's first hour. */
  ghost predicate SinceWindowStart(r: Row, nowUnix: int, hours: int) {
    r.event.receivedAt >= WindowStartMs(nowUnix, hours) <==> HourBucket(r.event.receivedAt) > nowUnix / 3600 - hours
  }

  lemma WindowStart(r: Row, nowUnix: int, hours: int)
    ensures SinceWindowStart(r, nowUnix, hours)
  {
    var h := r.event.receivedAt / 1000 / 3600;
    assert 3_600_000 * h <= r.event.receivedAt < 3_600_000 * h + 3_600_000;
  }

  /** Up to the end of the current hour the latency sample and the verdict counts are about the same
    * rows; a row with a later timestamp enters the sample and not the counts. */
  lemma SampleAndCounts(r: Row, nowUnix: int, hours: int)
    ensures r.event.receivedAt < (nowUnix / 3600 + 1) * 3_600_000 ==>
              (r.event.receivedAt >= WindowStartMs(nowUnix, hours)
               <==> Selects(Window(nowUnix, hours, r.event.verdict), BucketOf(r.event)))
    ensures hours >= 0 && r.event.receivedAt >= (nowUnix / 3600 + 1) * 3_600_000 ==>
              r.event.receivedAt >= WindowStartMs(nowUnix, hours)
              && !Selects(Window(nowUnix, hours, r.event.verdict), BucketOf(r.event))
  {
    WindowStart(r, nowUnix, hours);
    WindowBounds(r.event, nowUnix, hours);
  }

  /** `summary_window`. `sample` is what the latency query returned. */
  method SummaryWindow(store: Store, nowUnix: int, hours: int, sample: seq<Row>) returns (summary: Summary)
    requires store.IsValid()
    requires Latency.IsNewestSample(store.events, WindowStartMs(nowUnix, hours), Latency.LATENCY_SAMPLE_LIMIT, sample)
    ensures summary.accepted == Total(store.rollups, Window(nowUnix, hours, "accepted"))
    ensures summary.rejected == Total(store.rollups, Window(nowUnix, hours, "rejected"))
    ensures summary.acceptRate == AcceptRate(summary.accepted, summary.rejected)
    ensures summary.p50LatencyMs == Latency.P50(Latency.Latencies(sample))
    // The median is over rows of the window's hours and later, zero when there is none.
    ensures forall r :: r in sample ==> r in store.events && HourBucket(r.event.receivedAt) > nowUnix / 3600 - hours
    ensures if exists r :: r in store.events && HourBucket(r.event.receivedAt) > nowUnix / 3600 - hours
            then Latency.IsLowerMedian(sample, summary.p50LatencyMs) else summary.p50LatencyMs == 0
  {
    forall r
      ensures SinceWindowStart(r, nowUnix, hours)
    {
      WindowStart(r, nowUnix, hours);
    }
    var accepted, rejected := VerdictTotals(store, nowUnix, hours);
    var p50 := Latency.P50LatencySince(store.events, WindowStartMs(nowUnix, hours), sample);
    summary := Summary(accepted, rejected, AcceptRate(accepted, rejected), p50);
  }

  /** An accepted/rejected split, of one hour or of one provider. */
  datatype Split = Split(accepted: int, rejected: int)

  datatype HourlyCounts = HourlyCounts(hour: int, counts: Split)

  function Of<K>(m: map<K, Split>, k: K): Split {
    if k in m then m[k] else Split(0, 0)
  }

  /** The split over the selected hours and providers. */
  function SplitOf(table: seq<Delta>, lo: int, hi: int, provider: Option<string>): Split {
    Split(Total(table, Selection(lo, hi, provider, Some("accepted"))),
          Total(table, Selection(lo, hi, provider, Some("rejected"))))
  }

  function Plus(a: Split, b: Split): Split {
    Split(a.accepted + b.accepted, a.rejected + b.rejected)
  }

  lemma SameSplit(a: Split, b: Split)
    requires a.accepted == b.accepted && a.rejected == b.rejected
    ensures a == b
  {}

  /** What one group row does to its entry in a dict of splits. */
  function Record<K>(m: map<K, Split>, k: K, verdict: string, n: int): map<K, Split> {
    var entry := Of(m, k);
    m[k := if verdict == "accepted" then entry.(accepted := n)
           else if verdict == "rejected" then entry.(rejected := n) else entry]
  }

  method HourlyCountsWindow(store: Store, nowUnix: int, hours: int) returns (series: seq<HourlyCounts>)
    requires store.IsValid()
    // A dense series of consecutive ascending hours,
    ensures |series| == if hours < 0 then 0 else hours
    ensures forall i :: 0 <= i < |series| ==> series[i].hour == nowUnix / 3600 - hours + 1 + i
    // each with that hour's split,
    ensures forall i :: 0 <= i < |series| ==>
              series[i].counts == SplitOf(store.rollups, series[i].hour, series[i].hour, None)
    ensures forall i :: 0 <= i < |series| ==>
              var h := series[i].hour;
              && series[i].counts.accepted == Total(store.rollups, Selection(h, h, None, Some("accepted")))
              && series[i].counts.rejected == Total(store.rollups, Selection(h, h, None, Some("rejected")))
    // whose columns sum to the summary of the same window.
    ensures ColumnSums(series) == SplitOf(store.rollups, nowUnix / 3600 - hours + 1, nowUnix / 3600, None)
  {
    var nowHour := nowUnix / 3600;
    var startHour := nowHour - hours + 1;
    var groups := Grouped(store.rollups, ByHour, startHour, nowHour);
    GroupKeys(store.rollups, ByHour, startHour, nowHour);
    var byHour: map<int, Split> := map[];
    for i := 0 to |groups|
      invariant forall h :: Of(byHour, h) == HourSoFar(groups[..i], h)
    {
      var b := groups[i].bucket;
      assert IsKey(ByHour, b);
      forall h
        ensures Of(Record(byHour, b.hour, b.verdict, groups[i].n), h) == HourSoFar(groups[..i + 1], h)
      {
        ScanHour(byHour, groups, i, h);
      }
      byHour := Record(byHour, b.hour, b.verdict, groups[i].n);
    }
    assert groups[..|groups|] == groups;
    forall h | startHour <= h <= nowHour
      ensures Of(byHour, h) == SplitOf(store.rollups, h, h, None)
    {
      HourGroups(store.rollups, startHour, nowHour, h);
    }
    series := seq(if hours < 0 then 0 else hours, i => HourlyCounts(startHour + i, Of(byHour, startHour + i)));
    forall i | 0 <= i < |series|
      ensures series[i].counts == SplitOf(store.rollups, series[i].hour, series[i].hour, None)
    {
      var h := startHour + i;
      assert series[i] == HourlyCounts(h, Of(byHour, h));
    }
    HourlySum(series, store.rollups, startHour, nowHour);
  }

  function HourSoFar(groups: seq<Delta>, h: int): Split {
    Split(Total(groups, Only(Bucket(h, "", "accepted"))), Total(groups, Only(Bucket(h, "", "rejected"))))
  }

  lemma HourGroups(table: seq<Delta>, lo: int, hi: int, h: int)
    requires lo <= h <= hi
    ensures HourSoFar(Grouped(table, ByHour, lo, hi), h) == SplitOf(table, h, h, None)
  {
    GroupedTotal(table, ByHour, lo, hi, Bucket(h, "", "accepted"));
    GroupedTotal(table, ByHour, lo, hi, Bucket(h, "", "rejected"));
  }

  lemma ScanHour(m: map<int, Split>, groups: seq<Delta>, i: nat, h: int)
    requires Distinct(groups) && i < |groups| && IsKey(ByHour, groups[i].bucket)
    requires Of(m, h) == HourSoFar(groups[..i], h)
    ensures var b := groups[i].bucket;
            Of(Record(m, b.hour, b.verdict, groups[i].n), h) == HourSoFar(groups[..i + 1], h)
  {
    var b := groups[i].bucket;
    ScanGroup(groups, i, Bucket(h, "", "accepted"));
    ScanGroup(groups, i, Bucket(h, "", "rejected"));
    assert b == Bucket(b.hour, "", b.verdict);
    assert b == Bucket(h, "", "accepted") <==> b.hour == h && b.verdict == "accepted";
    assert b == Bucket(h, "", "rejected") <==> b.hour == h && b.verdict == "rejected";
  }

  function ColumnSums(series: seq<HourlyCounts>): Split {
    if series == [] then Split(0, 0)
    else Plus(ColumnSums(series[..|series| - 1]), series[|series| - 1].counts)
  }

  /** Adjacent ranges of hours add up. */
  lemma {:induction false} TotalOfRanges(table: seq<Delta>, lo: int, mid: int, hi: int,
        provider: Option<string>, verdict: Option<string>)
    requires lo <= mid <= hi + 1
    ensures Total(table, Selection(lo, mid - 1, provider, verdict))
            + Total(table, Selection(mid, hi, provider, verdict))
            == Total(table, Selection(lo, hi, provider, verdict))
  {
    if table == [] {
    } else {
      TotalOfRanges(table[..|table| - 1], lo, mid, hi, provider, verdict);
    }
  }

  lemma {:induction false} EmptyRange(table: seq<Delta>, lo: int, hi: int, provider: Option<string>,
        verdict: Option<string>)
    requires hi < lo
    ensures Total(table, Selection(lo, hi, provider, verdict)) == 0
  {
    if table == [] {
    } else {
      EmptyRange(table[..|table| - 1], lo, hi, provider, verdict);
    }
  }

  lemma HourlySumStep(table: seq<Delta>, start: int, hi: int)
    requires start <= hi
    ensures Plus(SplitOf(table, start, hi - 1, None), SplitOf(table, hi, hi, None)) == SplitOf(table, start, hi, None)
  {
    TotalOfRanges(table, start, hi, hi, None, Some("accepted"));
    TotalOfRanges(table, start, hi, hi, None, Some("rejected"));
    SameSplit(Plus(SplitOf(table, start, hi - 1, None), SplitOf(table, hi, hi, None)), SplitOf(table, start, hi, None));
  }

  lemma {:induction false} HourlySum(series: seq<HourlyCounts>, table: seq<Delta>, start: int, hi: int)
    requires forall i :: 0 <= i < |series| ==> series[i].hour == start + i
    requires forall i :: 0 <= i < |series| ==> series[i].counts == SplitOf(table, series[i].hour, series[i].hour, None)
    requires hi == start + |series| - 1 || (series == [] && hi < start)
    ensures ColumnSums(series) == SplitOf(table, start, hi, None)
  {
    if series == [] {
      EmptyRange(table, start, hi, None, Some("accepted"));
      EmptyRange(table, start, hi, None, Some("rejected"));
    } else {
      var last := series[|series| - 1];
      HourlySum(series[..|series| - 1], table, start, hi - 1);
      assert last.hour == hi && last.counts == SplitOf(table, hi, hi, None);
      HourlySumStep(table, start, hi);
    }
  }

  method ProviderStatsWindow(store: Store, nowUnix: int, hours: int) returns (stats: map<string, Split>)
    requires store.IsValid()
    // Each provider's split over the window; a provider absent from the map has no rows in it.
    ensures forall p :: Of(stats, p) == SplitOf(store.rollups, nowUnix / 3600 - hours + 1, nowUnix / 3600, Some(p))
    ensures forall p :: p in stats <==> HasProvider(store.rollups, nowUnix / 3600 - hours + 1, nowUnix / 3600, p)
    ensures forall p ::
              var first, last := nowUnix / 3600 - hours + 1, nowUnix / 3600;
              && Of(stats, p).accepted == Total(store.rollups, Selection(first, last, Some(p), Some("accepted")))
              && Of(stats, p).rejected == Total(store.rollups, Selection(first, last, Some(p), Some("rejected")))
    // In whatever order they are listed, the providers sum to the summary of the same window.
    ensures forall order :: Lists(order, stats.Keys) ==>
              ProviderSums(stats, order) == SplitOf(store.rollups, nowUnix / 3600 - hours + 1, nowUnix / 3600, None)
  {
    var nowHour := nowUnix / 3600;
    var startHour := nowHour - hours + 1;
    var groups := Grouped(store.rollups, ByProvider, startHour, nowHour);
    GroupKeys(store.rollups, ByProvider, startHour, nowHour);
    stats := map[];
    for i := 0 to |groups|
      invariant forall p :: Of(stats, p) == ProviderSoFar(groups[..i], p)
      invariant forall p :: p in stats <==> Mentions(groups[..i], p)
    {
      var b := groups[i].bucket;
      assert IsKey(ByProvider, b);
      forall p
        ensures Of(Record(stats, b.provider, b.verdict, groups[i].n), p) == ProviderSoFar(groups[..i + 1], p)
      {
        ScanProvider(stats, groups, i, p);
      }
      forall p
        ensures Mentions(groups[..i + 1], p) <==> Mentions(groups[..i], p) || p == b.provider
      {
        assert groups[..i + 1] == groups[..i] + [groups[i]];
        MentionsSnoc(groups[..i], groups[i], p);
      }
      stats := Record(stats, b.provider, b.verdict, groups[i].n);
    }
    assert groups[..|groups|] == groups;
    forall p
      ensures Of(stats, p) == SplitOf(store.rollups, startHour, nowHour, Some(p))
      ensures p in stats <==> HasProvider(store.rollups, startHour, nowHour, p)
    {
      ProviderGroups(store.rollups, startHour, nowHour, p);
      GroupedProviders(store.rollups, startHour, nowHour, p);
    }
    forall order | Lists(order, stats.Keys)
      ensures ProviderSums(stats, order) == SplitOf(store.rollups, startHour, nowHour, None)
    {
      ProviderSum(stats, order, store.rollups, startHour, nowHour);
    }
  }

  function ProviderSoFar(groups: seq<Delta>, p: string): Split {
    Split(Total(groups, Only(Bucket(0, p, "accepted"))), Total(groups, Only(Bucket(0, p, "rejected"))))
  }

  lemma ProviderGroups(table: seq<Delta>, lo: int, hi: int, p: string)
    ensures ProviderSoFar(Grouped(table, ByProvider, lo, hi), p) == SplitOf(table, lo, hi, Some(p))
  {
    GroupedTotal(table, ByProvider, lo, hi, Bucket(0, p, "accepted"));
    GroupedTotal(table, ByProvider, lo, hi, Bucket(0, p, "rejected"));
  }

  lemma ScanProvider(m: map<string, Split>, groups: seq<Delta>, i: nat, p: string)
    requires Distinct(groups) && i < |groups| && IsKey(ByProvider, groups[i].bucket)
    requires Of(m, p) == ProviderSoFar(groups[..i], p)
    ensures var b := groups[i].bucket;
            Of(Record(m, b.provider, b.verdict, groups[i].n), p) == ProviderSoFar(groups[..i + 1], p)
  {
    var b := groups[i].bucket;
    ScanGroup(groups, i, Bucket(0, p, "accepted"));
    ScanGroup(groups, i, Bucket(0, p, "rejected"));
    assert b == Bucket(0, b.provider, b.verdict);
    assert b == Bucket(0, p, "accepted") <==> b.provider == p && b.verdict == "accepted";
    assert b == Bucket(0, p, "rejected") <==> b.provider == p && b.verdict == "rejected";
  }

  ghost predicate HasProvider(table: seq<Delta>, lo: int, hi: int, p: string) {
    exists i :: 0 <= i < |table| && table[i].bucket.provider == p && lo <= table[i].bucket.hour <= hi
  }

  /** `order` lists the members of `keys`, each once. */
  ghost predicate Lists(order: seq<string>, keys: set<string>) {
    && (forall i, j :: 0 <= i < j < |order| ==> order[i] != order[j])
    && (forall p :: p in order <==> p in keys)
  }

  function ProviderSums(stats: map<string, Split>, order: seq<string>): Split {
    if order == [] then Split(0, 0)
    else Plus(ProviderSums(stats, order[..|order| - 1]), Of(stats, order[|order| - 1]))
  }

  /** Some group row is about this provider. */
  ghost predicate Mentions(groups: seq<Delta>, p: string) {
    exists b :: HasBucket(groups, b) && b.provider == p
  }

  lemma MentionsSnoc(groups: seq<Delta>, d: Delta, p: string)
    ensures Mentions(groups + [d], p) <==> Mentions(groups, p) || p == d.bucket.provider
  {
    forall b
      ensures HasBucket(groups + [d], b) <==> HasBucket(groups, b) || b == d.bucket
    {
      HasBucketSnoc(groups, d, b);
    }
  }

  lemma {:induction false} GroupedProviders(table: seq<Delta>, lo: int, hi: int, p: string)
    ensures Mentions(Grouped(table, ByProvider, lo, hi), p) <==> HasProvider(table, lo, hi, p)
  {
    if table == [] {
    } else {
      var n := |table| - 1;
      var init, last := table[..n], table[n];
      GroupedProviders(init, lo, hi, p);
      HasProviderSnoc(init, last, lo, hi, p);
      assert table == init + [last];
      GroupKeys(init, ByProvider, lo, hi);
      AddToShape(Grouped(init, ByProvider, lo, hi), Delta(Key(ByProvider, last.bucket), last.n));
    }
  }

  lemma HasProviderSnoc(init: seq<Delta>, last: Delta, lo: int, hi: int, p: string)
    ensures HasProvider(init + [last], lo, hi, p)
            <==> HasProvider(init, lo, hi, p) || (last.bucket.provider == p && lo <= last.bucket.hour <= hi)
  {
    var table := init + [last];
    if HasProvider(init, lo, hi, p) {
      var i :| 0 <= i < |init| && init[i].bucket.provider == p && lo <= init[i].bucket.hour <= hi;
      assert table[i] == init[i];
    }
    assert table[|init|] == last;
  }

  /** The total over the listed providers only. */
  function TotalListed(table: seq<Delta>, lo: int, hi: int, verdict: string, order: seq<string>): int {
    if table == [] then 0
    else
      var last := table[|table| - 1];
      TotalListed(table[..|table| - 1], lo, hi, verdict, order) +
      if last.bucket.provider in order then Share(Selection(lo, hi, None, Some(verdict)), last) else 0
  }

  lemma {:induction false} ListOneMore(table: seq<Delta>, lo: int, hi: int, verdict: string,
        order: seq<string>, n: nat)
    requires |order| == n + 1 && order[n] !in order[..n]
    ensures TotalListed(table, lo, hi, verdict, order)
            == TotalListed(table, lo, hi, verdict, order[..n])
             + Total(table, Selection(lo, hi, Some(order[n]), Some(verdict)))
  {
    if table == [] {
    } else {
      ListOneMore(table[..|table| - 1], lo, hi, verdict, order, n);
      assert order == order[..n] + [order[n]];
    }
  }

  lemma {:induction false} ListNone(table: seq<Delta>, lo: int, hi: int, verdict: string)
    ensures TotalListed(table, lo, hi, verdict, []) == 0
  {
    if table == [] {
    } else {
      ListNone(table[..|table| - 1], lo, hi, verdict);
    }
  }

  lemma {:induction false} ListAll(table: seq<Delta>, lo: int, hi: int, verdict: string, order: seq<string>)
    requires forall p :: HasProvider(table, lo, hi, p) ==> p in order
    ensures TotalListed(table, lo, hi, verdict, order) == Total(table, Selection(lo, hi, None, Some(verdict)))
  {
    if table == [] {
    } else {
      var n := |table| - 1;
      var init := table[..n];
      assert table == init + [table[n]];
      forall p
        ensures HasProvider(table, lo, hi, p)
                <==> HasProvider(init, lo, hi, p) || (table[n].bucket.provider == p && lo <= table[n].bucket.hour <= hi)
      {
        HasProviderSnoc(init, table[n], lo, hi, p);
      }
      ListAll(init, lo, hi, verdict, order);
    }
  }

  function ListedSplit(table: seq<Delta>, lo: int, hi: int, order: seq<string>): Split {
    Split(TotalListed(table, lo, hi, "accepted", order), TotalListed(table, lo, hi, "rejected", order))
  }

  lemma ListedSplitStep(table: seq<Delta>, lo: int, hi: int, order: seq<string>, n: nat)
    requires |order| == n + 1 && order[n] !in order[..n]
    ensures ListedSplit(table, lo, hi, order)
            == Plus(ListedSplit(table, lo, hi, order[..n]), SplitOf(table, lo, hi, Some(order[n])))
  {
    ListOneMore(table, lo, hi, "accepted", order, n);
    ListOneMore(table, lo, hi, "rejected", order, n);
    SameSplit(ListedSplit(table, lo, hi, order),
              Plus(ListedSplit(table, lo, hi, order[..n]), SplitOf(table, lo, hi, Some(order[n]))));
  }

  function SumOfSplits(table: seq<Delta>, lo: int, hi: int, order: seq<string>): Split {
    if order == [] then Split(0, 0)
    else Plus(SumOfSplits(table, lo, hi, order[..|order| - 1]), SplitOf(table, lo, hi, Some(order[|order| - 1])))
  }

  lemma {:induction false} SumIsListed(table: seq<Delta>, lo: int, hi: int, order: seq<string>)
    requires forall i, j :: 0 <= i < j < |order| ==> order[i] != order[j]
    ensures SumOfSplits(table, lo, hi, order) == ListedSplit(table, lo, hi, order)
  {
    if order == [] {
      ListNone(table, lo, hi, "accepted");
      ListNone(table, lo, hi, "rejected");
    } else {
      SumIsListed(table, lo, hi, order[..|order| - 1]);
      ListedSplitStep(table, lo, hi, order, |order| - 1);
    }
  }

  lemma {:induction false} StatsSum(stats: map<string, Split>, order: seq<string>, table: seq<Delta>, lo: int,
        hi: int)
    requires forall i :: 0 <= i < |order| ==> Of(stats, order[i]) == SplitOf(table, lo, hi, Some(order[i]))
    ensures ProviderSums(stats, order) == SumOfSplits(table, lo, hi, order)
  {
    if order == [] {
    } else {
      StatsSum(stats, order[..|order| - 1], table, lo, hi);
    }
  }

  lemma ProviderSum(stats: map<string, Split>, order: seq<string>, table: seq<Delta>, lo: int, hi: int)
    requires Lists(order, stats.Keys)
    requires forall i :: 0 <= i < |order| ==> Of(stats, order[i]) == SplitOf(table, lo, hi, Some(order[i]))
    requires forall p :: HasProvider(table, lo, hi, p) ==> p in stats
    ensures ProviderSums(stats, order) == SplitOf(table, lo, hi, None)
  {
    StatsSum(stats, order, table, lo, hi);
    SumIsListed(table, lo, hi, order);
    ListAll(table, lo, hi, "accepted", order);
    ListAll(table, lo, hi, "rejected", order);
  }

  // ---------------------------------------------------------------- the figures and the history

  /** In a run whose writes all succeed, with nothing in flight, a window's total is the number of
    * events ever inserted with a timestamp in its hours, whatever was swept since. */
  lemma WindowCountsHistory(queueSize: int, steps: seq<Pipeline.Step>, nowUnix: int, hours: int, verdict: string)
    requires Pipeline.AllSucceed(queueSize, steps) && Pipeline.After(queueSize, steps).flights == []
    ensures var s := Pipeline.After(queueSize, steps);
            Total(s.rollups, Window(nowUnix, hours, verdict)) == Count(s.ever, Window(nowUnix, hours, verdict))
  {
    Pipeline.RunConserves(queueSize, steps, Window(nowUnix, hours, verdict));
    Pipeline.SuccessfulRunAgrees(queueSize, steps, Bucket(0, "", ""));
  }

  /** An event is counted by a window exactly when its timestamp lies in the window's hours. */
  lemma WindowBounds(e: Event, nowUnix: int, hours: int)
    ensures var hour := nowUnix / 3600;
            Selects(Window(nowUnix, hours, e.verdict), BucketOf(e))
            <==> (hour - hours + 1) * 3_600_000 <= e.receivedAt < (hour + 1) * 3_600_000
  {
    var h := e.receivedAt / 1000 / 3600;
    assert 3_600_000 * h <= e.receivedAt < 3_600_000 * h + 3_600_000;
  }

  /** A rollup bucket counts the events of its hour, its provider and its verdict. */
  lemma BucketBounds(e: Event, b: Bucket)
    ensures Selects(Only(b), BucketOf(e)) <==>
            && b.hour * 3_600_000 <= e.receivedAt < (b.hour + 1) * 3_600_000
            && e.provider == b.provider && e.verdict == b.verdict
  {
    var h := e.receivedAt / 1000 / 3600;
    assert 3_600_000 * h <= e.receivedAt < 3_600_000 * h + 3_600_000;
  }

  /** The tables admit only the two verdicts, so accepted and rejected make up all the traffic. */
  lemma {:induction false} TwoVerdicts(events: seq<Event>, lo: int, hi: int)
    requires Pipeline.Known(events)
    ensures Count(events, Selection(lo, hi, None, Some("accepted")))
            + Count(events, Selection(lo, hi, None, Some("rejected")))
            == Count(events, Selection(lo, hi, None, None))
  {
    if events == [] {
    } else {
      TwoVerdicts(events[..|events| - 1], lo, hi);
    }
  }

  lemma QuietTraffic(s: Pipeline.State, lo: int, hi: int)
    requires s.flights == [] && s.missed == [] && Pipeline.Known(s.ever)
    requires Pipeline.Conserved(s, Selection(lo, hi, None, Some("accepted")))
    requires Pipeline.Conserved(s, Selection(lo, hi, None, Some("rejected")))
    ensures Total(s.rollups, Selection(lo, hi, None, Some("accepted")))
            + Total(s.rollups, Selection(lo, hi, None, Some("rejected")))
            == Count(s.ever, Selection(lo, hi, None, None))
  {
    TwoVerdicts(s.ever, lo, hi);
  }

  /** So the stat cards of such a run add up to every event ever inserted in the window's hours. */
  lemma SummaryCountsAllTraffic(queueSize: int, steps: seq<Pipeline.Step>, lo: int, hi: int)
    requires Pipeline.AllSucceed(queueSize, steps) && Pipeline.After(queueSize, steps).flights == []
    ensures var s := Pipeline.After(queueSize, steps);
            Total(s.rollups, Selection(lo, hi, None, Some("accepted")))
            + Total(s.rollups, Selection(lo, hi, None, Some("rejected")))
            == Count(s.ever, Selection(lo, hi, None, None))
  {
    var s := Pipeline.After(queueSize, steps);
    Pipeline.RunConserves(queueSize, steps, Selection(lo, hi, None, Some("accepted")));
    Pipeline.RunConserves(queueSize, steps, Selection(lo, hi, None, Some("rejected")));
    Pipeline.RunIsShaped(queueSize, steps);
    Pipeline.SuccessfulRunAgrees(queueSize, steps, Bucket(0, "", ""));
    QuietTraffic(s, lo, hi);
  }
}
