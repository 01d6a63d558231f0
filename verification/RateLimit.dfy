/** The console's rate limiter (src/hookguard_console/auth/ratelimit.py). Its documentation calls it a
  * fixed-window counter; the code keeps a log of hit times per key and slides the window. */
module RateLimit {
  import opened Wrappers

  /** Valid limits allow at least one hit. */
  datatype Limits = Limits(maxHits: int, window: int) {
    ghost predicate IsValid() {
      maxHits >= 1
    }
  }

  datatype Decision = Decision(allowed: bool, retryAfter: int)

  type HitMap = map<string, seq<int>>

  /** The hits later than the cutoff, in order. */
  function Live(times: seq<int>, cutoff: int): seq<int> {
    if times == [] then []
    else
      Live(times[..|times| - 1], cutoff) + if times[|times| - 1] > cutoff then [times[|times| - 1]] else []
  }

  function HitsOf(hits: HitMap, key: string): seq<int> {
    if key in hits then hits[key] else []
  }

  /** What `allow` answers, given the key's hits. */
  function Decide(limits: Limits, times: seq<int>, now: int): Decision
    requires limits.IsValid()
  {
    var kept := Live(times, now - limits.window);
    if |kept| >= limits.maxHits then Decision(false, limits.window - (now - kept[0])) else Decision(true, 0)
  }

  /** What `allow` leaves stored for the key. */
  function Stored(limits: Limits, times: seq<int>, now: int): seq<int>
    requires limits.IsValid()
  {
    var kept := Live(times, now - limits.window);
    if |kept| >= limits.maxHits then kept else kept + [now]
  }

  function Pruned(limits: Limits, hits: HitMap, now: int): HitMap {
    map key | key in hits && Live(hits[key], now - limits.window) != [] :: hits[key]
  }

  /** Some hit is later than the cutoff. */
  ghost predicate HasHitAfter(times: seq<int>, cutoff: int) {
    exists i :: 0 <= i < |times| && times[i] > cutoff
  }

  lemma {:induction false} LiveIffHit(times: seq<int>, cutoff: int)
    ensures Live(times, cutoff) != [] <==> HasHitAfter(times, cutoff)
  {
    if times == [] {
    } else {
      var n := |times| - 1;
      LiveIffHit(times[..n], cutoff);
      assert HasHitAfter(times, cutoff) <==> HasHitAfter(times[..n], cutoff) || times[n] > cutoff by {
        if HasHitAfter(times[..n], cutoff) {
          var i :| 0 <= i < n && times[..n][i] > cutoff;
          assert times[i] > cutoff;
        }
        if HasHitAfter(times, cutoff) {
          var i :| 0 <= i < |times| && times[i] > cutoff;
          assert i < n ==> times[..n][i] > cutoff;
        }
      }
    }
  }

  /** A prune removes exactly the keys whose every hit is `window` old or older: the map holds no key
    * without a live hit afterwards. */
  lemma PrunedKeys(limits: Limits, hits: HitMap, now: int, key: string)
    ensures key in Pruned(limits, hits, now) <==>
            key in hits && exists i :: 0 <= i < |hits[key]| && hits[key][i] > now - limits.window
    ensures key in Pruned(limits, hits, now) ==> Pruned(limits, hits, now)[key] == hits[key]
  {
    if key in hits {
      LiveIffHit(hits[key], now - limits.window);
    }
  }

  class Limiter {
    const limits: Limits
    var hits: HitMap

    constructor (limits: Limits)
      ensures this.limits == limits && hits == map[]
    {
      this.limits := limits;
      hits := map[];
    }

    /** `allow`. None stands for the IndexError of `kept[0]` on an empty list, which only a limit below
      * one can reach. */
    method Allow(key: string, now: int) returns (decision: Option<Decision>)
      modifies this
      ensures limits.IsValid() ==>
                decision == Some(Decide(limits, HitsOf(old(hits), key), now))
                && hits == old(hits)[key := Stored(limits, HitsOf(old(hits), key), now)]
      ensures !limits.IsValid() ==>
                hits == old(hits)[key := Live(HitsOf(old(hits), key), now - limits.window)]
                && (decision == None <==> hits[key] == [])
                && (decision.Some? ==> !decision.value.allowed)
    {
      var cutoff := now - limits.window;
      var kept := Live(HitsOf(hits, key), cutoff);
      if |kept| >= limits.maxHits {
        hits := hits[key := kept];
        if kept == [] {
          return None;
        }
        return Some(Decision(false, limits.window - (now - kept[0])));
      }
      kept := kept + [now];
      hits := hits[key := kept];
      return Some(Decision(true, 0));
    }

    method Prune(now: int) returns (removed: int)
      modifies this
      ensures hits == Pruned(limits, old(hits), now)
      // A key stays iff it has a hit later than now - window, and its hits stay as they are.
      ensures forall key :: key in hits <==> key in old(hits) && HasHitAfter(old(hits)[key], now - limits.window)
      ensures forall key :: key in hits ==> hits[key] == old(hits)[key]
      ensures removed == |set key | key in old(hits) && !HasHitAfter(old(hits)[key], now - limits.window)|
    {
      var cutoff := now - limits.window;
      var stale := set key | key in hits && Live(hits[key], cutoff) == [];
      ghost var before := hits;
      hits := hits - stale;
      assert hits == Pruned(limits, before, now);
      forall key | key in before
        ensures Live(before[key], cutoff) == [] <==> !HasHitAfter(before[key], cutoff)
      {
        LiveIffHit(before[key], cutoff);
      }
      assert stale == set key | key in before && !HasHitAfter(before[key], cutoff);
      removed := |stale|;
    }
  }

  // ---------------------------------------------------------------- runs

  datatype Call = Allow(key: string, now: int) | Prune(now: int)

  function Apply(limits: Limits, hits: HitMap, call: Call): HitMap
    requires limits.IsValid()
  {
    match call
    case Allow(key, now) => hits[key := Stored(limits, HitsOf(hits, key), now)]
    case Prune(now) => Pruned(limits, hits, now)
  }

  /** The map after these calls. */
  function After(limits: Limits, calls: seq<Call>): HitMap
    requires limits.IsValid()
  {
    if calls == [] then map[] else Apply(limits, After(limits, calls[..|calls| - 1]), calls[|calls| - 1])
  }

  /** What `allow` answers after these calls. */
  function Answer(limits: Limits, calls: seq<Call>, key: string, now: int): Decision
    requires limits.IsValid()
  {
    Decide(limits, HitsOf(After(limits, calls), key), now)
  }

  /** No attempt comes with a time before that of an earlier call. A prune may: the retention job reads
    * the clock, waits for its sweep, and only then prunes, while logins are served. */
  ghost predicate AttemptsInOrder(calls: seq<Call>) {
    forall i, j :: 0 <= i < j < |calls| && calls[j].Allow? ==> calls[i].now <= calls[j].now
  }

  ghost predicate NotBefore(calls: seq<Call>, now: int) {
    forall i :: 0 <= i < |calls| ==> calls[i].now <= now
  }

  /** The times at which calls on this key were allowed. */
  function AllowedTimes(limits: Limits, calls: seq<Call>, key: string): seq<int>
    requires limits.IsValid()
  {
    if calls == [] then []
    else
      var init, last := calls[..|calls| - 1], calls[|calls| - 1];
      AllowedTimes(limits, init, key) +
      if last.Allow? && last.key == key && Answer(limits, init, key, last.now).allowed then [last.now] else []
  }

  // ---------------------------------------------------------------- the unpruned limiter

  /** One call of a limiter that keeps a key's whole history and forgets nothing. */
  function Remember(limits: Limits, past: seq<int>, call: Call, key: string): seq<int>
    requires limits.IsValid()
  {
    if call.Allow? && call.key == key && Decide(limits, past, call.now).allowed then past + [call.now] else past
  }

  function Past(limits: Limits, calls: seq<Call>, key: string): seq<int>
    requires limits.IsValid()
  {
    if calls == [] then []
    else Remember(limits, Past(limits, calls[..|calls| - 1], key), calls[|calls| - 1], key)
  }

  lemma LiveSnoc(times: seq<int>, t: int, cutoff: int)
    ensures Live(times + [t], cutoff) == Live(times, cutoff) + if t > cutoff then [t] else []
  {
    assert (times + [t])[..|times|] == times;
  }

  /** Filtering again with a later cutoff makes the first filter invisible. */
  lemma {:induction false} LiveTwice(times: seq<int>, early: int, late: int)
    requires early <= late
    ensures Live(Live(times, early), late) == Live(times, late)
  {
    if times == [] {
    } else {
      var init, last := times[..|times| - 1], times[|times| - 1];
      LiveTwice(init, early, late);
      if last > early {
        LiveSnoc(Live(init, early), last, late);
      } else {
        assert Live(times, early) == Live(init, early);
      }
    }
  }

  /** The stored hits and the whole history agree about every window from `now` on. */
  ghost predicate Agree(stored: seq<int>, past: seq<int>, cutoff: int) {
    forall c :: c >= cutoff ==> Live(stored, c) == Live(past, c)
  }

  lemma StoredAgreesAt(limits: Limits, stored: seq<int>, past: seq<int>, call: Call, c: int)
    requires limits.IsValid() && call.Allow? && c >= call.now - limits.window
    requires Live(stored, call.now - limits.window) == Live(past, call.now - limits.window)
    requires Live(stored, c) == Live(past, c)
    ensures Live(Stored(limits, stored, call.now), c) == Live(Remember(limits, past, call, call.key), c)
  {
    var kept := Live(stored, call.now - limits.window);
    LiveTwice(stored, call.now - limits.window, c);
    LiveSnoc(kept, call.now, c);
    LiveSnoc(past, call.now, c);
  }

  lemma StoredAgrees(limits: Limits, stored: seq<int>, past: seq<int>, cutoff: int, call: Call)
    requires limits.IsValid() && call.Allow? && Agree(stored, past, cutoff) && cutoff <= call.now - limits.window
    ensures Agree(Stored(limits, stored, call.now), Remember(limits, past, call, call.key), call.now - limits.window)
  {
    forall c | c >= call.now - limits.window
      ensures Live(Stored(limits, stored, call.now), c) == Live(Remember(limits, past, call, call.key), c)
    {
      StoredAgreesAt(limits, stored, past, call, c);
    }
  }

  /** A prune at a time already past disturbs no window that is still to come. */
  lemma PrunedAgrees(limits: Limits, hits: HitMap, t: int, key: string, past: seq<int>, cutoff: int)
    requires Agree(HitsOf(hits, key), past, cutoff) && t - limits.window <= cutoff
    ensures Agree(HitsOf(Pruned(limits, hits, t), key), past, cutoff)
  {
    var from := t - limits.window;
    if key in hits && Live(hits[key], from) == [] {
      forall c | c >= cutoff
        ensures Live([], c) == Live(past, c)
      {
        LiveTwice(hits[key], from, c);
      }
    }
  }

  lemma {:induction false} StoredRefinesPast(limits: Limits, calls: seq<Call>, key: string, now: int)
    requires limits.IsValid() && AttemptsInOrder(calls) && NotBefore(calls, now)
    ensures Agree(HitsOf(After(limits, calls), key), Past(limits, calls, key), now - limits.window)
  {
    if calls == [] {
    } else {
      var init, last := calls[..|calls| - 1], calls[|calls| - 1];
      var hits, past := After(limits, init), Past(limits, init, key);
      match last
      case Allow(k, t) =>
        StoredRefinesPast(limits, init, key, t);
        if k == key {
          StoredAgrees(limits, HitsOf(hits, key), past, t - limits.window, last);
        }
      case Prune(t) =>
        StoredRefinesPast(limits, init, key, now);
        PrunedAgrees(limits, hits, t, key, past, now - limits.window);
    }
  }

  /** The pruned map refines the unpruned limiter: in every run with attempts in order, and with prunes
    * at any time already past, each answer is the one the whole history gives. */
  lemma AnswersFromHistory(limits: Limits, calls: seq<Call>, key: string, now: int)
    requires limits.IsValid() && AttemptsInOrder(calls) && NotBefore(calls, now)
    ensures Answer(limits, calls, key, now) == Decide(limits, Past(limits, calls, key), now)
  {
    StoredRefinesPast(limits, calls, key, now);
    assert Live(HitsOf(After(limits, calls), key), now - limits.window)
        == Live(Past(limits, calls, key), now - limits.window);
  }

  lemma {:induction false} AllowedIsPast(limits: Limits, calls: seq<Call>, key: string)
    requires limits.IsValid() && AttemptsInOrder(calls)
    ensures AllowedTimes(limits, calls, key) == Past(limits, calls, key)
  {
    if calls == [] {
    } else {
      var init, last := calls[..|calls| - 1], calls[|calls| - 1];
      AllowedIsPast(limits, init, key);
      if last.Allow? {
        AnswersFromHistory(limits, init, key, last.now);
      }
    }
  }

  // ---------------------------------------------------------------- at most maxHits in any window

  /** How many of these times lie in (a, b]. */
  function CountIn(times: seq<int>, a: int, b: int): nat {
    if times == [] then 0
    else CountIn(times[..|times| - 1], a, b) + if a < times[|times| - 1] <= b then 1 else 0
  }

  lemma {:induction false} CountInLive(times: seq<int>, a: int, b: int, cutoff: int)
    requires cutoff <= a
    ensures CountIn(times, a, b) <= |Live(times, cutoff)|
  {
    if times == [] {
    } else {
      CountInLive(times[..|times| - 1], a, b, cutoff);
    }
  }

  lemma {:induction false} PastIsBounded(limits: Limits, calls: seq<Call>, key: string, a: int)
    requires limits.IsValid()
    ensures CountIn(Past(limits, calls, key), a, a + limits.window) <= limits.maxHits
  {
    if calls == [] {
    } else {
      var init, last := calls[..|calls| - 1], calls[|calls| - 1];
      var past := Past(limits, init, key);
      PastIsBounded(limits, init, key, a);
      if last.Allow? && last.key == key && Decide(limits, past, last.now).allowed {
        assert (past + [last.now])[..|past|] == past;
        if a < last.now <= a + limits.window {
          CountInLive(past, a, a + limits.window, last.now - limits.window);
        }
      }
    }
  }

  /** In every run with attempts in order, every half-open interval (a, a + window] holds at most
    * `maxHits` allowed calls of a key: there is no burst across a boundary. */
  lemma BoundOverEveryWindow(limits: Limits, calls: seq<Call>, key: string, a: int)
    requires limits.IsValid() && AttemptsInOrder(calls)
    ensures CountIn(AllowedTimes(limits, calls, key), a, a + limits.window) <= limits.maxHits
  {
    AllowedIsPast(limits, calls, key);
    PastIsBounded(limits, calls, key, a);
  }

  /** An attempt is allowed exactly when fewer than `maxHits` calls of its key were allowed within the
    * window before it, and only a refusal gives a time to wait, within the window. */
  lemma AllowedIffFewHits(limits: Limits, calls: seq<Call>, key: string, now: int)
    requires limits.IsValid() && AttemptsInOrder(calls) && NotBefore(calls, now)
    ensures var d, hits := Answer(limits, calls, key, now), AllowedTimes(limits, calls, key);
            && (d.allowed <==> CountIn(hits, now - limits.window, now) < limits.maxHits)
            && (if d.allowed then d.retryAfter == 0 else 0 < d.retryAfter <= limits.window)
  {
    AllowedIsPast(limits, calls, key);
    AnswersFromHistory(limits, calls, key, now);
    PastIsSorted(limits, calls, key, now);
    DecideFacts(limits, Past(limits, calls, key), now);
  }

  lemma DecideFacts(limits: Limits, times: seq<int>, now: int)
    requires limits.IsValid() && Sorted(times) && forall i :: 0 <= i < |times| ==> times[i] <= now
    ensures var d := Decide(limits, times, now);
            && (d.allowed <==> CountIn(times, now - limits.window, now) < limits.maxHits)
            && (if d.allowed then d.retryAfter == 0 else 0 < d.retryAfter <= limits.window)
  {
    LiveFacts(times, now - limits.window, now);
  }

  // ---------------------------------------------------------------- invisible calls

  /** A call that a run could do without: a prune, or a refused attempt. */
  ghost predicate Invisible(limits: Limits, before: seq<Call>, call: Call)
    requires limits.IsValid()
  {
    call.Allow? ==> !Answer(limits, before, call.key, call.now).allowed
  }

  /** The calls of a run that are kept. */
  function Chosen(calls: seq<Call>, keep: seq<bool>): seq<Call>
    requires |keep| == |calls|
  {
    if calls == [] then []
    else
      var n := |calls| - 1;
      Chosen(calls[..n], keep[..n]) + if keep[n] then [calls[n]] else []
  }

  /** Every call left out is a prune, or an attempt that the whole run refuses. */
  ghost predicate DropsInvisible(limits: Limits, calls: seq<Call>, keep: seq<bool>)
    requires limits.IsValid() && |keep| == |calls|
  {
    forall i :: 0 <= i < |calls| && !keep[i] ==> Invisible(limits, calls[..i], calls[i])
  }

  lemma {:induction false} ChosenTimes(calls: seq<Call>, keep: seq<bool>, now: int)
    requires |keep| == |calls| && AttemptsInOrder(calls) && NotBefore(calls, now)
    ensures AttemptsInOrder(Chosen(calls, keep)) && NotBefore(Chosen(calls, keep), now)
  {
    if calls == [] {
    } else {
      var n := |calls| - 1;
      ChosenTimes(calls[..n], keep[..n], if calls[n].Allow? then calls[n].now else now);
    }
  }

  lemma DropsInvisibleInit(limits: Limits, calls: seq<Call>, keep: seq<bool>, n: nat)
    requires limits.IsValid() && |keep| == |calls| && n <= |calls| && DropsInvisible(limits, calls, keep)
    ensures DropsInvisible(limits, calls[..n], keep[..n])
  {
    forall i | 0 <= i < n && !keep[..n][i]
      ensures Invisible(limits, calls[..n][..i], calls[..n][i])
    {
      assert calls[..n][..i] == calls[..i] && calls[..n][i] == calls[i];
    }
  }

  lemma {:induction false} ChosenPast(limits: Limits, calls: seq<Call>, keep: seq<bool>, key: string)
    requires limits.IsValid() && |keep| == |calls| && AttemptsInOrder(calls) && DropsInvisible(limits, calls, keep)
    ensures Past(limits, Chosen(calls, keep), key) == Past(limits, calls, key)
  {
    if calls == [] {
    } else {
      var n := |calls| - 1;
      var init, last := calls[..n], calls[n];
      DropsInvisibleInit(limits, calls, keep, n);
      ChosenPast(limits, init, keep[..n], key);
      if keep[n] {
        var chosen := Chosen(init, keep[..n]);
        assert (chosen + [last])[..|chosen|] == chosen;
      } else {
        assert Chosen(calls, keep) == Chosen(init, keep[..n]);
        assert Invisible(limits, calls[..n], calls[n]);
        if last.Allow? {
          AnswersFromHistory(limits, init, last.key, last.now);
        }
      }
    }
  }

  /** Leaving any set of prunes and refused attempts out of a run changes no later answer, on any key. */
  lemma InvisibleCallsDoNotMatter(limits: Limits, calls: seq<Call>, keep: seq<bool>, key: string, now: int)
    requires limits.IsValid() && |keep| == |calls|
    requires AttemptsInOrder(calls) && NotBefore(calls, now) && DropsInvisible(limits, calls, keep)
    ensures Answer(limits, Chosen(calls, keep), key, now) == Answer(limits, calls, key, now)
  {
    ChosenTimes(calls, keep, now);
    ChosenPast(limits, calls, keep, key);
    AnswersFromHistory(limits, calls, key, now);
    AnswersFromHistory(limits, Chosen(calls, keep), key, now);
  }

  // ---------------------------------------------------------------- retry_after is exact

  ghost predicate Sorted(times: seq<int>) {
    forall i, j :: 0 <= i < j < |times| ==> times[i] <= times[j]
  }

  lemma {:induction false} PastIsSorted(limits: Limits, calls: seq<Call>, key: string, now: int)
    requires limits.IsValid() && AttemptsInOrder(calls) && NotBefore(calls, now)
    ensures Sorted(Past(limits, calls, key))
    ensures forall i :: 0 <= i < |Past(limits, calls, key)| ==> Past(limits, calls, key)[i] <= now
  {
    if calls == [] {
    } else {
      var init, last := calls[..|calls| - 1], calls[|calls| - 1];
      PastIsSorted(limits, init, key, if last.Allow? then last.now else now);
    }
  }

  lemma {:induction false} LiveFacts(times: seq<int>, cutoff: int, now: int)
    requires Sorted(times) && forall i :: 0 <= i < |times| ==> times[i] <= now
    ensures Sorted(Live(times, cutoff))
    ensures forall i :: 0 <= i < |Live(times, cutoff)| ==> cutoff < Live(times, cutoff)[i] <= now
    ensures |Live(times, cutoff)| == CountIn(times, cutoff, now)
    ensures forall x :: x in Live(times, cutoff) ==> x in times
  {
    if times == [] {
    } else {
      var init, last := times[..|times| - 1], times[|times| - 1];
      LiveFacts(init, cutoff, now);
      assert times == init + [last];
      forall i | 0 <= i < |Live(init, cutoff)|
        ensures Live(init, cutoff)[i] <= last
      {
        assert Live(init, cutoff)[i] in init;
      }
    }
  }

  lemma {:induction false} AllLive(times: seq<int>, cutoff: int)
    requires forall i :: 0 <= i < |times| ==> times[i] > cutoff
    ensures Live(times, cutoff) == times
  {
    if times == [] {
    } else {
      AllLive(times[..|times| - 1], cutoff);
      assert times == times[..|times| - 1] + [times[|times| - 1]];
    }
  }

  lemma {:induction false} FewerLive(times: seq<int>, cutoff: int)
    ensures |Live(times, cutoff)| <= |times|
    ensures times != [] && times[0] <= cutoff ==> |Live(times, cutoff)| < |times|
  {
    if times == [] {
    } else {
      FewerLive(times[..|times| - 1], cutoff);
    }
  }

  /** The hits live at a refusal: sorted, exactly `maxHits` of them. */
  lemma LiveAtRefusal(limits: Limits, calls: seq<Call>, key: string, now: int)
    requires limits.IsValid() && AttemptsInOrder(calls) && NotBefore(calls, now)
    requires !Decide(limits, Past(limits, calls, key), now).allowed
    ensures var live := Live(Past(limits, calls, key), now - limits.window);
            Sorted(live) && |live| == limits.maxHits
  {
    var past := Past(limits, calls, key);
    PastIsSorted(limits, calls, key, now);
    LiveFacts(past, now - limits.window, now);
    PastIsBounded(limits, calls, key, now - limits.window);
  }

  /** Full live hits stay full until the oldest of them leaves the window. */
  lemma FullUntilOldestLeaves(live: seq<int>, maxHits: int, cutoff: int)
    requires Sorted(live) && |live| == maxHits >= 1
    ensures |Live(live, cutoff)| >= maxHits <==> live[0] > cutoff
  {
    if live[0] > cutoff {
      AllLive(live, cutoff);
    } else {
      FewerLive(live, cutoff);
    }
  }

  lemma DecideFrom(limits: Limits, times: seq<int>, now: int, kept: seq<int>)
    requires limits.IsValid() && kept == Live(times, now - limits.window)
    ensures Decide(limits, times, now).allowed <==> |kept| < limits.maxHits
    ensures |kept| >= limits.maxHits ==> Decide(limits, times, now).retryAfter == limits.window - (now - kept[0])
  {}

  lemma LaterLive(past: seq<int>, live: seq<int>, maxHits: int, early: int, late: int)
    requires early <= late && live == Live(past, early) && Sorted(live) && |live| == maxHits >= 1
    ensures |Live(past, late)| >= maxHits <==> live[0] > late
  {
    LiveTwice(past, early, late);
    FullUntilOldestLeaves(live, maxHits, late);
  }

  lemma DecideLater(limits: Limits, past: seq<int>, live: seq<int>, now: int, later: int)
    requires limits.IsValid() && now <= later
    requires live == Live(past, now - limits.window) && Sorted(live) && |live| == limits.maxHits
    ensures Decide(limits, past, now).retryAfter == limits.window - (now - live[0])
    ensures Decide(limits, past, later).allowed <==> later >= live[0] + limits.window
  {
    LaterLive(past, live, limits.maxHits, now - limits.window, later - limits.window);
    DecideFrom(limits, past, now, live);
    DecideFrom(limits, past, later, Live(past, later - limits.window));
  }

  /** With the key's history unchanged since a refusal at `now`, an attempt at `later` is allowed
    * exactly from `now + retryAfter` on. */
  lemma RefusedUntilRetry(limits: Limits, calls: seq<Call>, key: string, now: int, later: int)
    requires limits.IsValid() && AttemptsInOrder(calls) && NotBefore(calls, now) && now <= later
    requires !Decide(limits, Past(limits, calls, key), now).allowed
    ensures Decide(limits, Past(limits, calls, key), later).allowed
            <==> later >= now + Decide(limits, Past(limits, calls, key), now).retryAfter
  {
    LiveAtRefusal(limits, calls, key, now);
    var past := Past(limits, calls, key);
    DecideLater(limits, past, Live(past, now - limits.window), now, later);
  }

  /** Every attempt on the key among these calls is made too early. */
  ghost predicate TooEarly(calls: seq<Call>, key: string, until: int) {
    forall i :: 0 <= i < |calls| && calls[i].Allow? && calls[i].key == key ==> calls[i].now < until
  }

  ghost predicate AttemptsFrom(calls: seq<Call>, now: int) {
    forall i :: 0 <= i < |calls| && calls[i].Allow? ==> now <= calls[i].now
  }

  lemma {:induction false} PastStandsStill(limits: Limits, before: seq<Call>, key: string, now: int,
        between: seq<Call>)
    requires limits.IsValid() && AttemptsInOrder(before) && NotBefore(before, now)
    requires !Decide(limits, Past(limits, before, key), now).allowed
    requires AttemptsFrom(between, now)
    requires TooEarly(between, key, now + Decide(limits, Past(limits, before, key), now).retryAfter)
    ensures Past(limits, before + between, key) == Past(limits, before, key)
  {
    if between == [] {
      assert before + between == before;
    } else {
      var init, last := between[..|between| - 1], between[|between| - 1];
      PastStandsStill(limits, before, key, now, init);
      assert (before + between)[..|before + between| - 1] == before + init;
      if last.Allow? && last.key == key {
        RefusedUntilRetry(limits, before, key, now, last.now);
      }
    }
  }

  lemma {:induction false} PastWithout(limits: Limits, before: seq<Call>, call: Call, after: seq<Call>, key: string)
    requires limits.IsValid()
    requires Remember(limits, Past(limits, before, key), call, key) == Past(limits, before, key)
    ensures Past(limits, before + [call] + after, key) == Past(limits, before + after, key)
  {
    if after == [] {
      assert before + [call] + after == before + [call] && before + after == before;
      assert (before + [call])[..|before|] == before;
    } else {
      var init := after[..|after| - 1];
      PastWithout(limits, before, call, init, key);
      assert (before + [call] + after)[..|before| + |after|] == before + [call] + init;
      assert (before + after)[..|before + after| - 1] == before + init;
    }
  }

  lemma OrderAround(before: seq<Call>, call: Call, after: seq<Call>)
    requires call.Allow? && AttemptsInOrder(before + [call] + after)
    ensures AttemptsInOrder(before) && NotBefore(before, call.now) && AttemptsFrom(after, call.now)
  {
    var run := before + [call] + after;
    assert forall i :: 0 <= i < |before| ==> run[i] == before[i];
    assert run[|before|] == call;
    assert forall i :: 0 <= i < |after| ==> run[|before| + 1 + i] == after[i];
  }

  /** `retryAfter` is exact: after a refusal at `now`, whatever else happens and however often the
    * key is tried too early, an attempt on it is refused before now + retryAfter, and the first one
    * at or after that is allowed. */
  lemma RetryAfterIsExact(limits: Limits, before: seq<Call>, key: string, now: int, between: seq<Call>, later: int)
    requires limits.IsValid() && now <= later
    requires AttemptsInOrder(before + [Allow(key, now)] + between)
    requires NotBefore(before + [Allow(key, now)] + between, later)
    requires !Answer(limits, before, key, now).allowed
    requires TooEarly(between, key, now + Answer(limits, before, key, now).retryAfter)
    ensures Answer(limits, before + [Allow(key, now)] + between, key, later).allowed
            <==> later >= now + Answer(limits, before, key, now).retryAfter
  {
    var run := before + [Allow(key, now)] + between;
    OrderAround(before, Allow(key, now), between);
    AnswersFromHistory(limits, before, key, now);
    PastWithout(limits, before, Allow(key, now), between, key);
    PastStandsStill(limits, before, key, now, between);
    AnswersFromHistory(limits, run, key, later);
    RefusedUntilRetry(limits, before, key, now, later);
  }
}
