/** Console sessions: the middleware's expiry rules (src/hookguard_console/middleware.py), the session
  * table (store/sessions.py) and the handlers that create and revoke sessions (routes/auth.py).
  * Times are unix milliseconds. */
module Sessions {
  import opened Wrappers
  import opened Hex

  /** sha256 of the cookie token. */
  type Hash = seq<byte>

  const IDLE_TIMEOUT: int := 7 * 24 * 3600 * 1000
  const ABSOLUTE_TIMEOUT: int := 30 * 24 * 3600 * 1000
  const TOUCH_INTERVAL: int := 60 * 1000

  datatype Session = Session(id: int, userId: int, createdAt: int, lastSeenAt: int, expiresAt: int)

  /** The sessions table by its unique token hash. */
  type Table = map<Hash, Session>

  ghost predicate UniqueIds(t: Table) {
    && (forall h :: h in t ==> t[h].id >= 1)
    && (forall g, h :: g in t && h in t && t[g].id == t[h].id ==> g == h)
  }

  function NewSession(rowId: int, userId: int, now: int): Session {
    Session(rowId, userId, now, now, now + ABSOLUTE_TIMEOUT)
  }

  /** DELETE ... WHERE id = ?. */
  function WithoutId(t: Table, id: int): Table {
    map h | h in t && t[h].id != id :: t[h]
  }

  /** DELETE ... WHERE user_id = ? AND id != ?. */
  function WithoutUser(t: Table, userId: int, keepId: int): Table {
    map h | h in t && (t[h].userId != userId || t[h].id == keepId) :: t[h]
  }

  /** UPDATE ... SET last_seen_at = ? WHERE id = ?. */
  function Touched(t: Table, id: int, now: int): Table {
    map h | h in t :: if t[h].id == id then t[h].(lastSeenAt := now) else t[h]
  }

  /** Either limit lapsing ends the session: the absolute cap, or the sliding idle window. */
  predicate Lapsed(s: Session, now: int) {
    now > s.expiresAt || now > s.lastSeenAt + IDLE_TIMEOUT
  }

  /** What `_load` returns. `userActive` says whether the session's user exists and is active. */
  function LoadResult(t: Table, h: Hash, now: int, userActive: bool): Option<Session> {
    if h in t && !Lapsed(t[h], now) && userActive then Some(t[h]) else None
  }

  /** The session's own user is active. */
  predicate IsActive(t: Table, h: Hash, activeUsers: set<int>) {
    h in t && t[h].userId in activeUsers
  }

  /** What `_load` leaves in the table. */
  function LoadEffect(t: Table, h: Hash, now: int): Table {
    if h !in t then t
    else if Lapsed(t[h], now) then WithoutId(t, t[h].id)
    else if now - t[h].lastSeenAt > TOUCH_INTERVAL then Touched(t, t[h].id, now)
    else t
  }

  class SessionStore {
    var sessions: Table

    constructor ()
      ensures sessions == map[]
    {
      sessions := map[];
    }

    /** `_start_session`. `rowId` is the row id the database picks; false stands for the error of the
      * UNIQUE constraint on the token hash. */
    method StartSession(h: Hash, rowId: int, userId: int, now: int) returns (ok: bool)
      requires UniqueIds(sessions)
      requires rowId >= 1 && forall g :: g in sessions ==> sessions[g].id != rowId
      modifies this
      ensures UniqueIds(sessions) && ok == (h !in old(sessions))
      ensures sessions == if ok then old(sessions)[h := NewSession(rowId, userId, now)] else old(sessions)
      ensures ok ==> sessions[h] == Session(rowId, userId, now, now, now + 30 * 24 * 3600 * 1000)
    {
      ok := h !in sessions;
      if ok {
        sessions := sessions[h := Session(rowId, userId, now, now, now + ABSOLUTE_TIMEOUT)];
      }
    }

    method DeleteSession(id: int)
      modifies this
      ensures sessions == WithoutId(old(sessions), id)
      ensures forall h :: h in sessions <==> h in old(sessions) && old(sessions)[h].id != id
      ensures forall h :: h in sessions ==> sessions[h] == old(sessions)[h]
    {
      sessions := WithoutId(sessions, id);
    }

    method DeleteSessionsForUserExcept(userId: int, keepId: int) returns (revoked: int)
      modifies this
      ensures sessions == WithoutUser(old(sessions), userId, keepId)
      ensures forall h :: h in sessions <==>
                          h in old(sessions) && (old(sessions)[h].userId != userId || old(sessions)[h].id == keepId)
      ensures forall h :: h in sessions ==> sessions[h] == old(sessions)[h]
      ensures revoked == |old(sessions)| - |sessions|
    {
      var doomed := set h | h in sessions && sessions[h].userId == userId && sessions[h].id != keepId;
      ghost var before := sessions;
      sessions := sessions - doomed;
      assert sessions == WithoutUser(before, userId, keepId);
      assert sessions.Keys == before.Keys - doomed;
      revoked := |doomed|;
    }

    /** `SessionMiddleware._load`. `cookie` is the hash of the cookie's token, if there is one, and
      * `activeUsers` the ids of the users that exist and are active. */
    method Load(cookie: Option<Hash>, now: int, activeUsers: set<int>) returns (session: Option<Session>)
      modifies this
      ensures cookie.None? ==> session == None && sessions == old(sessions)
      ensures cookie.Some? ==>
                && session == LoadResult(old(sessions), cookie.value, now,
                                         IsActive(old(sessions), cookie.value, activeUsers))
                && sessions == LoadEffect(old(sessions), cookie.value, now)
      // It is the stored session, returned while neither limit has passed and its own user is active.
      ensures session.Some? <==>
              && cookie.Some? && cookie.value in old(sessions)
              && now <= old(sessions)[cookie.value].expiresAt
              && now <= old(sessions)[cookie.value].lastSeenAt + 7 * 24 * 3600 * 1000
              && old(sessions)[cookie.value].userId in activeUsers
      ensures session.Some? ==> session.value == old(sessions)[cookie.value]
    {
      if cookie.None? || cookie.value !in sessions {
        return None;
      }
      var found := sessions[cookie.value];
      if now > found.expiresAt || now > found.lastSeenAt + IDLE_TIMEOUT {
        DeleteSession(found.id);
        return None;
      }
      if now - found.lastSeenAt > TOUCH_INTERVAL {
        sessions := Touched(sessions, found.id, now);
      }
      if found.userId !in activeUsers {
        return None;
      }
      return Some(found);
    }
  }

  // ---------------------------------------------------------------- runs

  datatype Step =
    | Start(hash: Hash, rowId: int, userId: int, now: int)
    | Request(hash: Hash, now: int, userActive: bool)
    | Revoke(id: int)
    | Wipe(userId: int, keepId: int)

  /** `passed` is when each session last passed the expiry checks, its creation counting as the first
    * time; `refused` the tokens refused for expiry; `used` every token ever issued. */
  datatype State = State(table: Table, clock: int, passed: map<Hash, int>, refused: set<Hash>, used: set<Hash>)

  function Begin(clock: int): State {
    State(map[], clock, map[], {}, {})
  }

  /** Time does not run backwards, and a fresh token is one never issued before. */
  predicate Enabled(s: State, step: Step) {
    match step
    case Start(h, rowId, _, now) =>
      && now >= s.clock && h !in s.used && h !in s.table
      && rowId >= 1 && (forall g :: g in s.table ==> s.table[g].id != rowId)
    case Request(_, now, _) => now >= s.clock
    case Revoke(_) => true
    case Wipe(_, _) => true
  }

  function Next(s: State, step: Step): State {
    match step
    case Start(h, rowId, userId, now) =>
      s.(table := s.table[h := NewSession(rowId, userId, now)],
         clock := now, passed := s.passed[h := now], used := s.used + {h})
    case Request(h, now, _) =>
      var after := s.(table := LoadEffect(s.table, h, now), clock := now);
      if h !in s.table then after
      else if Lapsed(s.table[h], now) then after.(refused := s.refused + {h})
      else after.(passed := s.passed[h := now])
    case Revoke(id) => s.(table := WithoutId(s.table, id))
    case Wipe(userId, keepId) => s.(table := WithoutUser(s.table, userId, keepId))
  }

  /** The state after any interleaving of steps; a step that cannot happen is skipped. */
  function After(s: State, steps: seq<Step>): State {
    if steps == [] then s
    else
      var t, step := After(s, steps[..|steps| - 1]), steps[|steps| - 1];
      if Enabled(t, step) then Next(t, step) else t
  }

  /** The stored last-seen time trails the last pass by at most the touch interval. */
  ghost predicate Trails(s: State, h: Hash) {
    h in s.table ==>
      && h in s.passed
      && s.table[h].lastSeenAt <= s.passed[h] <= s.table[h].lastSeenAt + TOUCH_INTERVAL
      && s.passed[h] <= s.clock
  }

  ghost predicate Invariant(s: State) {
    && UniqueIds(s.table)
    && (forall h :: Trails(s, h))
    && (forall h :: h in s.table ==> h in s.used)
    && s.refused <= s.used
    && (forall h :: h in s.refused ==> h !in s.table)
    && (forall h :: h in s.table ==> s.table[h].expiresAt == s.table[h].createdAt + ABSOLUTE_TIMEOUT)
  }

  lemma RequestTrails(s: State, h: Hash, now: int, userActive: bool, g: Hash)
    requires UniqueIds(s.table) && Trails(s, g) && Trails(s, h) && now >= s.clock
    ensures Trails(Next(s, Request(h, now, userActive)), g)
  {}

  lemma RequestKeepsInvariant(s: State, h: Hash, now: int, userActive: bool)
    requires Invariant(s) && now >= s.clock
    ensures Invariant(Next(s, Request(h, now, userActive)))
  {
    forall g
      ensures Trails(Next(s, Request(h, now, userActive)), g)
    {
      RequestTrails(s, h, now, userActive, g);
    }
  }

  lemma NextKeepsInvariant(s: State, step: Step)
    requires Invariant(s) && Enabled(s, step)
    ensures Invariant(Next(s, step))
  {
    var t := Next(s, step);
    if step.Request? {
      RequestKeepsInvariant(s, step.hash, step.now, step.userActive);
    } else {
      assert forall g :: Trails(s, g) ==> Trails(t, g);
    }
  }

  /** In every run with non-decreasing times, every stored last-seen time trails the session's last
    * pass by at most the touch interval, and no token refused for expiry is still in the table. */
  lemma {:induction false} RunInvariant(s: State, steps: seq<Step>)
    requires Invariant(s)
    ensures Invariant(After(s, steps)) && s.refused <= After(s, steps).refused
  {
    if steps == [] {
    } else {
      var t, step := After(s, steps[..|steps| - 1]), steps[|steps| - 1];
      RunInvariant(s, steps[..|steps| - 1]);
      if Enabled(t, step) {
        NextKeepsInvariant(t, step);
      }
    }
  }

  // ---------------------------------------------------------------- what a user sees

  /** Within the absolute cap, a session survives every gap up to the idle timeout less one minute
    * and no gap above the idle timeout; in between it depends on how stale its stored time is. */
  lemma SurvivesGap(clock: int, steps: seq<Step>, h: Hash, now: int)
    requires var s := After(Begin(clock), steps); h in s.table && now >= s.clock
    ensures var s := After(Begin(clock), steps);
            && h in s.passed
            && (now <= s.table[h].expiresAt && now - s.passed[h] <= IDLE_TIMEOUT - TOUCH_INTERVAL ==>
                  LoadResult(s.table, h, now, true) == Some(s.table[h]))
            && (now - s.passed[h] > IDLE_TIMEOUT || now > s.table[h].expiresAt ==>
                  LoadResult(s.table, h, now, true) == None && h !in LoadEffect(s.table, h, now))
            && (now <= s.table[h].expiresAt ==>
                  (LoadResult(s.table, h, now, true).Some?
                   <==> now - s.passed[h] <= IDLE_TIMEOUT - (s.passed[h] - s.table[h].lastSeenAt)))
  {
    RunInvariant(Begin(clock), steps);
    assert Trails(After(Begin(clock), steps), h);
  }

  /** A step that does not end the session of `h`: no revocation or wipe that names it, and no request
    * for it past its cap or after a gap longer than the idle timeout less one minute. */
  ghost predicate Spares(s: State, step: Step, h: Hash) {
    h in s.table && h in s.passed ==>
      match step
      case Start(_, _, _, _) => true
      case Request(g, now, _) =>
        g == h ==> now <= s.table[h].expiresAt && now - s.passed[h] <= IDLE_TIMEOUT - TOUCH_INTERVAL
      case Revoke(id) => id != s.table[h].id
      case Wipe(userId, keepId) => userId != s.table[h].userId || keepId == s.table[h].id
  }

  ghost predicate AllSpare(s: State, steps: seq<Step>, h: Hash) {
    forall i :: 0 <= i < |steps| ==> Spares(After(s, steps[..i]), steps[i], h)
  }

  /** Still stored, and the same session. */
  ghost predicate Kept(s: State, t: State, h: Hash) {
    h in s.table && h in t.table && t.table[h].id == s.table[h].id && t.table[h].userId == s.table[h].userId
    && t.table[h].expiresAt == s.table[h].expiresAt
  }

  lemma SparedIsKept(s: State, step: Step, h: Hash)
    requires Invariant(s) && Enabled(s, step) && h in s.table && Spares(s, step, h)
    ensures Kept(s, Next(s, step), h)
    ensures step.Request? && step.hash == h && step.userActive ==> LoadResult(s.table, h, step.now, true).Some?
  {
    assert Trails(s, h);
  }

  /** Whatever other users and other sessions do, a session that is spared stays stored. */
  lemma {:induction false} SessionStays(s: State, steps: seq<Step>, h: Hash)
    requires Invariant(s) && h in s.table && AllSpare(s, steps, h)
    ensures Kept(s, After(s, steps), h)
  {
    if steps == [] {
    } else {
      var n := |steps| - 1;
      var t, step := After(s, steps[..n]), steps[n];
      AllSpareInit(s, steps, h, n);
      SessionStays(s, steps[..n], h);
      RunInvariant(s, steps[..n]);
      if Enabled(t, step) {
        SparedIsKept(t, step, h);
      }
    }
  }

  lemma AllSpareInit(s: State, steps: seq<Step>, h: Hash, n: nat)
    requires AllSpare(s, steps, h) && n <= |steps|
    ensures AllSpare(s, steps[..n], h)
  {
    forall i | 0 <= i < n
      ensures Spares(After(s, steps[..n][..i]), steps[..n][i], h)
    {
      assert steps[..n][..i] == steps[..i];
    }
  }

  /** So an active user is never signed out before the absolute cap: in any run, with anyone's requests,
    * logins, revocations and wipes in between, if the session's own requests come within the cap and
    * after gaps of at most the idle timeout less one minute, and nothing revokes it, then each of
    * those requests is authenticated. */
  lemma ActiveSessionSurvives(s: State, steps: seq<Step>, h: Hash, k: nat)
    requires Invariant(s) && h in s.table && AllSpare(s, steps, h)
    requires k < |steps| && steps[k].Request? && steps[k].hash == h && steps[k].userActive
    requires Enabled(After(s, steps[..k]), steps[k])
    ensures LoadResult(After(s, steps[..k]).table, h, steps[k].now, true).Some?
  {
    AllSpareInit(s, steps, h, k);
    SessionStays(s, steps[..k], h);
    RunInvariant(s, steps[..k]);
    SparedIsKept(After(s, steps[..k]), steps[k], h);
  }

  /** However active its user, no session authenticates past its creation plus the absolute cap. */
  lemma NoneOutlivesTheCap(clock: int, steps: seq<Step>, h: Hash, now: int, userActive: bool)
    ensures var s := After(Begin(clock), steps);
            LoadResult(s.table, h, now, userActive).Some? ==> now <= s.table[h].createdAt + ABSOLUTE_TIMEOUT
  {
    RunInvariant(Begin(clock), steps);
  }

  /** Once refused for expiry, a token never authenticates again, whatever follows. */
  lemma RefusedForGood(clock: int, steps: seq<Step>, more: seq<Step>, h: Hash, now: int, userActive: bool)
    requires h in After(Begin(clock), steps).refused
    ensures LoadResult(After(After(Begin(clock), steps), more).table, h, now, userActive) == None
  {
    RunInvariant(Begin(clock), steps);
    RunInvariant(After(Begin(clock), steps), more);
  }

  /** A request deletes the session it finds exactly when it has lapsed. */
  lemma LapsedIsRefused(s: State, h: Hash, now: int, userActive: bool)
    requires Invariant(s) && h in s.table && now >= s.clock
    ensures var t := Next(s, Request(h, now, userActive));
            if Lapsed(s.table[h], now) then
              h in t.refused && h !in t.table && LoadResult(s.table, h, now, userActive) == None
            else
              h !in t.refused && h in t.table && t.passed[h] == now
  {}

  /** In every reachable state a request is authenticated iff its token is stored, its user is active, and
    * it comes within thirty days of the login and seven days of the stored last-seen time. */
  lemma AuthenticatedIff(clock: int, steps: seq<Step>, h: Hash, now: int, userActive: bool)
    ensures var t := After(Begin(clock), steps).table;
            LoadResult(t, h, now, userActive).Some? <==>
            && userActive && h in t
            && now <= t[h].createdAt + 30 * 24 * 3600 * 1000
            && now <= t[h].lastSeenAt + 7 * 24 * 3600 * 1000
  {
    RunInvariant(Begin(clock), steps);
  }

  /** What a request leaves, whether or not its user is active: a lapsed session is gone, any other is
    * marked seen once its mark is over a minute old, and no other session is touched. */
  lemma RequestLeaves(clock: int, steps: seq<Step>, h: Hash, now: int, userActive: bool)
    requires h in After(Begin(clock), steps).table
    ensures var s := After(Begin(clock), steps);
            var t, found := Next(s, Request(h, now, userActive)).table, s.table[h];
            && (forall g :: g != h ==> (g in t <==> g in s.table) && (g in t ==> t[g] == s.table[g]))
            && (h in t <==>
                now <= found.createdAt + 30 * 24 * 3600 * 1000 && now <= found.lastSeenAt + 7 * 24 * 3600 * 1000)
            && (h in t ==> t[h] == if now - found.lastSeenAt > 60_000 then found.(lastSeenAt := now) else found)
  {
    RunInvariant(Begin(clock), steps);
  }

  /** A login of this user, at this time, with this token. */
  ghost predicate LoggedIn(steps: seq<Step>, h: Hash, found: Session) {
    exists i :: 0 <= i < |steps| && steps[i] == Start(h, found.id, found.userId, found.createdAt)
  }

  lemma LoggedInSnoc(init: seq<Step>, step: Step, h: Hash, found: Session)
    ensures LoggedIn(init, h, found) || step == Start(h, found.id, found.userId, found.createdAt)
            ==> LoggedIn(init + [step], h, found)
  {
    var steps := init + [step];
    assert steps[|init|] == step;
    if LoggedIn(init, h, found) {
      var i :| 0 <= i < |init| && init[i] == Start(h, found.id, found.userId, found.createdAt);
      assert steps[i] == init[i];
    }
  }

  /** Every stored session is that of a login: of the user who logged in, from the time of it. */
  lemma {:induction false} SessionsComeFromLogins(clock: int, steps: seq<Step>, h: Hash)
    ensures var s := After(Begin(clock), steps);
            h in s.table ==> LoggedIn(steps, h, s.table[h])
  {
    if steps == [] {
    } else {
      var init, step := steps[..|steps| - 1], steps[|steps| - 1];
      SessionsComeFromLogins(clock, init, h);
      assert steps == init + [step];
      var s, t := After(Begin(clock), init), After(Begin(clock), steps);
      if h in t.table {
        LoggedInSnoc(init, step, h, t.table[h]);
        if h in s.table {
          LoggedInSnoc(init, step, h, s.table[h]);
        }
      }
    }
  }

  /** Signing out everywhere else keeps the session it is asked from, ends the user's others, and leaves
    * every other user's as it was. */
  lemma OthersAreSignedOut(clock: int, steps: seq<Step>, kept: Hash)
    requires kept in After(Begin(clock), steps).table
    ensures var s := After(Begin(clock), steps);
            var userId, t := s.table[kept].userId, Next(s, Wipe(s.table[kept].userId, s.table[kept].id)).table;
            && (forall h :: h in t <==> h in s.table && (s.table[h].userId != userId || h == kept))
            && (forall h :: h in t ==> t[h] == s.table[h])
  {
    RunInvariant(Begin(clock), steps);
  }

  /** A password reset keeps no session (`keep_id=0`): afterwards none of the user's tokens
    * authenticates, and every other user's session is as it was. */
  lemma ResetSignsOutEverywhere(clock: int, steps: seq<Step>, userId: int)
    ensures var s := After(Begin(clock), steps);
            var t := Next(s, Wipe(userId, 0));
            && (forall h :: h in s.table && s.table[h].userId == userId ==> h !in t.table)
            && (forall h :: h in s.table && s.table[h].userId != userId ==> h in t.table && t.table[h] == s.table[h])
            && t.table.Keys <= s.table.Keys
  {
    RunInvariant(Begin(clock), steps);
  }
}
