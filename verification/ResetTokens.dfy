/** Settings rows and the single-use reset tokens kept in them (src/hookguard_console/store/settings.py,
  * __main__.py and routes/auth.py). Times are unix milliseconds. */
module ResetTokens {
  import opened Wrappers
  import opened Hex
  import opened Text
  import Decimal

  /** The settings table. */
  type Settings = map<string, string>

  const RESET_TOKEN_TTL: int := 3600 * 1000
  const DEFAULT_RETENTION_DAYS: int := 30

  // ---------------------------------------------------------------- the row

  function ResetKey(userId: int): string {
    "pwreset:" + Decimal.Print(userId)
  }

  /** "hex:milliseconds". */
  function ResetRow(digest: seq<byte>, expiresMs: int): string {
    Encode(digest) + ([':'] + Decimal.Print(expiresMs))
  }

  /** What the consumer reads from a row; None when either half does not parse. */
  function ReadRow(row: string): Option<(seq<byte>, int)> {
    var (digestHex, _, expiresRaw) := Partition(row, ':');
    match FromHex(digestHex)
    case None => None
    case Some(digest) =>
      match Decimal.Parse(expiresRaw)
      case None => None
      case Some(expires) => Some((digest, expires))
  }

  /** A row is read back exactly as it was written. */
  lemma RowRoundTrip(digest: seq<byte>, expiresMs: int)
    ensures ReadRow(ResetRow(digest, expiresMs)) == Some((digest, expiresMs))
  {
    EncodeIsHex(digest);
    assert ':' !in Encode(digest);
    assert Encode(digest) + [':'] + Decimal.Print(expiresMs) == ResetRow(digest, expiresMs);
    PartitionOf(Encode(digest), ':', Decimal.Print(expiresMs));
    DecodeEncode(digest);
    Decimal.ParsePrint(expiresMs);
  }

  /** Different users have different rows. */
  lemma ResetKeyInjective(a: int, b: int)
    ensures ResetKey(a) == ResetKey(b) <==> a == b
  {
    if ResetKey(a) == ResetKey(b) {
      assert ResetKey(a)[|"pwreset:"|..] == Decimal.Print(a);
      assert ResetKey(b)[|"pwreset:"|..] == Decimal.Print(b);
      Decimal.ParsePrint(a);
      Decimal.ParsePrint(b);
    }
  }

  // ---------------------------------------------------------------- the operations

  /** `_reset_password`: mint a token whose hash is `digest`. */
  function Mint(settings: Settings, userId: int, digest: seq<byte>, now: int): Settings {
    settings[ResetKey(userId) := ResetRow(digest, now + RESET_TOKEN_TTL)]
  }

  function RowOf(settings: Settings, userId: int): Option<string> {
    if ResetKey(userId) in settings then Some(settings[ResetKey(userId)]) else None
  }

  /** Whether `_consume_reset_token`, having read this row, accepts a token whose hash is `digest`. */
  predicate AcceptsRow(row: Option<string>, digest: seq<byte>, now: int) {
    row.Some? &&
    match ReadRow(row.value)
    case None => false
    case Some((stored, expires)) => now <= expires && digest == stored
  }

  /** Whether it then deletes: it does when the row it read has expired and when it is used. */
  predicate Burns(row: Option<string>, digest: seq<byte>, now: int) {
    row.Some? &&
    match ReadRow(row.value)
    case None => false
    case Some((stored, expires)) => now > expires || digest == stored
  }

  function FinishConsume(row: Option<string>, settings: Settings, userId: int, digest: seq<byte>, now: int): Settings {
    if Burns(row, digest, now) then settings - {ResetKey(userId)} else settings
  }

  predicate Accepts(settings: Settings, userId: int, digest: seq<byte>, now: int) {
    AcceptsRow(RowOf(settings, userId), digest, now)
  }

  function Consume(settings: Settings, userId: int, digest: seq<byte>, now: int): Settings {
    FinishConsume(RowOf(settings, userId), settings, userId, digest, now)
  }

  /** The retention setting: what `int()` reads from its row, or else the default. */
  function RetentionDays(settings: Settings): int {
    if "retention_days" in settings then
      match Decimal.Parse(settings["retention_days"])
      case None => DEFAULT_RETENTION_DAYS
      case Some(days) => days
    else DEFAULT_RETENTION_DAYS
  }

  /** A retention setting is read back as it was set, and a minted reset token does not touch it. */
  lemma RetentionRoundTrip(settings: Settings, days: int, userId: int, digest: seq<byte>, now: int)
    ensures RetentionDays(settings["retention_days" := Decimal.Print(days)]) == days
    ensures RetentionDays(Mint(settings, userId, digest, now)) == RetentionDays(settings)
  {
    Decimal.ParsePrint(days);
    assert ResetKey(userId)[0] != "retention_days"[0];
  }

  /** Without the row, and with one that `int()` does not read, the setting is thirty days. */
  lemma RetentionDefault(settings: Settings)
    ensures "retention_days" !in settings ==> RetentionDays(settings) == 30
    ensures "retention_days" in settings && Decimal.Parse(settings["retention_days"]) == None ==>
              RetentionDays(settings) == 30
  {}

  class SettingsStore {
    var settings: Settings

    constructor ()
      ensures settings == map[]
    {
      settings := map[];
    }

    method GetSetting(key: string) returns (value: Option<string>)
      ensures value == if key in settings then Some(settings[key]) else None
    {
      value := if key in settings then Some(settings[key]) else None;
    }

    method SetSetting(key: string, value: string)
      modifies this
      ensures settings == old(settings)[key := value]
    {
      settings := settings[key := value];
    }

    method DeleteSetting(key: string)
      modifies this
      ensures settings == old(settings) - {key}
    {
      settings := settings - {key};
    }

    /** `get_retention_days`: an absent or unreadable row falls back to the default. */
    method GetRetentionDays() returns (days: int)
      ensures days == RetentionDays(settings)
      ensures "retention_days" !in settings ==> days == 30
      ensures "retention_days" in settings ==>
                match Decimal.Parse(settings["retention_days"])
                case None => days == 30
                case Some(n) => days == n
    {
      var raw := GetSetting("retention_days");
      if raw.None? {
        return DEFAULT_RETENTION_DAYS;
      }
      var parsed := Decimal.Parse(raw.value);
      if parsed.None? {
        return DEFAULT_RETENTION_DAYS;
      }
      return parsed.value;
    }

    /** The row writer of the `reset-password` command. */
    method MintReset(userId: int, tokenHash: seq<byte>, now: int)
      modifies this
      ensures settings == Mint(old(settings), userId, tokenHash, now)
      ensures settings == old(settings)["pwreset:" + Decimal.Print(userId) :=
                                        Encode(tokenHash) + ([':'] + Decimal.Print(now + 3_600_000))]
    {
      var expiresAt := now + RESET_TOKEN_TTL;
      SetSetting(ResetKey(userId), Encode(tokenHash) + ([':'] + Decimal.Print(expiresAt)));
    }

    /** `_consume_reset_token`. */
    method ConsumeReset(userId: int, tokenHash: seq<byte>, now: int) returns (accepted: bool)
      modifies this
      ensures accepted == Accepts(old(settings), userId, tokenHash, now)
      ensures settings == Consume(old(settings), userId, tokenHash, now)
    {
      var stored := GetSetting(ResetKey(userId));
      accepted := JudgeReset(stored, userId, tokenHash, now);
    }

    /** The rest of it, once the row is read; another process may have written in between. */
    method JudgeReset(stored: Option<string>, userId: int, tokenHash: seq<byte>, now: int) returns (accepted: bool)
      modifies this
      ensures accepted == AcceptsRow(stored, tokenHash, now)
      ensures settings == FinishConsume(stored, old(settings), userId, tokenHash, now)
    {
      if stored.None? {
        return false;
      }
      var row := ReadRow(stored.value);
      if row.None? {
        return false;
      }
      if now > row.value.1 {
        DeleteSetting(ResetKey(userId));
        return false;
      }
      if tokenHash != row.value.0 {
        return false;
      }
      DeleteSetting(ResetKey(userId));
      return true;
    }
  }

  // ---------------------------------------------------------------- runs

  datatype Step =
    | Minted(userId: int, digest: seq<byte>, now: int)
    | Tried(userId: int, digest: seq<byte>, now: int)
    | OtherSetting(key: string, value: string)

  ghost predicate IsResetKey(key: string) {
    exists userId :: key == ResetKey(userId)
  }

  /** The other writers of the table leave the reset rows alone. */
  ghost function Next(settings: Settings, step: Step): Settings {
    match step
    case Minted(userId, digest, now) => Mint(settings, userId, digest, now)
    case Tried(userId, digest, now) => Consume(settings, userId, digest, now)
    case OtherSetting(key, value) => if IsResetKey(key) then settings else settings[key := value]
  }

  ghost function After(settings: Settings, steps: seq<Step>): Settings {
    if steps == [] then settings else Next(After(settings, steps[..|steps| - 1]), steps[|steps| - 1])
  }

  ghost predicate NoResets(settings: Settings) {
    forall userId :: ResetKey(userId) !in settings
  }

  /** Step `k` is an accepted attempt. */
  ghost predicate AcceptedAt(settings: Settings, steps: seq<Step>, k: nat) {
    k < |steps| && steps[k].Tried?
    && Accepts(After(settings, steps[..k]), steps[k].userId, steps[k].digest, steps[k].now)
  }

  /** This step leaves a token of `userId` with this digest, minted at `t`, as it is. */
  ghost predicate Spares(step: Step, userId: int, digest: seq<byte>, t: int) {
    && !(step.Minted? && step.userId == userId)
    && (step.Tried? && step.userId == userId ==> step.now <= t + RESET_TOKEN_TTL && step.digest != digest)
  }

  /** The token was minted at step `i`, and since then neither replaced, nor used, nor tried late. */
  ghost predicate LiveSince(steps: seq<Step>, i: nat, userId: int, digest: seq<byte>, t: int) {
    && i < |steps| && steps[i] == Minted(userId, digest, t)
    && forall j :: i < j < |steps| ==> Spares(steps[j], userId, digest, t)
  }

  ghost predicate IsLive(steps: seq<Step>, userId: int, digest: seq<byte>, t: int) {
    exists i: nat :: LiveSince(steps, i, userId, digest, t)
  }

  /** The user's row holds this token. */
  ghost predicate Holds(settings: Settings, userId: int, digest: seq<byte>, t: int) {
    ResetKey(userId) in settings && settings[ResetKey(userId)] == ResetRow(digest, t + RESET_TOKEN_TTL)
  }

  lemma IsLiveSnoc(init: seq<Step>, step: Step, userId: int, digest: seq<byte>, t: int)
    ensures IsLive(init + [step], userId, digest, t) <==>
            step == Minted(userId, digest, t)
            || (IsLive(init, userId, digest, t) && Spares(step, userId, digest, t))
  {
    var steps := init + [step];
    if IsLive(steps, userId, digest, t) {
      var i: nat :| LiveSince(steps, i, userId, digest, t);
      if i < |init| {
        assert Spares(steps[|init|], userId, digest, t);
        assert forall j :: i < j < |init| ==> steps[j] == init[j];
        assert LiveSince(init, i, userId, digest, t);
      }
    }
    if step == Minted(userId, digest, t) {
      assert LiveSince(steps, |init|, userId, digest, t);
    } else if IsLive(init, userId, digest, t) && Spares(step, userId, digest, t) {
      var i: nat :| LiveSince(init, i, userId, digest, t);
      assert LiveSince(steps, i, userId, digest, t);
    }
  }

  lemma RowInjective(d1: seq<byte>, t1: int, d2: seq<byte>, t2: int)
    requires ResetRow(d1, t1) == ResetRow(d2, t2)
    ensures d1 == d2 && t1 == t2
  {
    RowRoundTrip(d1, t1);
    RowRoundTrip(d2, t2);
  }

  lemma MintHolds(settings: Settings, u: int, d: seq<byte>, now: int, userId: int, digest: seq<byte>, t: int)
    ensures Holds(Mint(settings, u, d, now), userId, digest, t)
            <==> if u == userId then d == digest && now == t else Holds(settings, userId, digest, t)
  {
    ResetKeyInjective(u, userId);
    if u == userId && Holds(Mint(settings, u, d, now), userId, digest, t) {
      RowInjective(d, now + RESET_TOKEN_TTL, digest, t + RESET_TOKEN_TTL);
    }
  }

  lemma TriedHolds(settings: Settings, u: int, tried: seq<byte>, now: int, userId: int, digest: seq<byte>, t: int)
    ensures Holds(Consume(settings, u, tried, now), userId, digest, t)
            <==> Holds(settings, userId, digest, t) && (u == userId ==> now <= t + RESET_TOKEN_TTL && tried != digest)
  {
    ResetKeyInjective(u, userId);
    RowRoundTrip(digest, t + RESET_TOKEN_TTL);
  }

  /** The row of a user holds a token exactly while the token is live. */
  lemma {:induction false} RowHoldsTheLiveToken(settings: Settings, steps: seq<Step>, userId: int,
        digest: seq<byte>, t: int)
    requires NoResets(settings)
    ensures Holds(After(settings, steps), userId, digest, t) <==> IsLive(steps, userId, digest, t)
  {
    if steps == [] {
      assert !IsLive(steps, userId, digest, t);
    } else {
      var init, step := steps[..|steps| - 1], steps[|steps| - 1];
      var before := After(settings, init);
      assert steps == init + [step];
      RowHoldsTheLiveToken(settings, init, userId, digest, t);
      IsLiveSnoc(init, step, userId, digest, t);
      match step
      case Minted(u, d, now) =>
        MintHolds(before, u, d, now, userId, digest, t);
      case Tried(u, d, now) =>
        TriedHolds(before, u, d, now, userId, digest, t);
      case OtherSetting(key, value) =>
        assert IsResetKey(ResetKey(userId));
    }
  }

  lemma {:induction false} RowsAreWellFormed(settings: Settings, steps: seq<Step>, userId: int)
    requires NoResets(settings)
    ensures ResetKey(userId) in After(settings, steps) ==>
              exists digest, t :: Holds(After(settings, steps), userId, digest, t)
  {
    if steps == [] {
    } else {
      var init, step := steps[..|steps| - 1], steps[|steps| - 1];
      var before := After(settings, init);
      RowsAreWellFormed(settings, init, userId);
      match step
      case Minted(u, d, now) =>
        ResetKeyInjective(u, userId);
        if u == userId {
          assert Holds(Mint(before, u, d, now), userId, d, now);
        } else if ResetKey(userId) in before {
          var digest, t :| Holds(before, userId, digest, t);
          assert Holds(Mint(before, u, d, now), userId, digest, t);
        }
      case Tried(u, d, now) =>
        if ResetKey(userId) in Consume(before, u, d, now) {
          var digest, t :| Holds(before, userId, digest, t);
          assert Holds(Consume(before, u, d, now), userId, digest, t);
        }
      case OtherSetting(key, value) =>
        assert IsResetKey(ResetKey(userId));
        if ResetKey(userId) in before {
          var digest, t :| Holds(before, userId, digest, t);
          assert Holds(Next(before, step), userId, digest, t);
        }
    }
  }

  lemma AcceptsHeld(settings: Settings, userId: int, digest: seq<byte>, now: int, stored: seq<byte>, t: int)
    requires Holds(settings, userId, stored, t)
    ensures Accepts(settings, userId, digest, now) <==> digest == stored && now <= t + RESET_TOKEN_TTL
  {
    RowRoundTrip(stored, t + RESET_TOKEN_TTL);
  }

  /** The token tried at step `k` is live and has not expired. */
  ghost predicate TriedInTime(steps: seq<Step>, k: nat, t: int)
    requires k < |steps| && steps[k].Tried?
  {
    IsLive(steps[..k], steps[k].userId, steps[k].digest, t) && steps[k].now <= t + RESET_TOKEN_TTL
  }

  /** In every run, an attempt is accepted exactly when its token was minted for that user, has not
    * been replaced by a newer mint, used, or tried after its expiry, and has not expired. */
  lemma AcceptedIffLive(settings: Settings, steps: seq<Step>, k: nat)
    requires NoResets(settings) && k < |steps| && steps[k].Tried?
    ensures AcceptedAt(settings, steps, k) <==> exists t :: TriedInTime(steps, k, t)
  {
    var userId, digest, now := steps[k].userId, steps[k].digest, steps[k].now;
    var before := After(settings, steps[..k]);
    if AcceptedAt(settings, steps, k) {
      RowsAreWellFormed(settings, steps[..k], userId);
      var stored, t :| Holds(before, userId, stored, t);
      AcceptsHeld(before, userId, digest, now, stored, t);
      RowHoldsTheLiveToken(settings, steps[..k], userId, digest, t);
      assert TriedInTime(steps, k, t);
    }
    if exists t :: TriedInTime(steps, k, t) {
      var t :| TriedInTime(steps, k, t);
      RowHoldsTheLiveToken(settings, steps[..k], userId, digest, t);
      AcceptsHeld(before, userId, digest, now, digest, t);
    }
  }

  /** The mint an accepted attempt goes back to. */
  lemma MintOf(settings: Settings, steps: seq<Step>, k: nat) returns (i: nat, t: int)
    requires NoResets(settings) && AcceptedAt(settings, steps, k)
    ensures i < k && steps[i] == Minted(steps[k].userId, steps[k].digest, t)
    ensures forall j :: i < j < k ==> Spares(steps[j], steps[k].userId, steps[k].digest, t)
    ensures steps[k].now <= t + RESET_TOKEN_TTL
  {
    AcceptedIffLive(settings, steps, k);
    t :| TriedInTime(steps, k, t);
    i :| LiveSince(steps[..k], i, steps[k].userId, steps[k].digest, t);
    assert forall j :: 0 <= j < k ==> steps[..k][j] == steps[j];
  }

  /** Two accepted attempts with one token have that very token minted again between them; so a
    * token, minted once, is accepted at most once. */
  lemma AcceptedAtMostOnce(settings: Settings, steps: seq<Step>, k1: nat, k2: nat)
    requires NoResets(settings) && k1 < k2 && AcceptedAt(settings, steps, k1) && AcceptedAt(settings, steps, k2)
    requires steps[k1].userId == steps[k2].userId && steps[k1].digest == steps[k2].digest
    ensures exists i :: k1 < i < k2 && steps[i].Minted? && steps[i].userId == steps[k2].userId
                        && steps[i].digest == steps[k2].digest
  {
    var i, t := MintOf(settings, steps, k2);
    assert !Spares(steps[k1], steps[k2].userId, steps[k2].digest, t);
    assert k1 < i < k2;
  }

  /** After a newer mint for the same user no older token is accepted: an attempt after it is accepted
    * only for that mint or a later one, and within its lifetime. */
  lemma NeverAfterANewerMint(settings: Settings, steps: seq<Step>, m: nat, k: nat)
    requires NoResets(settings) && m < k && AcceptedAt(settings, steps, k)
    requires steps[m].Minted? && steps[m].userId == steps[k].userId
    ensures exists i :: m <= i < k && steps[i].Minted? && steps[i].userId == steps[k].userId
                        && steps[i].digest == steps[k].digest && steps[k].now <= steps[i].now + RESET_TOKEN_TTL
  {
    var i, t := MintOf(settings, steps, k);
    assert !Spares(steps[m], steps[k].userId, steps[k].digest, t);
    assert m <= i < k;
  }

  /** A freshly minted token works once, until its expiry, and then no more. */
  lemma FreshTokenWorksOnce(settings: Settings, userId: int, digest: seq<byte>, t: int, now: int, later: int)
    requires NoResets(settings)
    ensures var steps := [Minted(userId, digest, t), Tried(userId, digest, now), Tried(userId, digest, later)];
            && (AcceptedAt(settings, steps, 1) <==> now <= t + RESET_TOKEN_TTL)
            && !AcceptedAt(settings, steps, 2)
  {
    var steps := [Minted(userId, digest, t), Tried(userId, digest, now), Tried(userId, digest, later)];
    assert steps[..1][..0] == [] && steps[..2][..1] == steps[..1];
    var minted := After(settings, steps[..1]);
    assert Holds(minted, userId, digest, t);
    AcceptsHeld(minted, userId, digest, now, digest, t);
    RowRoundTrip(digest, t + RESET_TOKEN_TTL);
    assert ResetKey(userId) !in After(settings, steps[..2]);
  }

  // ---------------------------------------------------------------- a mint between read and delete

  /** A token that an attempt at `now` with `digest` burns when it finds it: its own, or an expired one. */
  ghost predicate BurntWhenRead(steps: seq<Step>, userId: int, digest: seq<byte>, now: int, live: seq<byte>, t: int) {
    IsLive(steps, userId, live, t) && (now > t + RESET_TOKEN_TTL || digest == live)
  }

  lemma BurnsHeld(settings: Settings, userId: int, digest: seq<byte>, now: int, stored: seq<byte>, t: int)
    requires Holds(settings, userId, stored, t)
    ensures Burns(RowOf(settings, userId), digest, now) <==> now > t + RESET_TOKEN_TTL || digest == stored
  {
    RowRoundTrip(stored, t + RESET_TOKEN_TTL);
  }

  lemma BurnsIff(settings: Settings, steps: seq<Step>, userId: int, digest: seq<byte>, now: int)
    requires NoResets(settings)
    ensures Burns(RowOf(After(settings, steps), userId), digest, now)
            <==> exists live, t :: BurntWhenRead(steps, userId, digest, now, live, t)
  {
    var read := After(settings, steps);
    if Burns(RowOf(read, userId), digest, now) {
      RowsAreWellFormed(settings, steps, userId);
      var live, t :| Holds(read, userId, live, t);
      RowHoldsTheLiveToken(settings, steps, userId, live, t);
      BurnsHeld(read, userId, digest, now, live, t);
      assert BurntWhenRead(steps, userId, digest, now, live, t);
    }
    if exists live, t :: BurntWhenRead(steps, userId, digest, now, live, t) {
      var live, t :| BurntWhenRead(steps, userId, digest, now, live, t);
      RowHoldsTheLiveToken(settings, steps, userId, live, t);
      BurnsHeld(read, userId, digest, now, live, t);
    }
  }

  /** The token is live after these steps, and not expired at `now`. */
  ghost predicate LiveInTime(steps: seq<Step>, userId: int, digest: seq<byte>, t: int, now: int) {
    IsLive(steps, userId, digest, t) && now <= t + RESET_TOKEN_TTL
  }

  /** An attempt reads the row after `steps`, and deletes after `between`, in which the command line may
    * have minted. It is accepted iff its token was live at the read, replaced since or not. A newer
    * token then in the row is lost iff the token live at the read was the attempted one or had
    * expired. */
  lemma RacedAttempt(settings: Settings, steps: seq<Step>, between: seq<Step>, userId: int, digest: seq<byte>, now: int,
                     newer: seq<byte>, t2: int)
    requires NoResets(settings) && IsLive(steps + between, userId, newer, t2)
    ensures var read := RowOf(After(settings, steps), userId);
            var left := FinishConsume(read, After(settings, steps + between), userId, digest, now);
            && (AcceptsRow(read, digest, now) <==> exists t :: LiveInTime(steps, userId, digest, t, now))
            && (Holds(left, userId, newer, t2)
                <==> !exists live, t :: BurntWhenRead(steps, userId, digest, now, live, t))
  {
    BurnsIff(settings, steps, userId, digest, now);
    RowHoldsTheLiveToken(settings, steps + between, userId, newer, t2);
    RacedIsAcceptedIff(settings, steps, userId, digest, now);
  }

  lemma RacedIsAcceptedIff(settings: Settings, steps: seq<Step>, userId: int, digest: seq<byte>, now: int)
    requires NoResets(settings)
    ensures AcceptsRow(RowOf(After(settings, steps), userId), digest, now)
            <==> exists t :: LiveInTime(steps, userId, digest, t, now)
  {
    var run := steps + [Tried(userId, digest, now)];
    assert run[..|steps|] == steps;
    AcceptedIffLive(settings, run, |steps|);
    assert forall t :: TriedInTime(run, |steps|, t) <==> LiveInTime(steps, userId, digest, t, now);
  }

  /** So a replaced token is accepted, and the token that replaced it is not. */
  lemma RacedMintIsLost(settings: Settings, userId: int, older: seq<byte>, t1: int, newer: seq<byte>, t2: int,
                        now: int, later: int)
    requires NoResets(settings) && now <= t1 + RESET_TOKEN_TTL
    ensures var read := RowOf(Mint(settings, userId, older, t1), userId);
            var minted := Mint(Mint(settings, userId, older, t1), userId, newer, t2);
            && AcceptsRow(read, older, now)
            && !Accepts(FinishConsume(read, minted, userId, older, now), userId, newer, later)
  {
    assert Holds(Mint(settings, userId, older, t1), userId, older, t1);
    AcceptsHeld(Mint(settings, userId, older, t1), userId, older, now, older, t1);
    BurnsHeld(Mint(settings, userId, older, t1), userId, older, now, older, t1);
  }
}
