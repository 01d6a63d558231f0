/** The retention sweep (src/hookguard_console/retention.py). */
module Retention {
  import Decimal
  import opened EventStore
  import opened ResetTokens

  const DAY_MS: int := 24 * 3600 * 1000

  /** `sweep`: reads the setting on every call, deletes the rows older than its window, and leaves the
    * rollups and the settings alone. */
  method Sweep(store: Store, settings: SettingsStore, nowMs: int) returns (deleted: int)
    requires store.IsValid()
    modifies store`events
    ensures store.IsValid()
    ensures store.events == Keep(old(store.events), nowMs - RetentionDays(settings.settings) * DAY_MS)
    ensures forall r :: r in store.events <==>
              r in old(store.events) && r.event.receivedAt >= nowMs - RetentionDays(settings.settings) * DAY_MS
    ensures deleted == |old(store.events)| - |store.events|
    // Without the setting, or with an unreadable one, the last thirty days stay.
    ensures "retention_days" !in settings.settings || Decimal.Parse(settings.settings["retention_days"]).None? ==>
              forall r :: r in store.events <==>
                          r in old(store.events) && r.event.receivedAt >= nowMs - 30 * 24 * 3600 * 1000
  {
    RetentionDefault(settings.settings);
    var days := settings.GetRetentionDays();
    var cutoff := nowMs - days * DAY_MS;
    deleted := store.DeleteEventsOlderThan(cutoff);
  }
}
