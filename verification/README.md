# HookGuard: a Dafny model

HookGuard is a webhook gateway and a console. The gateway verifies the signature of each webhook,
forwards the body upstream under one signature of its own, and reports each verdict to the console.
The console stores the verdicts, counts them by hour, shows them, and guards its own pages with
sessions, a rate limiter and reset links.

This project models the parts that hold state or parse text, one module a component, and proves
what they promise over every input and every run.

| file | component |
|---|---|
| `GoDuration.dfy`, `DurationValues.dfy`, `Decimal.dfy` | the Go-duration scanner, its grammar, what it reads in figures, and microsecond truncation |
| `Hex.dfy`, `GatewaySig.dfy` | strict hex, and the gateway's HMAC over "provider.body" |
| `Stripe.dfy`, `Text.dfy`, `Floats.dfy` | the Stripe header parser and verifier |
| `Gateway.dfy` | body buffering, the route handler, and the upstream's check |
| `DropOldest.dfy`, `Emitter.dfy`, `Batcher.dfy` | the bounded queues, their consumers, and shutdown |
| `Models.dfy`, `Rollups.dfy`, `EventStore.dfy` | the event tables and the statements that write and read them |
| `Retention.dfy` | the retention sweep |
| `Pipeline.dfy` | enqueues, drains, overlapping batches, failing writes and sweeps as one state machine |
| `Delivery.dfy` | where every enqueued event is in such a run, and what `flush` waits for |
| `Dashboard.dfy`, `Latency.dfy` | the three window aggregates and the median latency |
| `RateLimit.dfy` | the sliding log of hits per key |
| `Like.dfy`, `Logs.dfy` | LIKE escaping, the two log filters, and the polling tail |
| `Sessions.dfy` | session expiry, lazy last-seen writes, revocation |
| `ResetTokens.dfy` | settings rows and single-use reset tokens |

Conventions. The MAC, `int()` on a Stripe timestamp, a route's verifier and an upstream's reply are
function parameters, so each result holds for every choice of them. Times are whole milliseconds or
microseconds. A provider name is its UTF-8 bytes. A table is a sequence of rows or a map by its unique
key, with only the semantics the code uses: highest-id-plus-one ids, upsert-add, delete by predicate,
order and limit. A batched write takes a `fault`, the row at which the database fails. A run is any
sequence of steps; a step that cannot happen in the current state is skipped.

Where the code and its documentation part, the model follows the code:

- The rate limiter is documented as a fixed window that admits a burst across a boundary
  (src/hookguard_console/auth/ratelimit.py:3-12). It keeps hit times and slides: no interval of the
  window's length ever holds more than the limit.
- `insert_events` is documented as one transaction (src/hookguard_console/store/events.py:61-66). The
  connection is in autocommit and no transaction is begun, so a failed batch keeps its first rows, and
  no rollup ever counts them. `Pipeline.RefusedBatchLeavesUncountedRows` gives such a run.
  `Pipeline.AllOrNothingIff` says exactly which batches are all or nothing, and
  `Pipeline.QuietRollupsAgreeIff` that rollups and history agree exactly after runs that split no write.
- `flush` is documented to persist everything enqueued before it (src/hookguard_console/batcher.py:98-106).
  It waits for the batch it drains itself and for no other. `Delivery.FlushReturnsFirst` gives a run in
  which it returns while the ticker still holds the event, and `Delivery.FlushWaitsForAllIff` the exact
  condition: no other batch is on its way at the call.
- The tail's cursor is documented as resting on an autoincrement id
  (src/hookguard_console/store/events.py:182-183). The schema does not say AUTOINCREMENT, so deleting
  the highest row reuses its id. `Logs.SweptNewestHidesTheNext` gives a row the tail never shows, and
  `Logs.NextRowIsReadIff` the exact condition.
- The stream's filter is documented as consistent with the page's
  (src/hookguard_console/routes/logs.py:156-158). It is case-sensitive where the page folds ASCII case,
  and it applies time bounds before 1970, which the page ignores. `Logs.CaseSeparatesThem` and
  `Logs.EarlyBoundSeparatesThem` give such events, `Logs.StreamFitsPage` the exact difference on each
  event, and `Logs.FiltersAgreeIff` the filters for which there is none.
- `parse_go_duration_ns` is documented to raise `GoDurationError` on whatever it refuses
  (src/hookguard_core/goduration.py:64-66). A run of more than 4300 digits makes CPython's `int()`
  raise a plain `ValueError`, also where the value is in range; `GoDuration.LongZeroIsRefused` gives
  such a text and `GoDuration.IntDigitLimitIff` says exactly which texts fail so.

## Model

| member | source | states |
|---|---|---|
| GoDuration.ParseGoDurationNs | src/hookguard_core/goduration.py:56-117 | the whole parser, sign and special cases included, computes `Parse`; the range check after the loop never fires |
| GoDuration.ScanLoop | src/hookguard_core/goduration.py:84-112 | the updating loop computes `ScanAll`, piece by piece, with every refusal in the loop's order, and never leaves a total above int64 |
| GoDuration.ScanPiece | src/hookguard_core/goduration.py:86-102 | an accepted turn reads a well-formed number and strictly shortens the text |
| GoDuration.ScanPieceText | src/hookguard_core/goduration.py:86-102 | what a turn takes and what it leaves make up the text it was given |
| GoDuration.ScanPieceOf | src/hookguard_core/goduration.py:86-102 | every well-formed piece is read back whole, whatever piece follows |
| GoDuration.FirstMatchIsMaximal | src/hookguard_core/goduration.py:45-46 | the longest-first scan finds the whole unit, so "ms" is never "m" and a stray "s" |
| GoDuration.EveryUnitIsAWholeRun | src/hookguard_core/goduration.py:95-102 | in every spelled text each matched unit is the whole run up to the next digit, dot or end |
| GoDuration.UniqueDecomposition | src/hookguard_core/goduration.py:84-102 | a text is spelled by at most one sequence of (number, unit) pieces |
| GoDuration.ScanAllOf | src/hookguard_core/goduration.py:104-112 | on spelled text the early overflow exit equals one check of the final sum |
| GoDuration.ParseOfSpelled | src/hookguard_core/goduration.py:71-117 | on spelled text the result is the signed sum of whole * scale + floor(frac * scale / 10^len), or overflow; an unconvertible digit run is refused |
| GoDuration.ParseMeaning | src/hookguard_core/goduration.py:56-117 | the parser returns n iff the text is a sign and "0", or a sign and one or more pieces of magnitude at most 2^63-1 whose signed sum is n |
| GoDuration.IntDigitLimitIff | src/hookguard_core/goduration.py:64-66 | the parser fails with the plain ValueError iff the text is a sign, convertible pieces within range, a piece with a digit run too long for `int()`, and anything after it |
| GoDuration.SpelledFailsIffUnconvertible | src/hookguard_core/goduration.py:104-109 | a spelled text in range is parsed iff every digit run fits `int()`, and otherwise fails with the plain ValueError |
| GoDuration.LongZeroIsRefused | src/hookguard_core/goduration.py:104-109 | 4301 zeros and "s" spell zero seconds and fail with the plain ValueError |
| GoDuration.TruncationTowardZero | src/hookguard_core/goduration.py:127-131 | truncation keeps the sign, loses less than a microsecond, and is positive exactly from one microsecond up |
| DurationValues.WholeUnits | src/hookguard_core/goduration.py:34-43 | n of each unit, under each of its eight names and any sign, is so many nanoseconds, and an overflow from 2^63 on |
| DurationValues.FractionIsRoundedDown | src/hookguard_core/goduration.py:104-109 | "w.f" of a unit is the number wf times the unit over 1 and as many zeros as f has digits, rounded down |
| DurationValues.TrailingZero | src/hookguard_core/goduration.py:106-109 | a zero at the end of a fraction changes nothing |
| DurationValues.PartsAddUp | src/hookguard_core/goduration.py:84-112 | two durations written one after the other denote their sum, or overflow |
| DurationValues.HalfHours | src/hookguard_core/goduration.py:104-109 | "n.5h", 60n+30 minutes and 3600n+1800 seconds are read alike |
| DurationValues.RefusalsAreNamed | src/hookguard_core/goduration.py:80-100 | nothing or a bare sign, a missing unit, an unknown unit and a text without a number have each their own message |
| Decimal.ValueAppend | src/hookguard_core/goduration.py:105-109 | digits read on weigh the earlier ones by 1 and as many zeros |
| Decimal.PowerIsOneAndZeros | src/hookguard_core/goduration.py:109-109 | the divisor of a fraction is the number written as 1 and so many zeros |
| Hex.EncodedDigits | src/hookguard_core/gatewaysig.py:42-44 | two lower-case digits a byte, the high four bits first |
| Hex.DecodeEncode | src/hookguard_core/stricthex.py:22-31 | encoding then decoding gives the bytes back |
| Hex.EncodeDecode | src/hookguard_core/stricthex.py:22-31 | decoding then encoding restores a strict hex string up to letter case |
| Hex.DecodesIffHex | src/hookguard_core/stricthex.py:17-31 | exactly the even-length runs of hex digits decode |
| Hex.SpaceBetweenPairs | src/hookguard_core/stricthex.py:3-4 | the library decoder skips any ASCII whitespace between pairs |
| Hex.LenientIsNotStrict | src/hookguard_core/stricthex.py:3-8 | the whitespace the library decoder skips is refused by the strict one |
| GatewaySig.ComputeMac | src/hookguard_core/gatewaysig.py:65-70 | three updates feed the MAC exactly "provider.body" |
| GatewaySig.VerifyMeaning | src/hookguard_core/gatewaysig.py:42-62 | a hex string is accepted iff it decodes to the MAC of provider, 0x2E and body, and is a mismatch otherwise |
| GatewaySig.VerifiesIffSigned | src/hookguard_core/gatewaysig.py:47-62 | a signature verifies iff, up to letter case, it is the one `sign` makes; an encoding error is exactly a non-hex string |
| GatewaySig.SignedVerifies | src/hookguard_core/gatewaysig.py:42-62 | what is signed verifies |
| GatewaySig.SamePreimage | src/hookguard_core/gatewaysig.py:65-70 | two (provider, body) pairs share a preimage iff they are equal or a dot shifted between provider and body |
| GatewaySig.PreimageInjective | src/hookguard_core/gatewaysig.py:4-7 | for dot-free provider names the preimage determines provider and body |
| GatewaySig.TransferIff | src/hookguard_core/gatewaysig.py:42-62 | barring a collision on the two preimages, a signature moves to another pair exactly when they share a preimage |
| GatewaySig.TamperingIsRefused | src/hookguard_core/gatewaysig.py:4-7 | between dot-free names, relabelling the provider or altering the body is a mismatch |
| GatewaySig.DottedNameRelabels | src/hookguard_core/gatewaysig.py:65-70 | with a dotted name a relabelled payload verifies |
| Stripe.ParseHeaderLoop | src/hookguard_gateway/providers/stripe.py:85-101 | the parsing loop computes `ParseHeader` |
| Stripe.TakeAllMeaning | src/hookguard_gateway/providers/stripe.py:91-101 | the parsed timestamp is that of the last `t` part and the signatures are exactly the `v1` values present |
| Stripe.IgnoredPart | src/hookguard_gateway/providers/stripe.py:88-100 | a part that is neither `t` nor `v1`, or has no "=", changes nothing between others, first, last or alone |
| Stripe.SpaceAroundAPart | src/hookguard_gateway/providers/stripe.py:94-94 | spaces around a part change nothing |
| Stripe.ParsePrint | src/hookguard_gateway/providers/stripe.py:85-101 | parsing "t=T,v1=S1,...,v1=Sn" gives T and S1..Sn in order, for comma-free values without trailing whitespace |
| Stripe.VerifyLoop | src/hookguard_gateway/providers/stripe.py:44-82 | the verifier, with its early-return loop over candidates, computes `Verify` with every refusal reason |
| Stripe.AcceptsIffAuthentic | src/hookguard_gateway/providers/stripe.py:44-82 | it accepts iff the last `t` parses, lies in the window, and some `v1` strictly decodes to the MAC of "t.body" |
| Stripe.MissingHeaderIff | src/hookguard_gateway/providers/stripe.py:45-47 | the header is called missing iff it is absent or empty |
| Stripe.VerdictIff | src/hookguard_gateway/providers/stripe.py:49-82 | for any other header, the one verdict in each case: which refusal, which exception, or acceptance |
| Stripe.SignedHeaderIsAccepted | src/hookguard_gateway/providers/stripe.py:65-82 | "t=T,v1=HEX" with the hex MAC of T's characters, 0x2E and the body is accepted while T is within the window |
| Stripe.BuildIsChecked | src/hookguard_gateway/providers/stripe.py:28-36 | an empty secret is an error whatever the window; no window is a window of zero |
| Stripe.NoWindowNoClock | src/hookguard_gateway/providers/stripe.py:33-33 | without a window the verdict does not depend on the clock |
| Stripe.VerdictDependsOn | src/hookguard_gateway/providers/stripe.py:72-82 | the verdict depends only on the last timestamp and the set of signatures present |
| Floats.FloatOverflowIs | src/hookguard_gateway/providers/stripe.py:59-59 | an integer overflows the float subtraction from 2^1024 - 2^970 on |
| Stripe.WindowIsChecked | src/hookguard_gateway/providers/stripe.py:28-36 | a configured window of ns nanoseconds is checked iff ns is at least 1000, against ns / 1000 microseconds; a timestamp too large for a float raises there |
| Stripe.MalformedWindowIsAnError | src/hookguard_gateway/providers/stripe.py:32-35 | a verifier is built for a non-empty replay window iff that is a duration |
| Gateway.ReadCappedBody | src/hookguard_gateway/app.py:171-185 | for any chunking, the concatenation, or nothing when it exceeds the cap |
| Gateway.Handle | src/hookguard_gateway/app.py:140-214 | it forwards iff the body is within the cap and verified, forwards exactly the concatenation under a signature the upstream accepts, and records one event a verdict |
| Gateway.StripeRoutePasses | src/hookguard_gateway/app.py:147-161 | a Stripe route passes a body on iff its header authenticates exactly that body |
| Gateway.HandleStripe | src/hookguard_gateway/app.py:140-165 | a Stripe webhook is forwarded, once and unaltered, iff its body is within the cap and its header authenticates it, and then the upstream accepts it and its answer is relayed; too large a body is a 413 without a record; any other body is a 401 with one rejected event, except exactly where the verifier raises |
| Gateway.UpstreamBindsProviderAndBody | src/hookguard_gateway/upstream.py:40-52 | barring a collision, the upstream accepts a forwarded signature on no other pair of a dot-free provider and a body |
| DropOldest.RunValid | src/hookguard_console/batcher.py:81-96 | after any run the queue is a suffix of what was enqueued, within the bound, and dropped + taken + queued = enqueued |
| DropOldest.DroppedIffOvertaken | src/hookguard_gateway/emitter.py:167-185 | the i-th item out is the i-th in, and any item has been dropped iff it was still queued when item i + cap arrived |
| DropOldest.UnboundedDropsNothing | src/hookguard_console/batcher.py:81-96 | a queue without a bound drops nothing |
| DropOldest.AsyncQueue.PutNowait | src/hookguard_console/batcher.py:83-87 | appends unless the queue is full, and then changes nothing |
| DropOldest.AsyncQueue.GetNowait | src/hookguard_console/batcher.py:88-92 | takes the oldest item, or reports an empty queue |
| Emitter.EventEmitter.Emit | src/hookguard_gateway/emitter.py:167-185 | one drop-oldest enqueue; the second put cannot fail |
| Emitter.EventEmitter.Record | src/hookguard_gateway/emitter.py:134-165 | a disabled emitter enqueues nothing |
| Emitter.RunInvariant | src/hookguard_gateway/emitter.py:187-207 | in every interleaving, the posts and the held item are exactly the items taken, in order |
| Emitter.ShutdownLosesNothing | src/hookguard_gateway/emitter.py:115-132 | when shutdown returns, every event enqueued before it was posted once, in order, or dropped by overflow |
| Emitter.EnqueuedBeforeStopHasLeft | src/hookguard_gateway/emitter.py:115-132 | the events enqueued before shutdown was first asked for are the first to have left, once each and in order |
| Emitter.StoppingTaskFinishes | src/hookguard_gateway/emitter.py:187-207 | a stopping loop is never stuck, and with no further enqueues every step it can take brings it closer to done |
| Batcher.RollupDeltas | src/hookguard_console/batcher.py:39-50 | one positive increment a bucket, counting exactly the batch's events in every selection of buckets |
| Batcher.IngestBatcher.Enqueue | src/hookguard_console/batcher.py:81-96 | one drop-oldest enqueue; `dropped` counts exactly the events given up |
| Batcher.IngestBatcher.Drain | src/hookguard_console/batcher.py:122-128 | returns everything queued, oldest first, and leaves the queue empty |
| Batcher.RunInvariant | src/hookguard_console/batcher.py:108-136 | in every interleaving, the batches end to end are exactly the events taken, in order |
| Batcher.ShutdownLosesNothing | src/hookguard_console/batcher.py:73-79 | when shutdown returns, every event enqueued before it is in exactly one batch or was dropped by overflow |
| Batcher.EnqueuedBeforeStopHasLeft | src/hookguard_console/batcher.py:73-79 | the events enqueued before shutdown was first asked for are the first to have left, once each and in order |
| Batcher.StoppingTickerFinishes | src/hookguard_console/batcher.py:108-120 | a stopping ticker is never stuck, and every step of its own brings it closer to done whatever is enqueued |
| Rollups.SelectedEvents | src/hookguard_console/batcher.py:34-36 | an event falls in a selection by its timestamp in milliseconds, its provider and its verdict |
| Rollups.CountIsSize | src/hookguard_console/batcher.py:39-50 | a count is the number of positions that hold a selected event |
| Rollups.BucketsInOrderSeen | src/hookguard_console/batcher.py:45-50 | increments come in the order in which their buckets are first seen |
| Rollups.AddAllTotal | src/hookguard_console/store/events.py:91-99 | upserting deltas adds exactly their totals, in every selection of buckets |
| Rollups.DeltasTotal | src/hookguard_console/batcher.py:39-50 | a batch's increments count its events, in every selection of buckets |
| EventStore.Store.InsertEvents | src/hookguard_console/store/events.py:60-89 | the rows up to the first refused verdict or database fault are written and stay; success iff all were |
| EventStore.WritesUpToTheFirstRefused | src/hookguard_console/store/migrations/0001_init.sql:43-43 | a batch is written up to the first verdict that is neither "accepted" nor "rejected", or to the fault |
| EventStore.LatestIsHighest | src/hookguard_console/store/events.py:130-136 | the latest id is that of a row, the highest, or 0 |
| EventStore.InsertAllAscending | src/hookguard_console/store/migrations/0001_init.sql:38-50 | new rows take the next ids in order, and the old rows stay |
| EventStore.Store.UpsertRollups | src/hookguard_console/store/events.py:91-99 | the deltas before the fault are added; success iff all were |
| EventStore.Store.DeleteEventsOlderThan | src/hookguard_console/store/events.py:101-108 | exactly the rows from the cutoff on stay, the count is returned, rollups stay |
| EventStore.Store.RollupCount | src/hookguard_console/store/events.py:138-145 | the bucket's total, zero without a row |
| EventStore.NewerFacts | src/hookguard_console/store/events.py:179-189 | the rows above a cursor are the table's tail, in id order |
| Pipeline.RunConserves | src/hookguard_console/batcher.py:130-157 | in every run, whatever fails: rollups + batches between their writes + increments lost to failures = events ever inserted, for every selection |
| Pipeline.RunIsShaped | src/hookguard_console/store/events.py:60-108 | every run keeps ids ascending, one positive rollup row a bucket, known verdicts only, and every row in the history |
| Pipeline.RollupsNeverExceed | src/hookguard_console/batcher.py:138-157 | with any failures, rollups and in-flight counts never exceed the events ever inserted |
| Pipeline.SuccessfulRunAgrees | src/hookguard_console/batcher.py:130-157 | where every write succeeds, a bucket's rollup and the in-flight events in it equal the events ever inserted in it |
| Pipeline.AllOrNothingIff | src/hookguard_console/store/events.py:60-66 | a batch is inserted whole or not at all iff it is empty, the database fails at once, its first verdict is unknown, or every verdict is known and no fault falls within it |
| Pipeline.RunMissesNothingIff | src/hookguard_console/batcher.py:138-157 | a run loses no increment iff every insert is all or nothing and every upsert goes through whole |
| Pipeline.QuietRollupsAgreeIff | src/hookguard_console/store/_base.py:92-110 | with nothing in flight, rollups agree with history in every selection iff the run split no write |
| Pipeline.RefusedBatchLeavesUncountedRows | src/hookguard_console/store/_base.py:121-121 | a batch with an unknown verdict leaves rows that no rollup counts |
| Pipeline.Persist | src/hookguard_console/batcher.py:138-157 | one batch is an insert step and, unless that failed, an upsert step; written whole it adds each event once |
| Delivery.EveryEventIsAccountedFor | src/hookguard_console/batcher.py:81-157 | in every run, whatever fails: each event ever enqueued is queued, dropped by overflow, in a batch on its way, lost to a failed write, or in the rollups |
| Delivery.QuietRollupsCountAllTakenIff | src/hookguard_console/batcher.py:122-157 | with nothing on its way, the rollups count every event taken from the queue, in every selection, iff every write went through whole |
| Delivery.FlushWaitsForAllIff | src/hookguard_console/batcher.py:98-106 | whatever runs beside it and whatever fails, a flush returns with every earlier event in the rollups or lost to a failure iff no other batch is on its way at the call |
| Delivery.FlushCountsAll | src/hookguard_console/batcher.py:98-106 | where that holds and every write succeeds, the rollups then count every event taken by its drain |
| Delivery.FlushReturnsFirst | src/hookguard_console/batcher.py:122-136 | with the ticker between its drain and its write, a flush returns with nothing stored |
| Retention.Sweep | src/hookguard_console/retention.py:31-41 | reads the retention setting, keeps exactly the rows within its window, and changes nothing else; without a readable setting, the last thirty days |
| Dashboard.GroupedTotal | src/hookguard_console/store/events.py:213-217 | each group row holds the total of its members, one row a key |
| Dashboard.SummaryWindow | src/hookguard_console/store/events.py:203-226 | accepted and rejected are the rollup totals of the window's hours, with their exact rate; the median is over rows of the window's first hour and later, and 0 without any |
| Dashboard.SampleAndCounts | src/hookguard_console/store/events.py:203-223 | up to the end of the current hour the median and the counts are about the same rows; later rows enter the median only |
| Dashboard.HourlyCountsWindow | src/hookguard_console/store/events.py:248-271 | exactly `hours` consecutive ascending buckets, each with its hour's split, the columns summing to the summary |
| Dashboard.ProviderStatsWindow | src/hookguard_console/store/events.py:273-295 | each provider's split, absent iff without rows, the providers summing to the summary in any order |
| Dashboard.WindowCountsHistory | src/hookguard_console/store/events.py:203-226 | after a quiet, successful run a window's total counts the events ever inserted in its hours, whatever was swept |
| Dashboard.SummaryCountsAllTraffic | src/hookguard_console/store/events.py:203-226 | accepted plus rejected is every event ever inserted in the hours |
| Dashboard.BucketBounds | src/hookguard_console/batcher.py:34-51 | a bucket counts the events of its hour, provider and verdict |
| Dashboard.WindowBounds | src/hookguard_console/batcher.py:34-36 | an event falls in a window iff its timestamp lies in the window's hours |
| Latency.P50IsLowerMedian | src/hookguard_console/store/events.py:228-246 | the figure is an element with at least ceil(n/2) elements at most it and floor(n/2)+1 at least it |
| Latency.MiddleIndex | src/hookguard_console/store/events.py:242-246 | both parities pick sorted index (n-1)/2 |
| Latency.P50IgnoresOrder | src/hookguard_console/store/events.py:235-242 | the order of the rows within the sample does not matter |
| Latency.P50LatencySince | src/hookguard_console/store/events.py:228-246 | 0 when no row is since then, else the latency of a sample row, with at least half of the sample's rows no slower and more than half no faster |
| Latency.SampleMeaning | src/hookguard_console/store/events.py:235-239 | whatever the query returns is rows since the bound, all of them or as many as the limit, none older than one left out |
| Latency.EligibleAreTheRowsSince | src/hookguard_console/store/events.py:236-236 | the rows the query chooses from are those since the bound, each as often as stored |
| RateLimit.Limiter.Allow | src/hookguard_console/auth/ratelimit.py:33-54 | the answer and the stored hits follow from the key's live hits; a refused attempt stores no hit; with a limit below one, an empty list raises |
| RateLimit.Limiter.Prune | src/hookguard_console/auth/ratelimit.py:56-72 | removes exactly the keys without live hits and counts them |
| RateLimit.PrunedKeys | src/hookguard_console/auth/ratelimit.py:67-72 | a key stays iff it has a hit later than now - window, with its hits as they are |
| RateLimit.AllowedIffFewHits | src/hookguard_console/auth/ratelimit.py:44-54 | an attempt is allowed iff fewer than `max_hits` were allowed in the window before it; only a refusal has a wait, within the window |
| RateLimit.AnswersFromHistory | src/hookguard_console/auth/ratelimit.py:44-54 | with prunes at any time already past, the pruned map refines a limiter that keeps a key's whole history |
| RateLimit.BoundOverEveryWindow | src/hookguard_console/auth/ratelimit.py:25-25 | every interval (a, a+window] holds at most `max_hits` allowed calls of a key |
| RateLimit.InvisibleCallsDoNotMatter | src/hookguard_console/auth/ratelimit.py:40-72 | leaving any set of prunes and refused attempts out of a run changes no later answer on any key |
| RateLimit.RetryAfterIsExact | src/hookguard_console/auth/ratelimit.py:39-50 | after a refusal, attempts before now + retry_after are refused and the first at or after it is allowed |
| Like.EscapeIsPerCharacter | src/hookguard_console/store/_base.py:29-35 | the three sequential replacements are one escape of each character |
| Like.PatternMeansSubstring | src/hookguard_console/store/events.py:160-165 | the escaped pattern matches exactly the texts that literally contain the value, up to ASCII case |
| Like.MetaMeaning | src/hookguard_console/store/events.py:163-168 | "%" matches anything, "_" one character, an escaped or plain character itself up to case |
| Logs.SelectsIff | src/hookguard_console/store/events.py:149-171 | the store's filter means exact match, literal substring and positive time bounds |
| Logs.StreamFitsPage | src/hookguard_console/routes/logs.py:153-170 | for every filter the stream shows exactly what the page selects, less case mismatches and events beyond a bound before 1970 |
| Logs.FiltersAgreeIff | src/hookguard_console/routes/logs.py:153-170 | page and stream agree on every event iff the page's bounds admit none, or reason and path hold no ASCII letter and no bound lies before 1970 |
| Logs.CaseSeparatesThem | src/hookguard_console/routes/logs.py:164-167 | an event the page selects and the stream hides |
| Logs.EarlyBoundSeparatesThem | src/hookguard_console/routes/logs.py:168-170 | an upper bound before 1970 hides from the stream every later event, and nothing from the page |
| Logs.ListedIsNewest | src/hookguard_console/store/events.py:173-177 | the page lists selected rows newest first and leaves one out only when full of newer ones |
| Logs.LogTail.Poll | src/hookguard_console/routes/logs.py:182-195 | one loop turn: the cursor moves to the batch's last id, the frame is the passing rows or a keepalive, as the runs' poll step has it |
| Logs.PassingFacts | src/hookguard_console/routes/logs.py:189-189 | a frame shows exactly the batch's matching rows, in order |
| Logs.ReadsAreIncreasing | src/hookguard_console/routes/logs.py:178-197 | whatever is inserted and swept, the ids a tail reads strictly increase |
| Logs.TailReadsExactlyOnce | src/hookguard_console/routes/logs.py:178-197 | while no sweep deletes the newest row, each row inserted since the connection is read once, waiting, or deleted before the cursor reached it |
| Logs.FramesDeliverThePassing | src/hookguard_console/routes/logs.py:182-195 | in every run the frames, end to end, are exactly the rows read that pass the filter, in order |
| Logs.EachPassingRowIsDelivered | src/hookguard_console/routes/logs.py:178-197 | while no sweep deletes the newest row, each inserted row that passes is delivered once, in id order, or waiting, or deleted first, and nothing else is delivered |
| Logs.NextRowIsReadIff | src/hookguard_console/store/events.py:130-136 | a newly inserted row is ever read by polling iff the highest id has not fallen below the cursor |
| Logs.RowAboveIsPlaced | src/hookguard_console/routes/logs.py:178-197 | such a row is read, waiting, or deleted first, after any steps, whatever sweeps delete |
| Logs.RowAboveIsReadInTime | src/hookguard_console/routes/logs.py:178-197 | with k rows waiting, ceil(k/100) polls read it |
| Logs.RowBelowIsNeverRead | src/hookguard_console/store/events.py:179-189 | a row inserted below the cursor is never read, whatever follows |
| Logs.SweptNewestHidesTheNext | src/hookguard_console/store/migrations/0001_init.sql:38-39 | a sweep of the highest row makes the tail skip the next insert |
| Logs.CatchesUp | src/hookguard_console/store/events.py:179-189 | with k rows waiting, n polls leave max(0, k - 100 n), so ceil(k/100) polls catch up |
| Sessions.SessionStore.Load | src/hookguard_console/middleware.py:84-117 | what a request gets and what it leaves in the table, over every branch |
| Sessions.SessionStore.StartSession | src/hookguard_console/routes/auth.py:68-83 | a fresh row with both limits set from now, or the UNIQUE error for a stored hash |
| Sessions.SessionStore.DeleteSessionsForUserExcept | src/hookguard_console/store/sessions.py:72-76 | removes exactly the user's other sessions and counts them |
| Sessions.AuthenticatedIff | src/hookguard_console/middleware.py:84-117 | in every run a request is authenticated iff its token is stored, its user active, and it comes within thirty days of the login and seven of the last-seen mark |
| Sessions.RequestLeaves | src/hookguard_console/middleware.py:98-105 | active user or not, a lapsed session is deleted, another is marked once its mark is over a minute old, and no other row changes |
| Sessions.SessionsComeFromLogins | src/hookguard_console/routes/auth.py:68-83 | every stored session is that of a login, with its user and time |
| Sessions.OthersAreSignedOut | src/hookguard_console/routes/settings.py:150-152 | a password change keeps the session it is made from, ends the user's others, and leaves everyone else's |
| Sessions.RunInvariant | src/hookguard_console/middleware.py:100-105 | in every run the stored last-seen time trails the last pass by at most the touch interval |
| Sessions.SurvivesGap | src/hookguard_console/middleware.py:98-105 | a session survives gaps up to the idle timeout less a minute, none above it, with the exact condition in between |
| Sessions.ActiveSessionSurvives | src/hookguard_console/middleware.py:84-117 | in any run, with anyone's steps in between, each request of an active user after such gaps and within the absolute cap is authenticated, unless the session is revoked |
| Sessions.SessionStays | src/hookguard_console/middleware.py:84-117 | through such a run the session stays stored, unchanged but for its last-seen time |
| Sessions.NoneOutlivesTheCap | src/hookguard_console/middleware.py:98-102 | no session authenticates past its creation plus the absolute cap |
| Sessions.RefusedForGood | src/hookguard_console/middleware.py:58-61 | once refused for expiry a token never authenticates again |
| Sessions.LapsedIsRefused | src/hookguard_console/middleware.py:98-102 | a request deletes the session it finds exactly when it has lapsed |
| Sessions.ResetSignsOutEverywhere | src/hookguard_console/routes/auth.py:311-313 | a password reset removes all of the user's sessions and no others |
| ResetTokens.RowRoundTrip | src/hookguard_console/routes/auth.py:248-253 | the "hex:milliseconds" row is read back exactly as written |
| ResetTokens.ResetKeyInjective | src/hookguard_console/routes/auth.py:231-232 | different users have different rows |
| ResetTokens.SettingsStore.MintReset | src/hookguard_console/__main__.py:77-82 | writes the user's row with the hash and the expiry |
| ResetTokens.SettingsStore.ConsumeReset | src/hookguard_console/routes/auth.py:235-262 | accepts and deletes as the branches say: gone when expired or used, kept otherwise |
| ResetTokens.SettingsStore.JudgeReset | src/hookguard_console/routes/auth.py:247-262 | the same for a row read earlier: it judges that row, and deletes whichever is there now |
| ResetTokens.RacedAttempt | src/hookguard_console/routes/auth.py:242-262 | with anything written between read and delete: accepted iff the token was live and unexpired at the read, and a newer token's row is lost iff the token live at the read was the attempted one or had expired |
| ResetTokens.RacedMintIsLost | src/hookguard_console/__main__.py:77-82 | a mint between read and delete: the replaced token is accepted and the new one is not |
| ResetTokens.SettingsStore.GetRetentionDays | src/hookguard_console/store/settings.py:35-49 | an absent or unreadable row falls back to the default |
| ResetTokens.RetentionDefault | src/hookguard_console/store/settings.py:42-49 | without the row, or with one that is no integer, thirty days |
| Decimal.OtherTextIsNoInteger | src/hookguard_console/store/settings.py:46-49 | the empty text, and any with a character other than digits, underscores, signs and whitespace, is no integer |
| Decimal.SurroundingSpace | src/hookguard_console/store/settings.py:46-47 | whitespace around an integer changes nothing |
| Decimal.OneUnderscore | src/hookguard_console/store/settings.py:46-47 | one underscore may stand between two digits |
| ResetTokens.RetentionRoundTrip | src/hookguard_console/store/settings.py:35-52 | the retention setting is read back as set, and reset tokens do not disturb it |
| ResetTokens.RowHoldsTheLiveToken | src/hookguard_console/store/settings.py:19-33 | in every run a user's row holds a token exactly while it is minted, not replaced, not used and not tried late |
| ResetTokens.AcceptedIffLive | src/hookguard_console/routes/auth.py:235-262 | an attempt is accepted iff its token is live and unexpired |
| ResetTokens.FreshTokenWorksOnce | src/hookguard_console/routes/auth.py:255-262 | a minted token is accepted within its lifetime, and a second attempt with it is refused |
| ResetTokens.AcceptedAtMostOnce | src/hookguard_console/routes/auth.py:236-241 | two acceptances of one token have it minted again between them |
| ResetTokens.NeverAfterANewerMint | src/hookguard_console/__main__.py:77-82 | after a newer mint only that one or a later one is accepted, within its lifetime |

## Left out

- RateLimit.AnswersFromHistory: the run theorems are about limits that allow at least one hit, as both limits in use do, and a clock that does not run backwards: an attempt's time is no earlier than that of any call before it. A prune's may be, as when logins are served during a sweep.
- Sessions.SessionStore.StartSession: the row id is a parameter, any unused one, which is what the database picks.
- Latency.P50LatencySince: takes the query's answer as a parameter that satisfies its ORDER BY and LIMIT, since rows with equal timestamps may come in any order.
- Batcher.ShutdownLosesNothing: the ticker is the only drainer, as in production; a concurrent `flush` is modelled in the pipeline, not here.
- Emitter.ShutdownLosesNothing: a POST attempt may fail with an HTTP error; any other exception would end the delivery loop.
- ResetTokens.AcceptedIffLive: here an attempt is one step, as it is within the console's process; `RacedAttempt` says what a command-line mint between its read and its delete changes.
- ResetTokens.ReadRow: `int()` reads ASCII text here, whitespace, sign and underscores included; non-ASCII digits and runs of more than 4300 digits are not modelled, and the rows written have neither.
- ResetTokens.SettingsStore.GetRetentionDays: the same holds for the retention setting.
- GoDuration.Parse: digits are ASCII, where the regex also takes other Unicode digits; Go's own rounding of fractions and its lower bound differ and are not compared.
- Stripe.Verify: `int()` on the timestamp is any partial function; clock time and the age of a timestamp are whole microseconds, without a float's rounding.
- HTTP, ASGI, templates, JavaScript, deployment, and the HTTP clients: input and output.
- SHA-256, HMAC, RSA, X.509, Argon2 internals; the PayPal verifier, and the GitHub and Shopify ones, which are simpler than Stripe's.
- SQLite's limits on row ids and pattern length, NUL characters in LIKE operands, timestamp parsing and formatting, float milliseconds, the rounding of the accept rate, and the whole-second Retry-After header.
- EventStore.Writable: the one refusal by content that is modelled is the CHECK on the verdict. A JSON null that ingest lets through (src/hookguard_core/events.py:102-110) is refused by a NOT NULL constraint; here that is the `fault`.
- `classify_reason`, failure-log throttling, endpoint CRUD, the provider catalogue, CSRF and redirect checks: fixed substring tests, field copies and one-branch checks.
