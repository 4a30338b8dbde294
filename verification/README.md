# Digestly in Dafny

Digestly is a self-hosted feed reader. Its hard logic sits in small kernels surrounded by SQL and
HTTP: a cron engine that decides when a digest is due, the digest windows that decide which items it
prints, a scheduler that polls feeds under permits and per-host locks, a registry of "ingest now"
runs, the health of a feed, the storing and purging of items, the clean-up of video captions, OPML
import and export, and the cache of AI summaries with the routes that fill it. This project models
those kernels and proves what they promise, for every input, every history and every interleaving.

Tables are maps or sequences. Clock readings are integers: nanoseconds where the program holds an
instant, whole seconds where it stores text. What the network, the language models, the budget and
the random generator answer is a parameter. Code that works step by step is a method with a loop or
a class whose methods are proved against a specification function; what the program promises is then
proved about that function. Wherever a result can be said in plain figures - civil dates, printed
numbers, days of 86400 seconds, the parameters of a step - it is, rather than through the functions
it is about.

## The modules

| files | kernel |
|---|---|
| `Text.dfy`, `Numerals.dfy`, `Sets.dfy`, `Calendar.dfy` | the pieces of the Rust library and of the proleptic Gregorian calendar that the rest uses |
| `Cron.dfy`, `CronText.dfy`, `CronSearch.dfy`, `CronHorizon.dfy` | the cron parser, what the text of a schedule means, the bounded search for the next run in an arbitrary time zone, and the calendar theorem behind the two-year cap |
| `Digest.dfy` | the window of one digest, grouping, and whole histories of digest runs |
| `Events.dfy`, `EventsTiming.dfy`, `EventBus.dfy` | the registry of ingest runs as a machine, its timing, and the class that implements it |
| `Scheduler.dfy` | ticks, permits and host locks as an interleaving machine |
| `FeedHealth.dfy` | failures, disabling, refreshes, alerts and delays of one feed |
| `ItemStore.dfy`, `ItemReapply.dfy`, `Retention.dfy` | storing a batch of items, storing it again, and the two-stage purge |
| `Entities.dfy`, `EntityTable.dfy`, `Paragraphs.dfy`, `Transcript.dfy`, `Timedtext.dfy` | the caption pipeline |
| `Xml.dfy`, `Opml.dfy`, `OpmlForeign.dfy`, `OpmlRoundTrip.dfy` | OPML as text, as a tree and as feeds, the program's own and others' |
| `Providers.dfy`, `Summaries.dfy` | AI providers and routes, and the summary cache |

## Where the program does not do what it says

The model follows the code. These are the places where a proof shows that a comment or an expected
property does not hold, each with the exact condition.

- `cron.rs:109-112` says the two-year cap only stops schedules that can never match.
  `CronHorizon.LeapDayMissed` shows `0 0 29 2 *` finding nothing although it matches later;
  `CronHorizon.MissedIffLeapDayOnly` is the exact condition.
- `cron.rs:157` adds the step in `u32`. With a step close to the modulus the sum wraps, and the field
  `5/4294967295` accepts day 0 (`Cron.DayZero`); `Cron.FieldStaysInRange` is the exact condition.
- `digest/mod.rs:181-183` says a run picks up right where the previous digest left off, so that items
  are not reprinted. When the previous boundary equals the floor cut to seconds, items of that second
  are: `Digest.DailyRunReprints` shows it for runs a day apart, `Digest.ReprintExactly` is the exact
  condition.
- `events.rs:247-248` says a user has at most one open run. That holds exactly when no run is opened
  while the user has another (`EventsTiming.OneAtATimeIff`), which `open_run` does not check. After a
  sweep there can be six and never more; five is the maximum while a run's start is read less than
  5 ns after its stamp (`EventsTiming.SweepBound`, `EventsTiming.MostIsMet`).
- `store.rs:187-212` records a failure in two statements. A refresh in between is lost
  (`FeedHealth.LostRefresh`); `FeedHealth.HealthBounds` says exactly when a disabled feed shows no
  failure.
- `transcript.rs:324` calls the reflow idempotent enough. `Transcript.ReadableIdempotent` is the exact
  condition and `Transcript.DeepEncodingIsNotStable` a family of texts that fail it.
- `opml.rs:1-2` promises a lossless round trip. `OpmlRoundTrip.JsonUrlLosesItsKind` is a feed that
  comes back as another kind; `OpmlRoundTrip.LosslessIffSettled` says for which owners and groups the
  round trip is lossless, and `Xml.ValueRoundTrip` for which characters.
- `provider.rs:383-404` reads the video mode inside a deletion more generously than `provider.rs:297-302`
  does for the live route; both are modelled, and the ids that remain are the same either way (`Providers.DeleteForgets`).

## Model

| member | source | states |
|---|---|---|
| `Cron.PushSteps` | backend/src/digest/cron.rs:154-158 | the step loop terminates for every step, wrapping addition included, and pushes the walk of its piece |
| `Cron.StepsDenote` | backend/src/digest/cron.rs:154-158 | that walk visits exactly the stepped range, or the wrapped walk down from its start when the addition overflows |
| `Cron.NoLateOverflow` | backend/src/digest/cron.rs:157 | an addition that does not overflow at first never overflows later in the walk |
| `Cron.ParseField` | backend/src/digest/cron.rs:132-166 | a field is `*`, or the ascending, duplicate-free union of its comma-separated pieces, or rejected when some piece does not read |
| `Cron.FieldDenotes` | backend/src/digest/cron.rs:132-166 | an accepted list is strictly ascending, is the union of its pieces, never exceeds the maximum and has a value in range |
| `Cron.UnionOfRanges` | backend/src/digest/cron.rs:132-166 | while every step is at most u32::MAX less the field's maximum nothing overflows and the field is the union of its plain stepped ranges, inside its range |
| `Cron.FieldStaysInRange` | backend/src/digest/cron.rs:132-166 | the values stay inside the field's range if and only if the range starts at 0 or no piece's wrapped walk reaches 0 |
| `Cron.DayZero` | backend/src/digest/cron.rs:151-158 | the text `5/4294967295` makes the day-of-month field accept day 0 |
| `Cron.ParseDow` | backend/src/digest/cron.rs:168-181 | the day-of-week field is read over 0 to 7 and folded |
| `Cron.DowFoldsSunday` | backend/src/digest/cron.rs:168-181 | folding identifies 7 with 0 and keeps every other value, ascending and not empty |
| `Cron.Parse` | backend/src/digest/cron.rs:28-41 | five fields in order, and any failing field fails the expression |
| `Numerals.NumberReads` | backend/src/digest/cron.rs:140-147 | a number printed in decimal is read back exactly when it fits 32 bits, leading zeros and a plus sign or not |
| `CronText.FormsMean` | backend/src/digest/cron.rs:132-166 | for all lo, hi and step in range, the printed `lo-hi/step`, `lo-hi`, `*/step` and `lo` yield exactly lo, lo + step, ... up to hi |
| `CronText.ListMeans` | backend/src/digest/cron.rs:132-166 | print then parse: a comma list is rejected exactly when some piece has its ends out of order or out of range or a step of 0 or above 32 bits, and otherwise is the ascending union of its pieces |
| `CronText.ScheduleMeans` | backend/src/digest/cron.rs:28-41 | print then parse for all five fields: rejected exactly when some piece does not read in its field's range, and otherwise every field has its meaning, weekday 7 being 0 |
| `CronText.WeekdaysAtEight` | backend/src/digest/cron.rs:28-41 | `0 8 * * 1-5` is 8:00 from Monday to Friday |
| `CronSearch.NextAfter` | backend/src/digest/cron.rs:109-128 | for any offset function: the answer is the first matching candidate of the search, none exactly when no candidate within the cap matches; and, on the civil calendar, the first of 732 days of minutes whose local minute, hour, month and day the fields admit, the day by the one field that restricts it or by either of two |
| `CronSearch.MatchesOnDate` | backend/src/digest/cron.rs:46-65 | an instant matches if and only if minute, hour and month of its civil time are in their fields and its day meets the one restricted day field, or either of two |
| `CronSearch.NextOnCalendar` | backend/src/digest/cron.rs:109-128 | under a fixed offset of whole minutes a civil minute is the answer if and only if the schedule admits it, no admitted minute lies between it and the input, and it comes within 732 days |
| `CronSearch.NoneOnCalendar` | backend/src/digest/cron.rs:109-128 | and there is no answer if and only if the schedule admits no minute of those 732 days |
| `Calendar.DaysFollow` | backend/src/digest/cron.rs:46-52 | the calendar the matcher reads counts days one by one, month lengths and leap years written out, and weekdays with them |
| `Calendar.EpochIsThursday` | backend/src/digest/cron.rs:46-52 | 1970-01-01 is day 719162 of that count, a Thursday |
| `CronSearch.NextIsLeast` | backend/src/digest/cron.rs:109-128 | sound and minimal in every zone: the answer is the least matching instant after the input on the minute grid the search starts, and there is none exactly when that grid has no match in the 732-day window |
| `CronSearch.GridIsUtcMinutes` | backend/src/digest/cron.rs:118-120 | that grid is the UTC minutes exactly when the one offset in force a minute after the input is a whole number of minutes, and it then starts at the next minute boundary |
| `CronSearch.StartAligned` | backend/src/digest/cron.rs:118-120 | in any zone the local clock shows second 0 at the start if and only if the offsets there and a minute after the input agree modulo a minute |
| `CronSearch.NextIsLeastBoundary` | backend/src/digest/cron.rs:109-128 | so, under that one-second condition, the answer is the least matching UTC minute boundary after the input, and none exactly when the 732-day window holds none |
| `CronHorizon.Horizon` | backend/src/digest/cron.rs:109-128 | with a fixed offset, an accepted schedule finds a run from every instant if and only if day-of-week restricts it or it admits some date of a common year |
| `CronHorizon.AlwaysFinds` | backend/src/digest/cron.rs:113-128 | the positive half, from any start |
| `CronHorizon.CommonWindow` | backend/src/digest/cron.rs:113-128 | the negative half: a start from which such a schedule finds nothing |
| `CronHorizon.OnlyLeapDayLeft` | backend/src/digest/cron.rs:46-65 | in any zone such a schedule matches on 29 February or never |
| `CronHorizon.MissedIffLeapDayOnly` | backend/src/digest/cron.rs:109-128 | an accepted schedule finds nothing from some instant after which it does match if and only if day-of-month alone restricts the day, no date of a common year is admitted and 29 February is |
| `CronHorizon.LeapDayMissed` | backend/src/digest/cron.rs:109-128 | `0 0 29 2 *` parses, finds nothing from a certain instant, and matches later |
| `Digest.LastEnd` | backend/src/digest/mod.rs:280-291 | the boundary is the greatest period end on record, absent exactly for an empty archive |
| `Digest.Build` | backend/src/digest/mod.rs:363-393 | the grouping loop archives the chosen rows, or nothing when there are none |
| `Digest.Engine.RunUser` | backend/src/digest/mod.rs:222-258 | one user's archive takes one step and nobody else's changes |
| `Digest.Engine.RunAll` | backend/src/digest/mod.rs:187-267 | every user's archive takes exactly one step, and the digest count is the number of users who got one |
| `Digest.SectionsMean` | backend/src/digest/mod.rs:363-387 | sections are the categories in order of first appearance, each with exactly its items in row order |
| `Digest.SectionsKeepItems` | backend/src/digest/mod.rs:363-387 | grouping neither loses nor invents an item |
| `Digest.SectionsConserve` | backend/src/digest/mod.rs:389-394 | the item count is the number of grouped rows, so a digest is skipped exactly when its window is empty |
| `Digest.PrintedIffChosen` | backend/src/digest/mod.rs:324-393 | a run prints exactly the eligible items its window holds |
| `Digest.Coverage` | backend/src/digest/mod.rs:227-233 | over any history, a run without override prints an eligible item if and only if it lies between the whole-second floor and end and after the boundary, or the boundary is not after that floor |
| `Digest.LookbackPrints` | backend/src/digest/mod.rs:194-233 | in figures: with a look-back of 1 to 90 days and no boundary after it, printed is exactly what was published from now less that many days of 86400 seconds on, in whole seconds |
| `Digest.OverridePrints` | backend/src/digest/mod.rs:193-230 | a run with an override prints exactly what was published from now less that many days, held to 1 to 90, the first second included, whatever was archived before |
| `Digest.EligibleMeans` | backend/src/digest/mod.rs:363-371 | eligible are the items of rows whose category is one of the configured names but for ASCII case, or of all rows |
| `Digest.PrintedUpToBoundary` | backend/src/digest/mod.rs:276-291 | everything ever printed lies at or before every later boundary |
| `Digest.ReprintExactly` | backend/src/digest/mod.rs:222-234 | an item printed before is printed again by a run without override if and only if its timestamp is the second where the boundary equals the truncated floor, whatever the clock does |
| `Digest.DailyRunReprints` | backend/src/digest/mod.rs:222-234 | it does happen: a run with a one-day look-back that follows the previous one by a day and a fraction of a second prints again what was published in the second of that run |
| `Digest.EmptyRunKeepsArchive` | backend/src/digest/mod.rs:389-394 | a run that prints nothing archives nothing and does not move the boundary |
| `Digest.EmptyRunInvisible` | backend/src/digest/mod.rs:389-394 | striking such a run from a history leaves every later archive as it was |
| `Digest.StruckRunPrintsTheSame` | backend/src/digest/mod.rs:389-394 | and every other run prints the same |
| `Digest.BoundaryIsAnEnd` | backend/src/digest/mod.rs:280-291 | the boundary is the whole-second end of some run of the history |
| `Digest.ExactlyOnce` | backend/src/digest/mod.rs:222-234 | in a history whose runs leave no gap longer than the look-back, every item is printed by the first run that reaches it and by no other, but for the one-second exception |
| `Events.Accounting` | backend/src/events.rs:138-245 | among any other calls, each opened run has total = pending + polled events while it is open, done counts 1, 2, 3, sums run over exactly the counted feeds, and one finish event ends it with nothing after |
| `Events.FreshIds` | backend/src/events.rs:146 | run identifiers are never reused |
| `Events.PendingShrinks` | backend/src/events.rs:167-210 | an open run loses each feed with that feed's report and is never open with none left |
| `Events.ReportsCloseRun` | backend/src/events.rs:164-210 | a run is closed once all the feeds it waits on have reported |
| `EventsTiming.CooldownLeftMeans` | backend/src/events.rs:281-289 | 0 exactly when the user never ingested or did more than 60 seconds ago; otherwise the time left in whole seconds and one more, at most 61 |
| `EventsTiming.StartsApart` | backend/src/events.rs:138-144 | one user's runs open strictly more than 60 seconds apart |
| `EventsTiming.SweepBound` | backend/src/events.rs:138-245 | right after a sweep no open run of a user is older than its time to live, there are never more than six for any clock readings, and at most five while starts come less than 5 ns after their stamps |
| `EventsTiming.MostIsMet` | backend/src/events.rs:247-249 | for every such delay the bound is reached by some history, so it is the maximum |
| `EventsTiming.OneAtATimeIff` | backend/src/events.rs:247-249 | a user has at most one open run throughout a history if and only if none was opened while another was open |
| `EventBus.EventBus.OpenRun` | backend/src/events.rs:138-162 | opens a run exactly when the cooldown is over, else reports the seconds left and changes nothing |
| `EventBus.EventBus.FeedDone` | backend/src/events.rs:167-210 | the two loops take the registry one step and emit, for every run, exactly the events decided for it, in whatever order the map is walked |
| `EventBus.EventBus.CloseRuns` | backend/src/events.rs:193-242 | the removal loops take out exactly the listed runs and emit one finish event for each |
| `EventBus.EventBus.Sweep` | backend/src/events.rs:213-245 | the sweep takes the registry one step and emits exactly the time-outs decided |
| `EventBus.EventBus.RunFor` | backend/src/events.rs:249-261 | reports some open run of the user with its progress, or none exactly when there is none |
| `EventBus.CountedMeans` | backend/src/events.rs:173-192 | after the counting loop every waiting run has counted the report and no other run has changed |
| `EventBus.PolledFor` | backend/src/events.rs:181-188 | the loop emits one progress event for each waiting run and none for the others |
| `EventBus.FinishedMeans` | backend/src/events.rs:189-191 | the finished list holds, once each, the runs that waited on this feed only |
| `EventBus.StaleMeans` | backend/src/events.rs:217-222 | the stale list holds, once each, exactly the runs past their time to live |
| `EventBus.FinishFor` | backend/src/events.rs:194-206 | closing emits one finish event for each listed run and none for the others |
| `Scheduler.Reachable` | backend/src/ingest/scheduler.rs:106-200 | permits, locks, fetch times and reports stay consistent over every history of interleaved steps |
| `Scheduler.ConcurrencyBound` | backend/src/ingest/scheduler.rs:114-127 | never more tasks between permit and release than the tick was set to when it began (one, if set to less), and a queued task can take a permit exactly while there are fewer |
| `Scheduler.HostsAreExclusive` | backend/src/ingest/scheduler.rs:182-184 | at most one task of a host between lock and release, and a task can take the lock of its host exactly while no task holds it |
| `Scheduler.FetchesArePolite` | backend/src/ingest/scheduler.rs:182-198 | a task that holds its host's lock can start its fetch if and only if the delay its tick began with has passed since the end of every earlier fetch of that host, in this tick or any other |
| `Scheduler.TickReportsOnce` | backend/src/ingest/scheduler.rs:117-142 | when a tick is over, each feed it selected has been reported exactly once, and no other |
| `Scheduler.TickClosesRun` | backend/src/ingest/scheduler.rs:137-139 | so a registry run that waits on feeds of the tick is closed by it |
| `Scheduler.NoDeadlock` | backend/src/ingest/scheduler.rs:126-198 | while a tick is not over, some task can go on after a wait of at most the per-host delay |
| `Scheduler.StepsDrain` | backend/src/ingest/scheduler.rs:117-142 | every step of a task uses up one of its seven, so a tick is finite |
| `Scheduler.CanFinish` | backend/src/ingest/scheduler.rs:142-143 | from every consistent state the tick can be driven to its end |
| `FeedHealth.FeedRow.RecordSuccess` | backend/src/ingest/store.rs:131-155 | a success clears the failures and schedules the next poll |
| `FeedHealth.FeedRow.RecordNotModified` | backend/src/ingest/store.rs:157-175 | an unchanged feed clears the failures too |
| `FeedHealth.FeedRow.BumpFailures` | backend/src/ingest/store.rs:185-199 | the first statement counts the failure and tells whether the feed was healthy |
| `FeedHealth.FeedRow.WriteOutcome` | backend/src/ingest/store.rs:201-212 | the second statement writes whether the feed is disabled and when it is due |
| `FeedHealth.FeedRow.RecordFailure` | backend/src/ingest/store.rs:184-214 | undisturbed, the two are the counting step and the settling step |
| `FeedHealth.FeedRow.RefreshFeed` | backend/src/routes/feeds.rs:266-281 | a refresh enables the feed, clears its failures and makes it due |
| `FeedHealth.FeedRow.MarkFeedDue` | backend/src/routes/feeds.rs:639-645 | a new subscription makes the feed due and leaves its health alone |
| `FeedHealth.HealthBounds` | backend/src/ingest/store.rs:184-214 | over all polls and refreshes a settled enabled feed has fewer than six failures; a disabled one has one to six if and only if no refresh fell between the two statements that disabled it |
| `FeedHealth.SixFailuresEnabled` | backend/src/ingest/store.rs:187-212 | six failures on an enabled feed are visible exactly between the statements of the sixth in a row |
| `FeedHealth.LostRefresh` | backend/src/ingest/store.rs:187-212 | a history in which a refresh is lost and the feed ends up disabled without failures |
| `FeedHealth.BystandersKeepHealth` | backend/src/ingest/scheduler.rs:118-229 | over any stretch of history made of selections, claims, polls whose body does not parse and new subscriptions, failures, disabling and whether the next failure alerts stay as they were |
| `FeedHealth.NoFailuresIsHealthy` | backend/src/ingest/store.rs:184-199 | the counter is zero exactly when every failure so far was followed by a success or a refresh |
| `FeedHealth.CounterIsStreak` | backend/src/ingest/store.rs:131-199 | over any history the counter is the number of failures in a row since the last success or refresh |
| `FeedHealth.FailureOutcome` | backend/src/ingest/store.rs:184-212 | whatever happens between its two statements, a failed poll disables the feed if and only if the answer said so or it was the sixth failure in a row, and the next poll waits 60, 120, ... 1920 seconds and up to a quarter more, or what the server asked for within 30 to 3600 seconds, 300 if it did not say |
| `FeedHealth.SelectedWhenDue` | backend/src/ingest/scheduler.rs:117-160 | a feed at rest is selected exactly when it is enabled and the time last written has come: 300 seconds after a claim, an interval after a success, at once after a refresh or a subscription |
| `FeedHealth.AlertsStartStreaks` | backend/src/ingest/store.rs:177-199 | the notification fires exactly for failures that directly follow a healthy state |
| `FeedHealth.CapFromTenth` | backend/src/ingest/mod.rs:111-120 | the six-hour cap is reached from the tenth failure on and not before |
| `FeedHealth.BackoffBounds` | backend/src/ingest/mod.rs:111-120 | for up to six failures the delay is at least the doubled base and between 60 and 2400 seconds |
| `FeedHealth.DelaysReached` | backend/src/ingest/store.rs:201-212 | every delay a failing feed is given in any history lies in that range, or is the server's wish held between 30 seconds and an hour |
| `FeedHealth.DelayIsKept` | backend/src/ingest/scheduler.rs:147-160 | unless refreshed or subscribed to, a feed is not selected before its delay is over |
| `ItemStore.KeyTellsItsKind` | backend/src/ingest/mod.rs:89-109 | the `guid:` test of the update branch recovers exactly which keys came from a GUID, and GUID keys are equal exactly when the trimmed GUIDs are |
| `ItemStore.OtherKeys` | backend/src/ingest/mod.rs:89-109 | without a GUID, keys are equal exactly when both come from URLs with the same normal form, or both from the same digest of title and text |
| `ItemStore.Items.InsertItems` | backend/src/ingest/store.rs:52-129 | the loop stores the batch, and the count returned is the growth of the table |
| `ItemStore.BatchKeepsUnique` | backend/src/ingest/store.rs:63-125 | no feed ever holds a dedup hash twice, duplicates inside the batch included |
| `ItemStore.BatchKeepsRows` | backend/src/ingest/store.rs:73-91 | stored rows keep their place and everything but their content, the auto-summary marker included; rows of other feeds, other hashes or without a GUID keep that too |
| `ItemStore.NewRowsComeFromBatch` | backend/src/ingest/store.rs:92-123 | every new row comes from an item of the batch that was not too old, with the marker asked for and the time cut to seconds |
| `ItemStore.BatchCovers` | backend/src/ingest/store.rs:63-125 | after a batch each of its items is stored or was too old |
| `ItemStore.StoredIff` | backend/src/ingest/store.rs:52-125 | in figures: after a batch a feed has a hash if and only if it had it before, or it is the feed of the batch and some item with that hash is no older than the age limit in days of 86400 seconds |
| `ItemStore.ReapplyInsertsNothing` | backend/src/ingest/store.rs:61-125 | applying a batch again inserts nothing, under any cutoff that keeps out what the first one did |
| `ItemStore.ContentIsWhole` | backend/src/ingest/store.rs:73-91 | a row keeps its content or holds that of one item with its hash, never a mixture |
| `ItemStore.LastTextWins` | backend/src/ingest/store.rs:73-91 | a GUID-based row ends with the text of the last item that carries its GUID |
| `ItemReapply.OldRowSettles` | backend/src/ingest/store.rs:73-91 | the content of a row that was there before is the same after two applications of a batch as after one |
| `ItemReapply.NewRowSettles` | backend/src/ingest/store.rs:73-123 | the content of a row inserted for an item changes the second time exactly when the last run of equal texts starts before that item, after another text, with another content |
| `ItemReapply.ReapplyChangesIff` | backend/src/ingest/store.rs:61-125 | under any cutoff that keeps out what the first did, a second application changes the table if and only if, for some GUID new to it, such a run starts with an item the cutoff kept out |
| `ItemReapply.LaterPollIsIdle` | backend/src/ingest/store.rs:61-125 | with the configured age limit, the same batch at any later time adds no row, and changes nothing exactly when no such item exists; without an age limit it never changes anything |
| `ItemReapply.DisagreeingBatch` | backend/src/ingest/store.rs:61-125 | a batch of three items that does change a row the second time |
| `Retention.Library.Delete` | backend/src/maintenance.rs:43-47 | a delete loses exactly the rows it counts |
| `Retention.Library.Purge` | backend/src/maintenance.rs:32-74 | two stages leave exactly the starred items and the fresh ones among the newest of their feed in the original table, and the count is the rows lost |
| `Retention.AgeKeepsRanks` | backend/src/maintenance.rs:40-61 | the age stage never changes the rank of a fresh item |
| `Retention.TwoStagesAreOnePass` | backend/src/maintenance.rs:40-68 | the second stage over the remains equals one pass over the original |
| `Retention.PurgesCollapse` | backend/src/maintenance.rs:32-74 | purging now and again later is purging later |
| `Retention.SecondPurgeIsIdle` | backend/src/maintenance.rs:32-74 | a second purge at the same time removes nothing |
| `Retention.FeedIsCapped` | backend/src/maintenance.rs:51-61 | with a cap, at most that many unstarred items of a feed remain |
| `Retention.FeedKeepsNewest` | backend/src/maintenance.rs:51-61 | with a cap, a feed keeps at least that many of its items within the age limit, or all of them when it has fewer |
| `Retention.StaysIff` | backend/src/maintenance.rs:32-68 | in figures: an item stays if and only if it is starred, or within the age limit in days of 86400 seconds and with fewer than the cap newer items in its own feed |
| `Retention.FeedsAreIndependent` | backend/src/maintenance.rs:51-61 | purging the library and then taking one feed is purging that feed alone |
| `Entities.DecodeEntities` | backend/src/ai/transcript.rs:372-415 | the loop over characters with byte offsets is one pass of the decoder |
| `Entities.SkipChars` | backend/src/ai/transcript.rs:406-409 | the inner loop drops that many characters, or all that are left |
| `Entities.DecodeEntitiesFully` | backend/src/ai/transcript.rs:358-370 | early exit included, the result is that of three passes |
| `Entities.EntityIsAscii` | backend/src/ai/transcript.rs:381-409 | a decodable entity is ASCII, so the byte count skips exactly through its `;` |
| `Entities.PassShrinks` | backend/src/ai/transcript.rs:373-415 | a pass changes nothing if and only if no decodable entity occurs, and otherwise makes the text strictly shorter |
| `Entities.PassNeverLengthens` | backend/src/ai/transcript.rs:373-415 | a pass never lengthens the text |
| `Entities.EntityIsLocal` | backend/src/ai/transcript.rs:381-402 | what follows a word neither completes nor disturbs an entity that starts in it |
| `Entities.CleanByWords` | backend/src/ai/transcript.rs:325-328 | re-spacing words neither creates nor destroys a decodable entity |
| `EntityTable.NamedEntities` | backend/src/ai/transcript.rs:387-394 | each named form decodes to its character, `nbsp` to a plain space |
| `EntityTable.DecimalReference` | backend/src/ai/transcript.rs:381-402 | a decimal reference decodes exactly when it names a character and has at most eight digits, and is otherwise left as it is |
| `EntityTable.HexReference` | backend/src/ai/transcript.rs:381-402 | a hexadecimal reference likewise, with at most seven digits, in either case |
| `EntityTable.OtherNames` | backend/src/ai/transcript.rs:387-413 | any other name is left as it is |
| `EntityTable.LateSemicolon` | backend/src/ai/transcript.rs:382-385 | an ampersand with no semicolon among the next ten characters is left as it is |
| `EntityTable.PassUndoesEscaping` | backend/src/ai/transcript.rs:372-415 | one pass undoes the escaping of the OPML export, for every text |
| `Paragraphs.Paragraphize` | backend/src/ai/transcript.rs:335-356 | the loop writes the greedy paragraphs with blank lines between them |
| `Paragraphs.TrimNewlines` | backend/src/ai/transcript.rs:352-354 | the final loop removes exactly the newlines at the end |
| `Paragraphs.ParagraphsAre` | backend/src/ai/transcript.rs:339-351 | they are the one division of the words in which every paragraph but the last breaks and none runs past a break |
| `Paragraphs.ParagraphLengths` | backend/src/ai/transcript.rs:330-351 | every paragraph but the last has 900 characters, or 500 and a full stop, exclamation or question mark at its end, and none has so before its last word |
| `Paragraphs.ParagraphsKeepWords` | backend/src/ai/transcript.rs:335-356 | the words of the text are kept in order, so breaking twice is breaking once |
| `Transcript.ReadableTranscript` | backend/src/ai/transcript.rs:321-328 | re-spacing, three passes and paragraphs, in that order |
| `Transcript.StableIsClean` | backend/src/ai/transcript.rs:360-370 | three passes reach a fixpoint exactly when no decodable entity is left |
| `Transcript.ReadableIdempotent` | backend/src/ai/transcript.rs:321-328 | making a transcript readable twice equals once if and only if three passes reach a fixpoint |
| `Transcript.DeepEncodingIsNotStable` | backend/src/ai/transcript.rs:323-325 | any entity encoded three times over fails that condition |
| `Timedtext.FlattenTimedtext` | backend/src/ai/transcript.rs:299-319 | the loop joins the cue lines and makes them readable |
| `Timedtext.FlattenedIsReadable` | backend/src/ai/transcript.rs:299-319 | a document of closed text elements flattens to the readable transcript of what stands between each element's first `>` and its closing tag |
| `Timedtext.LineIsBody` | backend/src/ai/transcript.rs:305-310 | and that is the element's body exactly when none of its attributes holds a `>` |
| `Xml.EscIsPerChar` | backend/src/opml.rs:127-133 | the five sequential replacements are one replacement per character |
| `Xml.ValueReads` | backend/src/opml.rs:88-92 | an escaped attribute value is read back with line ends and tabs as spaces |
| `Xml.ValueRoundTrip` | backend/src/opml.rs:127-133 | among legal values exactly those without tabs and line ends survive |
| `Opml.Build` | backend/src/opml.rs:49-82 | the nested loops write the document of the groups |
| `Opml.Parse` | backend/src/opml.rs:22-47 | the loop collects the feeds of the outlines in document order |
| `Opml.KindReproduced` | backend/src/opml.rs:110-125 | for each kind, exactly the URLs from which it is inferred again |
| `OpmlForeign.KindMeans` | backend/src/opml.rs:110-125 | the kind of any feed from any `type` and URL: the site first, then the type, then the ending, whatever the ASCII case |
| `OpmlForeign.OutlineMeans` | backend/src/opml.rs:28-36 | any outline of any document is a feed exactly when `xmlUrl`, or else `xmlurl`, shows a URL; its title comes from `title`, or else from `text`, its page from `htmlUrl`, or else from `htmlurl` |
| `OpmlForeign.CategoryMeans` | backend/src/opml.rs:94-108 | the category comes from the `text` of the outline around it, or else from its `title`; none under an outline that carries a feed URL, even a blank one |
| `OpmlForeign.EveryNodeIsVisited` | backend/src/opml.rs:28 | import visits every element of the document at any depth, each with the one around it, and nothing else |
| `OpmlRoundTrip.DocumentReads` | backend/src/opml.rs:49-82 | exported text of legal characters is well formed and stands for the tree of its groups, attribute values normalised |
| `OpmlRoundTrip.IllegalDocument` | backend/src/opml.rs:23-26 | a single illegal character anywhere in the export makes the document unreadable |
| `OpmlRoundTrip.GroupIsCategory` | backend/src/opml.rs:94-108 | the folder above a feed gives its cleaned name as the category, or none when it is blank |
| `OpmlRoundTrip.RootCollected` | backend/src/opml.rs:28-46 | the tree of a document yields the feeds of its groups in order, without those whose URL is blank |
| `OpmlRoundTrip.RoundTrip` | backend/src/opml.rs:1-82 | for every owner and all groups: nothing when an exported character is illegal, otherwise every feed with a URL in order, with its cleaned category, title and page, its URL normalised and its kind inferred again |
| `OpmlRoundTrip.LosslessIffSettled` | backend/src/opml.rs:1-82 | and exactly the same feeds if and only if there are none, or everything is legal and each feed is titled, trimmed, on one line, filed under its group, normalised and of the inferred kind |
| `OpmlRoundTrip.JsonUrlLosesItsKind` | backend/src/opml.rs:110-125 | an `rss` feed at a URL ending in `.json` does not come back as it was |
| `Providers.ProviderStore.LoadTextRoute` | backend/src/ai/provider.rs:172-191 | the loop resolves the text ids in order, without those selected for video |
| `Providers.ProviderStore.LoadVideoRoute` | backend/src/ai/provider.rs:223-241 | the loop resolves the video ids in order, Gemini only |
| `Providers.ProviderStore.CreateProvider` | backend/src/ai/provider.rs:71-101 | the new row is active exactly when no row was, the other rows are as they were, and if at most one provider was active exactly one is |
| `Providers.ProviderStore.ActivateProvider` | backend/src/ai/provider.rs:131-146 | an unknown id changes nothing, a known one becomes the only active provider |
| `Providers.ProviderStore.DeleteProvider` | backend/src/ai/provider.rs:148-162 | the row and every routing reference go together, so that the id is selected for neither route, or nothing does |
| `Providers.RoutesAreDisjoint` | backend/src/ai/provider.rs:172-241 | what is on each route, and that no provider is on both |
| `Providers.RoutesMean` | backend/src/ai/provider.rs:172-333 | who is asked, in terms of the stored settings alone: for video the Gemini providers its list selects, all of it in mode `ordered` and its head otherwise; for text those its list selects by the text mode or its legacy key, or the active one without a list; never one selected for video |
| `Providers.SelectionsAgree` | backend/src/ai/provider.rs:274-283 | the text route is, in order, the known providers among the ids the settings page shows |
| `Providers.SingleRoutes` | backend/src/ai/provider.rs:285-333 | a single-provider mode asks at most one provider |
| `Providers.FallbackIsActive` | backend/src/ai/provider.rs:322-332 | without a selection the text provider is the active one, unless it is selected for video |
| `Providers.DeleteForgets` | backend/src/ai/provider.rs:342-381 | a deleted provider is in no list and on no route, whatever the modes, and the other ids keep their order |
| `Providers.DeletedLists` | backend/src/ai/provider.rs:342-405 | a deletion leaves a list alone that lacks the id, removes it when a single-provider route would be left with none, and otherwise takes out that id alone |
| `Providers.DeleteFromOrderedRoutes` | backend/src/ai/provider.rs:342-381 | ordered routes lose exactly that provider |
| `Providers.OneActive` | backend/src/ai/provider.rs:71-162 | creating, activating and deleting never leave two active providers, and creating leaves one |
| `Summaries.PushSummaryExists` | backend/src/routes/items.rs:220-261 | the pushed conditions are those of the preference chain, in order |
| `Summaries.SummaryStore.GetItem` | backend/src/routes/items.rs:352-397 | the two loops show the first usable entry of the chain |
| `Summaries.SummaryStore.LookUp` | backend/src/ai/summarize.rs:93-133 | so does the lookup before generation |
| `Summaries.SummaryStore.StoreSummary` | backend/src/ai/summarize.rs:405-427 | from then on a lookup of that item, provider and kind finds the text unless it is blank, and every other entry is as it was |
| `Summaries.SummaryStore.SummarizeItem` | backend/src/ai/summarize.rs:74-281 | a hit is returned unchanged; otherwise the first asked link that answers is stored and returned, and every failure leaves the cache alone and has its stated cause |
| `Summaries.ViewsAgree` | backend/src/routes/items.rs:220-261 | for any table and routes, list, detail view and unforced request agree on whether there is a summary, and the last two on its text and kind |
| `Summaries.ShownMeans` | backend/src/routes/items.rs:352-397 | the detail view shows the text of the first link of the chain that has a row of its provider's present model and not of spaces alone, and nothing exactly when none has |
| `Summaries.ChainMeans` | backend/src/routes/items.rs:220-261 | the chain: for a video the native summaries of the video route and then the text-made ones of the text route, for anything else the text route |
| `Summaries.StoreThenShown` | backend/src/ai/summarize.rs:404-427 | a stored summary is the one shown if and only if it is not blank and no earlier link had a usable one; other items are not affected |
| `Summaries.FreshIsShown` | backend/src/ai/summarize.rs:135-280 | for the routes of any configuration, what an unforced request generates is what the views show from then on, unless it is blank |

## Left out

- HTTP, server-sent events, language-model, push, OAuth and passkey calls: only their outcomes appear, as parameters.
- SQL text, migrations, transactions that fail and full-text triggers: statements are functions and methods on tables.
- The time-zone database and leap seconds: a zone is any function from UTC seconds to an offset; chrono's range limits are not modelled.
- Debug builds: `v += step` in the cron parser panics there on overflow; the model is the wrapping release build.
- `Digest.ExactlyOnce`: assumes runs without override, because a short override may move the boundary past items it never printed; runs with override do occur in the histories of the other digest lemmas.
- Digest prose, failed-source counts, AI sections and pushes: they do not change which items are archived; users whose build fails are not modelled.
- Run identifiers are unbounded; the 64-bit counter would wrap after 2^64 runs.
- The order in which events are broadcast: they are sent after the lock is released, so all statements are about what is decided under the lock.
- The order in which a tick claims feeds: the scheduler machine allows any order, which includes the one in the code; panics and cancelled tasks are not modelled.
- Waiting for a lock or a permit is not fair in the model: `Scheduler.CanFinish` says the tick can always finish, and `Scheduler.StepsDrain` that no task steps forever.
- `FeedHealth.DelayIsKept`: selection and claim are separate steps, but several feeds of one tick are not; BATCH and the ordering of due feeds are not modelled.
- Redirects and validators of a fetched feed, and `last_error`: they do not affect health.
- Jitter and backoff use exact reals: the doubles in the code represent these products exactly.
- `published_at` is compared as a number; the column is text in a format that sorts the same way, and rows always have it.
- Ages that SQLite cannot represent (a cutoff before year 0) are not modelled.
- Concurrent batches for one feed: the program polls a feed once at a time and writes each batch in one transaction.
- XML beyond what the export writes: single quotes, character references, comments, processing instructions, namespaces and duplicate attributes; the content of text nodes is checked for legal characters and skipped.
- URL parsing: `normalize_url` is any function; the round trip names where it must leave a URL alone.
- `Timedtext.FlattenedIsReadable`: asks that every text element is closed and holds no further `<text`; the method flattens other documents too, but the lemma does not say what they become.
- Caption tracks, video ids, transcript caps and live streams.
- The transcript fetch inside a summary request: whether the item then has a usable source is a parameter.
- The scheduler's outer loop: when it wakes up, and the sweep it makes before a tick, which is a step of the registry.
- Provider keys, base URLs and API styles, and the errors of resolving them; token counters and prompt texts.
- Settings pages, accounts, category naming, the web client, and `Cron::describe`: easy or presentation only.
