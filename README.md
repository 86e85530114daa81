# waste-timer: the local store, the reconciliation pass and the day statistics

The waste-timer app is a browser app. It records "time wasted" events: each event is a
timestamp in milliseconds plus a number of minutes. This project is a Dafny model of the app's
persistence and aggregation core, with proofs of what that core promises.

- **`Storage`** (`storage.dfy`) models `AppStorage`. It is a class whose `table` field is the
  IndexedDB object store, a `map<int, int>` from timestamp to minutes. Its `version` field is
  the schema version on disk. Every operation first opens the database at version 6. Opening
  a database at an older version drops the store and recreates it empty. Opening one at a
  newer version fails with `VersionError`.
- **`History`** (`history.dfy`) models the pure helpers of `TimeWasteService`:
  - the "from today" filter;
  - the running total;
  - creating an entry;
  - undoing the last entry.
- **`Reconcile`** (`reconcile.dfy`) models the diff inside `performSync` as values:
  - the `(timestamp, wasted)` keys;
  - the upsert and delete lists;
  - the whole operation list;
  - applying a list of writes to a table.
- **`Service`** (`service.dfy`) models `TimeWasteService` as a class:
  - the `isSyncing` and `hasLoadedInitialData` flags;
  - the pending debounced callback;
  - `initialize`, `syncToStorage`, `forceSync` and `getTotalStoredItemsCount`;
  - `performSync`, with its two collecting loops.
- **`Durations`** (`durations.dfy`) models the two `formatTime` renderings. Each has a reader
  that recovers the minute count from the text.
- **`Stats`** (`stats.dfy`) models `generateStats`:
  - the grouping loop over midnight keys;
  - the newest-first sort of the days;
  - each day's summary, with its history sorted by timestamp, its total and an optional cost.
- **`Decimal`** (`decimal.dfy`) renders an integer as JavaScript's `${n}` does, and parses it back.
- **`Errors`** (`errors.dfy`) holds `Option`, `Result` and `Outcome`.

The clock and the calendar are parameters. `todayMidnight` is the local midnight that
`isFromToday` reads from the clock. `midnight` stands for `getMidnightTimestamp`, and
`formatDate` for the date rendering. `now` is `Date.now()`.

A few facts about the code that the model keeps:
- **Statistics rendering.** The statistics use the `formatTime` of `src/utils/stats.ts`.
  That version prints "1 hour 30 minutes", "0 minute" and "2 hours 0 minute". It is not the
  " and "-joined form of `src/utils/functions.ts`.
- **`forceSync` failures.** `forceSync` reports no failure: `performSync` swallows every
  error, and a failed read leaves the store untouched.
  Unlike `syncToStorage`, `forceSync` does not check `hasLoadedInitialData`. Called before
  the initial load with an empty history, it deletes every entry of today that is stored.
- **`getAll` order.** `getAll` returns records in ascending key order, because an object
  store returns records in primary-key order.
- **Write order.** Each write of a pass opens the database as soon as it is issued, and
  IndexedDB runs read-write transactions on one store in the order they were created. So
  the writes of one `Promise.all` take effect in issue order: every upsert, then every delete.
- **Repeated timestamps.** One pass can write the same timestamp twice; see Findings.
- **Distinct timestamps.** The lemmas about the final table assume that no two history
  entries share a timestamp (`Reconcile.UniqueTimestamps`). Entries are stamped with
  `Date.now()`, so two entries added within one millisecond would break this.

For integral fields the source's string key `${timestamp}-${wasted}` is injective
(`Reconcile.KeyStringInjective`), so comparing `(timestamp, wasted)` pairs is exact.

## Model

| member | source | states |
|---|---|---|
| Storage.OpenOutcome | src/utils/AppStorage.ts:13-39 | opening at version 6 succeeds exactly when the database on disk is not newer |
| Storage.TableAfterOpen | src/utils/AppStorage.ts:15-27 | the upgrade from an older version leaves the store empty; at version 6 the table is kept |
| Storage.MaxKey | src/utils/AppStorage.ts:124 | `Math.max(...keys)`: a key of the set that no other key exceeds |
| Storage.Items | src/utils/AppStorage.ts:92-99 | `getAll` returns one item per key (as many items as keys), exactly the stored pairs, in strictly ascending timestamp order |
| Storage.UpsertOverwrites | src/utils/AppStorage.ts:25-27 | with `timestamp` as the key path, two writes under one timestamp leave one record, holding the second value |
| Storage.DeleteLatestUndoesNewest | src/utils/AppStorage.ts:119-125 | removing the largest key right after writing a newer timestamp restores the previous table |
| Storage.AppStorage.constructor | src/utils/AppStorage.ts:9-11 | the handle keeps its database name; the on-disk version and table are as given |
| Storage.AppStorage.OpenDB | src/utils/AppStorage.ts:13-39 | an older version is upgraded to 6 with an empty store; version 6 keeps the table; a newer version fails and nothing changes |
| Storage.AppStorage.UpsertItem | src/utils/AppStorage.ts:41-90 | after a successful open, the table maps the item's timestamp to its minutes and every other key is unchanged |
| Storage.AppStorage.GetAllItems | src/utils/AppStorage.ts:92-100 | after a successful open, returns `Items` of the opened table; a failed open rejects with the version error |
| Storage.AppStorage.DeleteItem | src/utils/AppStorage.ts:102-110 | removes key `id` and nothing else; an absent key leaves the table unchanged |
| Storage.AppStorage.DeleteLatest | src/utils/AppStorage.ts:112-132 | an empty table stays empty; otherwise exactly the largest key is removed |
| Storage.AppStorage.ClearAllStorage | src/services/TimeWasteService.ts:124 | the intended clear-all: after a successful open the table is empty and `getAll` returns no item |
| History.IsFromToday | src/services/TimeWasteService.ts:17-23 | an entry is from today when it is stamped at or after today's local midnight; `TodayItems` and `PreMidnightEntryReupserted` state what follows from it |
| History.TodayItems | src/services/TimeWasteService.ts:35-37 | keeps exactly the items stamped at or after today's midnight, never more items than given |
| History.TodayItemsAppend | src/services/TimeWasteService.ts:35-37 | the filter distributes over concatenation, so stored order is kept |
| History.Sum | src/services/TimeWasteService.ts:38-41 | the `reduce` total of the minutes; its laws are `SumAppend`, `SumNonNegative` and `UndoKeepsTotal` |
| History.SumAppend | src/services/TimeWasteService.ts:38-41 | the total of a concatenation is the sum of the totals |
| History.SumNonNegative | src/services/TimeWasteService.ts:38-41 | entries with non-negative minutes have a non-negative total |
| History.AddTimeWaste | src/services/TimeWasteService.ts:58-65 | the new entry carries the current time and the given minutes |
| History.RemoveLastTimeWaste | src/services/TimeWasteService.ts:70-85 | an empty history gives `([], 0)`; otherwise the new history plus the removed last entry is the old history, and the minutes are that entry's |
| History.UndoKeepsTotal | src/services/TimeWasteService.ts:70-85 | the new total plus the removed minutes equals the old total |
| History.UndoAfterAdd | src/services/TimeWasteService.ts:58-85 | adding an entry and undoing it gives back the history and the minutes just added |
| Decimal.IntToString | src/services/TimeWasteService.ts:157 | `${n}` is a non-empty string of digits, with a leading minus exactly for negatives |
| Decimal.ParseIntToString | src/services/TimeWasteService.ts:157 | parsing `${n}` gives back n |
| Decimal.IntToStringInjective | src/services/TimeWasteService.ts:157 | two integers render alike exactly when they are equal |
| Reconcile.KeyString | src/services/TimeWasteService.ts:157 | the string key `${timestamp}-${wasted}`; `ParseKeyString` inverts it and `KeyStringInjective` shows it identifies the item |
| Reconcile.ParseKeyString | src/services/TimeWasteService.ts:157 | splitting `${timestamp}-${wasted}` at its first non-leading '-' recovers the pair |
| Reconcile.KeyStringInjective | src/services/TimeWasteService.ts:156-161 | two items share a key string exactly when they are equal, so the pair model of the key is exact |
| Reconcile.KeySet | src/services/TimeWasteService.ts:156-161 | the set holds the key of every item and nothing but keys of items |
| Reconcile.UpsertOps | src/services/TimeWasteService.ts:166-171 | an upsert for exactly the history items whose key is not stored |
| Reconcile.DeleteOps | src/services/TimeWasteService.ts:174-179 | a delete for exactly the timestamps of stored items whose key the history lacks |
| Reconcile.SyncOps | src/services/TimeWasteService.ts:163-179 | the `operations` array in push order: every upsert, then every delete; `SyncOpsExact` and `SyncIdleIffSameKeys` state its contents |
| Reconcile.SyncOpsExact | src/services/TimeWasteService.ts:151-179 | a pass upserts exactly the history items whose key is not among today's stored keys, deletes exactly today's stored items whose key the history lacks, and never deletes before midnight |
| Reconcile.SyncIdleIffSameKeys | src/services/TimeWasteService.ts:156-181 | a pass issues no operation exactly when the history's keys equal today's stored keys |
| Reconcile.ApplyOps | src/services/TimeWasteService.ts:181-182 | the writes of a pass applied one after another, first to last; `ApplyOpsAppend`, `ApplyDeleteOps` and `ApplyUpsertOps` state their effect |
| Reconcile.ApplyOpsAppend | src/services/TimeWasteService.ts:163-182 | applying a list of writes in two parts is applying the whole list |
| Reconcile.ApplyDeleteOps | src/services/TimeWasteService.ts:174-179 | the deletes of a pass remove exactly the timestamps of today's stale stored items |
| Reconcile.ApplyUpsertOps | src/services/TimeWasteService.ts:166-171 | the upserts of a pass override the table with the new history entries |
| Reconcile.UpsertMapAt | src/services/TimeWasteService.ts:166-171 | over distinct timestamps, the upserts write exactly the new entries, each with its own minutes |
| Reconcile.ReconcileMirrorsHistory | src/services/TimeWasteService.ts:144-190 | after a pass applied deletes first, the store holds its entries from before today, overridden by exactly the history (an entry stamped before midnight included) |
| Reconcile.ReconcileThenIdle | src/services/TimeWasteService.ts:144-190 | after a deletes-first pass over a history stamped today, a second pass with the same history issues nothing (the corrected reconciliation is idempotent) |
| Reconcile.IssueOrderThenIdle | src/services/TimeWasteService.ts:144-190 | after a pass as issued, over a history stamped today with no entry of today edited, a second pass with the same history issues nothing |
| Reconcile.IssueOrderSecondPassRestores | src/services/TimeWasteService.ts:156-171 | after a pass as issued drops an edited entry of today, the next pass with the same history upserts it again |
| Reconcile.PreMidnightEntryReupserted | src/services/TimeWasteService.ts:151-171 | a history entry stamped before today's midnight is upserted by every pass, whatever the store holds, so such a pass is never idle |
| Reconcile.IssueOrderWithoutEdits | src/services/TimeWasteService.ts:163-182 | when no history entry of today changes the minutes of a stored entry, issue order and deletes-first end in the same table |
| Reconcile.IssueOrderMirrorsUneditedHistory | src/services/TimeWasteService.ts:144-190 | without such edits, a pass in issue order leaves the entries from before today overridden by exactly the history |
| Reconcile.IssueOrderDropsChangedItems | src/services/TimeWasteService.ts:166-182 | applied in issue order, a pass loses every history entry of today whose minutes changed |
| Reconcile.IssueOrderExample | src/services/TimeWasteService.ts:166-182 | with stored (10, 1) and history (10, 2): the operations are upsert then delete; issue order empties the table, while deletes-first leaves 10 -> 2 |
| Service.TimeWasteService.constructor | src/services/TimeWasteService.ts:10-12 | a fresh "waste-timer" store; not loaded, not syncing, nothing pending |
| Service.TimeWasteService.Initialize | src/services/TimeWasteService.ts:28-53 | returns exactly today's stored items in stored order and their total, or `(0, [])` when the store cannot be read; the loaded flag is set on both paths |
| Service.TimeWasteService.SyncToStorage | src/services/TimeWasteService.ts:90-94 | ignored before the initial load; otherwise the pending callback is replaced by one for this history |
| Service.TimeWasteService.OnSyncTimeout | src/services/TimeWasteService.ts:132-142 | the pending callback fires once, and runs a pass with its history unless one is running; the table ends as that pass's writes applied in issue order |
| Service.TimeWasteService.ForceSync | src/services/TimeWasteService.ts:99-104 | cancels the pending callback and runs a pass at once; the table ends as that pass's writes applied in issue order; no failure reaches the caller |
| Service.TimeWasteService.GetTotalStoredItemsCount | src/services/TimeWasteService.ts:109-117 | the number of stored records, or 0 when the store cannot be read |
| Service.TimeWasteService.ClearAllStorage | src/services/TimeWasteService.ts:122-130 | as written: always rejects with the error of calling an undefined method, and the store is never touched |
| Service.TimeWasteService.Issue | src/services/TimeWasteService.ts:169-177 | one write of a pass changes the table as that operation says |
| Service.TimeWasteService.IssueAll | src/services/TimeWasteService.ts:181-182 | sending a list of writes leaves the table as the writes applied in order |
| Service.TimeWasteService.CollectUpserts | src/services/TimeWasteService.ts:166-171 | the first loop builds exactly `UpsertOps` |
| Service.TimeWasteService.CollectDeletes | src/services/TimeWasteService.ts:174-179 | the second loop builds exactly `DeleteOps` |
| Service.TimeWasteService.PerformSync | src/services/TimeWasteService.ts:144-190 | a no-op while a pass is running; a failed read is swallowed; otherwise the operation list is `SyncOps` against today's stored items, the table ends as those writes applied in issue order (upserts, then deletes), and the syncing flag ends as it started |
| Durations.JsRem | src/utils/stats.ts:20 | JavaScript `%`: a minus b times the quotient truncated toward zero, so the remainder lies strictly between -b and b and takes the dividend's sign |
| Durations.FormatTime | src/utils/functions.ts:5-21 | "0 minutes" for 0; only the minutes below an hour; only the hours for whole hours; otherwise hours " and " minutes, each pluralised only above 1 |
| Durations.StatsFormatTime | src/utils/stats.ts:18-29 | below an hour only the minutes (so "0 minute"); from an hour on, the hours and the remainder separated by a space, even a zero remainder |
| Durations.ZeroRoundTrip | src/utils/functions.ts:6 | the text for 0 reads back as 0 |
| Durations.MinutesRoundTrip | src/utils/functions.ts:16-20 | the text for 1 to 59 minutes reads back as that count |
| Durations.HoursRoundTrip | src/utils/functions.ts:12-20 | the text for a whole number of hours reads back as those minutes |
| Durations.MixedRoundTrip | src/utils/functions.ts:8-20 | the text with both parts reads back as 60 * hours + minutes |
| Durations.FormatTimeRoundTrip | src/utils/functions.ts:5-21 | every non-negative count is recovered from its rendering |
| Durations.StatsFormatTimeRoundTrip | src/utils/stats.ts:18-29 | every non-negative count is recovered from the statistics rendering |
| Durations.FormatTimeInjective | src/utils/functions.ts:5-21 | two counts render alike exactly when they are equal |
| Durations.StatsFormatTimeInjective | src/utils/stats.ts:18-29 | two counts render alike in the statistics exactly when they are equal |
| Durations.RenderingsAtZero | src/utils/stats.ts:26-28 | 0 renders as "0 minutes" in one and "0 minute" in the other |
| Durations.RenderingsAtOne | src/utils/functions.ts:16-20 | 1 renders as "1 minute" in both |
| Durations.RenderingsAtNinety | src/utils/functions.ts:12-20 | 90 renders as "1 hour and 30 minutes" in one and "1 hour 30 minutes" in the other |
| Durations.RenderingsAtTwoHours | src/utils/stats.ts:22-25 | 120 renders as "2 hours" in one and "2 hours 0 minute" in the other |
| Stats.CalculateCost | src/utils/stats.ts:70-83 | the cost carries the currency exactly when a non-empty currency is given |
| Stats.CostIsRateTimesHours | src/utils/stats.ts:75-76 | the amount is the rate times the hours: 60 minutes cost exactly the rate |
| Stats.SortBy | src/utils/stats.ts:114 | the sorted sequence is a permutation of the input, ordered by the key |
| Stats.NewestFirstIsStrict | src/utils/stats.ts:107-108 | sorting distinct days with `b - a` gives a strictly descending sequence |
| Stats.DayItems | src/utils/stats.ts:98-104 | a day's bucket holds exactly the items whose midnight is that day |
| Stats.DaysInOrder | src/utils/stats.ts:96-104 | the map's keys are exactly the midnights of the items, each once |
| Stats.GroupByDay | src/utils/stats.ts:96-104 | the loop builds the keys in insertion order and, under each day, that day's items in stored order |
| Stats.Buckets | src/utils/stats.ts:96-104 | the grouping has exactly the items' days as keys and each day's items as value |
| Stats.Summaries | src/utils/stats.ts:109-127 | `days.map(...)`: exactly one summary per day |
| Stats.SummaryAt | src/utils/stats.ts:109-127 | the k-th summary is the summary of the k-th day and its bucket |
| Stats.SummariesRaw | src/utils/stats.ts:115-118 | the k-th summary's `raw` is the k-th day and its bucket's total |
| Stats.NewestFirstDays | src/utils/stats.ts:106-108 | the days of the items, each once, strictly newest first |
| Stats.StatsOf | src/utils/stats.ts:88-130 | the value `generateStats` returns for a list of stored items; `StatsNewestFirst`, `StatsDaysSound`, `StatsDaysComplete`, `StatsOfDay`, `EachItemInOneBucket` and `StatsTotal` state its properties |
| Stats.StatsNewestFirst | src/utils/stats.ts:107-108 | the summaries are strictly descending by `raw.day`, so no day appears twice |
| Stats.StatsDaysSound | src/utils/stats.ts:96-108 | every summary is about a day on which some item falls |
| Stats.StatsDaysComplete | src/utils/stats.ts:96-108 | every item's day has a summary |
| Stats.BuildDayStats | src/utils/stats.ts:109-127 | the `.map` callback building one day's summary; `DayStatsOfBucket` states its fields |
| Stats.DayStatsOfBucket | src/utils/stats.ts:109-127 | a summary's history is its bucket sorted by timestamp (a permutation); its total is the bucket's sum, as minutes and as text; the cost is present exactly when a rate is given |
| Stats.StatsOfDay | src/utils/stats.ts:109-127 | the same, for every summary that `generateStats` returns |
| Stats.EachItemInOneBucket | src/utils/stats.ts:96-114 | every item is listed under exactly one summary: the one for its own midnight |
| Stats.StatsTotal | src/utils/stats.ts:110-118 | the day totals add up to the minutes of all stored items |
| Stats.GenerateStats | src/utils/stats.ts:88-130 | after a successful read, returns exactly `StatsOf` the stored items; a failed open reaches the caller |

## Left out

- The HTTP routes under `src/routes/`, `src/lib/api.ts` and `static/*.js` are not part of this model. They return constant JSON or wrap `generateStats` in DOM downloads and `JSON.stringify`.
- `generateStatsJSON` is not modelled: it is `JSON.stringify` of `generateStats`.
- `randomInt` and `src/utils/emojis.ts` are not modelled, because they depend on randomness.
- Stats.CalculateCost: computes on `real`, not IEEE doubles, and does not render `toFixed(2)`. A labelled cost carries the amount and the currency rather than the concatenated string.
- `getMidnightTimestamp`, `formatDate`, the clock read inside `isFromToday`, and `Date.now()` are parameters, because they depend on the local time zone and the clock.
- Stats.GenerateStats: takes the store as a parameter instead of constructing `new AppStorage("waste-timer")` itself.
- Timestamps and minutes are unbounded integers. JavaScript numbers are doubles: fractions, NaN and values beyond 2^53 are not modelled.
- Service.TimeWasteService.OnSyncTimeout: the 100 ms `setTimeout` delay is not modelled. The timer is the `scheduled` field, and the environment fires it by calling this method.
- Service.TimeWasteService.PerformSync: `Promise.all` concurrency is not modelled. The writes are applied one after another in the order they are issued, which is the order in which IndexedDB commits them.
- Service.TimeWasteService.PerformSync: each method call runs to completion, so overlapping passes are not modelled. In the source, a timer callback or a `forceSync` can arrive while a pass is suspended at `await getAllItems()` or `await Promise.all`, and the `isSyncing` guard turns it into a no-op. Here every method leaves `isSyncing` as it found it, and the constructor clears it. So the guard's no-op branch is stated, but no sequence of calls from the constructor reaches it, and the single-flight property is not modelled.
- Reconcile.ReconcileThenIdle: stated only for a history stamped today. A history entry from before midnight is upserted again by every pass (`Reconcile.PreMidnightEntryReupserted`).
- IndexedDB engine mechanics are not modelled: request callbacks, transactions, blocked opens, and failures other than a database newer than version 6.
- Console logging is not modelled.
- Stats.SortBy: `items.sort` sorts each bucket array in place. The model returns a sorted copy, so the aliasing between the map's arrays and the returned histories is not captured.

## Findings

| source | as written | input that shows it | evidently intended | confidence | as-written member | corrected member |
|---|---|---|---|---|---|---|
| src/services/TimeWasteService.ts:166-182 | an entry whose minutes changed gets `upsertItem(t)` and `deleteItem(t)` in one `Promise.all`; applied in issue order, the delete removes the entry just written | stored {10: 1}, history [(10, 2)]: operations [upsert (10, 2), delete 10] leave the table empty | the stored entry is replaced, so the store mirrors the history (as with deletes before upserts); as written the loss lasts until the next pass with the same history, which upserts the entry again (`Reconcile.IssueOrderSecondPassRestores`) | not executed | Reconcile.IssueOrderDropsChangedItems | Reconcile.ReconcileMirrorsHistory |
| src/services/TimeWasteService.ts:122-130 | `clearAllStorage` calls `this.storage.clearAllStorage()`, which `AppStorage` does not define, so it always throws and clears nothing | any call | every stored record is removed | not executed | Service.TimeWasteService.ClearAllStorage | Storage.AppStorage.ClearAllStorage |
