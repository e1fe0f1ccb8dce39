# Verified model of the data-engineering reference pipelines

This project models the three pandas reference pipelines of the
data-engineer recruitment exercises and proves what they promise:

- **Rolling device statistics** (`exercises/streaming_level_1`). Sensor
  readings are deduplicated by event id, keeping the latest. Sliding windows
  `[start, start + length)` are generated every `slide` minutes over the
  readings' time range. For every (window, device) with at least one reading
  a row holds the count, the temperature sum (the mean's numerator), the
  minimum and the maximum. Rows are ordered by (window start, device id).
  Module `DeviceStats` (`device_stats.dfy`): the generator loop and the
  nested aggregation loops are methods proved equal to closed-form functions.
- **Incremental daily user metrics** (`exercises/batch_level_2`). Event
  files are concatenated and events dated after the run date are dropped.
  The latest occurrence of each event id is kept. Page views and active
  time are computed per (user, day), and these fresh rows are merged into
  the existing table. Existing rows older than `run_date - update_window_days`
  survive; fresh rows win every collision. The merged table is sorted by
  (day, user). Module `UserDaily` (`user_daily.dfy`): the active-time loop
  is a method. The rest is a chain of functions, and the merge is proved
  idempotent.
- **Country revenue by signup month** (`exercises/batch_level_1`). Payments
  are left-joined to users. A missing country or signup month becomes
  `UNKNOWN`. Rows are grouped by (country, signup month) with the revenue
  sum and the distinct payer count, and every row is tagged with the run
  date. Module `CountryReport` (`country_report.dfy`).

Shared pieces:

- `Dedup` (`dedup.dfy`): deduplication that keeps the latest occurrence of
  each event id, and deduplication that keeps the last row of each key.
  The latter is described through the table (`map`) it denotes.
- `Order` (`order.dfy`): string order, strict total orders, group-by key
  enumeration, insertion sorts with their permutation proofs, and the folds.
- `Wrappers` (`wrappers.dfy`): `Option` and `Result`.

Times are integer seconds and days are day numbers (`ts / 86400`). Window
length, slide and gap threshold are minutes, as in the source. Amounts and
temperatures are integers.

Edge cases the model keeps as the code has them:

- `watermark_minutes` is documented
  (exercises/streaming_level_1/reference_solution.py:61) but never read, so
  there is no late-event filter. `ProcessDeviceStats` takes the parameter,
  and its result is stated without it.
- Nothing rejects a non-positive `update_window_days`, window length or
  slide. A non-positive window length yields no rows. With a non-positive
  slide and at least one reading, the generator never stops, so
  `ProcessDeviceStats` requires `slide > 0` when the stream is non-empty.
- An empty stream, or one that yields no row, leaves a frame without columns,
  and the final `sort_values` fails on it
  (exercises/streaming_level_1/reference_solution.py:118). This is modelled
  as `Failure(NoRowsToSort)`. The daily build returns an empty table for an
  empty file list, even when an existing table is given.
- `sort_values('ts')` uses pandas' default sort, which is not stable. Among
  occurrences of one id that share the latest timestamp, the model keeps the
  last one in input order. `KeepLatest`'s contract promises only what every
  tie-break gives.

## Model

| member | source | states |
|---|---|---|
| DeviceStats.CreateSlidingWindows | exercises/streaming_level_1/reference_solution.py:35-41 | the generator loop yields exactly the windows `start_time + i * slide` (each `length` long) whose start is at most `end_time` |
| DeviceStats.SlidingWindows | exercises/streaming_level_1/reference_solution.py:35-41 | the windows the generator yields, in closed form; SlidingWindowsShape, SlidingWindowsIncreasing and SlidingWindowsCover state what they are |
| DeviceStats.SlidingWindowsShape | exercises/streaming_level_1/reference_solution.py:35-41 | no window iff `start_time > end_time`; the first starts at `start_time`; each ends `length` after its start; consecutive starts differ by `slide`; every start is at most `end_time` and the next one would pass it |
| DeviceStats.SlidingWindowsIncreasing | exercises/streaming_level_1/reference_solution.py:39-41 | with a positive slide the window starts strictly increase |
| DeviceStats.SlidingWindowsCover | exercises/streaming_level_1/reference_solution.py:35-41 | when `0 < slide <= length`, every instant of `[start_time, end_time]` lies in some half-open window |
| DeviceStats.Clean | exercises/streaming_level_1/reference_solution.py:73 | the deduplicated stream; KeepLatest states that it keeps one reading per event id, the latest |
| DeviceStats.JobWindows | exercises/streaming_level_1/reference_solution.py:80-93 | the windows from the earliest to the latest clean reading; JobWindowsIncreasing states their order |
| DeviceStats.EventsInMember | exercises/streaming_level_1/reference_solution.py:95-98 | a reading is selected for a window iff `window_start <= ts < window_end` and it is a clean reading |
| DeviceStats.EventsOfMember | exercises/streaming_level_1/reference_solution.py:104 | a reading is in a device's group iff it is in the window and has that device id |
| DeviceStats.DeviceIdsMember | exercises/streaming_level_1/reference_solution.py:104 | the device column lists exactly the devices that have a reading in the window |
| DeviceStats.TimestampsMember | exercises/streaming_level_1/reference_solution.py:80-81 | the `ts` column holds exactly the readings' times |
| DeviceStats.TemperaturesMember | exercises/streaming_level_1/reference_solution.py:109-112 | the `temperature` column holds exactly the group's temperatures |
| DeviceStats.EventsIn | exercises/streaming_level_1/reference_solution.py:95-98 | the clean readings of one window; EventsInMember states the half-open bounds |
| DeviceStats.InWindow | exercises/streaming_level_1/reference_solution.py:96-97 | the half-open test `window_start <= ts < window_end`; EventsInMember states the filter built on it |
| DeviceStats.EventsOf | exercises/streaming_level_1/reference_solution.py:104 | the readings of one device in a window, its `groupby` group; EventsOfMember states it |
| DeviceStats.DeviceIds | exercises/streaming_level_1/reference_solution.py:104 | the `device_id` column of a window; DeviceIdsMember and DeviceGroups state it |
| DeviceStats.Timestamps | exercises/streaming_level_1/reference_solution.py:80-81 | the `ts` column; TimestampsMember states it |
| DeviceStats.Temperatures | exercises/streaming_level_1/reference_solution.py:109-112 | the `temperature` column of a group; TemperaturesMember states it |
| DeviceStats.DeviceGroups | exercises/streaming_level_1/reference_solution.py:104 | `groupby('device_id')` visits the window's devices in strictly ascending order, each once, and each has a non-empty group |
| DeviceStats.DeviceRows | exercises/streaming_level_1/reference_solution.py:104-113 | the inner loop appends, in device order, one row per device present in the window |
| DeviceStats.GroupRowsShape | exercises/streaming_level_1/reference_solution.py:104-113 | the k-th appended row is the summary of the k-th device's readings |
| DeviceStats.GroupRows | exercises/streaming_level_1/reference_solution.py:104-113 | the rows the inner loop appends; DeviceRows and GroupRowsShape state them |
| DeviceStats.WindowRows | exercises/streaming_level_1/reference_solution.py:95-113 | the rows of one window, none when it is empty; WindowRowSummarises, WindowRowsDevice and WindowRowsSorted state them |
| DeviceStats.RowsFor | exercises/streaming_level_1/reference_solution.py:88-113 | the `results` list, window after window; RowsForMember and RowsForSorted state it |
| DeviceStats.StatsRow | exercises/streaming_level_1/reference_solution.py:105-113 | one result row for a device group; StatsRowSummarises states its count, sum, minimum and maximum |
| DeviceStats.DeviceStatsReport | exercises/streaming_level_1/reference_solution.py:68-120 | the job's result or its failure; ReportFails, ReportSorted, ReportRowSummarises and ReportCoverage state what it is |
| DeviceStats.ProcessDeviceStats | exercises/streaming_level_1/reference_solution.py:68-120 | the job's nested loops give exactly the report function, which takes no watermark, so `watermark_minutes` changes nothing |
| DeviceStats.StatsRowSummarises | exercises/streaming_level_1/reference_solution.py:105-113 | a row's count, temperature sum, min and max are those of its non-empty group, and min and max are attained |
| DeviceStats.WindowRowSummarises | exercises/streaming_level_1/reference_solution.py:95-113 | a row of a window carries that window's bounds and summarises its device's clean readings in it |
| DeviceStats.WindowRowsDevice | exercises/streaming_level_1/reference_solution.py:95-104 | a window has a row for a device iff a clean reading of that device falls in the window |
| DeviceStats.WindowRowsSorted | exercises/streaming_level_1/reference_solution.py:104 | one window's rows are strictly ascending by device id |
| DeviceStats.RowsForMember | exercises/streaming_level_1/reference_solution.py:88-113 | a row is in the result iff it is a row of one of the windows |
| DeviceStats.RowsForSorted | exercises/streaming_level_1/reference_solution.py:88-113 | rows appended window after window, for increasing starts, are strictly ordered by (window_start, device_id) |
| DeviceStats.JobWindowsIncreasing | exercises/streaming_level_1/reference_solution.py:80-93 | the windows over `[min ts, max ts]` have strictly increasing starts |
| DeviceStats.ReportSorted | exercises/streaming_level_1/reference_solution.py:88-118 | the report is strictly ordered by (window_start, device_id), so no pair repeats |
| DeviceStats.RowLt | exercises/streaming_level_1/reference_solution.py:118 | the key order of `sort_values(['window_start', 'device_id'])`: window start, then device id; ReportSorted states that the report is strictly ordered by it |
| DeviceStats.SortedRearrangement | exercises/streaming_level_1/reference_solution.py:118 | a possible result of that `sort_values`: a permutation of the rows in key order, whatever the tie-break; SortingSortedRowsIsIdentity and FinalSortChangesNothing state that it is the rows themselves |
| DeviceStats.SortedHeadsAgree | exercises/streaming_level_1/reference_solution.py:118 | a sorted rearrangement of strictly ordered rows starts with the same row |
| DeviceStats.SortingSortedRowsIsIdentity | exercises/streaming_level_1/reference_solution.py:118 | any rearrangement of strictly ordered rows that is sorted on the same key is those rows |
| DeviceStats.FinalSortChangesNothing | exercises/streaming_level_1/reference_solution.py:118 | `sort_values(['window_start', 'device_id'])` returns the appended rows unchanged, whatever its tie-break |
| DeviceStats.ReportRowSummarises | exercises/streaming_level_1/reference_solution.py:88-113 | every row belongs to a generated window, spans the window length, and summarises its device's clean readings there |
| DeviceStats.ReportCoverage | exercises/streaming_level_1/reference_solution.py:95-113 | for every generated window and device there is a row iff the device has a clean reading in that window |
| DeviceStats.EveryReadingCounted | exercises/streaming_level_1/reference_solution.py:88-113 | when `0 < slide <= length`, every clean reading is counted in some row of its device |
| DeviceStats.ReportFails | exercises/streaming_level_1/reference_solution.py:115-118 | the job fails iff the stream is empty or the window length is not positive |
| Dedup.KeepLatest | exercises/streaming_level_1/reference_solution.py:73 | the kept readings come from the input, no two share an event id, and each has the latest `ts` of its id |
| Dedup.KeepUpToSurvivors | exercises/streaming_level_1/reference_solution.py:73 | dedup of a prefix keeps exactly the occurrences that no later-sorted occurrence of the same id beats |
| Dedup.LatestIndex | exercises/streaming_level_1/reference_solution.py:73 | finds, within a prefix, the occurrence of an id that sorts last, or reports that the id is absent |
| Dedup.KeepLatestCovers | exercises/batch_level_2/reference_solution.py:76 | every event id of the input keeps one occurrence |
| Dedup.FirstCopyLoses | exercises/batch_level_2/reference_solution.py:76 | when a batch is sent twice, no occurrence of the first copy survives |
| Dedup.SecondCopySurvives | exercises/batch_level_2/reference_solution.py:76 | when a batch is sent twice, an occurrence of the second copy survives iff it survives in the batch alone |
| Dedup.KeepUpToFirstCopy | exercises/batch_level_2/reference_solution.py:76 | dedup of a doubled batch keeps nothing from the first copy |
| Dedup.KeepUpToSecondCopy | exercises/batch_level_2/reference_solution.py:76 | dedup of a doubled batch keeps from the second copy what dedup of the batch keeps |
| Dedup.KeepLatestResent | exercises/batch_level_2/reference_solution.py:76 | deduplicating a batch sent twice gives the same events as deduplicating it once |
| Dedup.KeepLatestResentLatestTimes | exercises/batch_level_2/reference_solution.py:76 | for any tie-break, deduplicating a batch sent twice keeps the same event ids, each with the same latest time, as deduplicating it once |
| Dedup.AsMapDomain | exercises/batch_level_2/reference_solution.py:100 | the table of a row list has a key iff a row has it, and holds one of those rows |
| Dedup.AsMapAppend | exercises/batch_level_2/reference_solution.py:97-100 | the table of a concatenation is the first table overridden by the second |
| Dedup.DistinctKeysAsMap | exercises/batch_level_2/reference_solution.py:100 | when keys do not repeat, a row is in the list iff the table maps its key to it |
| Dedup.KeepLastFacts | exercises/batch_level_2/reference_solution.py:100 | `drop_duplicates(keep='last')` keeps the last row of each key: same table, no repeated key, rows from the input |
| Dedup.KeepLast | exercises/batch_level_2/reference_solution.py:100 | `drop_duplicates(keep='last')` on a key; KeepLastFacts states what it keeps |
| Dedup.SameElementsSameMap | exercises/batch_level_2/reference_solution.py:100-105 | two lists with the same rows and no repeated key denote the same table |
| UserDaily.CalculateActiveSeconds | exercises/batch_level_2/reference_solution.py:24-36 | `calculate_active_minutes` (in seconds) is 0 for at most one time, else the short gaps of the sorted times summed |
| UserDaily.ActiveSeconds | exercises/batch_level_2/reference_solution.py:24-36 | the active time of a user-day in seconds; ActiveSecondsBounds, ActiveSecondsOrderIndependent and ActiveSecondsUnbroken state it |
| UserDaily.GapSum | exercises/batch_level_2/reference_solution.py:28-34 | the sum of the neighbour gaps within the threshold; GapSumBounds and GapSumUnbroken state it |
| UserDaily.SumShortGaps | exercises/batch_level_2/reference_solution.py:31-34 | the loop adds up exactly the neighbour gaps that are at most the threshold |
| UserDaily.GapSumBounds | exercises/batch_level_2/reference_solution.py:27-34 | on sorted times the active time is between 0 and last minus first |
| UserDaily.GapSumUnbroken | exercises/batch_level_2/reference_solution.py:30-34 | when no gap exceeds the threshold the active time is last minus first |
| UserDaily.SortedEnds | exercises/batch_level_2/reference_solution.py:27 | the sorted times start at the minimum and end at the maximum |
| UserDaily.ActiveSecondsBounds | exercises/batch_level_2/reference_solution.py:24-34 | 0 for zero or one time; otherwise between 0 and `max(ts) - min(ts)` |
| UserDaily.ActiveSecondsOrderIndependent | exercises/batch_level_2/reference_solution.py:27 | the input order of the times does not change the active time |
| UserDaily.ActiveSecondsUnbroken | exercises/batch_level_2/reference_solution.py:27-34 | a session without a long gap is active from first to last event |
| UserDaily.ConcatFilesAppend | exercises/batch_level_2/reference_solution.py:62-67 | concatenating two lists of files concatenates their events |
| UserDaily.ConcatFiles | exercises/batch_level_2/reference_solution.py:62-67 | `pd.concat` of the files in order; ConcatFilesAppend states it |
| UserDaily.OnOrBeforeMember | exercises/batch_level_2/reference_solution.py:70-73 | an event survives the cutoff filter iff its day is at most the run date |
| UserDaily.OnOrBeforeAppend | exercises/batch_level_2/reference_solution.py:73 | the cutoff filter works file by file |
| UserDaily.OnOrBefore | exercises/batch_level_2/reference_solution.py:69-73 | the events dated on or before the run date; OnOrBeforeMember states the filter |
| UserDaily.Day | exercises/batch_level_2/reference_solution.py:71 | `.dt.date`: the timestamp floored to whole days; OnOrBeforeMember states the filter that uses it |
| UserDaily.CleanEvents | exercises/batch_level_2/reference_solution.py:69-76 | the filtered, deduplicated events; CleanEventsFacts states what they are |
| UserDaily.CleanEventsFacts | exercises/batch_level_2/reference_solution.py:69-76 | clean events are input events dated on or before the run date; each has the latest `ts` of its id among those; every such id is kept once |
| UserDaily.GroupLtIsStrictTotalOrder | exercises/batch_level_2/reference_solution.py:85 | the (user_id, dt) group-by order is a strict total order |
| UserDaily.KeyLtIsStrictTotalOrder | exercises/batch_level_2/reference_solution.py:105 | the (dt, user_id) sort order is a strict total order |
| UserDaily.UserDaysMember | exercises/batch_level_2/reference_solution.py:85 | the key column lists exactly the (user, day) pairs of the events |
| UserDaily.GroupOfMember | exercises/batch_level_2/reference_solution.py:85 | a group holds exactly the events with its key |
| UserDaily.UserDays | exercises/batch_level_2/reference_solution.py:85 | the `(user_id, dt)` key column; UserDaysMember states it |
| UserDaily.KeyOf | exercises/batch_level_2/reference_solution.py:85 | the `(user_id, dt)` key of an event; UserDaysMember and GroupOfMember state the groups built on it |
| UserDaily.GroupOf | exercises/batch_level_2/reference_solution.py:85 | the `(user_id, dt)` group of a key; GroupOfMember states it |
| UserDaily.GroupLt | exercises/batch_level_2/reference_solution.py:85 | the `groupby(['user_id', 'dt'])` key order; GroupLtIsStrictTotalOrder states it |
| UserDaily.KeyLt | exercises/batch_level_2/reference_solution.py:105 | the `sort_values(['dt', 'user_id'])` order; KeyLtIsStrictTotalOrder states it |
| UserDaily.RowKey | exercises/batch_level_2/reference_solution.py:100 | the `(user_id, dt)` key of a daily row that `drop_duplicates` and the sort use; MergeTable and MergeRows state the merge on it |
| UserDaily.PageViewsBounds | exercises/batch_level_2/reference_solution.py:81 | the page-view count is at most the group's size, and 0 iff no event is a `page_view` |
| UserDaily.PageViews | exercises/batch_level_2/reference_solution.py:81 | `(group['event_type'] == 'page_view').sum()`; PageViewsBounds states it |
| UserDaily.Timestamps | exercises/batch_level_2/reference_solution.py:82 | the group's `ts` column handed to `calculate_active_minutes`; FreshRowOfGroup uses it |
| UserDaily.FreshKeys | exercises/batch_level_2/reference_solution.py:85 | the group keys are strictly ascending by (user_id, dt) |
| UserDaily.FreshKeysMember | exercises/batch_level_2/reference_solution.py:85 | a key is grouped iff some clean event has it |
| UserDaily.FreshRowsDistinct | exercises/batch_level_2/reference_solution.py:85 | no two fresh rows share a (user_id, dt) |
| UserDaily.FreshRowsCover | exercises/batch_level_2/reference_solution.py:85 | there is a fresh row for a (user, day) iff some clean event has it |
| UserDaily.FreshRowOfGroup | exercises/batch_level_2/reference_solution.py:79-85 | each fresh row holds the page views and active time of its non-empty group |
| UserDaily.FreshRowsFacts | exercises/batch_level_2/reference_solution.py:79-85 | exactly one fresh row per (user, day) present, each aggregating its group |
| UserDaily.DailyRowFor | exercises/batch_level_2/reference_solution.py:79-83 | `aggregate_user_day` for one key; FreshRowOfGroup states its page views and active time |
| UserDaily.FreshRows | exercises/batch_level_2/reference_solution.py:79-85 | the per-user-day rows; FreshRowsFacts states one row per present key, each aggregating its group |
| UserDaily.SortRows | exercises/batch_level_2/reference_solution.py:105 | `sort_values(['dt', 'user_id'])` of rows with distinct keys is sorted on the key and a permutation |
| UserDaily.OlderPartOfUpdate | exercises/batch_level_2/reference_solution.py:93-94 | filtering a table updated with one row keeps that row iff it is older than the cutoff |
| UserDaily.AsMapOlderThan | exercises/batch_level_2/reference_solution.py:93-94 | `existing[dt < cutoff]` denotes the existing table restricted to days before the cutoff |
| UserDaily.OlderThan | exercises/batch_level_2/reference_solution.py:93-94 | `existing[dt < cutoff]`; AsMapOlderThan states the table it denotes |
| UserDaily.SortedTableDetermined | exercises/batch_level_2/reference_solution.py:105 | two key-sorted lists that denote the same table are equal |
| UserDaily.SortOnKeepsTable | exercises/batch_level_2/reference_solution.py:105 | sorting rows with distinct keys keeps the table they denote |
| UserDaily.MergeTable | exercises/batch_level_2/reference_solution.py:93-105 | the merged table is key-sorted and is the existing table's rows before the cutoff, overridden by the fresh rows |
| UserDaily.MergeRows | exercises/batch_level_2/reference_solution.py:93-105 | a row is merged iff it is the last fresh row of its key, or its key has no fresh row and it is the last existing row of its key, dated before the cutoff |
| UserDaily.Merge | exercises/batch_level_2/reference_solution.py:88-105 | the merge with the existing table and the final sort; MergeTable, MergeRows and MergeIdempotent state it |
| UserDaily.MergeFreshWins | exercises/batch_level_2/reference_solution.py:97-100 | every fresh row is in the result: on a collision the fresh row wins |
| UserDaily.MergeKeepsOld | exercises/batch_level_2/reference_solution.py:93-100 | an existing row before the cutoff whose key gets no fresh row is kept unchanged |
| UserDaily.MergeDropsRecent | exercises/batch_level_2/reference_solution.py:93-100 | every result row dated at or after the cutoff is a fresh row, so recent existing rows are dropped |
| UserDaily.OlderPartAbsorbed | exercises/batch_level_2/reference_solution.py:93-100 | overriding the older part of an already merged table by the same fresh rows changes nothing |
| UserDaily.OlderPartOfSelf | exercises/batch_level_2/reference_solution.py:93-100 | overriding a table's older part by the table itself gives the table |
| UserDaily.MergeFixedPoint | exercises/batch_level_2/reference_solution.py:88-105 | a merge leaves alone a sorted table that already holds its own older part overridden by the fresh rows |
| UserDaily.TableAbsorbs | exercises/batch_level_2/reference_solution.py:93-100 | a sorted table made of some older part overridden by the fresh rows is such a fixed point |
| UserDaily.MergeKeepsAbsorbed | exercises/batch_level_2/reference_solution.py:88-105 | merging the fresh rows into a sorted table made of some older part overridden by them changes nothing |
| UserDaily.MergeIdempotent | exercises/batch_level_2/reference_solution.py:88-105 | merging the same fresh rows into a merge's own output, with the same run date and window, gives that output |
| UserDaily.NoFilesNoRows | exercises/batch_level_2/reference_solution.py:58-60 | an empty file list gives an empty table, whatever the existing table |
| UserDaily.BuildUserDailyIdempotent | exercises/batch_level_2/reference_solution.py:57-105 | re-running the build on its own output with the same files, run date and window gives the same table |
| UserDaily.BuildUserDaily | exercises/batch_level_2/reference_solution.py:57-107 | the whole daily build; NoFilesNoRows and BuildUserDailyIdempotent state it |
| UserDaily.ResentFilesChangeNothing | exercises/batch_level_2/reference_solution.py:62-76 | sending every file twice in one run gives the same table as sending it once |
| UserDaily.ResentFilesSameLatestTimes | exercises/batch_level_2/reference_solution.py:62-76 | for any tie-break, sending every file twice leaves the same event ids after cleaning, each with the same latest time |
| Order.SortInts | exercises/batch_level_2/reference_solution.py:27 | `sort_values()` on times gives a non-decreasing permutation |
| Order.SortedPermutationsEqual | exercises/batch_level_2/reference_solution.py:27 | two non-decreasing permutations of the same times are equal |
| Order.SortOn | exercises/batch_level_2/reference_solution.py:105 | sorting rows with distinct keys on the key gives a strictly key-sorted permutation |
| Order.SortedOnDetermined | exercises/batch_level_2/reference_solution.py:105 | two strictly key-sorted lists with the same elements are equal |
| Order.SortedDistinct | exercises/batch_level_1/reference_solution.py:41-44 | the group keys are strictly ascending and are exactly the keys present |
| Order.MinOf | exercises/streaming_level_1/reference_solution.py:80 | `clean['ts'].min()` is a time of the input and at most every time |
| Order.MaxOf | exercises/streaming_level_1/reference_solution.py:81 | `clean['ts'].max()` is a time of the input and at least every time |
| Order.StrLtIsStrictTotalOrder | exercises/streaming_level_1/reference_solution.py:104 | the string order of group-by and sort keys is a strict total order |
| Order.StrLt | exercises/streaming_level_1/reference_solution.py:104 | Python's `<` on `str`, the key order behind every groupby and sort; StrLtIsStrictTotalOrder states it |
| Order.SumOf | exercises/streaming_level_1/reference_solution.py:109 | the sum of the temperatures behind the mean; StatsRowSummarises states the row field that holds it |
| Order.ConcatMapMember | exercises/streaming_level_1/reference_solution.py:88-113 | an element of the per-window concatenation comes from one of the windows |
| CountryReport.SignupMonthRoundTrip | exercises/batch_level_1/reference_solution.py:24-25 | for a four-digit year, `strftime('%Y-%m')` can be read back to the date's year and month |
| CountryReport.SignupMonthInjective | exercises/batch_level_1/reference_solution.py:25 | two dates share a signup month iff they share year and month |
| CountryReport.SignupMonthNotUnknown | exercises/batch_level_1/reference_solution.py:25-38 | no signup month equals `UNKNOWN`, so filled cells never merge with a real month |
| CountryReport.FourDigits | exercises/batch_level_1/reference_solution.py:25 | the four `%Y` digits, weighted by place, give back the year |
| CountryReport.SignupMonth | exercises/batch_level_1/reference_solution.py:24-25 | `strftime('%Y-%m')`; SignupMonthRoundTrip and SignupMonthInjective state it |
| CountryReport.PrepareUsers | exercises/batch_level_1/reference_solution.py:22-26 | the users projected to id, country and signup month; PrepareUsersMember states it |
| CountryReport.PrepareUser | exercises/batch_level_1/reference_solution.py:24-26 | one user projected to id, country and signup month; PrepareUsersMember states the projection |
| CountryReport.PrepareUsersMember | exercises/batch_level_1/reference_solution.py:26 | projecting the users keeps exactly the same user ids |
| CountryReport.MatchesMember | exercises/batch_level_1/reference_solution.py:34 | the users joined to a payment are exactly the users with its id |
| CountryReport.Matches | exercises/batch_level_1/reference_solution.py:34 | the users whose id equals a payment's; MatchesMember, NoMatches and MatchesAtMostOne state it |
| CountryReport.NoMatches | exercises/batch_level_1/reference_solution.py:34 | a payment whose id no user has joins no user |
| CountryReport.MatchesAtMostOne | exercises/batch_level_1/reference_solution.py:34 | with unique user ids at most one user joins a payment |
| CountryReport.LeftJoin | exercises/batch_level_1/reference_solution.py:33-34 | `merge(how='left')`; LeftJoinKeepsPayments and JoinKeepsPayment state it |
| CountryReport.JoinPayment | exercises/batch_level_1/reference_solution.py:34 | one payment's left-join rows: one per matching user, or one with empty cells; LeftJoinKeepsPayments and JoinKeepsPayment state it |
| CountryReport.LeftJoinKeepsPayments | exercises/batch_level_1/reference_solution.py:34-38 | with unique user ids the i-th mapped row carries the i-th payment's user id and amount, and there are as many rows as payments |
| CountryReport.FillAllAppend | exercises/batch_level_1/reference_solution.py:37-38 | filling missing cells works row by row |
| CountryReport.FillAll | exercises/batch_level_1/reference_solution.py:36-38 | `fillna('UNKNOWN')` on country and month; JoinKeepsPayment and UnknownUserReported state it |
| CountryReport.OrUnknown | exercises/batch_level_1/reference_solution.py:37-38 | `fillna('UNKNOWN')` on one cell; JoinKeepsPayment states its effect |
| CountryReport.FillMissing | exercises/batch_level_1/reference_solution.py:37-38 | `fillna('UNKNOWN')` on one row's country and month; JoinKeepsPayment states its effect |
| CountryReport.MappedPayments | exercises/batch_level_1/reference_solution.py:29-38 | the joined, filled payments; MappedRevenueConserved states it |
| CountryReport.JoinKeepsPayment | exercises/batch_level_1/reference_solution.py:33-38 | no payment is dropped by the left join, and one whose user is missing appears with country and month `UNKNOWN` |
| CountryReport.RevenueOfSameAmounts | exercises/batch_level_1/reference_solution.py:42 | rows carrying the payments' amounts one for one carry their total |
| CountryReport.Revenue | exercises/batch_level_1/reference_solution.py:42 | `('amount', 'sum')` over rows; RevenueOfSameAmounts and RevenuePartition state it |
| CountryReport.MappedRevenueConserved | exercises/batch_level_1/reference_solution.py:34-38 | with unique user ids the mapped payments carry exactly the payments' total amount |
| CountryReport.GroupLtIsStrictTotalOrder | exercises/batch_level_1/reference_solution.py:41 | the (country, signup_month) group-by order is a strict total order |
| CountryReport.GroupsMember | exercises/batch_level_1/reference_solution.py:41 | the key column lists exactly the (country, month) pairs of the mapped payments |
| CountryReport.GroupOfMember | exercises/batch_level_1/reference_solution.py:41 | a group holds exactly the mapped payments with its key |
| CountryReport.GroupLt | exercises/batch_level_1/reference_solution.py:41 | the `groupby(['country', 'signup_month'])` key order; GroupLtIsStrictTotalOrder states it |
| CountryReport.Groups | exercises/batch_level_1/reference_solution.py:41 | the `(country, signup_month)` key column; GroupsMember states it |
| CountryReport.GroupOfRow | exercises/batch_level_1/reference_solution.py:41 | the `(country, signup_month)` key of a mapped payment; GroupsMember and GroupOfMember state the groups built on it |
| CountryReport.GroupOf | exercises/batch_level_1/reference_solution.py:41-44 | the rows of one `(country, signup_month)` group; GroupOfMember states it |
| CountryReport.PayersBounds | exercises/batch_level_1/reference_solution.py:43 | `nunique` counts the group's distinct user ids: at least one for a non-empty group, at most the group's size |
| CountryReport.Payers | exercises/batch_level_1/reference_solution.py:43 | the set of distinct user ids `nunique` counts; PayersBounds states it |
| CountryReport.RowsForAt | exercises/batch_level_1/reference_solution.py:41-47 | the i-th report line is the line of the i-th group |
| CountryReport.RowsForLength | exercises/batch_level_1/reference_solution.py:41-44 | there is one report line per group |
| CountryReport.RowFor | exercises/batch_level_1/reference_solution.py:41-47 | one report line for a group, tagged with the run date; ReportRowFacts states it |
| CountryReport.RowsFor | exercises/batch_level_1/reference_solution.py:41-47 | the report lines in group order; RowsForAt and RowsForLength state them |
| CountryReport.ReportGroups | exercises/batch_level_1/reference_solution.py:41-44 | the lines are strictly ascending by (country, signup_month), so no pair repeats |
| CountryReport.ReportCoversGroups | exercises/batch_level_1/reference_solution.py:41-44 | there is a line for a (country, month) iff some mapped payment has it |
| CountryReport.ReportRowFacts | exercises/batch_level_1/reference_solution.py:41-47 | each line sums its non-empty group's amounts, counts its distinct payers (between 1 and the group size), and carries the run date |
| CountryReport.BuildReport | exercises/batch_level_1/reference_solution.py:10-49 | the report; ReportGroups, ReportCoversGroups, ReportRowFacts and RevenueConserved state it |
| CountryReport.ReportDateEverywhere | exercises/batch_level_1/reference_solution.py:47 | every line's `report_date` is the run date |
| CountryReport.GroupsRevenueCons | exercises/batch_level_1/reference_solution.py:41-42 | one more payment adds its amount to the revenue of its own group only |
| CountryReport.RevenuePartition | exercises/batch_level_1/reference_solution.py:41-42 | the groups partition the payments: their revenues add up to the whole |
| CountryReport.GroupsRevenueOfNothing | exercises/batch_level_1/reference_solution.py:41-42 | with no payment every group's revenue is 0 |
| CountryReport.TotalOfRowsFor | exercises/batch_level_1/reference_solution.py:41-44 | the revenue column adds up to the groups' revenues |
| CountryReport.RevenueConserved | exercises/batch_level_1/reference_solution.py:34-44 | the report's revenue adds up to the mapped payments' amounts, and to the payments' total when user ids do not repeat |
| CountryReport.UnknownUserReported | exercises/batch_level_1/reference_solution.py:34-44 | a payment of an unknown user is reported under (`UNKNOWN`, `UNKNOWN`) |

## Left out

- Reading and writing CSV files, the `print` output, `explain_streaming_concepts` and the `__main__` demonstrations: these are I/O.
- Parsing timestamps and dates (`pd.to_datetime`, `strptime`, `.dt.date`). Times arrive as integer seconds and days as day numbers. The country report's run date is the string it copies into every line.
- DeviceStats.StatsRow: the rounded float mean `round(mean, 2)` is not modelled. The row holds the (temperature sum, count) pair the mean is computed from.
- UserDaily.CalculateActiveSeconds: the result is in seconds. The conversion to minutes and `round(..., 2)` are left out. Comparing a gap with the threshold is exact, because `gap / 60 <= threshold` holds iff `gap <= threshold * 60`.
- Dedup.KeepLatest: among occurrences of one id with equal latest timestamps, pandas' unstable default sort may keep any of them. The contract only promises a latest occurrence, though the model keeps the last one in input order.
- The generator is a finite sequence, not a lazy iterator. With a non-positive slide and a non-empty stream the source loops forever; that case is excluded by a precondition.
- `pay_date` (exercises/batch_level_1/reference_solution.py:30-31) is computed but never used, so it is not modelled.
- Empty cells in other columns are not modelled: a missing `user_id`, `ts`, amount or temperature, and NaN group keys that `groupby` would drop. Amounts are integers (for example cents), so floating-point sums are not modelled.
- Whether the existing table's file exists is an `Option` argument of `BuildUserDaily`. Reading it is I/O.
- Dedup.FirstCopyLoses: holds for the model's fixed tie-break (the later of two tied occurrences wins). Under pandas' unstable sort a tied occurrence from the first copy may be the one kept. KeepLatestResentLatestTimes states what holds for any tie-break.
- Dedup.SecondCopySurvives: the position-level claim rests on the same fixed tie-break. It is not promised by the source.
- Dedup.KeepUpToFirstCopy: "nothing is kept from the first copy" rests on the same fixed tie-break.
- Dedup.KeepUpToSecondCopy: rests on the same fixed tie-break.
- Dedup.KeepLatestResent: the equality of whole records holds for the program only when the occurrences of an id that share its latest time are identical records. For any tie-break, KeepLatestResentLatestTimes keeps the same ids with the same latest times.
- UserDaily.ResentFilesChangeNothing: inherits the fixed tie-break from KeepLatestResent. For the program it holds when the occurrences of an event id that share its latest time are identical records. ResentFilesSameLatestTimes states the part that holds for any tie-break.
- UserDaily.BuildUserDaily: when files are given but no event survives the date filter, the model aggregates no rows and merges them as usual. In some pandas versions `groupby(...).apply(...)` on an empty frame keeps the `user_id` and `dt` columns, and `reset_index()` (exercises/batch_level_2/reference_solution.py:85) then raises. That failure depends on the library version and is not modelled.
- The loop over new files that collects frames (exercises/batch_level_2/reference_solution.py:62-67) is modelled as a concatenation function, not as a loop.
- `src/` (warehouse client, ingestion, transformation, pipeline, configuration) and `tests/` are not part of this model. They are I/O wrappers around external services, outside this model.
