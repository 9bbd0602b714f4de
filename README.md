# AITTMS train-schedule backend: a verified model

The backend of AITTMS (an automated train-traffic management system for a
railway station) keeps the day's platform allocations in a SQLite file,
`today.db`. It rebuilds that file from the master allocations table at
start-up, and again on the first `/api/today` request of a new weekday;
until such a request comes, the timer and the other routes keep using the
old day's table. It enriches the rows with live arrival times and
delays, which it gets from a Python lookup script, `real_time.py`. And it
serves the rows to the dashboard: the train list, the statistics, the day
and the weather.

This project models that core as Dafny datatypes, functions and classes,
and proves what the code promises about them:

- `Clock` parses `HH:MM` schedule strings with `timeToMinutes`. It also
  formats the clock reading and names the weekday tags.
- `TrainStatus` covers `calculateStatus` and the one-line status rule of
  the simpler routes.
- `Allocations` holds the table rows and the lookup key sent to the script.
  It also holds:
  - the 30-minute and "up to now" windows;
  - the refresh of one row as a function of the script's result;
  - the five-at-a-time batches and the bulk refresh's counters;
  - the day's snapshot of the master table.
- `TodayDatabase` is `today.db` as a class over an array of rows. Its
  methods are the three refresh loops, each proved against the functions
  of `Allocations`, and the rebuild of the file.
- `DayRollover` holds `todayValue`, `lastTodayDbDay`,
  `checkAndUpdateTodayDbIfNeeded` and `/api/today`.
- `Queries` covers two routes:
  - `/api/trains`: the row-to-entry map, the ±4-hour filter, and the stable
    sort by scheduled minute;
  - `/api/dashboard-stats`: its counters and the rounded average delay.
- `WeatherCache` is `/api/weather`, with its 30-minute cache.
- `JsText` models the JavaScript string built-ins the code relies on:
  - `split`, `Number`, `includes` and `toLowerCase`;
  - `replace(/\s+/g, '-')`, `padStart` and `match(/(\d+)/)`.
- `Nullable` holds `Option` (SQL `NULL` / JavaScript `null`) and `Result`
  (the "Database error" answers).

Inputs from outside the server are parameters of the model:

- the hour, minute and weekday;
- `Date.now()`;
- each run of a Python script (`lookup`, one run per row; `fetch`);
- whether the store accepts an UPDATE (`accepts`);
- whether deleting `today.db` and attaching the master database succeed
  (`removed`, `attached`).

Details of the code that the model keeps as they are:

- The day's table keeps the master rows whose `days` column *equals*
  today's tag (`WHERE days = ?`), not the rows whose tag list contains it.
  The rows are copied verbatim, with their old live data; nothing is reset.
- `timeToMinutes` does no range check: "99:99" is 6039 and "24:00" is
  1440. Nothing wraps around midnight.
- The windowed and catch-up refreshes write `null` to both columns when
  the script's output does not parse. They do not leave the row untouched.
  Only the bulk refresh skips the write on failure.
- The bulk refresh looks up every row, including those whose arrival is
  "TBD".
- `calculateStatus` treats a time of 00:00 as missing, because 0 is falsy
  in JavaScript.
- `checkAndUpdateTodayDbIfNeeded` records the new day before the rebuild
  and whatever its outcome. A failed rebuild is never retried on that day.

## Model

| member | source | states |
|---|---|---|
| JsText.JsNumber | backend/server-backup.js:28 | `Number` of a part is a number exactly when the part is all decimal digits, and then it is the decimal value of those digits; the empty part is 0 |
| JsText.NatToStringRoundTrip | backend/server-backup.js:328-329 | the decimal text of a number reads back as that number |
| JsText.NatToStringInjective | backend/server-backup.js:328-329 | different minute counts print differently |
| JsText.Contains | backend/server-backup.js:321 | `includes` holds exactly when the text occurs at some position |
| JsText.ToLowerCharacters | backend/server-backup.js:39 | lower-casing keeps the length, leaves no capital letter, turns each capital into the same letter in lower case and keeps every other character |
| JsText.ToLowerIdempotent | backend/server-backup.js:39 | lower-casing twice is the same as lower-casing once |
| JsText.Hyphenate | backend/server-backup.js:39 | `replace(/\s+/g, '-')` leaves no whitespace behind |
| JsText.HyphenateNoSpaces | backend/server-backup.js:39 | text without whitespace is left as it is |
| JsText.HyphenateIdempotent | backend/server-backup.js:39 | hyphenating twice is the same as hyphenating once |
| JsText.HyphenateRun | backend/server-backup.js:39 | a whole run of whitespace between two words becomes a single `-` |
| JsText.Split | backend/server-backup.js:28 | `split(':')` gives parts without the separator |
| JsText.JoinSplit | backend/server-backup.js:28 | joining the parts with the separator gives back the original text |
| JsText.SplitAtFirst | backend/server-backup.js:28 | the first part ends at the first separator and the rest is the split of what follows |
| JsText.PadTwo | backend/server-backup.js:189-190 | `padStart(2, '0')` gives at least two digits with the number's value; below 100 exactly two; from 10 up the plain decimal text |
| JsText.FirstNumber | backend/server-backup.js:162-164 | `match(/(\d+)/)` finds a number exactly when the text holds a digit, and the number is the value of the leftmost whole run of digits |
| JsText.LeftmostRunUnique | backend/server-backup.js:162-164 | a text has only one leftmost whole run of digits |
| Clock.TimeToMinutes | backend/server-backup.js:26-31 | a missing, empty or "TBD" time gives `null` |
| Clock.TimeNeedsColon | backend/server-backup.js:26-31 | a time without a colon gives `null` |
| Clock.TimeOfParts | backend/server-backup.js:26-31 | `H:M` is `60*H + M` when both parts are digits, and `null` otherwise |
| Clock.TimeIgnoresSeconds | backend/server-backup.js:28 | anything after a second colon is ignored |
| Clock.NoRangeCheck | backend/server-backup.js:26-31 | "99:99" parses to 6039; the code does no range check |
| Clock.NoWrapAtMidnight | backend/server-backup.js:26-31 | "24:00" parses to 1440 |
| Clock.ClockRoundTrip | backend/server-backup.js:187-192 | parsing the formatted clock reading gives its minutes since midnight, and a reading of a real clock is five characters long |
| Clock.FormatClock | backend/server-backup.js:187-192 | `HH:MM`: for hours and minutes below 100, two digits, a colon and two digits |
| Clock.DayTag | backend/server-backup.js:196-199 | every weekday tag is three characters long |
| Clock.DayTagInjective | backend/server-backup.js:196-199 | two weekdays share a tag only when they are the same weekday |
| TrainStatus.DeriveStatus | backend/server-backup.js:318-333 | "Scheduled" exactly when there is neither an arrival nor a delay; a delay text other than "Right Time" decides "Delayed" or "On Time" by whether it contains "Delayed"; otherwise "Delayed by n" or "Early by n" exactly when both times are non-zero and differ by more than 5 minutes |
| TrainStatus.TextInjective | backend/server-backup.js:318-333 | different statuses have different texts |
| TrainStatus.CalculateStatus | backend/server-backup.js:318-333 | "Scheduled" exactly when there is neither an arrival nor a delay; "Delayed" exactly when a deciding delay text contains "Delayed", and a deciding delay text always gives "Delayed" or "On Time"; "On Time" exactly when the derived status is on time |
| TrainStatus.FixedTexts | backend/server-backup.js:318-333 | each of the texts "Scheduled", "Delayed" and "On Time" belongs to exactly one status |
| TrainStatus.SimpleStatus | backend/server-backup.js:452 | the one-line rule answers "Delayed" or "On Time", and "On Time" when there is no delay or it is "Right Time" |
| TrainStatus.RightTimeIsNotDelayed | backend/server-backup.js:145 | "Right Time" does not contain "Delayed" |
| TrainStatus.SimpleStatusAgrees | backend/server-backup.js:452 | when the delay text decides, `calculateStatus` agrees with the one-line rule of the simpler routes |
| TrainStatus.LateExample | backend/server-backup.js:323-328 | 10:00 scheduled and 10:08 real is "Delayed by 8 min" |
| TrainStatus.EarlyExample | backend/server-backup.js:323-329 | 10:00 scheduled and 09:52 real is "Early by 8 min" |
| TrainStatus.ToleranceExample | backend/server-backup.js:323-332 | three minutes late is "On Time" |
| TrainStatus.MidnightExample | backend/server-backup.js:326 | a train due at 00:00 that arrives at 10:08 is "On Time": 00:00 parses to 0, which is falsy, so the times are not compared |
| TrainStatus.DelayTextExamples | backend/server-backup.js:320-328 | with "Right Time" the times still decide ("Delayed by 8 min"); "Delayed by 3 min" gives "Delayed" whatever the times say |
| Allocations.KeyWithoutName | backend/server-backup.js:39-40 | a row without a name is looked up as `-` and its number |
| Allocations.KeyShape | backend/server-backup.js:39-40 | the lookup key ends with `-` and the train number, and the hyphenated name before it holds no whitespace |
| Allocations.KeyHasNoSpaces | backend/server-backup.js:39-40 | the lookup key has no whitespace when the train number has none |
| Allocations.KeyOfTwoWords | backend/server-backup.js:39-40 | two words separated by any run of whitespace give the lower-cased words joined by one `-`, then `-` and the number |
| Allocations.Select | backend/server-backup.js:33-36 | a row is picked exactly when it is in the table and its arrival parses into the window; no more rows than the table |
| Allocations.SelectAppend | backend/server-backup.js:33-36 | the filter keeps the table's order and repeats: filtering two tables one after the other is filtering each in turn |
| Allocations.SelectOne | backend/server-backup.js:33-36 | a single row is kept exactly when its arrival parses into the window |
| Allocations.UnparsedNeverSelected | backend/server-backup.js:27 | rows with a missing, "TBD" or malformed arrival are never picked |
| Allocations.WindowExamples | backend/server-backup.js:35 | at 10:00 the next-half-hour window takes 10:25 but neither 10:31 nor 09:59; the catch-up window takes 09:59 |
| Allocations.NoMidnightWrap | backend/server-backup.js:35 | at 23:50 a 00:05 arrival is not upcoming; the catch-up refresh counts it as already due |
| Allocations.WriteFor | backend/server-backup.js:47-58 | the windowed and catch-up refreshes always write, with null on a parse error; the bulk refresh writes only for a clean, parsed run; empty values become null |
| Allocations.SetWhere | backend/server-backup.js:58 | the UPDATE changes the two live columns of exactly the rows with that rowid |
| Allocations.SetWhereTouchesOneRow | backend/server-backup.js:58 | with distinct rowids an UPDATE changes one row and leaves every other row as it was |
| Allocations.RefreshRow | backend/server-backup.js:37-63 | a refresh changes only `real_arrival` and `delay`, and only in picked rows whose write the store accepted; with no write the row stays; with a write, a picked and accepted row holds exactly the written values |
| Allocations.Refreshed | backend/server-backup.js:37-63 | a refresh keeps the table's length and refreshes each row in place |
| Allocations.RefreshedKeepsRowids | backend/server-backup.js:58 | rowids stay distinct after a refresh |
| Allocations.RefreshOneMore | backend/server-backup.js:58 | handling one more picked row is the same as one UPDATE by its rowid, or no change |
| Allocations.BatchesPartition | backend/server-backup.js:577-579 | the batches cover all rows in order; there are ⌈n/5⌉ of them; each has 5 rows except possibly the last |
| Allocations.Batches | backend/server-backup.js:577-579 | every batch holds between one and five rows |
| Allocations.TwelveRows | backend/server-backup.js:577-579 | twelve rows go out as batches of 5, 5 and 2 |
| Allocations.Classify | backend/server-backup.js:599-624 | a row is updated, an error or a rejected write, exactly as the script result and the store decide |
| Allocations.CountersAddUp | backend/server-backup.js:571-572 | updated plus errors plus rejected writes is the number of rows; when the store accepts every write, the two counters add up to the total |
| Allocations.ErrorsIgnoreStore | backend/server-backup.js:600-605 | `errorCount` depends only on the scripts, never on the store |
| Allocations.AllUpdated | backend/server-backup.js:599-624 | when every script of the first rows ran clean and parsed and the store accepted each write, all of them are counted as updated and none as an error |
| Allocations.KeepDay | backend/server-backup.js:259 | a master row is kept exactly when its `days` column equals the tag |
| Allocations.KeepDayAppend | backend/server-backup.js:259 | the day's filter keeps the master table's order and repeats: filtering two tables one after the other is filtering each in turn |
| Allocations.KeepDayOne | backend/server-backup.js:259 | a single master row is kept exactly when its `days` column equals the tag |
| Allocations.DaySnapshot | backend/server-backup.js:259 | the new table has one row per kept row, with its columns unchanged and rowids 1..n |
| Allocations.DaySnapshotContents | backend/server-backup.js:259 | the day's table has distinct rowids, only rows for that day, and every master row for that day |
| TodayDatabase.TodayDb.constructor | backend/server-backup.js:239-265 | today.db as the server finds it |
| TodayDatabase.TodayDb.UpdateRow | backend/server-backup.js:58 | the table after the UPDATE is `SetWhere` of the table before it |
| TodayDatabase.TodayDb.RefreshOne | backend/server-backup.js:38-61 | one more picked row is refreshed, and its outcome is the one the bulk refresh counts |
| TodayDatabase.TodayDb.RefreshSelected | backend/server-backup.js:37-63 | after the loop the table is the refresh of the picked rows; rowids stay distinct |
| TodayDatabase.TodayDb.WindowedRefresh | backend/server-backup.js:13-66 | the rows due in the next 30 minutes are refreshed; without the table nothing changes |
| TodayDatabase.TodayDb.CatchUpRefresh | backend/server-backup.js:376-435 | the rows due up to now are refreshed, and the reply is their count; without the table, a database error |
| TodayDatabase.TodayDb.BulkRow | backend/server-backup.js:599-624 | one more row is refreshed, and the counters are those of the rows done so far |
| TodayDatabase.TodayDb.RefreshBatch | backend/server-backup.js:581-627 | a batch refreshes its rows, and the counters follow them |
| TodayDatabase.TodayDb.BulkRefresh | backend/server-backup.js:558-640 | every row is refreshed, in batches of five and only on success; the reply holds the table size and the counters; without the table, a database error |
| TodayDatabase.TodayDb.Rebuild | backend/server-backup.js:239-265 | today.db becomes the day's snapshot. It keeps its old table when the old file cannot be deleted, and is left without a table when ATTACH fails |
| DayRollover.DayTracker.constructor | backend/server-backup.js:200-206 | at server start both day variables hold today's tag and today.db is rebuilt for it |
| DayRollover.DayTracker.CheckAndUpdate | backend/server-backup.js:268-276 | afterwards both variables hold today's tag; on the same day nothing changes; on a new day today.db is rebuilt |
| DayRollover.DayTracker.Today | backend/server-backup.js:282-294 | the day variables and today.db end as after `checkAndUpdateTodayDbIfNeeded`; the reply is today's tag with every row of today.db, or a database error when the table is missing or when the SELECT reached a freshly emptied file before the queued CREATE TABLE |
| WeatherCache.Serve | backend/server-backup.js:525-555 | within 30 minutes of a truthy cached result the cache answers; otherwise the script runs. A parsed result replaces the cache; a failure leaves it, and answers from it or with an error |
| WeatherCache.HitWithinDuration | backend/server-backup.js:527 | a request within 30 minutes of a successful fetch is answered from the cache |
| WeatherCache.ExpiresAfterDuration | backend/server-backup.js:527 | after 30 minutes the script runs again |
| WeatherCache.FalsyIsRefetched | backend/server-backup.js:515-517 | a falsy result is stored but never answered from the cache |
| WeatherCache.FailureKeepsLastWeather | backend/server-backup.js:538-545 | once a weather object is cached, a failed fetch never yields an error |
| WeatherCache.Cache.constructor | backend/server-backup.js:498-499 | nothing is cached at start, and the last fetch is at time 0 |
| WeatherCache.Cache.Get | backend/server-backup.js:525-555 | the handler's new cache and reply are those of `Serve` |
| Queries.View | backend/server-backup.js:337-353 | the name, platform and delay texts have non-empty fallbacks ("Unknown Train", "-", "Right Time"); an empty live arrival becomes null; the entry's schedule is the row's expected arrival, or empty without one, and parses to the same minute |
| Queries.KeepNear | backend/server-backup.js:354-357 | an entry is kept exactly when its scheduled time parses to within 240 minutes of now |
| Queries.KeepNearAppend | backend/server-backup.js:354-357 | the ±4-hour filter keeps the entries' order and repeats: filtering two lists one after the other is filtering each in turn |
| Queries.KeepNearOne | backend/server-backup.js:354-357 | a single entry is kept exactly when its schedule is within 240 minutes of now |
| Queries.SortByKey | backend/server-backup.js:358-363 | the sort returns the same entries, each as often as before |
| Queries.SortByKeySorts | backend/server-backup.js:358-363 | the sort yields the same entries, ascending by scheduled minute |
| Queries.SortByKeyStable | backend/server-backup.js:358-363 | entries with equal scheduled minutes keep their order |
| Queries.Views | backend/server-backup.js:337-353 | one entry per row, in order |
| Queries.TrainsContents | backend/server-backup.js:336-363 | `/api/trains` lists, ascending by scheduled minute, exactly the views of the rows scheduled within 4 hours of now, each as often as the filter kept it |
| Queries.UnscheduledNotListed | backend/server-backup.js:354-357 | a row without a parseable schedule is never listed |
| Queries.ListTrains | backend/server-backup.js:297-372 | the reply is the filtered, sorted list, or a database error |
| Queries.IsOnTime | backend/server-backup.js:144-147 | a row counts as on time exactly when it does not count as delayed |
| Queries.IsDelayed | backend/server-backup.js:149-151 | a delayed row has a delay text, and that text is not "Right Time" |
| Queries.DelayMinutes | backend/server-backup.js:161-164 | a row has delay minutes exactly when it is delayed and its delay text holds a digit, and they are then the first number in that text |
| Queries.OnTimePlusDelayed | backend/server-backup.js:144-151 | on-time plus delayed is the number of rows |
| Queries.DelayCountBound | backend/server-backup.js:158-168 | rows averaged are never more than the delayed rows |
| Queries.RoundedMean | backend/server-backup.js:170 | `Math.round(total / count)` is within half a unit of the mean, with halves rounded up |
| Queries.RoundedMeanUnique | backend/server-backup.js:170 | no other whole number has that property |
| Queries.Dashboard | backend/server-backup.js:115-184 | every reported count is its definition over the table; the average delay is the rounded mean, or 0 when nothing was averaged; on-time plus delayed is the total |

## Left out

- HTTP plumbing: Express routing, status codes, headers and JSON
  rendering are not modelled. Routes are methods that return a `Result`, or for `/api/weather` a `Reply`.
- SQLite: opening, closing and `serialize` of the databases, and query
  failures other than a missing table, are not modelled. The store's
  answer to an UPDATE is the `accepts` parameter.
- Child processes: `spawn`, the exit code and stderr of the scripts,
  `JSON.parse` and the `'` to `"` replacement are not modelled. Each run
  is a parameter (`Lookup`, `Fetch`).
- `safeUnlinkSync`: its retries and waits are left out. Only its outcome
  (`removed`) is kept. The error it rethrows for any code other than EBUSY
  and EPERM is not modelled either: at start-up that throw stops the
  server, and in `/api/today` it becomes a 500 answer after `todayValue`
  and `lastTodayDbDay` have already moved to the new day.
- DayRollover.DayTracker.constructor, TodayDatabase.TodayDb.Rebuild: the
  rebuild's `ATTACH`, `CREATE TABLE` and `DETACH` are queued on their own
  connection and finish after `createTodayDb` returns. The model runs them
  to the end at once; the only interleaving it keeps is the `/api/today`
  read that arrives before the new table exists (`readsFirst`). Requests
  from other routes that race the rebuild at start-up are not modelled.
- Lookups: a refresh's runs of real_time.py are the parameter `lookup`,
  one run per row, as the server starts one process per row. The argument
  each run gets, `KeyOf(row)`, is modelled and proved about on its own,
  but it is not threaded into the runs: the script's answers are arbitrary
  anyway.
- Concurrency: `Promise.all` runs the lookups of a batch concurrently.
  The model runs them one after another, in table order; the resulting
  table is the same, because each lookup writes only its own row.
- Timers: `setInterval` and the five-minute period are left out.
  `WindowedRefresh` is one tick.
- Time: the clock (`Date`, `getHours`, `getMinutes`, `getDay`,
  `Date.now()`) is passed in, and timestamps in replies are left out.
- Columns: type, from, to, priority, passengers and distance are not in
  the model's rows. Their fallbacks in `/api/trains` are therefore left out,
  among them `Math.random` passengers.
- Queries.View: the second-choice columns `id`, `arrives`, `estimated` and
  `platform` that the `/api/trains` map falls back on are not in the
  model's rows either. The entry's `id` is the train number as it is,
  without the fallback to `row.id` for a NULL number. Its schedule comes
  from `exp_arrival` alone, so a row whose `exp_arrival` is NULL but whose
  `arrives` is set is listed by the server and never by
  `Queries.TrainsContents`. The estimate falls back on `exp_arrival`
  without `estimated`, and the platform on "-" without `platform`.
- Percentages: the float percentages of `/api/dashboard-stats`
  (`platformUtilization`, `onTimePercentage`) are left out. The model
  reports the counts they are computed from.
- The routes `/api/active`, `/api/allocations/real-time`,
  `/api/train/:id` and the database-health route are left out. The status
  rule the middle two share is `TrainStatus.SimpleStatus`.
- JsText.JsNumber: models `Number` on decimal digit strings only. It does
  not model signs, decimals, exponents, hexadecimal, binary and octal
  literals ("0x0A", "0b1", "0o7"), "Infinity", or surrounding whitespace,
  all of which `Number` accepts.
- JsText.ToLowerCharacters: lower-cases ASCII letters only.
- JsText.FirstNumber: reads the digits as an unbounded number, not as
  `parseInt`'s double.
- Queries.RoundedMean: models `Math.round` of the exact quotient, not of
  its floating-point value.
- WeatherCache.Serve: a weather object's fields are kept as opaque pairs.
  The `cached`, `error` and `location` fields added to the reply are given
  by which `Reply` case is returned.
