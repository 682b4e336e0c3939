# Trackly time tracker: a Dafny model of its core

Trackly is a time tracker. A user starts a timer on a project, may pause and
resume it, and stops it. Stopping records a time entry: a project, a start,
an end, and a duration in seconds net of the pauses.

The data lives in two places:

- a server (Express over SQLite through Drizzle), with endpoints for the
  active timer, projects, time entries and users;
- the browser's IndexedDB database (Dexie), written directly by React hooks.

A browser-side sync engine seals a snapshot of the local database with a
32-bit rolling-hash checksum. It keeps the snapshot in local storage and in
three JSON files. On load it checks the checksum and merges by
last-write-wins. The reports page draws a twelve-week activity heatmap. A
dialog lets the user correct a recorded session.

This project models that core as pure functions over immutable data:

- **Database tables.** A `Tables` value holds the projects map, the time
  entries map and the optional active timer.
- **Server handlers.** Each handler returns a `Step` (reply plus the state it
  leaves). The reply is a status code with a body, or an error status.
- **Outside inputs are parameters.** The clock, random draws, the password
  hash, `JSON.stringify` and whether each storage write succeeds are all
  passed in.

Modules follow the source:

| module | models |
|---|---|
| `Common` | `Math.floor` of seconds, JS `%`, ToInt32 |
| `Text` | `toString(radix)`, `padStart` |
| `Calendar` | Monday offsets, period starts |
| `Entities` | the schema |
| `Ordering` | key-ordered enumeration, sorting, filtering |
| `TimerAccounting` | elapsed time and the duration recorded at stop |
| `TimerRoutes` | `activeTimer.ts` |
| `ProjectRoutes` | `projects.ts` |
| `EntryRoutes` | `timeEntries.ts` |
| `UserRoutes` | `users.ts` |
| `TimeTracking` | `timeTracking.ts` |
| `Checksum` | `generateChecksum` |
| `Dexie` | `bulkPut` and `bulkAdd` |
| `Merge` | the last-write-wins merge |
| `Sync` | `sync.ts` |
| `LocalDb` | `db.ts` |
| `ClientHooks` | `useActiveTimer.ts` and `useProjects.ts` |
| `EditDialog` | `EditTimeEntryDialog.tsx` |
| `Heatmap` | `ActivityHeatmap.tsx` |

Two behaviours of the code shape the sync model:

- **What a sync save answers.** The answer depends only on the two
  local-storage writes (`src/lib/sync.ts:136-155`). `saveToJsonFiles`
  swallows its own failures, so a failed file write never changes it. See
  `Sync.SaveSyncData` and `Sync.SaveIgnoresFileWrites`.
- **Where a sync load reads from.** The file snapshot is chosen whenever a
  projects file or an entries file exists (`src/lib/sync.ts:212-216`), and
  that snapshot is then rejected (see Findings). The cached snapshot is read
  only when neither file exists.

Server timestamps are stored in whole seconds. Every timestamp column of
the schema holds seconds (`server/src/db/schema.ts:9-40`), so an instant
written by a handler reads back with its milliseconds dropped. The model
writes every server instant through `Common.Stored`. A reply that re-reads
the row carries the stored instant. The project and user creation replies
echo the object they inserted, so they carry the instant to the millisecond.

## Model

| member | source | states |
|---|---|---|
| `Common.FloorSeconds` | src/components/EditTimeEntryDialog.tsx:58 | whole seconds of a millisecond span, rounded down as `Math.floor` does, for negative spans too: s·1000 ≤ ms < s·1000 + 1000 |
| `Common.Stored` | server/src/db/schema.ts:9 | a timestamp column keeps the whole second at or before the instant: a multiple of 1000 within the last second |
| `Common.StoredFixesWholeSeconds` | server/src/db/schema.ts:9 | an instant that is already a whole second is stored unchanged, so storing twice is storing once |
| `Common.JsRem` | src/lib/timeTracking.ts:41-42 | JavaScript `%`: for a non-negative dividend the ordinary remainder. For a negative one, a remainder in (−b, 0] that differs from the dividend by a multiple of b, which pins it down |
| `Common.ToInt32` | src/lib/sync.ts:40 | `hash & hash` gives a signed 32-bit value congruent to its input modulo 2^32 |
| `Checksum.HashStep` | src/lib/sync.ts:38-40 | one loop step stays within signed 32 bits |
| `Checksum.HashStepIsTimes31` | src/lib/sync.ts:39-40 | `(hash << 5) - hash + char`, truncated, is 31·hash + char reduced to signed 32 bits |
| `Checksum.Hash` | src/lib/sync.ts:36-41 | the hash after the whole string is a signed 32-bit value |
| `Checksum.HashIsPolynomial` | src/lib/sync.ts:36-41 | the loop computes the code units as a base-31 polynomial reduced to signed 32 bits, independently of where it truncates |
| `Checksum.HashConcat` | src/lib/sync.ts:37-41 | hashing a concatenation continues from the hash of the first part |
| `Checksum.ComputeHash` | src/lib/sync.ts:36-41 | the imperative loop returns the recursive hash and the reduced polynomial |
| `Checksum.ChecksumOf` | src/lib/sync.ts:34-43 | the checksum is 1 to 8 lower-case hex digits, with no leading zero, that read back as the absolute value of the hash — so the text is exactly `toString(16)` of that value |
| `Checksum.ChecksumNeverEmpty` | src/lib/sync.ts:42 | a computed checksum is never the empty string and carries no minus sign |
| `Checksum.ChecksumDeterminesMagnitude` | src/lib/sync.ts:42 | equal checksums mean hashes equal up to sign |
| `Checksum.ChecksumOfEmpty` | src/lib/sync.ts:34-43 | the empty text has checksum "0" |
| `Text.Digits` | src/lib/sync.ts:42 | `toString(radix)` of a natural number: at least one digit, no leading zero, a single digit exactly below the radix |
| `Text.ReadDigitsOfDigits` | src/lib/sync.ts:42 | reading the printed digits back gives the number |
| `Text.DigitsInjective` | src/lib/sync.ts:42 | different numbers print differently |
| `Text.IntToString` | src/lib/timeTracking.ts:45 | `toString()` of an integer: the digits, with a leading minus sign for a negative number |
| `Text.PadStart` | src/lib/timeTracking.ts:45 | `padStart` fills on the left up to the width and never truncates; the original text is the suffix |
| `Text.Utf16Length` | server/src/routes/users.ts:12-13 | JavaScript's `length` counts UTF-16 code units: between the number of characters and twice it, and equal to it exactly when no character lies outside the Basic Multilingual Plane |
| `Calendar.MondayOffset` | server/src/routes/timeEntries.ts:36-37 | days back from a weekday to its week's Monday: 0 to 6, landing on a Monday, Sunday going back 6 |
| `Calendar.MondayOffsetUnique` | server/src/routes/timeEntries.ts:36-37 | that offset is the only one in 0..6 that lands on a Monday |
| `Calendar.BrowserWeekShiftAgrees` | src/lib/timeTracking.ts:71-73 | the browser's `getDate() - day + (day === 0 ? -6 : 1)` reaches the same Monday as the server's offset |
| `Calendar.ParsePeriod` | server/src/routes/timeEntries.ts:75 | exactly "day", "week" and "month" name a period; every other string names none |
| `Calendar.PeriodStart` | server/src/routes/timeEntries.ts:27-48 | the period starts at today's midnight, at the midnight of this week's Monday, or at the first of the month |
| `Entities.EntriesNotOf` | server/src/routes/projects.ts:128 | removing a project's entries keeps exactly the other entries, unchanged |
| `Entities.PutTimer` | src/lib/sync.ts:310 | `activeTimer.put(row)` stores the row under its own id, and the program reads only "active": the row replaces the timer exactly when its id is "active", and a row stored under "active" stays so keyed |
| `Entities.PutTimerIdempotent` | src/lib/db.ts:242 | putting the same timer row twice is putting it once |
| `Ordering.SortedKeys` | src/lib/sync.ts:47-48 | a table's keys in increasing order, each key once |
| `Ordering.Rows` | src/lib/sync.ts:47-48 | `toArray()` lists one row per key: every row of the table and nothing else |
| `Ordering.RowsDistinctKeys` | src/lib/sync.ts:287-291 | the rows of a table keyed by id carry pairwise distinct ids, and every key appears |
| `Ordering.RowsOnce` | src/lib/sync.ts:47-48 | in a table whose rows are stored under their own keys, `toArray()` lists each row exactly once |
| `Ordering.SortDesc` | server/src/routes/projects.ts:35-37 | `ORDER BY … DESC`: sorted largest first and a permutation of the input |
| `Ordering.Filter` | src/lib/timeTracking.ts:80 | `Array.filter` keeps exactly the elements that satisfy the test, each no more often than in the input |
| `Ordering.FilterConcat` | src/lib/timeTracking.ts:80 | filtering distributes over concatenation, so the order is kept |
| `Ordering.FilterCount` | src/lib/timeTracking.ts:80 | `Array.filter` keeps each element that passes the test exactly as many times as the input holds it, and no element that fails |
| `Ordering.StrLessTotal` | src/lib/sync.ts:47-48 | the key order is total on distinct keys; with `StrLessIrreflexive`, `StrLessAsymmetric` and `StrLessTransitive`, it is a strict total order |
| `Dexie.BulkPut` | src/lib/db.ts:140-141 | `bulkPut` upserts: every mentioned key is present with its last row; keys not mentioned keep their rows |
| `Dexie.BulkAdd` | src/lib/db.ts:149-150 | `bulkAdd` writes the first row of each new key. It never overwrites an existing row. It reports failure exactly when some row's key was taken or repeated |
| `Dexie.BulkAddAgreesWithBulkPut` | src/lib/db.ts:138-156 | a `bulkAdd` that refuses nothing leaves the table as `bulkPut` would |
| `Dexie.BulkAddDistinctRows` | src/lib/sync.ts:287-291 | adding a table's own distinct rows to an emptied table rebuilds it without a refusal |
| `Dexie.BulkPutOwnRows` | src/lib/db.ts:233-234 | putting a table's own rows back over it changes nothing |
| `Merge.MergeRow` | src/lib/sync.ts:270-275 | one merge visit adds the incoming row's id to the keys; every kept row is the local row or the incoming one, and no row is older than either |
| `Merge.MergeRows` | src/lib/sync.ts:269-284 | the merged table holds every local key and every incoming id. Keys no incoming row mentions keep their local row. No row is older than the local one or than any incoming row with its id. Every row comes from one side or the other |
| `Merge.MergeNothingNewer` | src/lib/sync.ts:272 | merging rows none of which is strictly newer changes nothing |
| `Merge.MergeIdempotent` | src/lib/sync.ts:267-291 | merging the same snapshot twice equals merging it once |
| `Merge.MergeWinner` | src/lib/sync.ts:270-284 | with distinct incoming ids, an incoming row wins exactly when its id is new or it is strictly newer; otherwise the local row stays |
| `Merge.MergeKeepsKeys` | src/lib/sync.ts:269-284 | the merged table is still keyed by its rows' ids |
| `Sync.CurrentData` | src/lib/sync.ts:46-57 | the snapshot carries version "2.0", every local project and entry exactly once, and the timer |
| `Sync.Seal` | src/lib/sync.ts:132 | a sealed snapshot's checksum is never empty |
| `Sync.SaveToJsonFiles` | src/lib/sync.ts:60-122 | the projects and entries files, when written, carry the snapshot's version, the save time and their part of the snapshot; the timer file carries the timer; a file whose write failed keeps its old content |
| `Sync.SaveSyncData` | src/lib/sync.ts:125-160 | the database is untouched. The answer is true exactly when both local-storage writes succeed. A stored record is the current snapshot with the save time and a matching checksum |
| `Sync.SaveIgnoresFileWrites` | src/lib/sync.ts:136-155 | the outcome of the file writes changes neither the answer nor the stored record |
| `Sync.LoadFromJsonFiles` | src/lib/sync.ts:163-206 | there is no record exactly when neither the projects file nor the entries file exists. Otherwise the record is built from the files present: missing arrays are empty, the version is the projects file's when non-empty and "2.0" otherwise, the timestamp is the larger of the two files' timestamps (0 for a missing file), the timer comes from the timer file, and the checksum is the empty string |
| `Sync.FilesRoundTrip` | src/lib/sync.ts:183-201 | files written by a full save read back as the saved snapshot, with the save time and an empty checksum |
| `Sync.RestoreTimer` | src/lib/sync.ts:302-312 | the incoming timer is put when there is no local timer or it started strictly later, and the put replaces the local timer exactly when the incoming row's id is "active"; otherwise the local timer stays |
| `Sync.RestoreTimerIdempotent` | src/lib/sync.ts:302-312 | restoring the same timer twice equals restoring it once |
| `Sync.LoadRecord` | src/lib/sync.ts:238-312 | a record is rejected as corrupted exactly when its checksum does not match, and then nothing changes. With local data the merge is written back; with an empty database the rows are added. Either way the load succeeds exactly when neither add is refused, and a refused project add stops before the entries. The timer is restored only on success |
| `Sync.RebuildExact` | src/lib/sync.ts:286-291 | clearing a table and adding back its own rows reproduces it with no refusal |
| `Sync.LoadWritesMerge` | src/lib/sync.ts:267-291 | with local data and an intact record, the load leaves exactly the merged tables and the restored timer |
| `Sync.LoadIdempotent` | src/lib/sync.ts:238-312 | loading the same intact record twice leaves the database as loading it once |
| `Sync.OwnRowsNothingNewer` | src/lib/sync.ts:269-284 | merging a table's own rows into it changes nothing |
| `Sync.LoadOwnSnapshot` | src/lib/sync.ts:238-312 | loading a sealed snapshot of the database's own contents changes nothing and reports its counts |
| `Sync.LoadSource` | src/lib/sync.ts:212-226 | the loader takes the file record whenever a projects or entries file exists, and the stored record otherwise |
| `Sync.LoadSyncData` | src/lib/sync.ts:209-322 | there is no data exactly when there is no source record; no data and corrupted data leave the database untouched |
| `Sync.FileSnapshotAlwaysRejected` | src/lib/sync.ts:238-248 | as written, every load with a projects or entries file present reports corrupted data and changes nothing |
| `Sync.SaveThenLoadRejected` | src/lib/sync.ts:209-248 | after a save whose projects file write succeeds, the stored record is intact, yet the next load reports corrupted data |
| `Sync.SaveThenLoadFromStore` | src/lib/sync.ts:219-226 | with no files, a save followed by a load restores the same database |
| `Sync.LoadSourceCorrected` | src/lib/sync.ts:193-201 | corrected loader: it finds a record exactly when the as-written loader does, and that record is intact unless it is the stored one |
| `Sync.LoadSyncDataCorrected` | src/lib/sync.ts:209-322 | corrected loader: a file-backed load is never reported as corrupted |
| `Sync.SaveThenLoadCorrected` | src/lib/sync.ts:209-322 | corrected loader: a full save followed by a load restores the same database from the files |
| `Sync.ImportFromFile` | src/lib/sync.ts:356-425 | an unreadable file fails and a file missing either array is refused, each touching nothing. Into a non-empty database the rows are upserted and the import always succeeds. Into an empty one they are added: it succeeds exactly when neither add is refused, and a refused project add skips the entries. On success a timer in the file whose id is "active" replaces the local one whatever their start times (under another id the local timer stays), and the result is saved to the sync store |
| `Sync.ImportIgnoresChecksum` | src/lib/sync.ts:367-376 | a checksum mismatch only warns: the file's checksum makes no difference |
| `Sync.ImportOverwrites` | src/lib/sync.ts:394-397 | into a non-empty database, an imported project wins over the local row whatever their times; unmentioned projects are kept |
| `Sync.StartAutoSync` | src/lib/sync.ts:451-484 | starting makes auto-sync active and is a no-op while it already is; the last hash survives |
| `Sync.StopAutoSync` | src/lib/sync.ts:486-498 | stopping deactivates auto-sync and keeps the last hash |
| `Sync.StartStopIdempotent` | src/lib/sync.ts:451-498 | starting twice equals starting once; stopping twice equals stopping once |
| `Sync.ChangeRule` | src/lib/sync.ts:472-477 | change detection saves when a non-empty previous hash exists and differs, never on the first tick or on the same hash, and always remembers the new hash |
| `Sync.DetectChanges` | src/lib/sync.ts:467-481 | one tick records the current checksum and keeps the database; it saves nothing on the first tick and saves when a non-empty remembered checksum differs |
| `Sync.SteadyDataNeverSaves` | src/lib/sync.ts:467-481 | a second tick over unchanged data saves nothing and changes nothing |
| `LocalDb.Migrate` | src/lib/db.ts:35-79 | the migration acts only on an empty database. It adds the saved projects, or the sample project when none are saved. It then adds the saved entries, unless adding the projects was refused. It never touches the timer |
| `LocalDb.MigrateIdempotent` | src/lib/db.ts:42 | running the migration again, at any later time, changes nothing |
| `LocalDb.ImportDataFromJson` | src/lib/db.ts:113-161 | an unreadable file fails and one missing an array is rejected, each touching nothing. Into a non-empty database both tables are upserted and the counts are reported. Into an empty one both are added: it succeeds exactly when neither add is refused, and a refused project add skips the entries. The timer is never touched |
| `LocalDb.ImportIsUpsert` | src/lib/db.ts:138-146 | the last incoming project with each id wins; unmentioned projects are kept; the keys are the old keys plus the incoming ids |
| `LocalDb.Backup` | src/lib/db.ts:190-202 | the backup has version "1.0", lists every project and every entry of the tables and nothing else, one entry per row, and the timer |
| `LocalDb.SaveToJsonStore` | src/lib/db.ts:190-210 | the answer is whether the write succeeded; a failed write leaves the stored backup as it was |
| `LocalDb.LoadFromJsonStore` | src/lib/db.ts:213-254 | nothing stored, or a backup missing an array, changes nothing. Otherwise both tables are upserted, and a stored timer whose id is "active" overwrites the local one; under another id the local timer stays |
| `LocalDb.BackupRoundTrip` | src/lib/db.ts:190-254 | restoring a backup just taken gives back the same database |
| `LocalDb.BackupIntoEmpty` | src/lib/db.ts:190-254 | a backup restored into an empty database gives back the database it was taken from, with its counts |
| `LocalDb.RestoreOverwritesNewerTimer` | src/lib/db.ts:237-243 | a restored timer whose id is "active" wins even over a newer local timer, unlike a sync load; under another id the newer local timer stays |
| `LocalDb.StartAutoSave` | src/lib/db.ts:166-179 | after a start the auto-save interval is set, whether or not it was before |
| `LocalDb.StopAutoSave` | src/lib/db.ts:181-187 | after a stop no interval is set |
| `LocalDb.StartAutoSaveIdempotent` | src/lib/db.ts:167 | a start while already started changes nothing |
| `TimeTracking.FormatDurationShortIsFormatDuration` | src/lib/timeTracking.ts:48-55 | the "short" format renders every duration exactly as the long one |
| `TimeTracking.FormatDuration` | src/lib/timeTracking.ts:39-46 | a non-negative duration renders as at least eight characters, with colons before the last two two-digit fields |
| `TimeTracking.FormatDurationShort` | src/lib/timeTracking.ts:48-55 | the short form has the same shape for every non-negative duration |
| `TimeTracking.ClockColons` | src/lib/timeTracking.ts:40-45 | the fields of a non-negative duration join into text of the "H…H:MM:SS" outline |
| `TimeTracking.TwoOfNat` | src/lib/timeTracking.ts:45 | a padded field of a natural number is its digits, two wide below 100, and reads back as the number |
| `TimeTracking.ClockParts` | src/lib/timeTracking.ts:40-42 | for a non-negative duration, minutes and seconds are below 60 and hours·3600 + minutes·60 + seconds is the duration |
| `TimeTracking.ClockTextShape` | src/lib/timeTracking.ts:45 | minutes and seconds fields are exactly two wide and hours at least two |
| `TimeTracking.ParseFormatDuration` | src/lib/timeTracking.ts:39-46 | reading back the rendering of a non-negative duration gives the duration |
| `TimeTracking.FormatDurationInjective` | src/lib/timeTracking.ts:39-46 | different non-negative durations render differently |
| `TimeTracking.FormatDurationEightWide` | src/lib/timeTracking.ts:39-46 | the rendering is eight characters exactly for durations under 100 hours |
| `TimeTracking.NegativeDurationRendering` | src/lib/timeTracking.ts:39-46 | −5 seconds renders as "-1:-1:-5": each field keeps its own sign and is not padded |
| `TimeTracking.TotalDuration` | src/lib/timeTracking.ts:57-59 | the sum starts at 0; one entry totals its own duration; non-negative durations total a non-negative sum |
| `TimeTracking.TotalDurationConcat` | src/lib/timeTracking.ts:57-59 | the total of a concatenation is the sum of the totals |
| `TimeTracking.TotalDurationPermutation` | src/lib/timeTracking.ts:57-59 | the total does not depend on the order of the entries |
| `TimeTracking.TotalDurationBounds` | src/lib/timeTracking.ts:57-59 | with non-negative durations the total is non-negative and at least each entry's duration |
| `TimeTracking.ClientServerPeriodStartAgree` | src/lib/timeTracking.ts:65-78 | the browser and the server start each period at the same instant |
| `TimeTracking.EntriesByPeriod` | src/lib/timeTracking.ts:61-81 | keeps exactly the entries that started at or after the period start, as a sub-multiset |
| `TimeTracking.EntriesByPeriodConcat` | src/lib/timeTracking.ts:80 | selection over a concatenation is the concatenation of the selections |
| `TimeTracking.PeriodTotalAtMostTotal` | src/lib/timeTracking.ts:57-81 | with non-negative durations a period's total never exceeds the overall total |
| `TimerAccounting.FinalDuration` | server/src/routes/activeTimer.ts:109-119 | the recorded duration is the net elapsed whole seconds, clamped at zero: never negative and never below the net elapsed time |
| `TimerAccounting.NetElapsed` | server/src/routes/activeTimer.ts:109-111 | the net elapsed whole seconds: together with the pause total, the span from the start rounded down to a whole second |
| `TimerAccounting.PauseSeconds` | server/src/routes/activeTimer.ts:189-191 | resume adds the whole seconds since the pause began, or nothing when the pause time is missing |
| `TimerAccounting.NetElapsedMonotone` | server/src/routes/activeTimer.ts:109-111 | net elapsed time never decreases as the clock advances |
| `TimerAccounting.PauseResumeKeepsElapsed` | server/src/routes/activeTimer.ts:155-197 | with the start and the pause instant read back in whole seconds, a pause followed by a resume leaves net elapsed time exactly where it stood at the pause |
| `TimerAccounting.PageStopAgreesUnlessNegative` | src/pages/Index.tsx:67-69 | the main page's stop agrees with the server whenever its value is non-negative; otherwise it is below the server's |
| `TimerAccounting.PageStopCanBeNegative` | src/pages/Index.tsx:68-69 | 10 paused seconds and a stop 5 seconds after the start give −5 on the page and 0 on the server |
| `TimerAccounting.FooterOvercountsPauses` | src/components/ActiveTimerFooter.tsx:40-41 | the footer's stop counts paused time as work: it exceeds the server's value by the pause total |
| `TimerRoutes.Stop` | server/src/routes/activeTimer.ts:99-138 | no timer gives 404. Otherwise the timer is recorded as an entry and then deleted. The entry has the timer's project and stored start, ends at now in whole seconds, and has the final duration measured to the exact clock. A refused insert gives 500 |
| `TimerRoutes.Start` | server/src/routes/activeTimer.ts:41-96 | a non-UUID project gives 400. An existing timer is first recorded and deleted. The fresh timer starts at now in whole seconds and is running, unpaused, with no pauses. An unknown project gives 500 after the old timer is already gone |
| `TimerRoutes.Pause` | server/src/routes/activeTimer.ts:141-172 | no timer gives 404 and a paused timer 400. Otherwise the timer becomes paused as of now in whole seconds, and nothing else changes |
| `TimerRoutes.Resume` | server/src/routes/activeTimer.ts:175-211 | no timer gives 404 and an unpaused timer 400. Otherwise the pause total grows by the whole paused seconds, and the paused flag and pause time are cleared |
| `TimerRoutes.ChangeProject` | server/src/routes/activeTimer.ts:214-245 | 400 for a non-UUID, 404 without a timer, 500 for an unknown project; otherwise only the timer's project changes |
| `TimerRoutes.TimerRoutesPreserveWellFormed` | server/src/db/schema.ts:14-32 | every timer handler keeps primary keys, the singleton timer key and the foreign keys intact |
| `TimerRoutes.TimerRoutesKeepWholeSeconds` | server/src/db/schema.ts:27-30 | every timer handler leaves every stored instant a whole second |
| `TimerRoutes.PauseResumeScenario` | server/src/routes/activeTimer.ts:99-211 | start at 0 s, pause at 100 s, resume at 130 s and stop at 200 s record 170 s |
| `TimerRoutes.DanglingPauseCountsAsWork` | server/src/routes/activeTimer.ts:109-111 | stopping while paused subtracts only pauses already folded in: pausing at 100 s and stopping at 200 s record 200 s |
| `TimerRoutes.SubSecondStartRoundsDown` | server/src/routes/activeTimer.ts:71-119 | the start is stored in whole seconds before a stop measures from it: started at 999 ms and stopped at 1000 ms, the entry starts at 0 and lasts one second |
| `ProjectRoutes.GenerateColor` | server/src/routes/projects.ts:23-30 | a generated colour is one of the twelve palette colours |
| `ProjectRoutes.NormalizePlanned` | server/src/routes/projects.ts:73 | planned hours of zero and absent planned hours are both stored as null |
| `ProjectRoutes.Create` | server/src/routes/projects.ts:64-85 | an empty name gives 400. The project gets the given colour, or a palette colour when none or "" is given. Exactly one project is added; an id already taken gives 500. Planned hours of 0 or none become null, any other value is kept. The reply's creation time is now; the stored row keeps now in whole seconds |
| `ProjectRoutes.Update` | server/src/routes/projects.ts:88-114 | an empty new name gives 400 and an unknown id 404. An update with no field gives 500 and changes nothing. Otherwise exactly the supplied fields change, and the id and creation time stay |
| `ProjectRoutes.Delete` | server/src/routes/projects.ts:117-136 | an unknown id gives 404. Otherwise the project and exactly its entries are removed, other entries unchanged. A timer on that project is removed by the cascade |
| `ProjectRoutes.DeleteLeavesNoReference` | server/src/routes/projects.ts:117-136 | after a delete no entry and no timer refers to the project |
| `ProjectRoutes.ProjectRoutesPreserveWellFormed` | server/src/db/schema.ts:5-32 | every project handler keeps keys and foreign keys intact |
| `ProjectRoutes.ProjectRoutesKeepWholeSeconds` | server/src/db/schema.ts:9 | every project handler leaves every stored instant a whole second |
| `ProjectRoutes.List` | server/src/routes/projects.ts:33-43 | every project exactly once, newest first |
| `EntryRoutes.NormalizeDescription` | server/src/routes/timeEntries.ts:127 | an empty description is stored as null; any other description is kept |
| `EntryRoutes.Create` | server/src/routes/timeEntries.ts:116-147 | a non-UUID project or a negative duration gives 400, and an unknown project gives 500. Otherwise exactly one entry is added. It has the given project, duration and description, and the given start and end in whole seconds, as the reply reads them back |
| `EntryRoutes.Update` | server/src/routes/timeEntries.ts:149-186 | validation comes first (400). Then an unknown id gives 404, an update with no field 500, and an unknown new project 500. Otherwise exactly the supplied fields change, with instants stored in whole seconds and a null end clearing it |
| `EntryRoutes.RewriteChangesNothing` | server/src/routes/timeEntries.ts:162-178 | writing back every field a stored entry already has returns the entry unchanged and leaves the database as it was |
| `EntryRoutes.Delete` | server/src/routes/timeEntries.ts:188-205 | an unknown id gives 404; otherwise only that entry is removed |
| `EntryRoutes.EntryRoutesPreserveWellFormed` | server/src/db/schema.ts:13-21 | every entry handler keeps keys and foreign keys intact |
| `EntryRoutes.EntryRoutesKeepWholeSeconds` | server/src/db/schema.ts:17-18 | every entry handler leaves every stored instant a whole second |
| `EntryRoutes.Select` | server/src/routes/timeEntries.ts:62-88 | a non-empty project filter wins over a period. An unknown period is ignored. Otherwise every entry is selected |
| `EntryRoutes.List` | server/src/routes/timeEntries.ts:50-93 | exactly the selected entries, latest start first; in a table keyed by entry id each selected entry appears once and nothing else appears |
| `EntryRoutes.ProjectFilterWins` | server/src/routes/timeEntries.ts:62-72 | with a project filter, the list holds exactly that project's entries, whatever the period |
| `UserRoutes.Sanitize` | server/src/routes/users.ts:31 | the public user is the stored user minus the password and nothing else: putting the password back gives the stored row |
| `UserRoutes.SanitizeHidesPassword` | server/src/routes/users.ts:31 | users that differ only in the password sanitise alike, so a reply reveals nothing of it |
| `UserRoutes.FirstMatch` | server/src/routes/users.ts:42-44 | `findFirst` returns the first matching row, and none exactly when no row matches |
| `UserRoutes.ParseRole` | server/src/routes/users.ts:14 | an absent role defaults to standard; "admin" and "standard" are the only valid roles |
| `UserRoutes.Create` | server/src/routes/users.ts:58-94 | invalid input gives 400 and a taken username 409. Otherwise one user is appended with the hash of the password, and the reply omits the password. An empty creator is stored as null, any other creator as given. The stored creation time is now in whole seconds; the reply carries now |
| `UserRoutes.SupplementaryPasswordAccepted` | server/src/routes/users.ts:13 | the minimum password length counts UTF-16 code units: three characters outside the Basic Multilingual Plane are a valid password |
| `UserRoutes.Login` | server/src/routes/users.ts:96-124 | empty fields give 400. Login succeeds exactly when the first user with that name has the password's hash, and the reply is that user without the password; otherwise 401 |
| `UserRoutes.LoginMatchesStoredHash` | server/src/routes/users.ts:101-113 | with unique usernames, login succeeds exactly when some user has that name and that password hash |
| `UserRoutes.CreateThenLogin` | server/src/routes/users.ts:58-124 | a user just created can log in with the same password, and usernames stay unique |
| `UserRoutes.CreatePreservesWellFormedParts` | server/src/db/schema.ts:35-42 | creating a user keeps ids and usernames unique |
| `UserRoutes.AdminCount` | server/src/routes/users.ts:139-143 | the count is zero exactly when no user is an admin, and never more than the number of users |
| `UserRoutes.AdminCountIsMultiplicity` | server/src/routes/users.ts:139-143 | the count is exactly the number of rows whose role is admin |
| `UserRoutes.WithoutId` | server/src/routes/users.ts:148 | the delete keeps exactly the users with another id |
| `UserRoutes.Delete` | server/src/routes/users.ts:126-154 | an unknown id gives 404 and the last admin cannot be deleted (400). Otherwise the reply is 204 and exactly the users with another id remain, in order |
| `UserRoutes.WithoutIdKeepsAdmin` | server/src/routes/users.ts:137-148 | removing a non-admin, or one of several admins, leaves an admin |
| `UserRoutes.DeleteKeepsAnAdmin` | server/src/routes/users.ts:137-146 | with unique ids, a delete never leaves a system that had an admin without one |
| `UserRoutes.SanitizeAll` | server/src/routes/users.ts:31 | every user is sanitised, in place |
| `UserRoutes.List` | server/src/routes/users.ts:23-37 | every user without the password, newest first |
| `UserRoutes.Get` | server/src/routes/users.ts:39-56 | 404 exactly when no user has the id; otherwise that user without the password |
| `ClientHooks.StartTimer` | src/hooks/useActiveTimer.ts:10-18 | the timer row becomes a fresh running timer on the project, starting now; the tables are untouched |
| `ClientHooks.ClientStartDropsRunningTime` | src/hooks/useActiveTimer.ts:10-18 | starting over a running timer in the browser records nothing, where the server's start records the old timer as an entry. The new timers agree except that the server stores the start in whole seconds |
| `ClientHooks.StopTimer` | src/hooks/useActiveTimer.ts:21-23 | stopping deletes the timer row and records nothing |
| `ClientHooks.StopTimerIdempotent` | src/hooks/useActiveTimer.ts:21-23 | stopping twice equals stopping once |
| `ClientHooks.UpdateTimerProject` | src/hooks/useActiveTimer.ts:26-30 | without a timer nothing happens; otherwise only the timer's project changes |
| `ClientHooks.IsRunning` | src/hooks/useActiveTimer.ts:37 | running exactly when a timer exists and is flagged running |
| `ClientHooks.TimerHooksRunning` | src/hooks/useActiveTimer.ts:10-37 | after a start the timer runs, after a stop it does not, and a project change keeps the flag |
| `ClientHooks.ColorFor` | src/hooks/useProjects.ts:13-17 | a new project's colour is a palette colour |
| `ClientHooks.AddProject` | src/hooks/useProjects.ts:11-30 | the project gets the next palette colour by the current count and exactly one project is added; a taken id changes nothing |
| `ClientHooks.AddProjectRoundRobin` | src/hooks/useProjects.ts:13 | two projects added in a row get different colours, and the ninth repeats the first |
| `ClientHooks.PaletteDistinct` | src/lib/timeTracking.ts:28-37 | the eight palette colours are pairwise distinct |
| `ClientHooks.UpdateProject` | src/hooks/useProjects.ts:33-42 | a missing id is silently ignored; otherwise exactly the supplied fields of that project change |
| `ClientHooks.UpdateProjectIdempotent` | src/hooks/useProjects.ts:33-42 | an empty update changes nothing, and the same update twice equals once |
| `ClientHooks.DeleteProject` | src/hooks/useProjects.ts:45-57 | the project and exactly its entries are removed and the timer is left alone |
| `ClientHooks.DeleteProjectLeavesDanglingTimer` | src/hooks/useProjects.ts:45-57 | deleting the running timer's project in the browser leaves a timer naming a missing project |
| `EditDialog.CalculateDuration` | src/components/EditTimeEntryDialog.tsx:52-59 | 0 while a field is empty; otherwise the whole seconds from start to end, rounded down |
| `EditDialog.Trim` | src/components/EditTimeEntryDialog.tsx:104 | the trimmed text neither starts nor ends with white space |
| `EditDialog.TrimIsSlice` | src/components/EditTimeEntryDialog.tsx:104 | the trimmed text is a slice of the input with only white space cut on either side |
| `EditDialog.TrimKeepsInk` | src/components/EditTimeEntryDialog.tsx:104 | a text without white space is its own trim |
| `EditDialog.TrimIdempotent` | src/components/EditTimeEntryDialog.tsx:104 | trimming twice equals trimming once |
| `EditDialog.HandleSave` | src/components/EditTimeEntryDialog.tsx:61-110 | the checks run in order: project, start, end, end after start, end not in the future; a missing project gives NoProject, then a missing start NoStart, then a missing end NoEnd. The entry is saved exactly when end > start and end ≤ now. It keeps its id, takes the form's fields and the trimmed description (null when empty), and its duration is the whole seconds between start and end |
| `EditDialog.SavedDurationIsPreview` | src/components/EditTimeEntryDialog.tsx:52-96 | the saved duration equals the duration previewed |
| `Heatmap.GetIntensity` | src/components/reports/ActivityHeatmap.tsx:67-73 | level 0 exactly for an empty day. Level 1 below one hour, negative totals included; 2 below two hours; 3 below four hours; 4 from four hours |
| `Heatmap.IntensityMonotone` | src/components/reports/ActivityHeatmap.tsx:67-73 | more time on a day never gives a lower level |
| `Heatmap.GetColor` | src/components/reports/ActivityHeatmap.tsx:75-87 | the faded shade exactly for future days; otherwise the level's shade |
| `Heatmap.ShadesDistinct` | src/components/reports/ActivityHeatmap.tsx:79-86 | past days at different levels get different shades |
| `Heatmap.StartedWithin` | src/components/reports/ActivityHeatmap.tsx:41-44 | exactly the entries that started in the day's interval, each as many times as the input holds it |
| `Heatmap.Grid` | src/components/reports/ActivityHeatmap.tsx:29-61 | the loop builds 12 rows of 7, cell (w, d) being day first + 7w + d |
| `Heatmap.FutureIsAfterToday` | src/components/reports/ActivityHeatmap.tsx:47 | a day lies after today's end exactly when it is numbered after today |
| `Heatmap.FirstShownDay` | src/components/reports/ActivityHeatmap.tsx:17-26 | as written the grid starts on the Monday 0 to 6 days before the window's first day |
| `Heatmap.FirstShownDayCorrected` | src/components/reports/ActivityHeatmap.tsx:17-26 | corrected, the grid starts on a Monday and its 84 days include today |
| `Heatmap.ActivityHeatmap` | src/components/reports/ActivityHeatmap.tsx:10-64 | as written: 12 rows of 7 cells from that Monday, each cell being its day's cell |
| `Heatmap.ActivityHeatmapCorrected` | src/components/reports/ActivityHeatmap.tsx:10-64 | corrected: the same grid from the corrected first day |
| `Heatmap.RowsStartOnMonday` | src/components/reports/ActivityHeatmap.tsx:23-26 | every row starts on a Monday, as written and corrected |
| `Heatmap.DayCellContents` | src/components/reports/ActivityHeatmap.tsx:32-54 | a cell holds its day's number and midnight and the total of that day's entries; it is future exactly when after today |
| `Heatmap.AsWrittenOmitsToday` | src/components/reports/ActivityHeatmap.tsx:17-47 | as written no cell is ever future, and unless the window starts on a Monday the grid ends before today |
| `Heatmap.AsWrittenMondayExample` | src/components/reports/ActivityHeatmap.tsx:17-26 | when today is a Monday the grid's last cell is yesterday; corrected it starts 6 days later |
| `Heatmap.CorrectedShowsToday` | src/components/reports/ActivityHeatmap.tsx:17-47 | corrected, today is in the last row and exactly the cells after it are future |
| `Heatmap.GridsAgreeOnSunday` | src/components/reports/ActivityHeatmap.tsx:23-26 | when today is a Sunday both grids start on the window's first day |

## Left out

- I/O is not modelled. HTTP transport, fetch, IndexedDB, local storage and
  timers are state transitions over values. Each storage write that can fail
  is a boolean parameter.
- The clock is not modelled. `Date.now()`, `new Date()` and local-time
  calendar arithmetic (midnights, weekdays, the first of the month) are
  parameters: `now`, `Today`, the heatmap's `midnight` function, and the
  dialog's `at`.
- `TimerRoutes.Start`: one `now` stands for the two clock reads of the
  handler (server/src/routes/activeTimer.ts:52 for the old timer's end, :72
  for the new start), so the recorded entry ends exactly where the new timer
  begins; in the program the second read can be a few milliseconds later.
  `TimerRoutes.Resume` likewise uses one `now` for the fallback pause instant
  and the elapsed reading (activeTimer.ts:189-190).
- The joined project row is left out of the entry and timer replies. Every
  entry and timer read in the program asks for `with: { project: true }`
  (server/src/routes/timeEntries.ts:57,67,80,100,134,173 and
  server/src/routes/activeTimer.ts:28,83,128,162,201,232). The model replies
  with the bare row. The joined row is the project stored under the row's
  `projectId`, which the reply's state holds, and the foreign keys
  (`Entities.ForeignKeysHold`) make it present.
- Randomness and hashing are parameters. `crypto.randomUUID()` becomes a
  fresh id passed in. The server palette draw is `draw`. The password hash
  is `hash`.
- `JSON.stringify` and `JSON.parse` are not modelled. Stringify is a function
  bundle (`Sync.Json`) from values to UTF-16 code units. Parsed files arrive
  already decoded, with missing arrays as None.
- The `lastSync` ISO strings, the status record's contents, the console
  messages, toasts and the human-readable messages are left out. Only the
  outcomes are kept.
- Date conversions (`new Date(x)` on load) are not modelled. Timestamps are
  integer milliseconds, and the server's columns round them down to whole
  seconds through `Common.Stored`.
- Locale labels in the heatmap (`toLocaleDateString`) are left out.
- `exportToFile`, `exportDataToJSON`, `getSyncStatus` and the
  `beforeunload`, `load` and `visibilitychange` listeners are outside the
  core. They only call the modelled save and load.
- The periodic five-minute saves of auto-sync and auto-save are only an
  on/off flag. Each tick is a call to the modelled save.
- `Entities.PutTimer`: a timer row put under an id other than "active"
  (an imported or synced timer carrying another id) is not kept. The
  program stores it in a row that no reader asks for
  (`src/lib/sync.ts:49,303`, `src/lib/db.ts:194`,
  `src/hooks/useActiveTimer.ts:7`), so the model keeps only the "active"
  row.
- `Sync.FilesRoundTrip`: the three JSON files are modelled as storage that
  returns what the last successful write stored. The program does not
  guarantee this. `saveFile` POSTs to `/api/save-sync<file>` and writes the
  `trackly_file_` local-storage key only when that request throws
  (`src/lib/sync.ts:94-107`). `loadFile` GETs the file and reads the key only
  when the request or the JSON parse throws; an answer that is not ok gives
  null (`src/lib/sync.ts:166-180`). The repository's server has no
  `/api/save-sync` route (`server/src/index.ts:24-37`). So a file written
  offline can read back as null. `Sync.SaveThenLoadRejected` and
  `Sync.SaveThenLoadCorrected` inherit this assumption.
- `EntryRoutes.Create` / `EntryRoutes.Update`: durations are whole seconds.
  The routes validate `z.number().min(0)`
  (`server/src/routes/timeEntries.ts:14,22`), which also accepts a fraction
  such as 1.5, and SQLite's integer-affinity column keeps it as a real. The
  model accepts only integer durations.
- Concurrency between interleaved async handlers is not modelled. Each
  handler runs atomically on the state it reads.
- Authentication middleware and the Zod error payloads are left out. Zod
  validation is reduced to the checks it makes: a UUID, a minimum length, a
  non-negative duration, an enum.
- `Ordering.StrLess`: keys are ordered by Unicode scalar value, while
  IndexedDB compares UTF-16 code units. The two orders differ only between a
  character in U+E000..U+FFFF and one above U+FFFF. The keys the program
  writes (UUIDs, decimal timestamps, "active") are ASCII.
- `ClientHooks.StartTimer`: the browser's timer row leaves `isPaused`,
  `pausedAt` and `totalPausedDuration` undefined. The model stores the values
  the readers fall back to: false, none and 0.
- `Sync.LoadSyncData`: its contract states only the no-data and rejection
  paths. The behaviour on an intact record is stated by `Sync.LoadRecord`,
  which it calls.
- `Sync.SaveToJsonFiles`: the timer file's version and timestamp are not
  stated, because the loader never reads them.
- `Dexie.BulkAdd`: the refused rows' error is a flag. Which row failed is not
  reported.
- `LocalDb.SaveToJsonStore`: the backup's `lastSync` field is not modelled.
- `Checksum.ChecksumDeterminesMagnitude`: the checksum loses the sign of the
  hash, and distinct texts can share a 32-bit hash. The model states only
  what an equal checksum implies.
- `UserRoutes.Login`: the hash function is a parameter, so the model makes no
  claim that distinct passwords hash differently.

## Findings

| source | as written | input that shows it | evidently intended | confidence | as-written member | corrected member |
|---|---|---|---|---|---|---|
| src/lib/sync.ts:200 | `loadFromJsonFiles` returns its record with checksum `''`. `loadSyncData` prefers that record whenever a projects or entries file exists (212-216) and compares it with a recomputed, never-empty checksum (238-248). So every file-backed load reports corrupted data | any load while a projects or entries file is readable, for instance a save whose projects file write succeeds followed by a load | the file record's checksum is recomputed before use (the comment on line 200 says so), so a save followed by a load restores the data | high; not executed | `Sync.LoadSyncData` (shown by `Sync.FileSnapshotAlwaysRejected`, `Sync.SaveThenLoadRejected`) | `Sync.LoadSyncDataCorrected` (proved by `Sync.SaveThenLoadCorrected`) |
| src/components/reports/ActivityHeatmap.tsx:17-26 | the grid starts on the Monday on or before the first of the last 84 days and shows 84 days from there. It therefore ends 0 to 6 days before today, and `isFuture` (line 47) is never true | today a Monday: the window starts on a Tuesday, the grid starts the day before it, and its last cell is yesterday | the twelve rows end with today's week, with the days after today faded | medium; not executed | `Heatmap.ActivityHeatmap` (shown by `Heatmap.AsWrittenOmitsToday`, `Heatmap.AsWrittenMondayExample`) | `Heatmap.ActivityHeatmapCorrected` (proved by `Heatmap.CorrectedShowsToday`) |
