# Lab-seat attendance tracker: session lifecycle and record store

This project models the logic of a browser-based lab-seat attendance tracker.
Students check in to a numbered workstation and later check out. The tool
keeps one record per session, refuses a check-in when the student or the
workstation already has an open session, computes the session's duration from
two `HH:mm` clock readings, and reports the records: a searchable,
filterable, newest-first list, summary figures and a CSV export.

The Dafny modules follow the source files:

- `Types` — the record (types.ts): id, student name, system number, date,
  check-in time, optional check-out time and duration, status, timestamp.
- `Seqs` — the array traversals the code uses: `find`/`findIndex`
  (`IndexWhere`) and `filter` (`Filter`), with their order and multiplicity facts.
- `Text` — `toLowerCase` (ASCII), `trim`, `includes`, `join`, `split` and
  integer-to-decimal text.
- `Clock` — `HH:mm` parsing and formatting, the wrap-around duration and the
  hours/minutes split.
- `Storage` — services/storageService.ts as the class `RecordStore`. Its one
  field `slot` is the value behind the storage key: `Missing`, `Unreadable`
  or `Saved(records)`. `saveRecord`, `deleteRecord` and an `updateRecord` that
  finds its id read the collection, change it and write the whole collection
  back. An `updateRecord` whose id is unknown writes nothing, and
  `clearAllRecords` reads nothing and removes the key.
- `AttendanceForm` — the decision procedure of components/AttendanceForm.tsx.
  `Decide` is the specification and `HandleSubmit` the early-return method.
  The module also defines the invariants: at most one open session per
  lower-cased student name (`OneSessionPerStudent`), at most one per system
  number (`OneSessionPerSystem`), unique ids, and well-shaped records (`Consistent`).
- `App` — App.tsx as the class `AttendanceApp`. It holds the store and the
  snapshot of its records. Its methods commit a decision (append on check-in,
  close-by-id on check-out) and re-read the store. This module holds the
  theorems that each commit keeps the invariants.
- `Dashboard` — the pure reporting functions of components/Dashboard.tsx.

The clock reading, the generated id and the creation instant are parameters.
A new id is required to be fresh. Clock readings are required to be
well-formed `HH:mm` strings.

Some behaviours of the source are easy to miss:

- `Stats` in types.ts:16-21 declares `uniqueStudents`, but the statistics of
  components/Dashboard.tsx:32-40 return only the total, the active count and
  the mean duration. `Dashboard.Stats` has those three figures.
- The CSV rows of components/Dashboard.tsx:47-55 always quote the student name
  and never escape a quote inside it. No other field is quoted.
- Because of `||` in components/Dashboard.tsx:53 and the truthiness test at
  line 207, a duration of 0 exports as an empty cell and displays as `-`.
- components/AttendanceForm.tsx:42 trims the fields only for the emptiness
  test. Lines 51, 58 and 64-72 store and compare the untrimmed text.

## Model

| member | source | states |
|---|---|---|
| Seqs.IndexWhere | services/storageService.ts:23 | `findIndex`: the position of the first element that passes the test, or -1 exactly when none does |
| Seqs.Filter | components/Dashboard.tsx:20-27 | `filter`: the result is no longer than the input, holds only elements of the input that pass the test, and holds every element that passes it |
| Text.LowerChar | components/AttendanceForm.tsx:51 | An ASCII capital becomes the small letter 32 code points above it; every other character is kept |
| Text.Lower | components/AttendanceForm.tsx:51 | Lower-casing keeps the length and folds each character independently |
| Text.LowerIdempotent | components/Dashboard.tsx:23 | Lower-casing an already lower-cased name changes nothing |
| Text.TrimStart | components/AttendanceForm.tsx:42 | The result is the suffix left after a run of white space, and it starts with a non-space when non-empty |
| Text.TrimEnd | components/AttendanceForm.tsx:42 | The result is the prefix left before a run of white space, and it ends with a non-space when non-empty |
| Text.Trim | components/AttendanceForm.tsx:42 | The trimmed text is no longer than the input, and when non-empty it starts and ends with a non-space |
| Text.TrimIsMiddle | components/AttendanceForm.tsx:42 | The trimmed text is the contiguous middle of the input, and every character before and after it is white space |
| Text.IsBlank | components/AttendanceForm.tsx:42 | A field is blank when nothing is left after trimming. `BlankIffAllWhitespace` characterises it |
| Text.BlankIffAllWhitespace | components/AttendanceForm.tsx:42 | A field counts as empty after trimming exactly when all its characters are white space |
| Text.Contains | components/Dashboard.tsx:23-24 | `includes`: the search text occurs at some position of the field. `ContainsEmpty` and `FilteredRecordsSpec` state what follows from it |
| Text.ContainsEmpty | components/Dashboard.tsx:23-24 | The empty search text occurs in every name and every system number |
| Text.Join | components/Dashboard.tsx:46-56 | `join`: the pieces with the separator between neighbours. `SplitJoin` is its inverse |
| Text.Split | components/Dashboard.tsx:46-56 | Splitting at a character gives at least one piece, and it undoes `Join` (see `SplitJoin`) |
| Text.SplitJoin | components/Dashboard.tsx:45-56 | Splitting a joined text at the separator gives back the pieces when no piece contains the separator |
| Text.NatToDecimal | components/Dashboard.tsx:53 | The decimal text of a number is non-empty, made of digits only and without a leading zero, as `String(n)` gives |
| Text.DecimalRoundTrip | components/Dashboard.tsx:53 | Reading the decimal text of a number back gives the number |
| Text.IntToDecimal | components/Dashboard.tsx:53 | Non-negative numbers print as digits; negative ones print as a minus sign followed by digits |
| Text.IntToDecimalValue | components/Dashboard.tsx:53 | The digits of the printed text denote the number, or its magnitude after the minus sign |
| Text.IntToDecimalPlain | components/Dashboard.tsx:53 | A printed number never contains a comma or a line break, so it cannot break a CSV row |
| Clock.Hours | components/AttendanceForm.tsx:88-89 | The hour field of a well-formed time is below 24 |
| Clock.Minutes | components/AttendanceForm.tsx:88-89 | The minute field of a well-formed time is below 60 |
| Clock.MinutesOfDay | components/AttendanceForm.tsx:91 | Minutes since midnight of a well-formed time lie in [0, 1440) |
| Clock.FormatTime | components/AttendanceForm.tsx:47 | A zero-padded `HH:mm` text is well-formed and parses back to its hour and minute |
| Clock.FormatParsed | components/AttendanceForm.tsx:88-89 | Formatting the parsed fields of a well-formed time gives back the same text |
| Clock.MinutesOfDayInjective | components/AttendanceForm.tsx:88-91 | Two well-formed times with the same minutes since midnight are the same text |
| Clock.Duration | components/AttendanceForm.tsx:88-93 | The duration lies in [0, 1439], and adding it to the check-in time on a 24-hour clock gives the check-out time |
| Clock.DurationUnique | components/AttendanceForm.tsx:91-93 | No other value in [0, 1440) brings the check-in time to the check-out time, so the duration is determined |
| Clock.DurationExamples | components/AttendanceForm.tsx:91-93 | 09:00 to 10:30 lasts 90 minutes, and 23:30 to 00:15 lasts 45 minutes |
| Clock.HoursMinutes | components/AttendanceForm.tsx:96 | For a non-negative duration, `h*60 + m` equals it with `0 <= m < 60`; for a negative one both parts are at most 0, as JavaScript's `%` gives |
| Storage.Load | services/storageService.ts:5-13 | Reading gives the saved collection, and an empty one when the key is missing or unreadable |
| Storage.FirstIndexOf | services/storageService.ts:23 | The index is the first position holding the id, or -1 exactly when no record holds it |
| Storage.Replaced | services/storageService.ts:21-28 | The collection `updateRecord` writes has the same length, and every record with another id stays in place. `ReplacedSpec` gives the rest |
| Storage.ReplacedSpec | services/storageService.ts:21-28 | Updating keeps the length and every id. The first record with the updated id becomes the new record. Every other position is kept. An unknown id leaves the collection unchanged |
| Storage.ReplacedIdempotent | services/storageService.ts:21-28 | Updating twice with the same record gives the same collection as updating once |
| Storage.Without | services/storageService.ts:30-34 | The collection `deleteRecord` writes is no longer than before. It holds only old records, none with the id, and every old record with another id |
| Storage.WithoutSpec | services/storageService.ts:30-34 | After deleting an id no record carries it. Records with other ids keep their number of copies. An absent id changes nothing |
| Storage.WithoutKeepsOrder | services/storageService.ts:32 | Deleting acts on each part of a concatenation separately, so the remaining records keep their relative order |
| Storage.RecordStore.GetRecords | services/storageService.ts:5-13 | `getRecords` never fails: it returns the stored collection, or no records when nothing readable is stored |
| Storage.RecordStore.SaveRecord | services/storageService.ts:15-19 | The stored collection becomes the old one followed by the record, one longer |
| Storage.RecordStore.UpdateRecord | services/storageService.ts:21-28 | The first record with the id is replaced and the collection written back; with an unknown id the stored value is left exactly as it was |
| Storage.RecordStore.DeleteRecord | services/storageService.ts:30-34 | The collection written back is the old one without the records carrying the id |
| Storage.RecordStore.ClearAllRecords | services/storageService.ts:36-38 | The key is removed, so reading afterwards yields no records |
| AttendanceForm.SameStudent | components/AttendanceForm.tsx:51 | Two names belong to the same student when they are equal after lower-casing |
| AttendanceForm.IsSessionOf | components/AttendanceForm.tsx:27-31 | A record is an open session of the student at the system: same lower-cased name, the same system number and status `Active` |
| AttendanceForm.ActiveSession | components/AttendanceForm.tsx:27-31 | A found session is the first record of the input that is open, at the same system and with the same lower-cased name. None is found exactly when no record is such a session |
| AttendanceForm.StudentActive | components/AttendanceForm.tsx:51 | Some open record has the same lower-cased student name. `Decide` and `CheckInRefusals` state its effect |
| AttendanceForm.SystemInUse | components/AttendanceForm.tsx:58 | Some open record is at the same system number. `Decide` and `CheckInRefusals` state its effect |
| AttendanceForm.Decide | components/AttendanceForm.tsx:39-102 | Checks run in a fixed order and the first failure decides. A blank name or system is refused first. Check-in is refused when the student has an open session, and then when the system is taken. Otherwise it builds a fresh open record with no check-out fields. Check-out is refused when there is no active session; otherwise it closes that session with the computed duration |
| AttendanceForm.CheckInRefusals | components/AttendanceForm.tsx:51-62 | Any open record of the same lower-cased student refuses the check-in as already active, whatever the system. Any open record at the same system refuses it, whoever the student |
| AttendanceForm.HandleSubmit | components/AttendanceForm.tsx:39-102 | The early-return procedure with its reassigned duration decides exactly as `Decide` |
| App.FindById | App.tsx:30 | `find` by id: none exactly when no record has the id, and otherwise the first record holding it |
| App.CompletedRecord | App.tsx:32-37 | The closed copy keeps id, student, system, date, check-in time and timestamp; it is `Completed` with the given check-out time and duration |
| App.CheckedOut | App.tsx:29-41 | The collection after a check-out has the same length, and records with other ids stay in place. `CheckedOutSpec` gives the rest |
| App.CheckedOutSpec | App.tsx:29-41 | Checking out an unknown id changes nothing. Otherwise only the first record with that id is closed, and the length and every other position are kept |
| App.AppendKeepsSessionsUnique | components/AttendanceForm.tsx:51-62 | Appending an open record that passed both guards keeps at most one open session per student and per system |
| App.CheckInKeepsSessionsUnique | components/AttendanceForm.tsx:49-74 | If each student and each system had at most one open session, a successful check-in followed by the append keeps that |
| App.CheckOutKeepsSessionsUnique | App.tsx:29-41 | Closing a record by id never opens a session, so the single-session rules survive any check-out commit |
| App.CheckInKeepsConsistent | components/AttendanceForm.tsx:64-74 | A check-in with a fresh id keeps every invariant, including unique ids and well-shaped records |
| App.CheckOutKeepsConsistent | App.tsx:29-41 | A check-out commit with a well-formed time and a duration within one day keeps every invariant |
| App.CheckOutClosesOnlyTheOpenSession | components/AttendanceForm.tsx:82-95 | With unique ids, the record found first by the id of the active session is that session, open at that system for that student. Closing it by id leaves every closed record untouched, so a status only goes from `Active` to `Completed` |
| App.ScenarioChecksIn | components/AttendanceForm.tsx:49-74 | On an empty store a non-blank student checks in at 09:00 at a free system and gets an open record |
| App.ScenarioCannotCheckInTwice | components/AttendanceForm.tsx:51-55 | While that session is open the same student is refused at another system as already active |
| App.ScenarioChecksOut | components/AttendanceForm.tsx:82-95 | Checking out of that session at 09:45 closes it with a duration of 45 minutes |
| App.ScenarioCommitsCheckOut | App.tsx:29-41 | Committing that check-out replaces the open session by its closed copy |
| App.ScenarioCannotCheckOutTwice | components/AttendanceForm.tsx:82-85 | Once the session is closed, a second check-out for the same pair finds no active session |
| App.AttendanceApp.constructor | App.tsx:14-17 | When the app mounts, its snapshot is what the store holds. An empty store gives an empty snapshot, which meets every lifecycle invariant, so the invariants `SubmitForm` requires hold from the start |
| App.AttendanceApp.Refresh | App.tsx:14-21 | The snapshot is re-read from the store |
| App.AttendanceApp.HandleCheckIn | App.tsx:23-27 | Exactly the given record is appended to the store, and the snapshot follows |
| App.AttendanceApp.HandleCheckOut | App.tsx:29-41 | The record with the id is closed in the store. An id missing from the snapshot changes neither the store nor the snapshot |
| App.AttendanceApp.SubmitForm | components/AttendanceForm.tsx:39-102 | One submission and its commit. A refusal commits nothing. Check-in appends the new record and check-out closes the session. Every invariant is kept and no closed record changes |
| Dashboard.MatchesSearch | components/Dashboard.tsx:22-24 | The lower-cased name contains the lower-cased term, or the system number contains the term as typed |
| Dashboard.MatchesStatus | components/Dashboard.tsx:25 | Filter `All` lets every record through; a status filter lets through only records with that status |
| Dashboard.Shown | components/Dashboard.tsx:26 | A record is listed when it matches both the search and the status filter |
| Dashboard.Insert | components/Dashboard.tsx:28 | One step of the sort: the record goes before the first one that is not newer. `InsertSpec` states its effect |
| Dashboard.InsertSpec | components/Dashboard.tsx:28 | Inserting into a newest-first list keeps it newest first and adds exactly the one record |
| Dashboard.SortNewestFirst | components/Dashboard.tsx:28 | `sort` by descending timestamp. `SortSpec` proves it newest first and a permutation |
| Dashboard.SortSpec | components/Dashboard.tsx:28 | The sorted list has non-increasing timestamps and is a permutation of its input |
| Dashboard.FilteredRecords | components/Dashboard.tsx:19-29 | The records the search and the status filter let through, sorted newest first. `FilteredRecordsSpec` proves exactly which records appear |
| Dashboard.FilteredRecordsSpec | components/Dashboard.tsx:19-29 | Every listed record passes the status filter. Its lower-cased name contains the lower-cased term, or its system number contains the term. Every such record appears with all its copies, and the list is newest first |
| Dashboard.UnfilteredIsPermutation | components/Dashboard.tsx:22-25 | With no search text and filter `All`, the list is a reordering of all records |
| Dashboard.DurationOrZero | components/Dashboard.tsx:36 | The duration a record contributes to the total: the recorded one, or 0 when none is recorded |
| Dashboard.TotalMinutes | components/Dashboard.tsx:36 | The left fold of the durations, with a missing one counted as 0. When no duration is negative the sum is not negative |
| Dashboard.RoundedMean | components/Dashboard.tsx:37 | The result is the integer nearest to `sum/n`, with halves rounded up: `2n*m - n <= 2*sum < 2n*m + n` |
| Dashboard.RoundedMeanUnique | components/Dashboard.tsx:37 | No other integer meets that bound, so it is `Math.round` of the mean |
| Dashboard.ComputeStats | components/Dashboard.tsx:32-40 | The total is the number of records, and the active count is at most the total. `StatsSpec` gives the rest |
| Dashboard.StatsSpec | components/Dashboard.tsx:32-40 | The total is the number of records. Active and closed records together make up the total, so active is at most the total. The mean is 0 with no closed record, and otherwise the rounded mean of their durations, with a missing duration counted as 0 |
| Dashboard.StatsExample | components/Dashboard.tsx:32-40 | Two closed sessions of 30 and 90 minutes and one open session give total 3, active 1 and mean 60 |
| Dashboard.Header | components/Dashboard.tsx:44 | The header has seven column titles, and none of them contains a comma or a line break |
| Dashboard.StatusText | components/Dashboard.tsx:54 | The status cell is non-empty and contains no comma and no line break |
| Dashboard.CheckOutCell | components/Dashboard.tsx:52 | The check-out cell is empty exactly when there is no check-out time or it is the empty text |
| Dashboard.DurationCell | components/Dashboard.tsx:53 | The duration cell is empty exactly when the duration is absent or 0 |
| Dashboard.RowCells | components/Dashboard.tsx:47-55 | A row has as many cells as the seven-column header |
| Dashboard.Row | components/Dashboard.tsx:47-55 | A record's cells joined by commas. `RowRoundTrip` splits it back into the cells |
| Dashboard.CsvLines | components/Dashboard.tsx:44-56 | The export has `1 + n` lines: the header first, then record `i`'s row at line `i + 1` |
| Dashboard.CsvContent | components/Dashboard.tsx:45-56 | The lines joined by line breaks. `CsvLinesRoundTrip` splits it back into the header and one row per record |
| Dashboard.ExportCsv | components/Dashboard.tsx:43-56 | The export is built from the list as filtered and sorted on screen (`FilteredRecords`), not from all records |
| Dashboard.CsvLinesRoundTrip | components/Dashboard.tsx:43-56 | When no field holds a line break, splitting the export at line breaks gives back the header and one row per record |
| Dashboard.RowRoundTrip | components/Dashboard.tsx:47-55 | When no field holds a comma, splitting a row at commas gives back its cells. The name cell is quoted. The check-out cell is empty when there is no time. The duration cell is empty when the duration is absent or 0 |
| Dashboard.DurationLabel | components/Dashboard.tsx:207 | The table shows `-` exactly when the duration is absent or 0, and otherwise the hours/minutes split |
| Dashboard.DurationLabelSplits | components/Dashboard.tsx:207 | A positive duration shows as `<h>h <m>m`: canonical decimal texts whose whole hours times 60 plus minutes, below 60, give the duration back |

## Left out

- components/Layout.tsx, all JSX markup, toasts, navigation tabs and the form's own React state (field values, mode toggle, resetting the fields after success). These are presentation only.
- The `useEffect` hooks and the `refreshTrigger` counter. `AttendanceApp.Refresh` re-reads the store directly, which is the effect the counter triggers. The app's first render with an empty list, before the mount effect runs, is folded into the constructor.
- The clock (`setInterval`, `toLocaleTimeString`). The reading `now` is an input and must be a well-formed `HH:mm` string. Stored check-in times are covered by the same assumption through `CheckInTimesWellFormed`.
- AttendanceForm.Decide: requires well-formed times even in check-in mode, and for every stored check-in time. `Number` parsing of other shapes (`"9:5"`, NaN from malformed text) is not modelled.
- `uuidv4()` and `Date.now()`. The id and the timestamp are parameters. `SubmitForm` requires the id to be fresh. Timestamps have no ordering requirement, because nothing in the logic depends on one.
- `localStorage` and JSON. The stored value is the `Slot` datatype. A parse that succeeds but yields something other than an array of records, write failures such as an exceeded quota, and the console logging are not modelled.
- services/geminiService.ts, the external text-generation call with its fixed fallback texts. It is a network call with no logic worth a model.
- The Blob/URL/anchor download of the CSV and the ISO date in its file name. These are browser I/O; the model stops at the CSV text (`ExportCsv`).
- Dashboard.RoundedMean: computes `Math.round` of the mean in exact integer arithmetic. JavaScript divides in floating point.
- Text.Lower: folds only ASCII letters. JavaScript's `toLowerCase` also folds other Unicode letters.
- Dashboard.SortSpec: the sort is implemented stable, as JavaScript's `sort` is, but stability is not proved.
- Concurrency across several browser tabs is not modelled. The model assumes one writer, and `AttendanceApp.Synced` states that the snapshot equals the store.
- AttendanceApp.Synced: does not hold after an AI report in the source. services/geminiService.ts:23-24 sorts the array it is given in place. components/Dashboard.tsx:68 passes it the app's own `records` state, so the snapshot becomes newest first while the store keeps insertion order. The model does not capture this reordering of the snapshot. When ids are unique and each student and system has at most one open session, every lookup of the app names at most one record: `find` by id, `activeSession`, and the two `some` tests. So the reordering does not change their results.
