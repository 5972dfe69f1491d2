# Control de Asistencias — a verified model of the attendance core

Control de Asistencias is a browser application in which a teacher keeps
subjects (*materias*), sections (class groups), the students of each
section and the attendance of every student on every day. This project
models two source files in Dafny:

- `data_manager.js`: the store behind the application;
- `app.js`: the computations of the screen that read from and write to it.

The store covers:

- the state tree of subjects and sections, each section owning a roster, a
  sparse attendance map and a map of late-arrival times;
- the migration `loadState` runs on what it finds in storage;
- the create, update and delete operations;
- the attendance cell state machine (`setAttendanceStatus` and
  `toggleAttendance`);
- the weekday normalisation;
- the business-day generator.

The screen computations covered are:

- the counts on a section card, today's summary by gender and the general
  summary over all recorded dates;
- the list of late arrivals;
- the history period filter and the history table;
- the dates of the attendance map;
- the column headers and the birthday check;
- the handlers for bulk-adding students, switching a weekday, clicking a
  cell, setting the start date and cycling the momento marker.

`data_manager.js` mutates one state object in place. It is modelled by the
class `DataManager.Store`, whose fields `subjects`, `sections` and `saved`
(the storage slot) are reassigned by methods with `modifies` clauses. Each
method is tied to a specification function:

- `Attendance.ApplyStatus`, `Attendance.Toggle`, `Schema.Migrate`,
  `Schema.NormalizeWeekdays`, `Schema.SortStudents`, and so on.

The properties are proved about those functions. Loops stay loops:

- `getBusinessDays` is `Calendar.GetBusinessDays`;
- `loadState` is `Schema.LoadState`;
- the counting `forEach` loops of app.js are `Summary.CardCounts`,
  `Summary.GenderSummary` and `Summary.OverallSummary`;
- the loop of `handleBulkAddStudents` is `Handlers.AddLines`.

The page state that app.js keeps in its global `state` object is the class
`Views.ViewState`. The pure computations (history filter, labels, late
list, header format, birthday test) are functions with lemmas.

Modules, in dependency order:

| module | content |
|---|---|
| `Collections` | `Option`, in-order filter, first-match search, `indexOf` |
| `Text` | JavaScript string order, `trim`, `toLowerCase`, `includes`, `split`, `join`, `parseInt`, padded numerals |
| `Calendar` | dates, day numbers, weekdays, `YYYY-MM-DD` strings, business days, `HH:MM` stamps |
| `Roster` | the comparator sort used for rosters and the late list |
| `Schema` | the state tree, the stored document, the migration, weekday normalisation, save/load |
| `Attendance` | the attendance cell: set, toggle, delete-student clean-up |
| `DataManager` | the `Store` class and its operations |
| `Summary` | card counts, gender summary, general summary, late list |
| `History` | sorted dates, the period filter, the history table |
| `Views` | attendance map dates, headers, birthdays, momento, `ViewState` |
| `Handlers` | bulk add, start date, weekday switch, cell click |

Some behaviours of the code that a reader might not expect; the model
follows the code:

- **Empty late-time records stay.** `setAttendanceStatus` always creates
  `lateTimes[date]`, so an empty late-time record can stay behind. Late
  times are not in one-to-one correspondence with `L` entries.
- **`deleteStudent` leaves late stamps.** It removes only truthy
  attendance entries and leaves the student's late stamps in place.
- **The hard-coded weekday defaults are kept.** The migration gives the
  sections named `2do Año A`/`B` Monday and Tuesday, and `2do Año C`
  Wednesday and Thursday.
- **Any integer is a period filter.** The history filter accepts any
  integer string `parseInt` reads as the window length, not only 7, 14
  and 30. A filter that is not a number shows every date.
- **Four toggles do not always bring back `U`.** Four toggles bring a
  cell back to what it held only when it held a status code or nothing.
  A foreign value is cleared by the first toggle.
- **No input validation.** `addSection` and `addSubject` do not check
  their inputs and store whatever name they are given.

## Model

| member | source | states |
|---|---|---|
| Collections.Filter | data_manager.js:138-144 | the result holds exactly the input elements that satisfy the predicate |
| Collections.FilterIsOrderedSelection | data_manager.js:272 | `filter` keeps input order and every kept element as often as the input has it, and nothing else |
| Collections.FindIndex | data_manager.js:152-154 | `find` stops at the first element satisfying the predicate; none when no element does |
| Collections.IndexOf | data_manager.js:359 | `indexOf` is the first position of the value, or -1 exactly when it is absent; used for statuses, momentos and weekdays |
| Collections.FilterHeadIsFirst | app.js:1205-1219 | `filter(p)[0]` is the element `find` returns; the filter is empty exactly when nothing matches |
| Text.Collate | data_manager.js:13-18 | `localeCompare` is negative, zero or positive exactly when the strings are ordered, equal or reversed |
| Text.LessTransitive | app.js:1273-1275 | `<` on strings is transitive |
| Text.LessTotal | app.js:1273-1275 | any two strings are ordered one way or the other or equal |
| Text.LessEqIsReflexiveLess | app.js:1273-1275 | `a <= b` (defined as `!(b < a)`) holds exactly when `a == b` or `a < b` |
| Text.TrimStart | app.js:1522 | the result is the input without its leading white space |
| Text.TrimEnd | app.js:1522 | the result is the input without its trailing white space |
| Text.Trim | app.js:1515 | the result is the input with its leading and trailing white space cut off: a slice of it with only white space around it and none at its own ends |
| Text.ToLower | app.js:1155 | every capital (ASCII and Latin-1) becomes its small letter, every other character stays, and no capital is left |
| Text.ToLowerIdempotent | app.js:1155 | lower-casing twice is lower-casing once |
| Text.ContainsIffOccurs | app.js:1208 | `includes` holds exactly when the pattern occurs at some position |
| Text.SplitWhere | app.js:1531 | `split` yields at least one piece and no piece holds a separator |
| Text.JoinSplit | app.js:1522 | joining the pieces of a split with the separator gives the string back |
| Text.WordsOfJoin | app.js:1538 | words joined by spaces split back on white space into the same words |
| Text.DigitsOrder | data_manager.js:328-330 | zero-padded numerals of one width compare as strings exactly as their values compare |
| Text.NumberOfDigits | data_manager.js:328-329 | a zero-padded numeral reads back as its value |
| Text.LeadingDigits | app.js:1278 | `parseInt` reads the longest run of digits at the start |
| Text.ParseInt | app.js:1278 | `parseInt(s, 10)`: skips leading white space, reads an optional sign and then the leading digits; none (NaN) when no digit follows; stated by ParseIntOfDigits |
| Text.ParseIntOfDigits | app.js:1278 | a numeral such as `7`, `14` or `30` reads back as its value |
| Calendar.NextDay | data_manager.js:406 | `setUTCDate(getUTCDate() + 1)` is the next calendar day |
| Calendar.AddDays | app.js:1282-1283 | moving by `k` days moves the day number by exactly `k` |
| Calendar.OrdinalOrder | data_manager.js:397 | `current <= endDate` on dates is the calendar order, and distinct dates have distinct day numbers |
| Calendar.ParseIsoOfIso | data_manager.js:389-390 | parsing a formatted date gives the date back |
| Calendar.IsoOfParseIso | data_manager.js:389-392 | a string that parses is exactly the formatted form of its date |
| Calendar.IsoOrder | app.js:1273-1286 | `YYYY-MM-DD` strings compare with `<` exactly as their dates compare in time |
| Calendar.IsoOrdinalOrder | app.js:1281-1286 | the same comparison stated on day numbers, for `<` and for `<=` |
| Calendar.BusinessDaysWithin | data_manager.js:397-407 | every date the walk keeps is a Monday-to-Friday date of the range |
| Calendar.BusinessDaysAscending | data_manager.js:397-407 | the walk keeps dates in strictly increasing order |
| Calendar.BusinessDaysComplete | data_manager.js:397-407 | no Monday-to-Friday date of the range is skipped |
| Calendar.GetBusinessDays | data_manager.js:387-409 | the loop returns exactly the business-day strings of the range |
| Calendar.BusinessDayStringsEmpty | data_manager.js:392 | the result is empty when a bound does not parse or the start is after the end |
| Calendar.BusinessDayStringsAscending | data_manager.js:387-409 | the returned strings are strictly increasing, so sorted and without duplicates |
| Calendar.BusinessDayStringsSound | data_manager.js:387-409 | every returned string is a Monday-to-Friday date between the bounds |
| Calendar.BusinessDayStringsComplete | data_manager.js:387-409 | every Monday-to-Friday date between the bounds is returned |
| Calendar.StampIsTimeStamp | data_manager.js:327-330 | a late stamp is a zero-padded 24-hour `HH:MM` reading back as the clock's hour and minute |
| Calendar.StampOrder | app.js:1074 | stamps compare as strings exactly in chronological order |
| Roster.Compare | data_manager.js:13-18 | the comparator is negative, zero or positive exactly when the keys are ordered, equal or reversed |
| Roster.KeyLessTransitive | data_manager.js:13-18 | the comparator's order is transitive |
| Roster.KeyLessTotal | data_manager.js:13-18 | any two keys are ordered or equal |
| Roster.SortBySortsAndPermutes | data_manager.js:13-18 | sorting gives a sorted permutation of the input |
| Roster.SortByStable | data_manager.js:13-18 | the sort is stable: the elements with any one key keep their input order |
| Roster.SortBySortedIsIdentity | data_manager.js:95 | re-sorting a sorted roster changes nothing |
| Roster.FilterKeepsSorted | data_manager.js:272 | removing students keeps the roster sorted |
| Schema.OrNull | data_manager.js:197 | `value \|\| null` is null exactly for a missing or empty value, else the value |
| Schema.NormalizeWeekdays | data_manager.js:203-213 | the weekday list `setSectionVisibleWeekdays` stores; its shape and content are stated by the NormalizeWeekdays lemmas below |
| Schema.SortStudents | data_manager.js:13-18 | the roster comes out sorted by last name then first name, as a permutation of the input |
| Schema.Dedupe | data_manager.js:207 | `Array.from(new Set(s))` holds every value of `s` exactly once |
| Schema.SortNumbersSortsAndPermutes | data_manager.js:209 | the numeric sort orders the numbers and keeps each one |
| Schema.CleanWeekdaysSelects | data_manager.js:207-209 | the cleaned list is exactly the weekdays 1..5 occurring in the input, ascending |
| Schema.NormalizeWeekdaysShape | data_manager.js:203-213 | the stored weekdays are non-empty, strictly ascending and within 1..5 |
| Schema.NormalizeWeekdaysSelects | data_manager.js:203-213 | a day is stored iff it is in 1..5 and given, or, when no given day is in 1..5, iff it is in 1..5 |
| Schema.NormalizeWeekdaysDefault | data_manager.js:210 | with no day of 1..5 given, all five days are stored |
| Schema.DefaultGenders | data_manager.js:90-94 | every student keeps its place and every field but the gender, ends with a non-empty gender, gets `U` exactly when it had none, and is unchanged when it had one |
| Schema.RepairSubjectList | data_manager.js:29-59 | the subject repair step computes the repaired list and fallback subject |
| Schema.AssignSubjects | data_manager.js:39-45 | each section without a subject gets the fallback, the others are unchanged |
| Schema.LoadState | data_manager.js:20-103 | the imperative load returns exactly the migrated state |
| Schema.Migrate | data_manager.js:20-103 | the state `loadState` yields for a stored document, or the default state; its guarantees are the Migrate lemmas below |
| Schema.RepairSection | data_manager.js:62-95 | one pass of the section loop gives the migrated section |
| Schema.MigrateEstablishes | data_manager.js:20-103 | after loading, each section has a subject, a sorted roster with genders set and a visible weekday; a non-default state has a subject |
| Schema.MigrateWellFormed | data_manager.js:20-103 | whatever was stored, the loaded state is well formed |
| Schema.MigrateSectionEstablishes | data_manager.js:62-95 | a migrated section has a sorted roster with genders set and a visible weekday |
| Schema.MigrateKeepsStudents | data_manager.js:62-95 | loading keeps every stored student (as a permutation, genders defaulted), the ids, names and stored records |
| Schema.SaveLoadRoundTrip | data_manager.js:20-112 | saving a canonical state and loading it back gives the same state |
| Schema.MigrateCanonical | data_manager.js:20-103 | a loaded non-default state is canonical, so loading it again changes nothing |
| Attendance.ApplyStatus | data_manager.js:295-343 | the section after `setAttendanceStatus` with a status code; stated cell by cell by ApplyStatusCell, ApplyStatusStamp and ApplyStatusFrame |
| Attendance.Toggle | data_manager.js:348-364 | the section after `toggleAttendance`; stated by ToggleEntry, ToggleIsNextStatus and the four-toggle lemmas |
| Attendance.ApplyStatusCell | data_manager.js:310-324 | after a valid set the cell shows the status; `U` is stored as no entry; a date record is never left empty |
| Attendance.ApplyStatusStamp | data_manager.js:306-338 | setting `L` stamps the call's `HH:MM`; any other status deletes the cell's stamp, leaving only an empty stamp that was already stored |
| Attendance.ApplyStatusFrame | data_manager.js:295-343 | no other cell of either record and no other field of the section changes |
| Attendance.NextStatusCycle | data_manager.js:356-361 | the cycle is U→P→A→L→U; a value outside the cycle is followed by `U` |
| Attendance.NextIsStatus | data_manager.js:356-361 | a toggle always requests a status code |
| Attendance.ToggleIsNextStatus | data_manager.js:348-364 | creating the date record first makes no difference: a toggle sets the next status |
| Attendance.ApplyAfterCreate | data_manager.js:352-354 | setting a status after creating an empty date record equals setting it directly |
| Attendance.ToggleEntry | data_manager.js:348-364 | one toggle turns the stored value into what the next status writes |
| Attendance.ClickFourTimes | data_manager.js:356-363 | four clicks from nothing or a status code come back to the same stored value |
| Attendance.ClickWritten | data_manager.js:356-363 | clicking a written status writes the next one |
| Attendance.NextStatusFourTimes | data_manager.js:359-361 | going round the cycle four times returns to the start |
| Attendance.FourTogglesRestore | data_manager.js:348-364 | four toggles, at any clock readings, restore a cell holding a status code or nothing |
| Attendance.ToggleForeignValue | data_manager.js:356-363 | a cell holding a value that is not a status code is cleared by the first toggle |
| Attendance.DropStudentRecordsSpec | data_manager.js:274-279 | the student shows as unmarked on every date, other students' entries are unchanged and no date record is added or removed |
| DataManager.SectionIndex | data_manager.js:152-154 | the position of the first section with the id, or none when no section has it |
| DataManager.SubjectIndex | data_manager.js:131 | the position of the first subject with the id, or none when no subject has it |
| DataManager.StudentIndex | data_manager.js:249-266 | the position of the first student with the id, or none when no student has it |
| DataManager.DeleteSubjectSelects | data_manager.js:138-144 | a section survives iff it is not of the subject; a subject survives iff it is not the one deleted |
| DataManager.FilterKeepsWellFormed | data_manager.js:138-144 | removing sections keeps the state well formed |
| DataManager.Store.Load | data_manager.js:20-103 | the store starts with the migrated state of what is stored |
| DataManager.Store.Save | data_manager.js:105-112 | the slot holds the serialised state and the state is unchanged |
| DataManager.Store.GetSection | data_manager.js:152-154 | the first section in list order with the id, or none exactly when no section has it |
| DataManager.Store.GetStudents | data_manager.js:284-287 | the section's own roster, which is sorted; `[]` for an unknown section |
| DataManager.Store.GetAttendanceRecords | data_manager.js:366-369 | the section's attendance map, or `{}` |
| DataManager.Store.GetLateTimes | data_manager.js:375-378 | the section's late-time map, or `{}` |
| DataManager.Store.AddSubject | data_manager.js:120-128 | appends the new subject with the fresh id; sections unchanged; state saved |
| DataManager.Store.UpdateSubjectName | data_manager.js:130-136 | renames the first subject with the id; nothing changes or is saved when there is none |
| DataManager.Store.DeleteSubject | data_manager.js:138-144 | removes the subject and every section of it, keeping the order of the rest |
| DataManager.Store.AddSection | data_manager.js:156-170 | appends an empty section with all weekdays visible and no start date |
| DataManager.Store.UpdateSectionName | data_manager.js:172-181 | renames the section and moves it to a given subject; nothing when it is unknown |
| DataManager.Store.DeleteSection | data_manager.js:183-186 | removes the section with the id, keeping the order of the rest |
| DataManager.Store.SetSectionStartDate | data_manager.js:192-198 | stores `dateStr \|\| null`; nothing when the section is unknown |
| DataManager.Store.SetSectionVisibleWeekdays | data_manager.js:203-213 | stores the normalised weekday list; nothing when the section is unknown |
| DataManager.Store.ClearAttendance | data_manager.js:218-228 | empties the section's attendance and late-time maps |
| DataManager.Store.AddStudent | data_manager.js:232-247 | adds the student and re-sorts the roster; returns nothing and changes nothing for an unknown section |
| DataManager.Store.UpdateStudent | data_manager.js:249-266 | edits the first student with the id and re-sorts; nothing when section or student is unknown |
| DataManager.Store.DeleteStudent | data_manager.js:268-282 | removes the student from the roster and their truthy entries from every date |
| DataManager.Store.SetAttendanceStatus | data_manager.js:295-343 | applies the status and returns it; nothing for an unknown section or a non-status value |
| DataManager.Store.ToggleAttendance | data_manager.js:348-364 | sets the status following the shown one and returns it; nothing for an unknown section |
| DataManager.WriteAttendanceRecord | data_manager.js:300-324 | the statement-by-statement update of the attendance map equals the specification |
| DataManager.WriteLateRecord | data_manager.js:303-338 | the statement-by-statement update of the late-time map equals the specification |
| Summary.TallyOfCounts | app.js:1166-1173 | present counts `P`, `U` and `L`; absent counts `A`; late counts `L` |
| Summary.TallyOfBounds | app.js:615-632 | late ≤ present; present + absent ≤ the number of values, with equality when all are status codes |
| Summary.CardCounts | app.js:207-218 | absent is the number of students marked `A` today and present + absent is the roster size |
| Summary.AttendanceRatio | app.js:720-725 | the percentage is `--` exactly when nothing is marked, otherwise present over present + absent |
| Summary.GenderPartition | app.js:615-620 | every student falls in exactly one of the `M`, `F`, `U` groups |
| Summary.GenderSummary | app.js:600-632 | each gender's tally is the tally of that group's statuses today |
| Summary.GenderSummaryAccounts | app.js:615-632 | the three groups' present + absent add up to at most the roster, exactly the roster with valid statuses |
| Summary.DayStatuses | app.js:1166-1167 | a student reads as `U` exactly when the date holds nothing truthy (or `U`) for them, and otherwise as the stored value |
| Summary.TallyOfDay | app.js:1166-1173 | a date's tally is the number of students read as P, U or L (present), as A (absent) and as L (late) |
| Summary.AllStatusesLength | app.js:706-718 | the general summary looks at |dates| × |students| cells |
| Summary.OverallSummary | app.js:698-718 | walking `Object.keys` of the records (each recorded date once, in any order), the nested loop's totals are the tally of every student on every date, and equal the general summary's totals |
| Summary.CountDay | app.js:709-717 | the inner loop adds one date's statuses to the running tally |
| Summary.OverallSummaryAccounts | app.js:706-729 | late ≤ present, and present + absent ≤ dates × students, with equality when all are status codes |
| Summary.GeneralSummary | app.js:698-718 | the general summary of a section's records: nothing shown for an empty roster, otherwise the totals over every key of the records and every student; stated by OverallSummary, ListsKeysTally and GeneralSummaryPlaceholder |
| Summary.ListsKeysTally | app.js:706 | the totals are the same whatever order `Object.keys` lists the recorded dates in |
| Summary.AllStatusesPermute | app.js:706-716 | walking the same dates in another order visits the same cells, as a multiset |
| Summary.AllStatusesAreStatuses | app.js:710-711 | when every stored value is a status code or empty, every cell reads as a status code |
| Summary.PlaceholderExactlyWhenEmpty | app.js:720-725 | with valid statuses, the ratio of the totals is `--` exactly when there are no dates or no students |
| Summary.GeneralSummaryPlaceholder | app.js:698-725 | when every stored value is a status code or empty, the summary is hidden exactly when the roster is empty; with students on the roster, `--` is shown exactly when the records hold no date |
| Summary.LateListSpec | app.js:1068-1074 | the late list is sorted by time, is a permutation of the stamped entries, and lists exactly the students with a stamp |
| Summary.StampedEntriesMembers | app.js:1068-1073 | an entry is listed iff it is `"last, first"` with the stamp of a student who has one |
| Summary.LateList | app.js:1068-1074 | the late list of a date; stated by LateListSpec, LateListStable and StampedEntriesMembers |
| Summary.LateListStable | app.js:1068-1074 | late arrivals with the same stamp are listed in roster order |
| Text.SortedKeys | app.js:1144 | `Object.keys(...).sort()` lists each key once, in strictly increasing order |
| History.Between | app.js:1275 | a date is kept iff it is recorded and between the bounds |
| History.BetweenIsSubsequence | app.js:1275 | the kept dates keep their order |
| History.BetweenReversedIsEmpty | app.js:1286 | bounds in the wrong order keep nothing |
| History.FilteredHistoryDates | app.js:1267-1287 | the dates the period filter keeps; stated by FilteredIsSubsequence, CustomRangeSymmetric, WindowSelectsLastDays and NonPositiveWindowIsEmpty |
| History.FilteredIsSubsequence | app.js:1267-1287 | the period filter only removes dates, keeping their order |
| History.CustomRangeSymmetric | app.js:1271-1276 | a custom range keeps a date iff both bounds are set and it lies between them in either order; swapping the bounds changes nothing |
| History.WindowSelectsLastDays | app.js:1278-1286 | an `n`-day filter keeps a recorded date iff it is at most `n - 1` days before today and not after it |
| History.NonPositiveWindowIsEmpty | app.js:1278-1286 | a window of zero or fewer days keeps nothing |
| History.Label | app.js:1225-1237 | `Asistió` iff P or U, `Inasistente` iff A, `Retardo` iff L, `Sin registro` otherwise |
| History.DayRow | app.js:1160-1175 | the row of one date: its counts are the students read as P/U/L, as A and as L |
| History.DayRows | app.js:1160-1176 | one row per date, in order, whose present, absent and late counts are the numbers of roster students read as P/U/L, as A and as L that day |
| History.StudentRows | app.js:1221-1240 | one row per date, in order, labelled `Asistió` iff the student reads as P or U, `Inasistente` iff A, `Retardo` iff L, `Sin registro` iff any other value |
| History.HistoryTable | app.js:1141-1240 | what `historyTableTemplate` shows; stated by HistoryViewCases, DayCountsSpec and StudentHistorySpec |
| History.HistoryViewCases | app.js:1141-1219 | no-records iff nothing recorded, empty-period iff the period holds nothing, counts iff no name filter, no-match iff no student matches |
| History.DayCountsSpec | app.js:1157-1176 | one row per date of the period, dates recorded and strictly increasing, late ≤ present and present + absent ≤ the roster |
| History.StudentHistorySpec | app.js:1204-1240 | the first matching student in roster order, with one label per date of the period |
| Views.DisplayDates | app.js:303-356 | the date columns of the attendance map; stated by DisplayDatesTodayOnly, FullMapSound, FullMapShowsRecords and MapEndCovers |
| Views.DisplayDatesTodayOnly | app.js:346-356 | without the full map only today's column is shown, business day or not |
| Views.VisibleBusinessDaysSound | app.js:333-344 | the filtered business days are increasing visible weekdays between the bounds |
| Views.FullMapSound | app.js:303-350 | the full map lists increasing visible business days from the start date to the map's end |
| Views.MapEndCovers | app.js:312-326 | the map ends at today or the last recorded date, whichever is later |
| Views.FullMapShowsRecords | app.js:296-350 | with dated keys, each recorded visible business day on or after the start date has its column |
| Views.MapStartIsStart | app.js:328-331 | a start date not after the end is kept |
| Views.FormatDateHeader | app.js:1669-1673 | `${day}/${month}` from `split('-')`, `undefined` for a missing piece; stated by FormatDateHeaderOfIso |
| Views.IsBirthday | app.js:1620-1636 | a truthy birthday of five or more characters whose `slice(5)` equals today's; stated by IsBirthdayOfDates |
| Views.MarkBirthdays | app.js:1642-1667 | the handled-birthdays map after `checkBirthdayAlerts`; stated by MarkBirthdaysSpec |
| Views.FormatDateHeaderOfIso | app.js:1669-1673 | a date's header is its zero-padded day and month, `DD/MM` |
| Views.IsBirthdayOfDates | app.js:1620-1636 | for `YYYY-MM-DD` strings, a birthday is today iff month and day agree, whatever the year |
| Views.MarkBirthdaysSpec | app.js:1642-1667 | only the selected section is marked, with today's date, iff shown with a birthday today; a second run changes nothing |
| Views.NextMomentoCycle | app.js:1569-1575 | the marker cycles I→II→III→I, and an unknown value goes to I |
| Views.ViewState.constructor | app.js:8-36 | the initial view state: section list, filter `7`, empty custom range and name filter, momento `I` |
| Views.ViewState.ToggleInicioMomento | app.js:1569-1575 | the marker moves to the next in the cycle; nothing else changes |
| Views.ViewState.SetHistoryFilter | app.js:1122-1125 | the period filter is set; nothing else changes |
| Views.ViewState.SetHistoryCustomDate | app.js:1127-1134 | `start` or `end` sets its bound (`''` when absent), other field names nothing |
| Views.ViewState.SetHistoryStudentFilter | app.js:1136-1139 | the name filter is set; nothing else changes |
| Views.ViewState.CheckBirthdayAlerts | app.js:1642-1667 | the handled-birthdays map becomes the marked one; nothing else changes |
| Handlers.Trimmed | app.js:1531 | each piece becomes itself without its surrounding white space, same count and order |
| Handlers.NonEmpty | app.js:1522 | exactly the non-empty pieces remain, in their order, each as often as in the input |
| Handlers.ParseLine | app.js:1529-1548 | a parsed line always has a non-empty last name and first name |
| Handlers.ParseLines | app.js:1522-1551 | the names of the lines that parse, in order; counted by BulkAddStudents |
| Handlers.ParseCommaLine | app.js:1529-1535 | `Last, First` gives back those two names, however many words each has |
| Handlers.ParseCommaLineDropsRest | app.js:1531 | text after a second comma is ignored |
| Handlers.ParseWordsLine | app.js:1536-1545 | without a comma, the first ⌈n/2⌉ words are the surnames and the rest the given names |
| Handlers.NewStudents | app.js:1549 | the k-th parsed name comes back as the k-th student's names, with the k-th fresh id, gender `U` and no birthday; fresh ids that never repeat give distinct student ids |
| Handlers.GrownStep | app.js:1549 | one `addStudent` call grows the roster by one student and changes nothing else |
| Handlers.BulkAddStudents | app.js:1511-1560 | without a section or with blank text nothing happens; otherwise the roster grows by exactly the parsed students and the count of parsed lines is returned; the state is saved when a student was added, and the slot is untouched otherwise |
| Handlers.AddLines | app.js:1522-1552 | the loop adds every parsed line's student, counts them, and leaves the saved state current when it added any |
| Handlers.StartDateChange | app.js:1562-1566 | the field's text becomes the start date, an empty field clears it, and the state is saved; nothing for an unknown section |
| Handlers.RemoveFirst | app.js:1586-1588 | splicing out the first occurrence removes exactly one copy of the value |
| Handlers.ToggledWeekdays | app.js:1578-1591 | the list handed to `setSectionVisibleWeekdays`; stated by ToggledFlips and RemoveAt |
| Handlers.ToggledFlips | app.js:1580-1591 | on a list without repeats, the switch turns exactly that weekday on or off |
| Handlers.WeekdayToggleEffect | app.js:1578-1595 | the stored days are the switched days in 1..5, or all five when none would remain |
| Handlers.WeekdayToggle | app.js:1578-1595 | the section's weekdays become the normalised switched list and the state is saved; nothing for an unknown section |
| Handlers.RemoveAt | app.js:1586-1588 | `splice(indexOf(x), 1)` equals removing the first occurrence |
| Handlers.TodayNext | app.js:535-540 | the status today's click requests; stated by TodayNextCycle |
| Handlers.TodayNextCycle | app.js:535-540 | today's cycle P→A→L→P, `U` read as P; it never requests `U` |
| Handlers.ClickCell | app.js:503-582 | today's cell sets the today-cycle status, any other date toggles the cell, and the state is saved; nothing for an unknown section |
| Handlers.TodayClickMarks | app.js:535-540 | clicking today's cell always leaves a stored, non-`U` status |

## Left out

- Rendering: lit-html templates, CSS classes, modals, navigation and the
  PDF export are left out. They only display values the model computes.
  The export's rows repeat the history table's.
- Storage: `localStorage` and `JSON.parse`/`stringify` are an abstract
  slot (`Schema.Stored`), and a parse that fails is `Unparsable`. Logging
  and `console` output are left out.
- DataManager.Store.Save: `saveState` catches a failing `setItem` and
  leaves the storage slot as it was; the model's save always succeeds,
  so that failure path is not modelled.
- DataManager.Store.SetSectionVisibleWeekdays: `setSectionVisibleWeekdays`
  applies `.map(Number)` and only a range filter, so `"3"` becomes 3 and
  `1.5` is kept as a visible day that no date matches. The model's input
  is a list of integers and cannot express either; app.js only passes
  integers.
- `uuidv4`: fresh ids are parameters of the operations that draw them.
- The clock: today's date and the `HH:MM` reading are parameters. The
  source takes today in UTC but the late stamp from local hours; the
  model does not relate the two.
- `alert`, `confirm` and the DOM queries of the handlers are left out.
  The handlers for the add, edit and delete forms, which only pass form
  values to the store, are left out too.
- Percentages: `toFixed(2)` and `parseFloat` use floating point. Only the
  integer counts and the `--` placeholder are modelled
  (`Summary.AttendanceRatio`).
- Strings are sequences of Unicode scalar values (code points), while
  JavaScript's `<`, `.length` and `.slice` work on UTF-16 code units.
  The two orders and lengths agree on text within the Basic Multilingual
  Plane. Outside it they differ: U+10000 comes before U+FFFF in
  JavaScript and after it in the model. Such characters are not modelled.
- `localeCompare` is modelled as the order of `<` (code-point order, as
  above), a total order. Locale collation is not modelled.
- `toLowerCase` maps ASCII and Latin-1 capitals only.
- Dates: JavaScript's lenient `Date` parsing (`YYYY`, `YYYY-MM`, expanded
  years) is not modelled. Only strict `YYYY-MM-DD` with years 0..9999
  parses.
- History.FilteredHistoryDates: requires that the first day of a numeric
  window is a date in years 0..9999 (`WindowFormattable`). A window
  reaching before year 0 is not modelled.
- History.HistoryTable: carries the same window requirement.
- Views.FullMapShowsRecords: requires every recorded key to be a
  `YYYY-MM-DD` date. With a non-date key greater than today, the map's
  end date becomes that key and `getBusinessDays` returns nothing.
- Handlers.BulkAddStudents: when the selected section no longer exists,
  the lines are still counted but no student is added. The count is
  stated, and the roster contract is stated only when the section exists.
- Handlers.ToggledFlips: the weekday switch is proved to flip exactly one
  day only for weekday lists without repeats. A stored list with repeats
  (possible only in hand-edited storage) loses one copy.
- Attendance.ApplyStatusStamp: states the cell's stamp exactly, but not
  whether the date's late record remains. An empty `lateTimes[date]`
  record created by `setAttendanceStatus` may stay.
- DataManager.Store.DeleteStudent: the student's late stamps stay, as in
  the source.
- Concurrency is not applicable: the application is single-threaded.
