# Timesheet: a verified model of the clock-in/clock-out core

`timesheet_app.py` is a one-file desktop time clock. The user clocks in and
out. Each completed session is stored as a row of the SQLite table `shifts`:
clock-in time, clock-out time, duration in hours (rounded to two decimals),
and a shift letter. The letter is `O` (06:00–14:00), `M` (14:00–22:00) or
`N` (22:00–06:00), whichever band holds most of the session's minutes. At
start-up, legacy rows that have no letter get one. The user can export any
ISO week as a PDF table with one row per day, overtime above eight hours
per day, a row colour per shift, and totals. The file goes to the home
folder under a name that never overwrites an existing file.

This project models that core in Dafny and proves what the code promises:

- `Shift`: `determine_shift` as a while loop with three counters. It is
  proved equal to a reference classifier, `Classify`: sample the interval
  once a minute and keep the first band, in the order O, M, N, with the
  greatest count. Lemmas cover uniform intervals, empty intervals, the
  additivity of the counts, and the tie at 05:30–06:30.
- `Records`: the table as a class with a `rows` field whose ids stay
  distinct, as the primary key demands. It covers the
  insert of a finished session and the start-up backfill loop. The loop is
  proved equal to a per-row function, and the backfill is proved
  idempotent and to change nothing but the shift column of the rows it
  selects.
- `IsoCalendar`: day numbers, proleptic Gregorian years, and ISO 8601
  week dates: weeks start on Monday, and week 1 of a year is the week
  that holds the year's first Thursday. `isocalendar` and
  `fromisocalendar` are proved to be inverse: every day's ISO fields map
  back to that day, and every weekday of each of a year's 52 or 53 weeks
  maps to a day that has those fields.
- `FileName`: `safe_pdf_filename`, with the file system as a finite set of
  existing paths. The method is proved to return a path that does not
  exist: the base name when it is free, otherwise the least free `-i`
  suffix.
- `WeeklyReport`: the export without the PDF drawing. It covers the query
  (a filter plus a stable sort on clock_in), the `by_date` index (last row
  wins), the seven-day loop with its running totals, overtime, shift text,
  row colour, and the error paths that abort the export.
- `Tracker`: the `TimeTracker` controller (clock in, clock out, the timer
  tick, the export) and the month navigation of `CalendarPopup`.

Conventions:

- A timestamp is a `nat` of seconds from 0001-01-01 00:00:00 local time.
  Day 0 is a Monday.
- A duration is an `int` of hundredths of an hour.
- The current time, the database's answer to an INSERT, the home folder and
  the set of existing files are parameters. They stand in for
  `datetime.now()`, SQLite and `os.path.exists`.

## Model

| member | source | states |
|---|---|---|
| Shift.Letter | timesheet_app.py:59 | every band is persisted as a one-character letter |
| Shift.HourOf | timesheet_app.py:62 | the wall-clock hour of a timestamp is below 24 |
| Shift.SampleInstants | timesheet_app.py:61-69 | the loop visits exactly the instants start + 60k that lie before the end, and there are NumSamples of them |
| Shift.FirstMax | timesheet_app.py:70 | `max(counts, key=counts.get)`: the chosen key's count is at least every count, and every key before it in dict order has a strictly smaller count |
| Shift.Tally | timesheet_app.py:59-69 | the three counters after the loop, as counts of the minute samples in each band; their sum is stated by TallyTotal |
| Shift.Pick | timesheet_app.py:70 | `max` over the dict in insertion order O, M, N; its maximality is stated by FirstMax and ClassifyIsFirstMax |
| Shift.Classify | timesheet_app.py:57-70 | the label of an interval as a function of its endpoints alone; DetermineShift is proved to compute it |
| Shift.DetermineShift | timesheet_app.py:57-70 | the loop with three counters returns `Classify(start, end)`, the first-maximal band of the per-minute tally |
| Shift.ClassifyIsFirstMax | timesheet_app.py:59-70 | the label's count is maximal; M wins only with strictly more than O; N wins only with strictly more than O and M; O wins whenever it is maximal |
| Shift.CountAll | timesheet_app.py:63-68 | each sample lands in exactly one band: the three band counts add up to the number of samples |
| Shift.TallyTotal | timesheet_app.py:59-69 | the three counters of an interval add up to its number of minute samples |
| Shift.CountSplit | timesheet_app.py:61-69 | counting a + b samples is counting the first a, then the b after them |
| Shift.CountUniform | timesheet_app.py:62-68 | when every sample lies in one band, all of them count for it and none for the others |
| Shift.TallyUniform | timesheet_app.py:59-69 | an interval whose every sample lies in band b tallies all its samples to b |
| Shift.UniformInterval | timesheet_app.py:57-70 | a non-empty interval that lies wholly in one band gets that band |
| Shift.EmptyInterval | timesheet_app.py:61-70 | an empty or inverted interval counts nothing, and the tie among zeros goes to O |
| Shift.HourOfDay | timesheet_app.py:62 | second s of any day has hour s / 3600 |
| Shift.HalfHour | timesheet_app.py:62-68 | thirty samples inside one wall-clock hour all count for that hour's band |
| Shift.HalfPastFiveCounts | timesheet_app.py:61-69 | the hour from 05:30 of any day is thirty N samples, then thirty O samples |
| Shift.HalfPastFiveToHalfPastSix | timesheet_app.py:59-70 | 05:30–06:30 tallies O=30, M=0, N=30, and the tie is labelled O |
| Records.RoundedHours | timesheet_app.py:292-299 | `round(seconds / 3600, 2)` in hundredths: the result is within half a hundredth of the exact quotient |
| Records.ClosedRecord | timesheet_app.py:296-300 | the row clock_out inserts: both timestamps, the rounded duration and the classifier's letter; ClosedRecordComplete states that the backfill never touches it |
| Records.NeedsShift | timesheet_app.py:86 | the WHERE clause of the backfill SELECT: shift NULL or empty, and both timestamps not NULL |
| Records.BackfillRow | timesheet_app.py:87-95 | one row of the loop: a selected row whose two timestamps parse gets the classifier's letter; a failed parse skips the row; BackfillRowChanges states both directions: every selected row whose timestamps parse gets the letter, and every changed row was such a row |
| Records.BackfillAll | timesheet_app.py:86-95 | the loop over the whole table, row by row; BackfillAllAt states that it treats each row by itself, and BackfillKeeps that it fills every selected row whose timestamps parse with the classifier's letter and keeps everything else |
| Records.BackfillAllAt | timesheet_app.py:86-95 | the backfill keeps the number and order of rows and treats each row by itself |
| Records.BackfillRowChanges | timesheet_app.py:86-95 | only the shift column changes; a row outside the WHERE clause is untouched; a selected row whose two timestamps parse gets the classifier's letter; a changed row was such a row |
| Records.BackfillRowIdempotent | timesheet_app.py:86-95 | backfilling a row twice is backfilling it once |
| Records.BackfillIdempotent | timesheet_app.py:86-95 | running the whole backfill a second time changes nothing |
| Records.BackfillKeeps | timesheet_app.py:86-95 | every column other than shift is kept, a non-empty shift is never overwritten, and every selected row whose two timestamps parse gets the classifier's letter |
| Records.ClosedRecordComplete | timesheet_app.py:293-300 | a row written by clock_out already has its letter and is never touched by the backfill |
| Records.MaxId | timesheet_app.py:296 | the largest id of a non-empty table: at least every id, and the id of some row |
| Records.NextId | timesheet_app.py:296 | the rowid SQLite gives an INTEGER PRIMARY KEY insert: 1 in an empty table, otherwise one past the largest id, so larger than every existing id |
| Records.AppendNextId | timesheet_app.py:296 | appending a row with the next id keeps the primary key unique |
| Records.BackfillDistinct | timesheet_app.py:93 | the backfill changes no id, so the ids stay distinct and `UPDATE ... WHERE id = ?` touches exactly one row |
| Records.ShiftTable.constructor | timesheet_app.py:49-54 | the table holds the given rows, whose ids are distinct |
| Records.ShiftTable.Insert | timesheet_app.py:296-304 | success is reported exactly when the INSERT and the commit both succeed; a failed INSERT leaves the table unchanged; otherwise the completed record with the next id is appended, committed or, when the commit fails, pending on the connection; the ids stay distinct |
| Records.RetryAfterCommitFailure | timesheet_app.py:296-304 | a write whose commit failed followed by a retried write of the same session leaves two rows with that clock_in and different ids |
| Records.ShiftTable.Backfill | timesheet_app.py:86-95 | the update loop leaves the table equal to `BackfillAll` of the old rows, with the ids still distinct |
| IsoCalendar.Weekday | timesheet_app.py:343 | the weekday is 0 (Monday) to 6 |
| IsoCalendar.DaysBeforeYear | timesheet_app.py:343 | the day number of 1 January of a year, at least 365 days per earlier year |
| IsoCalendar.YearLength | timesheet_app.py:343 | a year has 366 days when it is a leap year and 365 otherwise |
| IsoCalendar.CenturyDivides | timesheet_app.py:343 | arithmetic helper of YearLength: a multiple of 400 is a multiple of 100, and a multiple of 100 is a multiple of 4 |
| IsoCalendar.YearFrom | timesheet_app.py:343 | the search finds the year whose first day is at or before d and whose next year's first day is after d |
| IsoCalendar.YearOf | timesheet_app.py:343 | every day lies in exactly the year found |
| IsoCalendar.MondayOf | timesheet_app.py:344 | the Monday on or before a day, within the six days before it |
| IsoCalendar.FirstThursday | timesheet_app.py:343-344 | the week found is a Monday whose Thursday is the first Thursday on or after the given day |
| IsoCalendar.MondayOrder | timesheet_app.py:343-344 | no Monday with a Thursday on or after a day comes before the Monday of the first such Thursday |
| IsoCalendar.Week1Monday | timesheet_app.py:344 | week 1 of an ISO year starts on a Monday, not before day 0, whose Thursday is in the first seven days of the calendar year |
| IsoCalendar.IsoYear | timesheet_app.py:343 | the ISO year of a day is the calendar year that holds the Thursday of its week |
| IsoCalendar.IsoWeek | timesheet_app.py:343 | the ISO week number is between 1 and the number of weeks of the ISO year |
| IsoCalendar.FromIsoCalendar | timesheet_app.py:344 | `fromisocalendar(y, w, wd)` for 1 <= w <= WeeksIn(y) and wd in 1..7 is a day at or after day 0 on weekday wd; for a larger week Python raises ValueError, which the call at line 344 never meets, and the model has no such error |
| IsoCalendar.YearsOrdered | timesheet_app.py:343 | a later year starts no earlier than the end of an earlier one |
| IsoCalendar.YearOfUnique | timesheet_app.py:343 | a day lies in exactly one calendar year |
| IsoCalendar.WeeksInBounds | timesheet_app.py:343-344 | an ISO year has 52 or 53 weeks, and week 1 of the next year comes straight after its last week |
| IsoCalendar.MondayOfWeekday | timesheet_app.py:344-345 | for w >= 1 and k in 0..6, weekday k of week w after a Monday has the Monday of that week and weekday k |
| IsoCalendar.IsoFromRoundTrip | timesheet_app.py:343-344 | `fromisocalendar` then `isocalendar`: every weekday of every week of an ISO year gives back that year, week and weekday |
| IsoCalendar.IsoWeekBounds | timesheet_app.py:343 | a day's Monday lies between the week-1 Mondays of its ISO year and the next one, a whole number of weeks after the first |
| IsoCalendar.MultiplesOfSeven | timesheet_app.py:343 | arithmetic helper of IsoWeekBounds: two Mondays are a whole number of weeks apart |
| IsoCalendar.IsoRoundTrip | timesheet_app.py:343-345 | `isocalendar` gives a week from 1 to the number of weeks of its year (at most 53), and `fromisocalendar` maps the year, week and weekday back to the same day; weekday 1 gives the day's Monday |
| IsoCalendar.SameWeek | timesheet_app.py:343-345 | all days of one Monday-to-Sunday week have the same Monday, ISO year and week |
| FileName.Digits | timesheet_app.py:103-109 | `str(n)` is never empty |
| FileName.DigitValueOf | timesheet_app.py:103-109 | each digit character reads back as its digit |
| FileName.DigitsRoundTrip | timesheet_app.py:103-109 | reading back the decimal digits of n gives n |
| FileName.DigitsInjective | timesheet_app.py:103-109 | different numbers have different decimal digits |
| FileName.Pad2 | timesheet_app.py:103-109 | `{:02d}` has at least two digits and reads back as the number |
| FileName.JoinPath | timesheet_app.py:104 | POSIX `os.path.join` (`posixpath.join`, with `/` as separator) of a folder and a relative name; its behaviour on longer names is stated by JoinAppend |
| FileName.BasePath | timesheet_app.py:103-104 | the unsuffixed candidate; CandidatesShareStem and SuffixedPathInjective state its relation to the others |
| FileName.SuffixedPath | timesheet_app.py:108 | the candidate with suffix `-i`; SuffixedPathInjective states that distinct suffixes give distinct paths |
| FileName.JoinAppend | timesheet_app.py:104-109 | `os.path.join(folder, a + b)` is `os.path.join(folder, a) + b` |
| FileName.CandidatesShareStem | timesheet_app.py:103-109 | the base path and every suffixed path are the joined prefix followed by `.pdf` or by `-i.pdf` |
| FileName.SuffixDigits | timesheet_app.py:109 | the suffix `-i.pdf` holds the digits of i between the dash and the extension |
| FileName.TailsDiffer | timesheet_app.py:103-109 | after a common prefix, `-i.pdf` determines i and is never `.pdf` |
| FileName.SuffixedPathInjective | timesheet_app.py:103-109 | different suffixes give different paths, and no suffixed path equals the base path |
| FileName.SuffixesTaken | timesheet_app.py:107-112 | if suffixes 1 to i all exist, at least i files exist, so the loop ends |
| FileName.ChosenPath | timesheet_app.py:102-112 | the name the function returns, as a relation: the base path when free, otherwise the suffixed path of the least free index; SafePdfFilename is proved to return it and ChosenPathUnique that it is unique |
| FileName.SafePdfFilename | timesheet_app.py:102-112 | the result never exists; it is the base path when that is free, otherwise the least i >= 1 whose suffixed path is free |
| FileName.ChosenPathUnique | timesheet_app.py:102-112 | the existing files determine the chosen path |
| FileName.LeastFreeUnique | timesheet_app.py:107-112 | at most one index is the least free suffix |
| FileName.NextExportPath | timesheet_app.py:102-112 | after the file at suffix i is written, exporting the same week again picks suffix i + 1 when that one is free |
| FileName.NextLeastFree | timesheet_app.py:107-112 | adding the least free suffix makes the next one least free, when it is free |
| FileName.SecondExportPath | timesheet_app.py:102-112 | after the base file is written, exporting the same week again picks suffix 1 when that one is free |
| WeeklyReport.InRange | timesheet_app.py:347 | `date(clock_in) BETWEEN monday AND sunday` on a row with a parseable clock_in; Select and Query are stated in its terms |
| WeeklyReport.Select | timesheet_app.py:347-349 | the WHERE clause: a row is selected exactly when it is in the table with a parseable clock_in dated Monday to Sunday |
| WeeklyReport.InsertByClockIn | timesheet_app.py:347 | inserting into a sorted sequence keeps it sorted by clock_in and adds only the new row |
| WeeklyReport.ConsSorted | timesheet_app.py:347 | a row no later than every row of a sorted sequence can go in front |
| WeeklyReport.SortByClockIn | timesheet_app.py:347 | ORDER BY clock_in: the result is sorted and holds the same rows |
| WeeklyReport.InsertPermutes | timesheet_app.py:347 | inserting adds exactly one copy of the row |
| WeeklyReport.SortPermutes | timesheet_app.py:347 | sorting is a permutation of its input |
| WeeklyReport.Query | timesheet_app.py:347-349 | the fetched rows are sorted by clock_in and are exactly the rows of the week |
| WeeklyReport.IndexByDate | timesheet_app.py:350 | the `by_date` dict comprehension, each later row overwriting an earlier one of its day; stated by IndexByDateLast and IndexByDateLatest |
| WeeklyReport.LastIndexOn | timesheet_app.py:350 | finds the last row of a day, or reports that there is none |
| WeeklyReport.IndexByDateLast | timesheet_app.py:350 | the dict comprehension has a day exactly when some row starts on it, and then holds the last such row |
| WeeklyReport.IndexByDateLatest | timesheet_app.py:347-350 | in clock_in order, the surviving row of a day has the greatest clock_in of that day |
| WeeklyReport.Clamp | timesheet_app.py:384 | a component is clamped to 0..255 and kept when already in range |
| WeeklyReport.RowColour | timesheet_app.py:383-384 | the PDF_ROW_RGB colour (lines 36-40) of a known letter, white for any other, every component in 0..255 |
| WeeklyReport.ShiftText | timesheet_app.py:382 | the shift cell is empty exactly when the column is NULL or empty, and is the stored letter otherwise |
| WeeklyReport.Overtime | timesheet_app.py:379 | `max(0, hours - 8)`: never negative, at least hours - 8, and one of the two |
| WeeklyReport.DayRowFor | timesheet_app.py:374-400 | one day of the loop: the row is blank exactly when the index has no row for that day, and a produced row carries its date; DayRowCases states the rest |
| WeeklyReport.DayRowCases | timesheet_app.py:374-391 | for a day with a record the row succeeds exactly when clock_out is present and parses and the duration is present; otherwise it fails with the error of the first of those that is missing or unreadable; a produced row is filled with that record's clock_in, clock_out, hours and shift text, with overtime `max(0, h - 8)` and the letter's colour |
| WeeklyReport.WeekRows | timesheet_app.py:372-401 | the rows of the first n days of the loop, stopping at the first error; stated by WeekRowsAt and WeekRowsErrorStays |
| WeeklyReport.SumHours | timesheet_app.py:380 | the running `total_hours`, the sum over the filled rows; bounded by TotalsBounds |
| WeeklyReport.SumOvertime | timesheet_app.py:381 | the running `total_ot`, the sum over the filled rows; bounded by TotalsBounds |
| WeeklyReport.WeekRowsAt | timesheet_app.py:372-401 | the loop's rows succeed exactly when every day's row does, and are then the day rows in order |
| WeeklyReport.WeekRowsErrorStays | timesheet_app.py:372-401 | the first failing day aborts the week with its error |
| WeeklyReport.TotalsBounds | timesheet_app.py:379-381 | the overtime total is never negative, and with no negative hours it is at most the hours total |
| WeeklyReport.EmitRows | timesheet_app.py:370-401 | the `while day <= sunday` loop yields the seven day rows with their hours and overtime totals, or the first failing day's error |
| WeeklyReport.EmitStep | timesheet_app.py:372-401 | one pass of that loop: a failing day ends the week's rows with its error; a successful one appends its row and adds its hours and overtime (zero for a blank row) to the totals |
| WeeklyReport.WeekReport | timesheet_app.py:345-407 | the export for the week from a given Monday; stated by WeekReportRowSource, WeekReportTotals and WeekReportFails |
| WeeklyReport.BuildReport | timesheet_app.py:343-407 | the export for the ISO week of the selected day; stated by ReportWeek, ReportRowSource, ReportTotals and ReportFails |
| WeeklyReport.ReportWeek | timesheet_app.py:343-401 | the report covers the ISO week of the selected day: the Monday is `fromisocalendar(year, week, 1)`, the year and week are the ISO year and week of that Monday, so of the selected day, the week is between 1 and the year's 52 or 53 weeks, and there are seven rows, Monday to Sunday in order |
| WeeklyReport.ReportRowSource | timesheet_app.py:347-400 | each row is blank exactly when no row of the week starts that day; otherwise it shows the clock_in, clock_out, hours and shift text of such a row, the one with the greatest clock_in |
| WeeklyReport.WeekReportRowSource | timesheet_app.py:347-400 | the same for the week from a given Monday |
| WeeklyReport.WeekRowSource | timesheet_app.py:347-400 | the same for row i of the loop's seven rows over the week's sorted query |
| WeeklyReport.WeekReportRow | timesheet_app.py:372-401 | row i of a week's report is the row built for day i of the week |
| WeeklyReport.DayRowSource | timesheet_app.py:347-400 | the row built for a day from the sorted query comes from the table rows of that day, as stated above |
| WeeklyReport.ReportTotals | timesheet_app.py:379-406 | every filled row has overtime `max(0, h - 8)` and its letter's colour; the totals are the sums over the filled rows; the overtime total is never negative and, with no negative hours, at most the hours total |
| WeeklyReport.WeekReportTotals | timesheet_app.py:379-406 | the same for the week from a given Monday |
| WeeklyReport.ReportFails | timesheet_app.py:374-378 | the export aborts exactly when the row chosen for some day of the week lacks a clock_out, has one that does not parse, or lacks a duration |
| WeeklyReport.WeekReportFails | timesheet_app.py:374-378 | the same for the week from a given Monday |
| WeeklyReport.ReportSameWeek | timesheet_app.py:343-350 | selecting any day of one week exports the same report |
| WeeklyReport.NineToHalfPastFive | timesheet_app.py:292-299 | a 09:00–17:30 session is stored as 8.50 hours and shows 0.50 overtime |
| Tracker.SplitElapsed | timesheet_app.py:320-321 | the divmod chain: hours·3600 + minutes·60 + seconds is the elapsed time, with minutes and seconds below 60 |
| Tracker.TimeTracker.constructor | timesheet_app.py:242-243 | a new tracker is not clocked in and has no start time |
| Tracker.TimeTracker.ClockIn | timesheet_app.py:280-284 | ignored while clocked in; otherwise it opens a session at `now` |
| Tracker.TimeTracker.ClockOut | timesheet_app.py:288-308 | ignored while not clocked in; the session closes exactly when the INSERT and the commit succeed; the classified record with the next id is appended unless the INSERT itself fails, so after a failed commit it stays pending and the session stays open; the table's ids stay distinct |
| Tracker.TimeTracker.Tick | timesheet_app.py:315-325 | nothing while not clocked in; otherwise the h/m/s split of the elapsed time and the band of the open session so far |
| Tracker.TimeTracker.ExportWeekBySelectedDay | timesheet_app.py:340-411 | succeeds exactly when the report of the selected week does, returns that report or the same error, and returns the path the PDF would be written to: one that does not exist yet, the one `safe_pdf_filename` picks in the home folder |
| Tracker.CalendarPopup.constructor | timesheet_app.py:116-119 | the popup starts on a valid month |
| Tracker.CalendarPopup.PrevMonth | timesheet_app.py:209-214 | one month back, January wrapping to December of the previous year; the month stays in 1..12 |
| Tracker.CalendarPopup.NextMonth | timesheet_app.py:216-221 | one month forward, December wrapping to January of the next year; the month stays in 1..12 |

## Left out

- The Kivy user interface is not modelled: labels, buttons, popups, the calendar grid, the log list and the timer colours of `_tick`.
- The PDF drawing is not modelled: fonts, the title, cell widths, the `%H:%M` and `%.2f` formatting, and `pdf.output`. A failed write only shows a popup, so it is not modelled.
- The SQLite set-up is not modelled: `CREATE TABLE`, the `PRAGMA table_info` check, `ALTER TABLE ADD COLUMN`, and the commits. What happens to clock_out's INSERT and commit is the `WriteOutcome` parameter.
- The clock, the home folder and the file system are inputs: `datetime.now()`, `os.path.expanduser("~")` and `os.path.exists`.
- FileName.JoinPath: paths are joined as on POSIX. On Windows `os.path.join` is `ntpath.join`, with `\` as separator and drive rules, which is not modelled.
- A timestamp string either parses with `%Y-%m-%d %H:%M:%S` or does not (`Stamp`). SQLite's `date(clock_in)` is taken to accept exactly the strings that parse. Years beyond 9999, which `datetime` rejects, are not modelled.
- Records.RoundedHours: durations are exact integers of seconds. Python's float division and `round` to two places, with banker's ties, are modelled as round half up on hundredths.
- WeeklyReport.DayRowFor: hours and overtime are exact hundredths, not floats, and the totals are exact sums. A duration stored as non-numeric text (a REAL column keeps `''` or `'n/a'` as TEXT), on which `float(r[2])` at line 378 raises, cannot be represented: `hours` is absent or an integer.
- WeeklyReport.SortByClockIn: rows with equal clock_in stay in table order. SQLite leaves the order of such ties unspecified, and with ties the `by_date` winner may differ.
- Records.NextId: SQLite's rowid choice after a row with the largest possible rowid (2^63 - 1), a random unused one, is not modelled.
- `_tick` wraps the classifier and the colour lookup in a handler that ignores every exception (timesheet_app.py:330-331). In the model the classifier and the lookup of its three letters cannot fail, and the Kivy drawing is not modelled, so the handler has nothing to catch.
- Records.ShiftTable.Insert: the rows are what the program's one connection sees. The model does not tell a committed row from one left pending by a failed commit; the next successful commit on the connection stores both, and a pending row is lost if the program ends first.
- Three other store failures are not modelled: the export's SELECT failing (line 347, caught with the other export errors at line 422), a backfill UPDATE failing (line 93, the row skipped at lines 94-95), and the backfill's commit failing (line 96, ignored at lines 97-98).
- Tracker.TimeTracker.ClockOut: timestamps are whole seconds. The source classifies and times the session from `datetime.now()` with its microseconds (timesheet_app.py:291-293), and only the stored strings drop them (line 299). A session from 10:00:00.2 to 10:01:00.5 gets two minute samples there and one in the model, and its duration is computed from the fractional times.
- Tracker.TimeTracker.Tick: `int(elapsed.total_seconds())` is an integer difference of whole seconds; fractions of a second are not modelled.
