# Attendance engine of the biometric punch server

This project models the attendance engine of `server.js`. The engine turns
punch rows into attendance records. Each row holds an employee code, a first
name (NULL when no employee row joins), the punch instant, and the alias of
the terminal it was made on.

The model covers these parts of the engine:

- The time helpers (`getDayShort`, `formatTime`, `calculateDuration`,
  `getOfficeEndTime`, `calculateOvertimeMinutes`).
- The daily aggregators `processAttendance` and `processWeekAttendance`.
- The range aggregation inside the `/api/attendance/week` handler.
- The table rows and the attachment name of the `/api/report/week` handler.

Modules, one per file:

- `Clock` (clock.dfy): instants as UTC fields, and the millisecond number a
  JavaScript Date compares as.
- `Iso` (iso.dfy): the `toISOString` text and the substrings the engine cuts
  from it.
- `Text` (text.dfy): digits, `parseInt`, the `"<h>h <m>m"` texts and the
  default string sort.
- `TimeHelpers` (time_helpers.dfy): the helper functions. It also models the
  `Date > string` comparison the daily aggregators make.
- `Punches` (punches.dfy): the row type, the string keys, the
  order-preserving `filter`, and the `forEach` grouping loop.
- `Daily` (daily.dfy): `processAttendance` and `processWeekAttendance`.
- `WeekRange` (range.dfy): the week handler's grouping and its nested loops,
  proved equal to a declarative definition `RangeRecords`.
- `RangeFacts` (range_facts.dfy): what the week records mean in terms of the
  input rows.
- `WeekReport` (report.dfy): the report's rows and file name.
- `Sequences` and `Wrappers`: generic helpers.

The grouping and emitting loops are methods over `seq` and `map` values. Each
is proved equal to a function of its input, and the properties are proved
about those functions. Each per-group record is a function, as the source's
callbacks are straight-line code.

Two behaviours of the code differ from what its comments suggest, and the
model follows the code:

- **Daily overtime is never computed.** `processAttendance` and
  `processWeekAttendance` guard overtime with `lastOut > officeEnd`, which
  compares a Date with a string. The string is not a number, so the guard is
  always false and every daily record has overtime `"0h 0m"`
  (`Daily.DailyOvertimeAlwaysZero`). See "Findings".
- **"Absent" is reachable in the week view.** A day whose punches were all
  made on terminals other than "In Device" and "Out Device" gets an
  "Absent" record (`RangeFacts.AbsentReachable`).

The week view does not clamp working minutes. They are the logout's clock
minute minus the login's, so they are negative exactly when the logout's
clock minute is earlier than the login's; that can happen only when every Out
punch of the day precedes every In punch (`RangeFacts.RangeRecordNegative`).
Punches within the same clock minute give 0 whatever their order. A negative
count is written with floored hours and sign-keeping minutes: -15 minutes
shows as `"-1h -15m"` (`Text.NegativeMinutesText`).

## Model

| member | source | states |
|---|---|---|
| TimeHelpers.GetDayShort | server.js:31-36 | the label is the weekday name of the instant's ISO date |
| TimeHelpers.GetDayShortExamples | server.js:31-36 | 2024-05-01 is "Wed" and 1970-01-01 is "Thu" |
| TimeHelpers.MomentDayShort | server.js:432 | `moment(date).format("ddd")` of the "YYYY-MM-DD" text of any calendar date is that date's weekday, and "Invalid date" for a text that is the text of no date |
| TimeHelpers.FormatTime | server.js:38-42 | the label is 5 characters: zero-padded hour, ':' and zero-padded minute of the instant |
| TimeHelpers.FormatTimeInjective | server.js:38-42 | two labels are equal exactly when hour and minute are equal |
| TimeHelpers.ElapsedMinutes | server.js:45-65 | the minutes worked are zero when a punch is missing or the clocks are less than a minute apart, and otherwise the whole minutes in the difference of the two seconds-of-day (floored, never negative) |
| TimeHelpers.CalculateDuration | server.js:44-70 | a positive count of minutes d is written exactly `${Math.floor(d/60)}h ${d%60}m`; the text reads back as hours and 0..59 minutes adding up to the floored clock difference (seconds counted, dates ignored), and is "0h 0m" exactly when that difference is not positive or a punch is missing |
| TimeHelpers.GetOfficeEndTime | server.js:72-77 | the text is the ISO text of 18:30:00.000 on the instant's date |
| TimeHelpers.CalculateOvertimeMinutes | server.js:79-97 | the result is max(0, end clock minutes − start clock minutes), whether the start is a Date or an ISO-shaped text; never negative |
| TimeHelpers.OvertimePastOfficeEnd | server.js:72-97 | against getOfficeEndTime, overtime is the minutes past 18:30, and 0 for an end at or before 18:30 |
| TimeHelpers.IsoClockMinutes | server.js:87-94 | parseInt of the hour and minute substrings of the ISO text gives the instant's minute of the day |
| TimeHelpers.IsoClockSeconds | server.js:52-58 | parseInt of the hour, minute and second substrings gives the instant's second of the day |
| TimeHelpers.StringToNumber | server.js:132 | ToNumber of a string is NaN exactly when the string holds a character no numeric literal contains |
| TimeHelpers.DateGreaterThanString | server.js:132 | `date > text` holds exactly when the text is a number below the Date's millisecond count |
| TimeHelpers.DigitTextComparison | server.js:132 | a Date compares with a digit string as with its number |
| TimeHelpers.OfficeEndNeverExceeded | server.js:129-132 | the office-end text is NaN as a number, so no Date is greater than it |
| Clock.EpochMs | server.js:381 | the number a Date stands for in `a.punch_time - b.punch_time` lies within the milliseconds of its own UTC calendar day |
| Clock.SameDayOrder | server.js:379-385 | on one date, Date order implies clock-minute order |
| Clock.KnownWeekdays | server.js:35 | the weekday numbers of three known dates |
| Iso.IsoString | server.js:33 | the ISO text holds the date text, 'T', and the zero-padded hour, minute and second at the positions the engine cuts |
| Iso.IsoDatePartIsPrefix | server.js:158-159 | the date key is the first ten characters of the ISO text |
| Iso.IsoClockPart | server.js:41 | `substring(11, 16)` is the zero-padded "HH:MM" |
| Iso.DateTextOrder | server.js:374 | two date texts sort as their dates do, and are equal exactly when the dates are |
| Iso.ParseDateText | server.js:35 | a text parsed as a date writes back as the same text |
| Iso.ParseDateTextRoundTrip | server.js:35 | every date text parses back to its date |
| Text.HoursOf | server.js:408 | `Math.floor(w / 60)`: the hours h with h·60 ≤ w < h·60 + 60, for negative w too |
| Text.MinutesOf | server.js:409 | `w % 60`: in 0..59 for w ≥ 0, in -59..0 for w < 0, and w minus it is a multiple of 60 |
| Text.MinutesText | server.js:408-410 | the text `${Math.floor(w/60)}h ${w%60}m` of a minute count; what it reads back as is stated by Text.MinutesTextReadsBack |
| Text.MinutesTextReadsBack | server.js:406-409 | `${Math.floor(w/60)}h ${w%60}m` reads back as w with 0..59 minutes when w ≥ 0; for w < 0 the minutes keep w's sign |
| Text.HoursAndMinutes | server.js:406-409 | floored hours and sign-keeping minutes add back up to w |
| Text.NegativeMinutesText | server.js:406-409 | -15 minutes is written "-1h -15m" |
| Text.NegativeWholeHoursText | server.js:406-409 | -60 minutes is written "-1h 0m" |
| Text.HoursMinutesRoundTrip | server.js:69 | a "<h>h <m>m" text decodes back to its two integers |
| Text.SortStrings | server.js:374 | the sorted keys are a permutation of the keys in ascending default string order |
| Text.InsertString | server.js:374 | inserting into an ascending list keeps it ascending and adds exactly the one key |
| Text.StrLtTransitive | server.js:374 | the default string order is transitive |
| Text.StrLtTotal | server.js:374 | any two different strings are ordered one way or the other |
| Punches.DisplayName | server.js:109 | a present, non-empty first name is shown as it is; a NULL or empty one shows as "-"; the result is never empty |
| Punches.KeyOf | server.js:106 | the dictionary key of a row: its code, `${code}_${date}` or the date; Punches.KeyOfIsoText states it in terms of the ISO text |
| Punches.KeyOfIsoText | server.js:157-160 | the date key is `isoString.substring(0, 10)`, the calendar date's text, and the composite key is the code, '_' and that date |
| Punches.KeyPartsInjective | server.js:160 | `${code}_${date}` with a fixed-length date determines code and date |
| Punches.CompositeKeyInjective | server.js:160 | two rows share the composite key exactly when they share code and calendar date |
| Punches.Keys | server.js:105-114 | the keys are distinct and are exactly the keys of some row |
| Punches.KeysFirstSeen | server.js:105-114 | keys are listed in the order of their first row |
| Punches.Select | server.js:117-118 | `filter` keeps exactly the rows that pass, and no more rows than it was given |
| Punches.SelectIndices | server.js:117-118 | the kept rows stand at strictly ascending positions of the input, one for every passing row: `filter` keeps input order and multiplicity |
| Punches.FirstMatch | server.js:120 | `inPunches[0]` is the first passing row in input order, and None when no row passes |
| Punches.LastMatch | server.js:121 | `outPunches[length - 1]` is the last passing row in input order, and None when no row passes |
| Punches.FirstMatchUnderKey | server.js:113-117 | filtering the rows pushed under a key is filtering the whole input on key and alias |
| Punches.LastMatchUnderKey | server.js:113-121 | the same for the last Out punch |
| Punches.GroupBy | server.js:105-114 | the loop yields the keys in insertion order and, under each key, exactly that key's rows in input order |
| Punches.GroupHead | server.js:106-111 | a key's group is not empty, and its head is the key's first row |
| Daily.DayRecordOf | server.js:116-149 | the record carries the group's code and first name, login and weekday from the first In punch, logout from the last Out punch ("-" when missing), and calculateDuration of the two |
| Daily.DayRecordOvertime | server.js:123-138 | the overtime of every record is "0h 0m" |
| Daily.EmitRecords | server.js:103-149 | the grouping and mapping loops yield one record per key in insertion order |
| Daily.ProcessAttendance | server.js:102-150 | the output is the records of the grouping by code |
| Daily.ProcessWeekAttendance | server.js:153-208 | the output is the records of the grouping by `${code}_${date}` |
| Daily.DailyOneRecordPerCode | server.js:102-150 | exactly one record per code of the input, in first-seen order, named after the code's first row |
| Daily.DailyLoginLogout | server.js:117-145 | login and weekday come from the first In punch of the key, logout from its last Out punch, and workingHours is calculateDuration of them |
| Daily.DailyOvertimeAlwaysZero | server.js:123-138 | overtime is "0h 0m" in every record of both aggregators |
| Daily.WeekOneRecordPerEmployeeDay | server.js:153-208 | exactly one record per (code, date) punched in the input, and no two alike |
| Daily.WeekRecordAt | server.js:156-171 | each record's key is its code, '_' and its date, and the employee punched that date |
| Daily.OvertimeLost | server.js:129-137 | a day whose last Out punch is past 18:30 still gets "0h 0m", while the intended overtime is not zero |
| Daily.IntendedOvertimeMinutes | server.js:129-136 | calculateOvertimeMinutes against getOfficeEndTime of the first In punch is the last Out punch's minutes past 18:30 when it is past 18:30 and both punches exist, and 0 otherwise |
| Daily.IntendedOvertime | server.js:129-137 | the corrected overtime text is exactly `${Math.floor(m/60)}h ${m%60}m` of the last Out punch's minutes m past 18:30, and "0h 0m" when there is no such punch or it is not past 18:30 |
| Daily.IntendedOvertimeReadsBack | server.js:129-137 | the corrected overtime reads back as those minutes, split into hours and 0..59 minutes |
| WeekRange.EarliestIndex | server.js:379-381 | the ascending sort's head is a punch no later than any other, the first such in input order |
| WeekRange.LatestIndex | server.js:383-385 | the descending sort's head is a punch no earlier than any other, the first such in input order |
| WeekRange.InPunch | server.js:379-381 | the login punch is an "In Device" punch of the group no later than any other, and is missing exactly when there is none |
| WeekRange.OutPunch | server.js:383-385 | the logout punch is an "Out Device" punch of the group no earlier than any other, and is missing exactly when there is none |
| WeekRange.RangeRecordOf | server.js:428-431 | the record carries the employee code, the shown name of the first row ("-" when NULL or empty), and the date |
| WeekRange.RecordStatus | server.js:432-439 | the weekday of the date, and the status is Present, Partial - No Logout, Partial - No Login or Absent as In and Out punches exist |
| WeekRange.RecordClockLabels | server.js:394-395 | login and logout are the "HH:MM" of the chosen punches, null when missing |
| WeekRange.RecordPresentMinutes | server.js:397-417 | when Present, working minutes are the logout's clock minutes minus the login's, unclamped, and overtime is the minutes past 18:30 |
| WeekRange.RecordAbsentMinutes | server.js:387-388 | when not Present, both minute counts are 0 |
| WeekRange.RecordMinutesText | server.js:406-417 | both texts are the minute counts written as `${Math.floor(m/60)}h ${m%60}m` |
| WeekRange.NewEmployee | server.js:362-365 | the entry made for an employee's first row carries that row's first name and no dates yet, which is what the grouping invariant asks of an empty history |
| WeekRange.AddPunch | server.js:367-368 | the row is appended to the list of its ISO date, which is created (and its date recorded last in insertion order) only if missing; the name and every other date's list are unchanged |
| WeekRange.EmployeeStep | server.js:362-368 | pushing a row under its date keeps an employee's entry equal to the grouping of that employee's rows so far |
| WeekRange.GroupRange | server.js:357-369 | the grouping loop yields the codes in first-seen order, and for each the first row's name, its dates in first-seen order and each date's punches |
| WeekRange.RangeAttendance | server.js:353-441 | the handler's `allAttendance` equals the declarative `RangeRecords` of the rows |
| WeekRange.EmitRange | server.js:372-441 | the outer loop concatenates each employee's records in first-seen order |
| WeekRange.EmitEmployee | server.js:374-441 | the inner loop yields one record per date of the employee in sorted order |
| RangeFacts.RangeRecordsCover | server.js:353-441 | a record exists for an employee and date exactly when some row of that employee has that date |
| RangeFacts.RangeRecordsUnique | server.js:353-441 | no two records share employee and date |
| RangeFacts.RangeEmployeesOrdered | server.js:372 | records of different employees follow the order of their first rows |
| RangeFacts.RangeRecordsContiguous | server.js:372-376 | each employee's records are contiguous |
| RangeFacts.RangeDatesOrdered | server.js:374 | within an employee, date texts strictly ascend |
| RangeFacts.RangeDatesAscend | server.js:374 | within an employee, later records are of later calendar dates |
| RangeFacts.RangeDaysArranged | server.js:372-376 | the employee days are visited employee by employee, dates ascending |
| RangeFacts.RangeRecordName | server.js:430 | the name is the first name of the employee's first row in the input, "-" when NULL or empty |
| RangeFacts.RangeRecordStatus | server.js:439 | the status is the four-way case on whether the employee has In and Out punches that date |
| RangeFacts.RangeRecordLogin | server.js:379-394 | login is null exactly when no In punch that date, else the "HH:MM" of the earliest one |
| RangeFacts.RangeRecordLogout | server.js:383-395 | logout is null exactly when no Out punch that date, else the "HH:MM" of the latest one |
| RangeFacts.RangeRecordIdle | server.js:387-426 | a record that is not Present has zero minutes and lacks a login or a logout |
| RangeFacts.RangeRecordNegative | server.js:407 | negative working minutes arise only when every Out punch of the day precedes every In punch |
| RangeFacts.RangeOvertimeAgrees | server.js:412-417 | the week view's overtime minutes agree with calculateOvertimeMinutes against getOfficeEndTime |
| RangeFacts.AbsentReachable | server.js:439 | a day with punches only on other terminals gets an Absent record |
| RangeFacts.DayPunchesOnDay | server.js:367-368 | a day's punches are that employee's rows with that date |
| WeekReport.ReportCells | server.js:630-706 | a report row has the eight columns of the header |
| WeekReport.ClockCells | server.js:638-678 | the login and logout cells are the "HH:MM" of the chosen punches, or "-" when missing; work and overtime cells are "0h 0m" unless both punches exist |
| WeekReport.ReportCellsMatchRecord | server.js:630-706 | the report's row is the week view's record in the report columns, with "-" for a null login or logout |
| WeekReport.ReportTableMatchesRange | server.js:621-706 | the report has one row per week-view record, in the same order |
| WeekReport.ReportLabelsReadBack | server.js:697-706 | the login and logout cells give back the record's login and logout |
| WeekReport.WeekReportRows | server.js:561-706 | the handler's grouping and row loops yield `ReportTable` |
| WeekReport.ReportEmployees | server.js:621-627 | the outer loop concatenates each employee's rows in first-seen order |
| WeekReport.ReportEmployee | server.js:625-706 | the inner loop yields one row per date of the employee in sorted order |
| WeekReport.Sanitise | server.js:585 | the result keeps only `[a-zA-Z0-9._-]` and is no longer than the input |
| WeekReport.SanitiseRemoves | server.js:585 | a character survives exactly when it is in the input and in the class |
| WeekReport.SanitiseConcat | server.js:585 | removal splits over concatenation |
| WeekReport.SanitiseKeeps | server.js:585 | a text of allowed characters is unchanged |
| WeekReport.SanitiseIdempotent | server.js:585 | sanitising twice is sanitising once |
| WeekReport.ReportFileName | server.js:584-585 | the name holds only `[a-zA-Z0-9._-]`, and is `Week_Attendance_<start>_to_<end>.pdf` unchanged when both dates hold only such characters |
| WeekReport.TemplateKept | server.js:584-585 | dates of kept characters leave the whole template untouched by the replace |
| WeekReport.FileNameStaysQuoted | server.js:584-587 | the name never holds '"', '/' or '\\', so it cannot leave the quoted header value |
| WeekReport.FileNameOfDates | server.js:584-585 | for YYYY-MM-DD dates the name is `Week_Attendance_<start>_to_<end>.pdf` unchanged |
| WeekReport.ReportReply | server.js:537-540 | a missing or empty date gets 400; any other request gets an attachment name without '"' |

## Left out

- Express routing, the SQL queries and the PDFKit layout are not modelled: fonts, colours, page breaks and row positions. The model starts from the rows a query returns.
- Time zones are not modelled. Instants are the UTC fields `toISOString` prints, with four-digit years.
- TimeHelpers.CalculateDuration: floors the exact difference in whole seconds divided by 60. The source adds `s / 60` in floating point before `Math.floor`, and that rounding is not modelled. It is visible: for a start at 00:04:06 and an end at 01:04:06 the source computes 64.1 − 4.1 = 59.99999999999999 and shows "0h 59m", where the model shows "1h 0m" (worked out by hand from IEEE double arithmetic, not executed).
- WeekReport.ClockCells: its ensures gives the login and logout cells and the "0h 0m" cells of a day without both punches. The work and overtime cells of a day with both punches are stated through the week record: ReportCellsMatchRecord makes the row the record in report columns, and RecordPresentMinutes and RecordMinutesText give that record's minutes and texts.
- Employee codes enumerate in first-insertion order. JavaScript enumerates integer-like object keys in ascending numeric order first; that order is not modelled.
- Employee codes that name an `Object.prototype` member ("constructor", "toString", "valueOf", "hasOwnProperty", "__proto__", ...) make the source fail. `map[r.emp_code]` (server.js:106-113) and `grouped[r.emp_code] ??=` (server.js:362-368, 568-574) find the inherited property, so no entry is created. The following `.punches.push` or `.days[...]` then throws a TypeError, and the handler answers 500. The model treats such codes like any other code and groups them. Its per-code results (one daily record per code, the range and report rows) therefore describe the source only for codes that are not such names. The week grouping of processWeekAttendance is not affected: its keys end in "_YYYY-MM-DD", so they never name such a member.
- Strings are sequences of characters. UTF-16 code units, and the default sort's order on them, are modelled only for the date texts the engine sorts.
- `moment`'s parsing is modelled only for strict "YYYY-MM-DD" texts. Any other text gives "Invalid date".
- ToNumber is modelled only for digit strings and for strings holding a non-numeric character. Those are the only strings the engine compares with a Date.
- `Array.prototype.sort` inside a group is modelled by the element it puts first (a stable sort's head), not by the sorted array.
- Entries of the `grouped` object are values, not shared objects. The handler builds each employee's entry in place; the model rebuilds it.
- EmitEmployee and ReportEmployee: build each employee's records and then append them, where the handler pushes each record onto the shared array directly.
- WeekRange.RangeRecordOf: its ensures gives only code, name and date; the other fields are stated by RecordStatus, RecordClockLabels, RecordPresentMinutes, RecordAbsentMinutes and RecordMinutesText.
- The `/api/attendance/week` handler refuses a missing or empty date with 400, like the report. Only the report's check is modelled (ReportReply), because only the report uses the dates further (in its file name).
- Query parameters that are not strings (repeated parameters give arrays) are not modelled.

## Findings

| source | as written | input that shows it | evidently intended | confidence | as-written member | corrected member |
|---|---|---|---|---|---|---|
| server.js:132 | `lastOut > officeEnd` (also at line 189) compares a Date with an ISO text; ToNumber of the text is NaN, so overtime is always "0h 0m" | In at 2024-05-01T09:02, Out at 2024-05-01T18:47: overtime "0h 0m" | the minutes of the last Out punch past 18:30: "0h 17m" | high, not executed | Daily.OvertimeLost | Daily.IntendedOvertime |
