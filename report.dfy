/** The weekly PDF report of `/api/report/week`: the same grouping as the
    week view, and for every employee day one table row of eight text
    cells, with "-" where the week view has a null login or logout; and the
    attachment's file name, built from the requested dates and stripped of
    every character outside [a-zA-Z0-9._-]. */
module WeekReport {
  import opened Wrappers
  import opened Clock
  import opened Text
  import opened Iso
  import opened TimeHelpers
  import opened Punches
  import opened Sequences
  import opened WeekRange

  /** The column headings of the table. */
  const HEADERS: seq<string> := ["Emp", "Name", "Date", "Day", "Login", "Logout", "Work", "OT"]

  /** What a missing login or logout cell shows. */
  const NO_LABEL: string := "-"

  /** The row the report draws for employee `code` (whose first row carried
      `first`) on date text `date`, computed from that day's punches as the
      report's own loop computes it. */
  function ReportCells(code: string, first: Option<string>, date: string, ps: seq<Punch>): (row: seq<string>)
    ensures |row| == |HEADERS|
  {
    var (login, logout, work, ot) := ClockCells(InPunch(ps), OutPunch(ps));
    [code, DisplayName(first), date, MomentDayShort(date), login, logout, work, ot]
  }

  /** The login, logout, work and overtime cells from the earliest "In
      Device" and the latest "Out Device" punch, when there are such. */
  function ClockCells(inPunch: Option<Punch>, outPunch: Option<Punch>): (c: (string, string, string, string))
    ensures c.0 == if inPunch.Some? then FormatTime(inPunch.value.time) else NO_LABEL
    ensures c.1 == if outPunch.Some? then FormatTime(outPunch.value.time) else NO_LABEL
    ensures inPunch.None? || outPunch.None? ==> c.2 == "0h 0m" && c.3 == "0h 0m"
  {
    if inPunch.Some? && outPunch.Some? then
      var inString, outString := IsoString(inPunch.value.time), IsoString(outPunch.value.time);
      IsoClockMinutes(inPunch.value.time);
      IsoClockMinutes(outPunch.value.time);
      var inTotalMins := DigitsValue(inString[11..13]) * 60 + DigitsValue(inString[14..16]);
      var outTotalMins := DigitsValue(outString[11..13]) * 60 + DigitsValue(outString[14..16]);
      var ot := if outTotalMins > OFFICE_END_MINUTES then MinutesText(outTotalMins - OFFICE_END_MINUTES) else "0h 0m";
      (inString[11..16], outString[11..16], MinutesText(outTotalMins - inTotalMins), ot)
    else if inPunch.Some? then
      (IsoString(inPunch.value.time)[11..16], NO_LABEL, "0h 0m", "0h 0m")
    else if outPunch.Some? then
      (NO_LABEL, IsoString(outPunch.value.time)[11..16], "0h 0m", "0h 0m")
    else
      (NO_LABEL, NO_LABEL, "0h 0m", "0h 0m")
  }

  /** A login or logout as a cell: the label, or "-" for null. */
  function Cell(clock: Option<string>): string {
    if clock.Some? then clock.value else NO_LABEL
  }

  /** A cell read back as a login or logout. */
  function CellLabel(cell: string): Option<string> {
    if cell == NO_LABEL then None else Some(cell)
  }

  /** A week-view record laid out in the report's columns. */
  function RecordRow(r: RangeRecord): (row: seq<string>)
    ensures |row| == |HEADERS|
  {
    [r.empCode, r.name, r.date, r.day, Cell(r.login), Cell(r.logout), r.workingHours, r.overtime]
  }

  /** The report computes each row as the week view computes its record:
      the row is that record in the report's columns. */
  lemma ReportCellsMatchRecord(code: string, first: Option<string>, date: string, ps: seq<Punch>)
    ensures ReportCells(code, first, date, ps) == RecordRow(RangeRecordOf(code, first, date, ps))
  {
    ZeroMinutesText();
  }

  /** The row of one employee day. */
  function ReportDay(rows: seq<Punch>, k: DayKey): (row: seq<string>)
    ensures |row| == |HEADERS|
  {
    ReportCells(k.code, FirstName(rows, k.code), k.date, DayPunches(rows, k.code, k.date))
  }

  function ReportDayOf(rows: seq<Punch>): DayKey -> seq<string> {
    k => ReportDay(rows, k)
  }

  /** The rows of the report's table, in the order they are drawn. */
  function ReportTable(rows: seq<Punch>): seq<seq<string>> {
    MapSeq(ReportDayOf(rows), RangeDays(rows))
  }

  /** The report has one row per week-view record, in the same order, and
      each row is that record with "-" for a null login or logout. */
  lemma ReportTableMatchesRange(rows: seq<Punch>)
    ensures |ReportTable(rows)| == |RangeRecords(rows)|
    ensures forall i :: 0 <= i < |ReportTable(rows)| ==> ReportTable(rows)[i] == RecordRow(RangeRecords(rows)[i])
  {
    var days := RangeDays(rows);
    forall i | 0 <= i < |ReportTable(rows)|
      ensures ReportTable(rows)[i] == RecordRow(RangeRecords(rows)[i])
    {
      var k := days[i];
      ReportCellsMatchRecord(k.code, FirstName(rows, k.code), k.date, DayPunches(rows, k.code, k.date));
    }
  }

  /** No clock label is "-", so the login and logout cells of a row give
      back the record's login and logout. */
  lemma ReportLabelsReadBack(code: string, first: Option<string>, date: string, ps: seq<Punch>)
    ensures var r := RangeRecordOf(code, first, date, ps);
            var row := ReportCells(code, first, date, ps);
            CellLabel(row[4]) == r.login && CellLabel(row[5]) == r.logout
  {
    ReportCellsMatchRecord(code, first, date, ps);
    RecordClockLabels(code, first, date, ps);
  }

  /** The report's table, built as the handler builds it: the same grouping
      loop as the week view, then one row per employee day. */
  method WeekReportRows(rows: seq<Punch>) returns (table: seq<seq<string>>)
    ensures table == ReportTable(rows)
  {
    var order, grouped := GroupRange(rows);
    table := ReportEmployees(rows, order, grouped);
  }

  /** The outer loop: every employee in the order first met. */
  method ReportEmployees(rows: seq<Punch>, order: seq<string>, grouped: map<string, Employee>)
    returns (table: seq<seq<string>>)
    requires forall c :: c in order ==> c in grouped && Gathered(rows, c, grouped[c])
    ensures table == MapSeq(ReportDayOf(rows), DaysOver(rows, order, |order|))
  {
    table := [];
    for k := 0 to |order|
      invariant table == MapSeq(ReportDayOf(rows), DaysOver(rows, order, k))
    {
      var emp := order[k];
      assert emp in order;
      var empTable := ReportEmployee(rows, emp, grouped[emp]);
      MapConcat(ReportDayOf(rows), DaysOver(rows, order, k), EmployeeDays(rows, emp));
      table := table + empTable;
    }
  }

  /** The inner loop: the employee's dates in sorted order, one row each. */
  method ReportEmployee(rows: seq<Punch>, emp: string, empData: Employee) returns (table: seq<seq<string>>)
    requires Gathered(rows, emp, empData)
    ensures table == MapSeq(ReportDayOf(rows), EmployeeDays(rows, emp))
  {
    table := [];
    var sortedDates := SortStrings(empData.dates);
    ghost var days := EmployeeDays(rows, emp);
    for j := 0 to |sortedDates|
      invariant table == MapSeq(ReportDayOf(rows), days[..j])
    {
      var date := sortedDates[j];
      GatheredDay(rows, emp, empData, j);
      MapTakeSnoc(ReportDayOf(rows), days, j);
      table := table + [ReportCells(emp, empData.name, date, empData.days[date])];
    }
    TakeAll(days);
  }

  /** The characters the file name keeps. */
  predicate FileNameChar(c: char) {
    || 'a' <= c <= 'z' || 'A' <= c <= 'Z' || '0' <= c <= '9'
    || c == '.' || c == '_' || c == '-'
  }

  /** `.replace(/[^a-zA-Z0-9._-]/g, "")`: every other character removed. */
  function Sanitise(s: string): (r: string)
    ensures |r| <= |s|
    ensures forall i :: 0 <= i < |r| ==> FileNameChar(r[i])
  {
    if s == [] then [] else (if FileNameChar(s[0]) then [s[0]] else []) + Sanitise(s[1..])
  }

  /** Removal works character by character, so it splits over a
      concatenation. */
  lemma {:induction false} SanitiseConcat(a: string, b: string)
    ensures Sanitise(a + b) == Sanitise(a) + Sanitise(b)
  {
    if a != [] {
      var head := if FileNameChar(a[0]) then [a[0]] else [];
      assert (a + b)[0] == a[0] && (a + b)[1..] == a[1..] + b;
      calc {
        Sanitise(a + b);
        head + Sanitise(a[1..] + b);
        { SanitiseConcat(a[1..], b); }
        head + (Sanitise(a[1..]) + Sanitise(b));
        (head + Sanitise(a[1..])) + Sanitise(b);
      }
    } else {
      assert a + b == b;
    }
  }

  /** A text of kept characters only is left as it is. */
  lemma {:induction false} SanitiseKeeps(s: string)
    requires forall i :: 0 <= i < |s| ==> FileNameChar(s[i])
    ensures Sanitise(s) == s
  {
    if s != [] {
      SanitiseKeeps(s[1..]);
    }
  }

  /** A character is removed exactly when it is outside the class. */
  lemma {:induction false} SanitiseRemoves(s: string, c: char)
    ensures c in Sanitise(s) <==> c in s && FileNameChar(c)
  {
    if s != [] {
      SanitiseRemoves(s[1..], c);
      assert s == [s[0]] + s[1..];
    }
  }

  /** Sanitising twice is sanitising once. */
  lemma SanitiseIdempotent(s: string)
    ensures Sanitise(Sanitise(s)) == Sanitise(s)
  {
    SanitiseKeeps(Sanitise(s));
  }

  /** The attachment name for the requested start and end dates. */
  function ReportFileName(start: string, end: string): (name: string)
    ensures forall i :: 0 <= i < |name| ==> FileNameChar(name[i])
    ensures AllKept(start) && AllKept(end) ==> name == "Week_Attendance_" + start + "_to_" + end + ".pdf"
  {
    var s := "Week_Attendance_" + start + "_to_" + end + ".pdf";
    if AllKept(start) && AllKept(end) then
      TemplateKept(start, end);
      Sanitise(s)
    else
      Sanitise(s)
  }

  /** Every character of `s` is one the file name keeps. */
  predicate AllKept(s: string) {
    forall i :: 0 <= i < |s| ==> FileNameChar(s[i])
  }

  /** Dates made of kept characters leave the whole name as it is. */
  lemma TemplateKept(start: string, end: string)
    requires AllKept(start) && AllKept(end)
    ensures Sanitise("Week_Attendance_" + start + "_to_" + end + ".pdf")
            == "Week_Attendance_" + start + "_to_" + end + ".pdf"
  {
    var s := "Week_Attendance_" + start + "_to_" + end + ".pdf";
    var a, b := |start| + 16, |start| + 20;
    forall i | 0 <= i < |s| ensures FileNameChar(s[i]) {
      if i < 16 { }
      else if i < a { assert s[i] == start[i - 16]; }
      else if i < b { }
      else if i < b + |end| { assert s[i] == end[i - b]; }
    }
    SanitiseKeeps(s);
  }

  /** Whatever the query holds, the name cannot close the quoted
      `filename="..."` of the Content-Disposition header, nor name a
      directory. */
  lemma FileNameStaysQuoted(start: string, end: string)
    ensures '"' !in ReportFileName(start, end)
    ensures '/' !in ReportFileName(start, end) && '\\' !in ReportFileName(start, end)
  {
    var s := "Week_Attendance_" + start + "_to_" + end + ".pdf";
    SanitiseRemoves(s, '"');
    SanitiseRemoves(s, '/');
    SanitiseRemoves(s, '\\');
  }

  /** A date text is made of digits and hyphens only. */
  lemma DateTextKept(d: CalendarDate)
    ensures forall i :: 0 <= i < |DateText(d)| ==> FileNameChar(DateText(d)[i])
  {
    var y, m, dd := Pad4(d.year), Pad2(d.month), Pad2(d.day);
    assert DateText(d) == y + ("-" + (m + ("-" + dd)));
    forall i | 0 <= i < 10 ensures FileNameChar(DateText(d)[i]) {
      if i < 4 { assert DateText(d)[i] == y[i]; }
      else if 5 <= i < 7 { assert DateText(d)[i] == m[i - 5]; }
      else if 8 <= i { assert DateText(d)[i] == dd[i - 8]; }
    }
  }

  /** For dates written as YYYY-MM-DD nothing is removed. */
  lemma FileNameOfDates(start: CalendarDate, end: CalendarDate)
    ensures ReportFileName(DateText(start), DateText(end))
            == "Week_Attendance_" + DateText(start) + "_to_" + DateText(end) + ".pdf"
  {
    DateTextKept(start);
    DateTextKept(end);
  }

  /** The answer to a report request, before any row is drawn. */
  datatype Reply = BadRequest(error: string) | Attachment(fileName: string)

  /** A request lacking either date, or giving it empty, is refused with
      400; any other gets the attachment name of its dates. */
  function ReportReply(start: Option<string>, end: Option<string>): (r: Reply)
    ensures r.BadRequest? <==> start.None? || start.value == [] || end.None? || end.value == []
    ensures r.Attachment? ==> '"' !in r.fileName
  {
    if start.None? || start.value == [] || end.None? || end.value == [] then
      BadRequest("Start and End dates required")
    else
      FileNameStaysQuoted(start.value, end.value);
      Attachment(ReportFileName(start.value, end.value))
  }
}
