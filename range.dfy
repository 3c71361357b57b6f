/** The attendance of every employee over a date range, as the handler of
    `/api/attendance/week` builds it: the rows are grouped by employee and,
    within an employee, by the ISO date of the punch; each employee's dates
    are visited in sorted order, and each (employee, date) group yields one
    record whose login is the earliest "In Device" punch and whose logout is
    the latest "Out Device" punch of that group, with the minutes between
    them, the minutes past 18:30 and a four-way status. */
module WeekRange {
  import opened Wrappers
  import opened Text
  import opened Clock
  import opened Iso
  import opened TimeHelpers
  import opened Punches
  import opened Sequences

  /** 18:30 as minutes past midnight. */
  const OFFICE_END_MINUTES: int := 18 * 60 + 30

  const PRESENT: string := "Present"
  const NO_LOGOUT: string := "Partial - No Logout"
  const NO_LOGIN: string := "Partial - No Login"
  const ABSENT: string := "Absent"

  /** One entry of the handler's `allAttendance` array; `null` login or
      logout is None. */
  datatype RangeRecord = RangeRecord(
    empCode: string, name: string, date: string, day: string,
    login: Option<string>, logout: Option<string>,
    workingHours: string, workingMinutes: int,
    overtime: string, overtimeMinutes: int,
    status: string)

  /** The numbers the sort comparators subtract: each punch's Date as
      milliseconds since the epoch. */
  function Times(ps: seq<Punch>): (ts: seq<int>)
    ensures |ts| == |ps|
    ensures forall i :: 0 <= i < |ps| ==> ts[i] == EpochMs(ps[i].time)
  {
    seq(|ps|, i requires 0 <= i < |ps| => EpochMs(ps[i].time))
  }

  /** The index a stable ascending sort puts first: a least value, the
      first such in input order. */
  function MinIndex(ts: seq<int>): (j: nat)
    requires ts != []
    ensures j < |ts|
    ensures forall i :: 0 <= i < |ts| ==> ts[j] <= ts[i]
    ensures forall i :: 0 <= i < j ==> ts[j] < ts[i]
  {
    if |ts| == 1 then 0
    else
      var j := MinIndex(ts[..|ts| - 1]);
      if ts[|ts| - 1] < ts[j] then |ts| - 1 else j
  }

  /** The index a stable descending sort puts first: a greatest value, the
      first such in input order. */
  function MaxIndex(ts: seq<int>): (j: nat)
    requires ts != []
    ensures j < |ts|
    ensures forall i :: 0 <= i < |ts| ==> ts[i] <= ts[j]
    ensures forall i :: 0 <= i < j ==> ts[i] < ts[j]
  {
    if |ts| == 1 then 0
    else
      var j := MaxIndex(ts[..|ts| - 1]);
      if ts[|ts| - 1] > ts[j] then |ts| - 1 else j
  }

  /** The index `.sort((a, b) => a.punch_time - b.punch_time)[0]` picks: a
      punch no later than any other, and (the sort being stable) the first
      such punch in input order. */
  function EarliestIndex(ps: seq<Punch>): (j: nat)
    requires ps != []
    ensures j < |ps|
    ensures forall i :: 0 <= i < |ps| ==> EpochMs(ps[j].time) <= EpochMs(ps[i].time)
    ensures forall i :: 0 <= i < j ==> EpochMs(ps[j].time) < EpochMs(ps[i].time)
  {
    MinIndex(Times(ps))
  }

  /** The index `.sort((a, b) => b.punch_time - a.punch_time)[0]` picks: a
      punch no earlier than any other, the first such in input order. */
  function LatestIndex(ps: seq<Punch>): (j: nat)
    requires ps != []
    ensures j < |ps|
    ensures forall i :: 0 <= i < |ps| ==> EpochMs(ps[i].time) <= EpochMs(ps[j].time)
    ensures forall i :: 0 <= i < j ==> EpochMs(ps[i].time) < EpochMs(ps[j].time)
  {
    MaxIndex(Times(ps))
  }

  /** Some punch of the group was made on the terminal `alias`. */
  predicate HasPunch(ps: seq<Punch>, alias: string) {
    exists p :: p in ps && p.alias == alias
  }

  /** A punch picked from the `alias` punches of `ps` is one of them, and
      every `alias` punch of `ps` sits at some index of the selection. */
  lemma PickedPunch(ps: seq<Punch>, alias: string, j: nat)
    requires j < |Select(ps, AliasIs(alias))|
    ensures var sel := Select(ps, AliasIs(alias));
            && sel[j] in ps && sel[j].alias == alias
            && forall p :: p in ps && p.alias == alias ==> exists i :: 0 <= i < |sel| && sel[i] == p
  {
    var sel := Select(ps, AliasIs(alias));
    assert sel[j] in sel;
    forall p | p in ps && p.alias == alias
      ensures exists i :: 0 <= i < |sel| && sel[i] == p
    {
      assert p in sel;
    }
  }

  /** The group's login punch: the earliest of its "In Device" punches, or
      None (`undefined`) when it has none. */
  function InPunch(ps: seq<Punch>): (r: Option<Punch>)
    ensures r.None? <==> !HasPunch(ps, IN_DEVICE)
    ensures r.Some? ==> r.value in ps && r.value.alias == IN_DEVICE
    ensures r.Some? ==> forall p :: p in ps && p.alias == IN_DEVICE ==> EpochMs(r.value.time) <= EpochMs(p.time)
  {
    var ins := Select(ps, AliasIs(IN_DEVICE));
    if ins == [] then None
    else
      var j := EarliestIndex(ins);
      PickedPunch(ps, IN_DEVICE, j);
      Some(ins[j])
  }

  /** The group's logout punch: the latest of its "Out Device" punches, or
      None when it has none. */
  function OutPunch(ps: seq<Punch>): (r: Option<Punch>)
    ensures r.None? <==> !HasPunch(ps, OUT_DEVICE)
    ensures r.Some? ==> r.value in ps && r.value.alias == OUT_DEVICE
    ensures r.Some? ==> forall p :: p in ps && p.alias == OUT_DEVICE ==> EpochMs(p.time) <= EpochMs(r.value.time)
  {
    var outs := Select(ps, AliasIs(OUT_DEVICE));
    if outs == [] then None
    else
      var j := LatestIndex(outs);
      PickedPunch(ps, OUT_DEVICE, j);
      Some(outs[j])
  }

  /** The record the handler pushes for employee `code` (whose first row
      carried `first`) on date text `date`, given that day's punches; what
      its fields mean is stated by the lemmas that follow it. */
  function RangeRecordOf(code: string, first: Option<string>, date: string, ps: seq<Punch>): (r: RangeRecord)
    ensures r.empCode == code && r.name == DisplayName(first) && r.date == date
  {
    var inPunch, outPunch := InPunch(ps), OutPunch(ps);
    var day := MomentDayShort(date);
    var name := DisplayName(first);
    if inPunch.Some? && outPunch.Some? then
      var inString, outString := IsoString(inPunch.value.time), IsoString(outPunch.value.time);
      IsoClockMinutes(inPunch.value.time);
      IsoClockMinutes(outPunch.value.time);
      var login, logout := inString[11..16], outString[11..16];
      var inTotalMins := DigitsValue(inString[11..13]) * 60 + DigitsValue(inString[14..16]);
      var outTotalMins := DigitsValue(outString[11..13]) * 60 + DigitsValue(outString[14..16]);
      var workingMinutes := outTotalMins - inTotalMins;
      var overtimeMinutes := if outTotalMins > OFFICE_END_MINUTES then outTotalMins - OFFICE_END_MINUTES else 0;
      RangeRecord(code, name, date, day, Some(login), Some(logout),
                  MinutesText(workingMinutes), workingMinutes,
                  if outTotalMins > OFFICE_END_MINUTES then MinutesText(overtimeMinutes) else "0h 0m",
                  overtimeMinutes, PRESENT)
    else if inPunch.Some? then
      var login := IsoString(inPunch.value.time)[11..16];
      RangeRecord(code, name, date, day, Some(login), None, "0h 0m", 0, "0h 0m", 0, NO_LOGOUT)
    else if outPunch.Some? then
      var logout := IsoString(outPunch.value.time)[11..16];
      RangeRecord(code, name, date, day, None, Some(logout), "0h 0m", 0, "0h 0m", 0, NO_LOGIN)
    else
      RangeRecord(code, name, date, day, None, None, "0h 0m", 0, "0h 0m", 0, ABSENT)
  }

  /** The weekday of the record's date, and the four-way status by which
      of the two terminals the day has punches on. */
  lemma RecordStatus(code: string, first: Option<string>, date: string, ps: seq<Punch>)
    ensures var r := RangeRecordOf(code, first, date, ps);
            && r.day == MomentDayShort(date)
            && (r.status == PRESENT <==> HasPunch(ps, IN_DEVICE) && HasPunch(ps, OUT_DEVICE))
            && (r.status == NO_LOGOUT <==> HasPunch(ps, IN_DEVICE) && !HasPunch(ps, OUT_DEVICE))
            && (r.status == NO_LOGIN <==> !HasPunch(ps, IN_DEVICE) && HasPunch(ps, OUT_DEVICE))
            && (r.status == ABSENT <==> !HasPunch(ps, IN_DEVICE) && !HasPunch(ps, OUT_DEVICE))
  {
  }

  /** Login and logout are the clock labels of the login and logout
      punches, null when there is none. */
  lemma RecordClockLabels(code: string, first: Option<string>, date: string, ps: seq<Punch>)
    ensures var r := RangeRecordOf(code, first, date, ps);
            && r.login == (if InPunch(ps).Some? then Some(FormatTime(InPunch(ps).value.time)) else None)
            && r.logout == (if OutPunch(ps).Some? then Some(FormatTime(OutPunch(ps).value.time)) else None)
  {
    var inPunch, outPunch := InPunch(ps), OutPunch(ps);
    if inPunch.Some? {
      assert IsoString(inPunch.value.time)[11..16] == FormatTime(inPunch.value.time);
    }
    if outPunch.Some? {
      assert IsoString(outPunch.value.time)[11..16] == FormatTime(outPunch.value.time);
    }
  }

  /** On a present day, the working minutes are the logout's clock minute
      less the login's, negative when the logout reads earlier, and the
      overtime is the minutes past 18:30. */
  lemma RecordPresentMinutes(code: string, first: Option<string>, date: string, ps: seq<Punch>)
    ensures var r := RangeRecordOf(code, first, date, ps);
            r.status == PRESENT ==>
              var inMins, outMins := MinuteOfDay(InPunch(ps).value.time), MinuteOfDay(OutPunch(ps).value.time);
              && r.workingMinutes == outMins - inMins
              && r.overtimeMinutes == (if outMins > OFFICE_END_MINUTES then outMins - OFFICE_END_MINUTES else 0)
  {
    var inPunch, outPunch := InPunch(ps), OutPunch(ps);
    if inPunch.Some? && outPunch.Some? {
      IsoClockMinutes(inPunch.value.time);
      IsoClockMinutes(outPunch.value.time);
    }
  }

  /** On any other day both counts are zero. */
  lemma RecordAbsentMinutes(code: string, first: Option<string>, date: string, ps: seq<Punch>)
    ensures var r := RangeRecordOf(code, first, date, ps);
            r.status != PRESENT ==> r.workingMinutes == 0 && r.overtimeMinutes == 0
  {
  }

  /** The texts spell the two counts as hours and minutes. */
  lemma RecordMinutesText(code: string, first: Option<string>, date: string, ps: seq<Punch>)
    ensures var r := RangeRecordOf(code, first, date, ps);
            r.workingHours == MinutesText(r.workingMinutes) && r.overtime == MinutesText(r.overtimeMinutes)
  {
    ZeroMinutesText();
  }

  /** The rows of employee `c`, in input order. */
  function EmployeeRows(rows: seq<Punch>, c: string): seq<Punch> {
    Select(rows, KeyIs(ByCode, c))
  }

  /** `first_name` of the employee's first row: the name the handler keeps. */
  function FirstName(rows: seq<Punch>, c: string): Option<string> {
    var ps := EmployeeRows(rows, c);
    if ps == [] then None else ps[0].firstName
  }

  /** The employee's date texts, in the order they were first met. */
  function EmployeeDates(rows: seq<Punch>, c: string): seq<string> {
    Keys(EmployeeRows(rows, c), ByDate)
  }

  /** The employee's punches on date text `d`, in input order. */
  function DayPunches(rows: seq<Punch>, c: string, d: string): seq<Punch> {
    Select(EmployeeRows(rows, c), KeyIs(ByDate, d))
  }

  /** An employee and a date text: what one record is about. */
  datatype DayKey = DayKey(code: string, date: string)

  /** The record of one employee on one date, built from that day's
      punches and the employee's first row. */
  function DayRecord(rows: seq<Punch>, k: DayKey): (r: RangeRecord)
    ensures r.empCode == k.code && r.date == k.date
  {
    RangeRecordOf(k.code, FirstName(rows, k.code), k.date, DayPunches(rows, k.code, k.date))
  }

  /** The record of each employee day. */
  function KeyRecord(rows: seq<Punch>): DayKey -> RangeRecord {
    k => DayRecord(rows, k)
  }

  /** The records of a list of employee days, in that order. */
  function DayRecords(rows: seq<Punch>, days: seq<DayKey>): seq<RangeRecord> {
    MapSeq(KeyRecord(rows), days)
  }

  /** The days of one employee, one per date with punches, dates in sorted
      order. */
  function EmployeeDays(rows: seq<Punch>, c: string): (days: seq<DayKey>)
    ensures |days| == |EmployeeDates(rows, c)|
  {
    var ds := SortStrings(EmployeeDates(rows, c));
    assert |ds| == |multiset(ds)| == |multiset(EmployeeDates(rows, c))|;
    seq(|ds|, j requires 0 <= j < |ds| => DayKey(c, ds[j]))
  }

  /** The days of each employee. */
  function EmployeeDaysOf(rows: seq<Punch>): string -> seq<DayKey> {
    c => EmployeeDays(rows, c)
  }

  /** The days of the first `n` employees of `codes`, one employee after
      another. */
  function DaysOver(rows: seq<Punch>, codes: seq<string>, n: nat): seq<DayKey>
    requires n <= |codes|
  {
    Flatten(EmployeeDaysOf(rows), codes, n)
  }

  /** The days the handler reports, employees in the order first met. */
  function RangeDays(rows: seq<Punch>): seq<DayKey> {
    var codes := Keys(rows, ByCode);
    DaysOver(rows, codes, |codes|)
  }

  /** What the handler returns as `allAttendance` for the rows of the
      range. */
  function RangeRecords(rows: seq<Punch>): seq<RangeRecord> {
    DayRecords(rows, RangeDays(rows))
  }

  /** One entry of the handler's `grouped` object: the name taken from the
      employee's first row, and the punches pushed under each date (`dates`
      holds the keys of `days` in insertion order). */
  datatype Employee = Employee(name: Option<string>, dates: seq<string>, days: map<string, seq<Punch>>)

  /** `grouped[r.emp_code] ??= { name: r.first_name, days: {} }`: the entry
      an employee gets from the first row seen for it. */
  function NewEmployee(r: Punch): (e: Employee)
    ensures EmployeeGrouped([], e) && e.name == r.firstName
  {
    Employee(r.firstName, [], map[])
  }

  /** `days[date] ??= []; days[date].push(r)` on an employee's entry, where
      `date` is the date part of the row's ISO text. */
  function AddPunch(e: Employee, r: Punch): (e': Employee)
    ensures e'.name == e.name
    ensures var date := KeyOf(ByDate, r);
            && date in e'.days
            && e'.days[date] == (if date in e.days then e.days[date] else []) + [r]
            && e'.dates == (if date in e.days then e.dates else e.dates + [date])
    ensures forall d :: d in e.days ==> d in e'.days
    ensures forall d :: d in e'.days && d != KeyOf(ByDate, r) ==> d in e.days && e'.days[d] == e.days[d]
  {
    var date := KeyOf(ByDate, r);
    var day := if date in e.days then e.days[date] else [];
    var dates := if date in e.days then e.dates else e.dates + [date];
    Employee(e.name, dates, e.days[date := day + [r]])
  }

  /** `e` is what the grouping loop has built for an employee whose rows so
      far are `ps`. */
  ghost predicate EmployeeGrouped(ps: seq<Punch>, e: Employee) {
    && Grouped(ps, ByDate, e.dates, e.days)
    && (ps != [] ==> e.name == ps[0].firstName)
  }

  /** `e` holds exactly what the specification says about employee `c`:
      the dates first met, the first row's name and each day's punches. */
  ghost predicate Gathered(rows: seq<Punch>, c: string, e: Employee) {
    && e.dates == EmployeeDates(rows, c)
    && e.name == FirstName(rows, c)
    && forall d :: d in e.dates ==> d in e.days && e.days[d] == DayPunches(rows, c, d)
  }

  /** `order` and `grouped` are what the grouping loop has built from `rows`. */
  ghost predicate RangeGrouped(rows: seq<Punch>, order: seq<string>, grouped: map<string, Employee>) {
    && order == Keys(rows, ByCode)
    && (forall c :: c in grouped <==> c in order)
    && (forall c :: c in grouped ==> EmployeeGrouped(EmployeeRows(rows, c), grouped[c]))
  }

  /** The `forEach` that fills `grouped`: each row's employee gets an entry
      the first time it is seen, and the row is pushed under its date. */
  method GroupRange(rows: seq<Punch>) returns (order: seq<string>, grouped: map<string, Employee>)
    ensures order == Keys(rows, ByCode)
    ensures forall c :: c in order ==> c in grouped && Gathered(rows, c, grouped[c])
  {
    order, grouped := [], map[];
    for i := 0 to |rows|
      invariant RangeGrouped(rows[..i], order, grouped)
    {
      var r := rows[i];
      assert rows[..i + 1] == rows[..i] + [r];
      var entry: Employee;
      if r.empCode in grouped {
        entry := grouped[r.empCode];
      } else {
        entry := NewEmployee(r);
      }
      RowEntry(rows[..i], r, order, grouped);
      RangeStep(rows[..i], r, order, grouped, AddPunch(entry, r));
      if r.empCode !in grouped {
        order := order + [r.empCode];
      }
      grouped := grouped[r.empCode := AddPunch(entry, r)];
    }
    assert rows[..|rows|] == rows;
    forall c | c in order ensures c in grouped && Gathered(rows, c, grouped[c]) {
      EmployeeView(rows, c, grouped[c]);
    }
  }

  /** The attendance of each employee on each date of the range, built as
      the handler builds it: the rows grouped by employee and date, then for
      every employee, in the order first met, one record per date in sorted
      order. */
  method RangeAttendance(rows: seq<Punch>) returns (records: seq<RangeRecord>)
    ensures records == RangeRecords(rows)
  {
    var order, grouped := GroupRange(rows);
    records := EmitRange(rows, order, grouped);
  }

  /** The outer loop of the handler: every employee in the order first met. */
  method EmitRange(rows: seq<Punch>, order: seq<string>, grouped: map<string, Employee>)
    returns (records: seq<RangeRecord>)
    requires forall c :: c in order ==> c in grouped && Gathered(rows, c, grouped[c])
    ensures records == DayRecords(rows, DaysOver(rows, order, |order|))
  {
    records := [];
    for k := 0 to |order|
      invariant records == DayRecords(rows, DaysOver(rows, order, k))
    {
      var emp := order[k];
      assert emp in order;
      var empRecords := EmitEmployee(rows, emp, grouped[emp]);
      MapConcat(KeyRecord(rows), DaysOver(rows, order, k), EmployeeDays(rows, emp));
      records := records + empRecords;
    }
  }

  /** The inner loop of the handler: for each of the employee's dates in
      sorted order, the record of that day's punches. */
  method EmitEmployee(rows: seq<Punch>, emp: string, empData: Employee) returns (records: seq<RangeRecord>)
    requires Gathered(rows, emp, empData)
    ensures records == DayRecords(rows, EmployeeDays(rows, emp))
  {
    records := [];
    var sortedDates := SortStrings(empData.dates);
    ghost var days := EmployeeDays(rows, emp);
    for j := 0 to |sortedDates|
      invariant records == DayRecords(rows, days[..j])
    {
      var date := sortedDates[j];
      GatheredDay(rows, emp, empData, j);
      MapTakeSnoc(KeyRecord(rows), days, j);
      records := records + [RangeRecordOf(emp, empData.name, date, empData.days[date])];
    }
    TakeAll(days);
  }

  /** The `j`th of the employee's sorted dates is its `j`th day, and the
      entry holds that day's punches and the employee's first name. */
  lemma GatheredDay(rows: seq<Punch>, emp: string, empData: Employee, j: nat)
    requires Gathered(rows, emp, empData)
    requires j < |SortStrings(empData.dates)|
    ensures var date := SortStrings(empData.dates)[j];
            && j < |EmployeeDays(rows, emp)| && EmployeeDays(rows, emp)[j] == DayKey(emp, date)
            && date in empData.days && empData.days[date] == DayPunches(rows, emp, date)
            && empData.name == FirstName(rows, emp)
  {
    var date := SortStrings(empData.dates)[j];
    assert date in multiset(SortStrings(empData.dates));
  }

  /** Taking one more row into the employees and days built so far. */
  lemma RangeStep(rows: seq<Punch>, r: Punch, order: seq<string>, grouped: map<string, Employee>, entry: Employee)
    requires RangeGrouped(rows, order, grouped)
    requires EmployeeGrouped(EmployeeRows(rows + [r], r.empCode), entry)
    ensures RangeGrouped(rows + [r], if r.empCode in grouped then order else order + [r.empCode],
                         grouped[r.empCode := entry])
  {
    OrderStep(rows, r, order, grouped, entry);
    EntriesStep(rows, r, grouped, entry);
  }

  /** The list of employees gains the row's employee when it is new, and so
      do the keys of the map. */
  lemma OrderStep(rows: seq<Punch>, r: Punch, order: seq<string>, grouped: map<string, Employee>, entry: Employee)
    requires order == Keys(rows, ByCode)
    requires forall c :: c in grouped <==> c in order
    ensures var order' := if r.empCode in grouped then order else order + [r.empCode];
            && order' == Keys(rows + [r], ByCode)
            && forall c :: c in grouped[r.empCode := entry] <==> c in order'
  {
    KeysSnoc(rows, r, ByCode);
  }

  /** Every other employee's entry stays as it was, and so do the rows it
      was built from. */
  lemma EntriesStep(rows: seq<Punch>, r: Punch, grouped: map<string, Employee>, entry: Employee)
    requires forall c :: c in grouped ==> EmployeeGrouped(EmployeeRows(rows, c), grouped[c])
    requires EmployeeGrouped(EmployeeRows(rows + [r], r.empCode), entry)
    ensures forall c :: c in grouped[r.empCode := entry] ==>
              EmployeeGrouped(EmployeeRows(rows + [r], c), grouped[r.empCode := entry][c])
  {
    forall c | c in grouped[r.empCode := entry]
      ensures EmployeeGrouped(EmployeeRows(rows + [r], c), grouped[r.empCode := entry][c])
    {
      if c != r.empCode {
        OtherEmployeeRows(rows, r, c);
      }
    }
  }

  /** The entry of the row's own employee after the row is taken in. */
  lemma RowEntry(rows: seq<Punch>, r: Punch, order: seq<string>, grouped: map<string, Employee>)
    requires RangeGrouped(rows, order, grouped)
    ensures var e := if r.empCode in grouped then grouped[r.empCode] else NewEmployee(r);
            EmployeeGrouped(EmployeeRows(rows + [r], r.empCode), AddPunch(e, r))
  {
    var c := r.empCode;
    var ps := EmployeeRows(rows, c);
    SelectSnoc(rows, r, KeyIs(ByCode, c));
    if c in grouped {
      assert Seen(rows, ByCode, c);
      var p :| p in rows && KeyOf(ByCode, p) == c;
      assert p in ps;
      EmployeeStep(ps, r, grouped[c]);
    } else {
      NoRowsUnderNewKey(rows, ByCode, c);
      EmployeeStep(ps, r, NewEmployee(r));
    }
  }

  /** A row of one employee leaves the rows of every other as they were. */
  lemma OtherEmployeeRows(rows: seq<Punch>, r: Punch, c: string)
    requires c != r.empCode
    ensures EmployeeRows(rows + [r], c) == EmployeeRows(rows, c)
  {
    SelectSnoc(rows, r, KeyIs(ByCode, c));
  }

  /** Pushing a row under its date keeps an employee's entry in step. */
  lemma EmployeeStep(ps: seq<Punch>, r: Punch, e: Employee)
    requires EmployeeGrouped(ps, e)
    requires ps == [] ==> e.name == r.firstName
    ensures EmployeeGrouped(ps + [r], AddPunch(e, r))
  {
    GroupPushed(ps, r, ByDate, e.dates, e.days);
    var date := KeyOf(ByDate, r);
    GroupStep(ps, r, ByDate, e.dates, e.days, (if date in e.days then e.days[date] else []) + [r]);
    if ps != [] {
      assert (ps + [r])[0] == ps[0];
    }
  }

  /** What the grouping loop built for an employee, read as the
      specification's view of that employee. */
  lemma EmployeeView(rows: seq<Punch>, c: string, e: Employee)
    requires EmployeeGrouped(EmployeeRows(rows, c), e)
    requires Seen(rows, ByCode, c)
    ensures Gathered(rows, c, e)
  {
  }
}
