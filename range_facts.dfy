/** What the records of `/api/attendance/week` say about the punch rows:
    one record for each employee and date that has a punch and for nothing
    else, each employee's records together and in date order, employees in
    the order their first row came, and each record's fields read off that
    day's punches. */
module RangeFacts {
  import opened Wrappers
  import opened Text
  import opened Clock
  import opened Iso
  import opened TimeHelpers
  import opened Punches
  import opened Sequences
  import opened WeekRange

  /** `p` is a punch of employee `c` on date text `d`. */
  predicate OnDay(rows: seq<Punch>, c: string, d: string, p: Punch) {
    p in rows && p.empCode == c && IsoDatePart(p.time) == d
  }

  /** Day `a` may come before day `b`: a later date of the same employee,
      or an employee whose first row came later. */
  predicate InOrder(rows: seq<Punch>, a: DayKey, b: DayKey) {
    if a.code == b.code then StrLt(a.date, b.date)
    else FirstIndex(rows, ByCode, a.code) < FirstIndex(rows, ByCode, b.code)
  }

  predicate Arranged(rows: seq<Punch>, days: seq<DayKey>) {
    forall i, k :: 0 <= i < k < |days| ==> InOrder(rows, days[i], days[k])
  }

  /** The days of one employee carry its code and its dates in ascending
      order. */
  lemma EmployeeArranged(rows: seq<Punch>, c: string)
    ensures forall j :: 0 <= j < |EmployeeDays(rows, c)| ==> EmployeeDays(rows, c)[j].code == c
    ensures Arranged(rows, EmployeeDays(rows, c))
  {
    var ds := SortStrings(EmployeeDates(rows, c));
    assert |ds| == |multiset(ds)|;
    assert forall j :: 0 <= j < |ds| ==> EmployeeDays(rows, c)[j] == DayKey(c, ds[j]);
  }

  /** Day `j` of an employee is a date of that employee. */
  lemma EmployeeDayAt(rows: seq<Punch>, c: string, j: nat)
    requires j < |EmployeeDays(rows, c)|
    ensures EmployeeDays(rows, c)[j].code == c
    ensures EmployeeDays(rows, c)[j].date in EmployeeDates(rows, c)
  {
    var ds := SortStrings(EmployeeDates(rows, c));
    assert |ds| == |multiset(ds)|;
    assert EmployeeDays(rows, c)[j] == DayKey(c, ds[j]);
    assert ds[j] in multiset(ds);
  }

  /** Every date of an employee is one of its days. */
  lemma EmployeeDayOf(rows: seq<Punch>, c: string, d: string) returns (j: nat)
    requires d in EmployeeDates(rows, c)
    ensures j < |EmployeeDays(rows, c)| && EmployeeDays(rows, c)[j] == DayKey(c, d)
  {
    var ds := SortStrings(EmployeeDates(rows, c));
    assert |ds| == |multiset(ds)|;
    assert d in multiset(ds);
    j :| 0 <= j < |ds| && ds[j] == d;
  }

  lemma ArrangedConcat(rows: seq<Punch>, a: seq<DayKey>, b: seq<DayKey>)
    requires Arranged(rows, a) && Arranged(rows, b)
    requires forall i, k :: 0 <= i < |a| && 0 <= k < |b| ==> InOrder(rows, a[i], b[k])
    ensures Arranged(rows, a + b)
  {
    var s := a + b;
    forall i, k | 0 <= i < k < |s| ensures InOrder(rows, s[i], s[k]) {
      if k < |a| {
        assert s[i] == a[i] && s[k] == a[k];
      } else if i < |a| {
        assert s[i] == a[i] && s[k] == b[k - |a|];
      } else {
        assert s[i] == b[i - |a|] && s[k] == b[k - |a|];
      }
    }
  }

  /** Blocks of days, one per employee in the order the employees are
      listed, are in order when each block is and carries its employee's
      code. */
  lemma {:induction false} BlocksArranged(rows: seq<Punch>, f: string -> seq<DayKey>, n: nat)
    requires n <= |Keys(rows, ByCode)|
    requires forall c :: Arranged(rows, f(c))
    requires forall c, j :: 0 <= j < |f(c)| ==> f(c)[j].code == c
    ensures Arranged(rows, Flatten(f, Keys(rows, ByCode), n))
  {
    if n > 0 {
      var codes := Keys(rows, ByCode);
      var prev, last := Flatten(f, codes, n - 1), f(codes[n - 1]);
      BlocksArranged(rows, f, n - 1);
      forall i, k | 0 <= i < |prev| && 0 <= k < |last| ensures InOrder(rows, prev[i], last[k]) {
        var e, j := FlattenAt(f, codes, n - 1, i);
        CodesInOrder(rows, prev[i], last[k], e, n - 1);
      }
      ArrangedConcat(rows, prev, last);
    }
  }

  /** Days of two employees are in order when the first employee is
      listed first. */
  lemma CodesInOrder(rows: seq<Punch>, a: DayKey, b: DayKey, e: nat, g: nat)
    requires e < g < |Keys(rows, ByCode)|
    requires a.code == Keys(rows, ByCode)[e] && b.code == Keys(rows, ByCode)[g]
    ensures InOrder(rows, a, b)
  {
    FirstSeenBefore(rows, e, g);
  }

  /** An employee listed earlier has its first row earlier. */
  lemma FirstSeenBefore(rows: seq<Punch>, e: nat, g: nat)
    requires e < g < |Keys(rows, ByCode)|
    ensures Keys(rows, ByCode)[e] != Keys(rows, ByCode)[g]
    ensures FirstIndex(rows, ByCode, Keys(rows, ByCode)[e]) < FirstIndex(rows, ByCode, Keys(rows, ByCode)[g])
  {
    KeysFirstSeen(rows, ByCode);
  }

  lemma RangeDaysArranged(rows: seq<Punch>)
    ensures Arranged(rows, RangeDays(rows))
  {
    var f := EmployeeDaysOf(rows);
    forall c ensures Arranged(rows, f(c)) && forall j :: 0 <= j < |f(c)| ==> f(c)[j].code == c {
      EmployeeArranged(rows, c);
    }
    BlocksArranged(rows, f, |Keys(rows, ByCode)|);
  }

  /** Day `i` of the report is a day on which its employee punched. */
  lemma RangeDayPunched(rows: seq<Punch>, i: nat)
    requires i < |RangeDays(rows)|
    ensures PunchedOn(rows, RangeDays(rows)[i].code, RangeDays(rows)[i].date)
  {
    var codes := Keys(rows, ByCode);
    var e, j := FlattenAt(EmployeeDaysOf(rows), codes, |codes|, i);
    EmployeeDayAt(rows, codes[e], j);
    var c, d := codes[e], RangeDays(rows)[i].date;
    assert Seen(EmployeeRows(rows, c), ByDate, d);
    var p :| p in EmployeeRows(rows, c) && KeyOf(ByDate, p) == d;
    assert OnDay(rows, c, d, p);
  }

  /** A day on which an employee punched is a day of the report. */
  lemma RangeDayListed(rows: seq<Punch>, c: string, d: string) returns (i: nat)
    requires PunchedOn(rows, c, d)
    ensures i < |RangeDays(rows)| && RangeDays(rows)[i] == DayKey(c, d)
  {
    var codes := Keys(rows, ByCode);
    var p :| p in rows && p.empCode == c && IsoDatePart(p.time) == d;
    assert Seen(rows, ByCode, c);
    var e :| 0 <= e < |codes| && codes[e] == c;
    assert p in EmployeeRows(rows, c);
    assert Seen(EmployeeRows(rows, c), ByDate, d);
    var j := EmployeeDayOf(rows, c, d);
    i := FlattenHas(EmployeeDaysOf(rows), codes, |codes|, e, j);
  }

  /** Record `i` is the record of day `i`: that day's punches, the
      employee's first row. */
  lemma RecordOfDay(rows: seq<Punch>, i: nat)
    requires i < |RangeRecords(rows)|
    ensures i < |RangeDays(rows)|
    ensures var k := RangeDays(rows)[i];
            && RangeRecords(rows)[i].empCode == k.code && RangeRecords(rows)[i].date == k.date
            && RangeRecords(rows)[i] == RangeRecordOf(k.code, FirstName(rows, k.code), k.date, DayPunches(rows, k.code, k.date))
  {
  }

  /** There is a record for an employee and a date exactly when the
      employee punched that date. */
  lemma RangeRecordsCover(rows: seq<Punch>)
    ensures forall c, d :: PunchedOn(rows, c, d) <==>
              exists i :: 0 <= i < |RangeRecords(rows)| && RangeRecords(rows)[i].empCode == c
                                                       && RangeRecords(rows)[i].date == d
  {
    var recs := RangeRecords(rows);
    forall c, d
      ensures PunchedOn(rows, c, d) <==>
              exists i :: 0 <= i < |recs| && recs[i].empCode == c && recs[i].date == d
    {
      if PunchedOn(rows, c, d) {
        var i := RangeDayListed(rows, c, d);
        RecordOfDay(rows, i);
      }
      if i :| 0 <= i < |recs| && recs[i].empCode == c && recs[i].date == d {
        RecordOfDay(rows, i);
        RangeDayPunched(rows, i);
      }
    }
  }

  /** Record `i` is about day `i`. */
  lemma RecordsFollowDays(rows: seq<Punch>)
    ensures |RangeRecords(rows)| == |RangeDays(rows)|
    ensures forall i :: 0 <= i < |RangeRecords(rows)| ==>
              RangeRecords(rows)[i].empCode == RangeDays(rows)[i].code && RangeRecords(rows)[i].date == RangeDays(rows)[i].date
  {
  }

  /** An employee's records have ascending date texts. */
  lemma RangeDatesOrdered(rows: seq<Punch>)
    ensures var recs := RangeRecords(rows);
            forall i, k :: 0 <= i < k < |recs| && recs[i].empCode == recs[k].empCode ==>
              StrLt(recs[i].date, recs[k].date)
  {
    RangeDaysArranged(rows);
    RecordsFollowDays(rows);
    var recs, days := RangeRecords(rows), RangeDays(rows);
    forall i, k | 0 <= i < k < |recs| && recs[i].empCode == recs[k].empCode
      ensures StrLt(recs[i].date, recs[k].date)
    {
      assert InOrder(rows, days[i], days[k]);
    }
  }

  /** Employees come in the order of their first rows. */
  lemma RangeEmployeesOrdered(rows: seq<Punch>)
    ensures var recs := RangeRecords(rows);
            forall i, k :: 0 <= i < k < |recs| && recs[i].empCode != recs[k].empCode ==>
              FirstIndex(rows, ByCode, recs[i].empCode) < FirstIndex(rows, ByCode, recs[k].empCode)
  {
    RangeDaysArranged(rows);
    RecordsFollowDays(rows);
    var recs, days := RangeRecords(rows), RangeDays(rows);
    forall i, k | 0 <= i < k < |recs| && recs[i].empCode != recs[k].empCode
      ensures FirstIndex(rows, ByCode, recs[i].empCode) < FirstIndex(rows, ByCode, recs[k].empCode)
    {
      assert InOrder(rows, days[i], days[k]);
    }
  }

  /** An employee's records come together. */
  lemma RangeRecordsContiguous(rows: seq<Punch>)
    ensures var recs := RangeRecords(rows);
            forall i, m, k :: 0 <= i < m < k < |recs| && recs[i].empCode == recs[k].empCode ==>
              recs[m].empCode == recs[i].empCode
  {
    RangeEmployeesOrdered(rows);
  }

  /** No employee and date has two records. */
  lemma RangeRecordsUnique(rows: seq<Punch>)
    ensures var recs := RangeRecords(rows);
            forall i, k :: 0 <= i < k < |recs| ==>
              recs[i].empCode != recs[k].empCode || recs[i].date != recs[k].date
  {
    RangeDatesOrdered(rows);
    var recs := RangeRecords(rows);
    forall i, k | 0 <= i < k < |recs| && recs[i].empCode == recs[k].empCode
      ensures recs[i].date != recs[k].date
    {
      StrLtIrreflexive(recs[i].date);
    }
  }

  /** The dates of one employee's records ascend in the calendar. */
  lemma RangeDatesAscend(rows: seq<Punch>, i: nat, k: nat)
    requires i < k < |RangeRecords(rows)|
    requires RangeRecords(rows)[i].empCode == RangeRecords(rows)[k].empCode
    ensures exists p, q :: && OnDay(rows, RangeRecords(rows)[i].empCode, RangeRecords(rows)[i].date, p)
                           && OnDay(rows, RangeRecords(rows)[k].empCode, RangeRecords(rows)[k].date, q)
                           && DateLt(DateOf(p.time), DateOf(q.time))
  {
    var recs := RangeRecords(rows);
    RangeDatesOrdered(rows);
    RecordOfDay(rows, i);
    RecordOfDay(rows, k);
    RangeDayPunched(rows, i);
    RangeDayPunched(rows, k);
    var p :| p in rows && p.empCode == recs[i].empCode && IsoDatePart(p.time) == recs[i].date;
    var q :| q in rows && q.empCode == recs[k].empCode && IsoDatePart(q.time) == recs[k].date;
    DateTextOrder(DateOf(p.time), DateOf(q.time));
    assert OnDay(rows, recs[i].empCode, recs[i].date, p) && OnDay(rows, recs[k].empCode, recs[k].date, q);
  }

  /** Some punch of employee `c` on date text `d` was made on the terminal
      `alias`. */
  ghost predicate DayHas(rows: seq<Punch>, c: string, d: string, alias: string) {
    exists p :: OnDay(rows, c, d, p) && p.alias == alias
  }

  /** The punches of one day are the rows of that employee on that date. */
  lemma DayPunchesOnDay(rows: seq<Punch>, c: string, d: string)
    ensures forall p :: p in DayPunches(rows, c, d) <==> OnDay(rows, c, d, p)
    ensures forall a :: HasPunch(DayPunches(rows, c, d), a) <==> DayHas(rows, c, d, a)
  {
    var ps := DayPunches(rows, c, d);
    assert forall p :: p in ps <==> OnDay(rows, c, d, p);
    forall a ensures HasPunch(ps, a) <==> DayHas(rows, c, d, a) {
      if HasPunch(ps, a) {
        var p :| p in ps && p.alias == a;
        assert OnDay(rows, c, d, p);
      }
      if DayHas(rows, c, d, a) {
        var p :| OnDay(rows, c, d, p) && p.alias == a;
        assert p in ps;
      }
    }
  }

  /** The name of a record is that of its employee's first row, "-" when
      that row has no name. */
  lemma RangeRecordName(rows: seq<Punch>, i: nat)
    requires i < |RangeRecords(rows)|
    ensures FirstIndex(rows, ByCode, RangeRecords(rows)[i].empCode) < |rows|
    ensures RangeRecords(rows)[i].name
            == DisplayName(rows[FirstIndex(rows, ByCode, RangeRecords(rows)[i].empCode)].firstName)
  {
    RecordOfDay(rows, i);
    RangeDayPunched(rows, i);
    var r := RangeRecords(rows)[i];
    var p :| p in rows && p.empCode == r.empCode && IsoDatePart(p.time) == r.date;
    assert KeyOf(ByCode, p) == r.empCode;
    GroupHead(rows, ByCode, r.empCode);
  }

  /** The status says which of the two terminals the employee punched on
      that date: both, only "In Device", only "Out Device", or neither. */
  lemma RangeRecordStatus(rows: seq<Punch>, i: nat)
    requires i < |RangeRecords(rows)|
    ensures var r := RangeRecords(rows)[i];
            var hasIn, hasOut := DayHas(rows, r.empCode, r.date, IN_DEVICE), DayHas(rows, r.empCode, r.date, OUT_DEVICE);
            && (r.status == PRESENT <==> hasIn && hasOut)
            && (r.status == NO_LOGOUT <==> hasIn && !hasOut)
            && (r.status == NO_LOGIN <==> !hasIn && hasOut)
            && (r.status == ABSENT <==> !hasIn && !hasOut)
  {
    RecordOfDay(rows, i);
    var r := RangeRecords(rows)[i];
    DayPunchesOnDay(rows, r.empCode, r.date);
    RecordStatus(r.empCode, FirstName(rows, r.empCode), r.date, DayPunches(rows, r.empCode, r.date));
  }

  /** The login is the clock label of the employee's earliest "In Device"
      punch that date, and null exactly when there is none. */
  lemma RangeRecordLogin(rows: seq<Punch>, i: nat)
    requires i < |RangeRecords(rows)|
    ensures var r := RangeRecords(rows)[i];
            r.login.None? <==> !DayHas(rows, r.empCode, r.date, IN_DEVICE)
    ensures var r := RangeRecords(rows)[i];
            r.login.Some? ==>
              exists p :: && OnDay(rows, r.empCode, r.date, p) && p.alias == IN_DEVICE
                          && r.login == Some(FormatTime(p.time))
                          && forall q :: OnDay(rows, r.empCode, r.date, q) && q.alias == IN_DEVICE ==>
                                         EpochMs(p.time) <= EpochMs(q.time)
  {
    RecordOfDay(rows, i);
    var r := RangeRecords(rows)[i];
    var ps := DayPunches(rows, r.empCode, r.date);
    DayPunchesOnDay(rows, r.empCode, r.date);
    RecordClockLabels(r.empCode, FirstName(rows, r.empCode), r.date, ps);
    if r.login.Some? {
      var p := InPunch(ps).value;
      assert OnDay(rows, r.empCode, r.date, p);
    }
  }

  /** The logout is the clock label of the employee's latest "Out Device"
      punch that date, and null exactly when there is none. */
  lemma RangeRecordLogout(rows: seq<Punch>, i: nat)
    requires i < |RangeRecords(rows)|
    ensures var r := RangeRecords(rows)[i];
            r.logout.None? <==> !DayHas(rows, r.empCode, r.date, OUT_DEVICE)
    ensures var r := RangeRecords(rows)[i];
            r.logout.Some? ==>
              exists p :: && OnDay(rows, r.empCode, r.date, p) && p.alias == OUT_DEVICE
                          && r.logout == Some(FormatTime(p.time))
                          && forall q :: OnDay(rows, r.empCode, r.date, q) && q.alias == OUT_DEVICE ==>
                                         EpochMs(q.time) <= EpochMs(p.time)
  {
    RecordOfDay(rows, i);
    var r := RangeRecords(rows)[i];
    var ps := DayPunches(rows, r.empCode, r.date);
    DayPunchesOnDay(rows, r.empCode, r.date);
    RecordClockLabels(r.empCode, FirstName(rows, r.empCode), r.date, ps);
    if r.logout.Some? {
      var p := OutPunch(ps).value;
      assert OnDay(rows, r.empCode, r.date, p);
    }
  }

  /** A record that is not "Present" shows zero minutes, and lacks a login
      or a logout. */
  lemma RangeRecordIdle(rows: seq<Punch>, i: nat)
    requires i < |RangeRecords(rows)|
    ensures var r := RangeRecords(rows)[i];
            r.status != PRESENT ==>
              r.workingMinutes == 0 && r.overtimeMinutes == 0 && (r.login.None? || r.logout.None?)
  {
    RecordOfDay(rows, i);
    var r := RangeRecords(rows)[i];
    var ps := DayPunches(rows, r.empCode, r.date);
    RecordAbsentMinutes(r.empCode, FirstName(rows, r.empCode), r.date, ps);
    RecordStatus(r.empCode, FirstName(rows, r.empCode), r.date, ps);
    RecordClockLabels(r.empCode, FirstName(rows, r.empCode), r.date, ps);
  }

  /** Negative working minutes arise only when every "Out Device" punch of
      the day comes before every "In Device" punch: the minutes are not
      clamped at zero. */
  lemma RangeRecordNegative(rows: seq<Punch>, i: nat)
    requires i < |RangeRecords(rows)|
    ensures var r := RangeRecords(rows)[i];
            r.workingMinutes < 0 ==>
              forall p, q :: OnDay(rows, r.empCode, r.date, p) && p.alias == IN_DEVICE
                             && OnDay(rows, r.empCode, r.date, q) && q.alias == OUT_DEVICE ==>
                               EpochMs(q.time) < EpochMs(p.time)
  {
    RecordOfDay(rows, i);
    var r := RangeRecords(rows)[i];
    var ps := DayPunches(rows, r.empCode, r.date);
    DayPunchesOnDay(rows, r.empCode, r.date);
    if r.workingMinutes < 0 {
      RecordAbsentMinutes(r.empCode, FirstName(rows, r.empCode), r.date, ps);
      RecordStatus(r.empCode, FirstName(rows, r.empCode), r.date, ps);
      RecordPresentMinutes(r.empCode, FirstName(rows, r.empCode), r.date, ps);
      var login, logout := InPunch(ps).value, OutPunch(ps).value;
      OutBeforeIn(login, logout, r.date);
    }
  }

  /** Two instants of one date text whose clock minutes go backwards are
      in that order as Dates too. */
  lemma OutBeforeIn(login: Punch, logout: Punch, d: string)
    requires IsoDatePart(login.time) == d && IsoDatePart(logout.time) == d
    requires MinuteOfDay(logout.time) < MinuteOfDay(login.time)
    ensures EpochMs(logout.time) < EpochMs(login.time)
  {
    DateTextOrder(DateOf(login.time), DateOf(logout.time));
    if EpochMs(login.time) <= EpochMs(logout.time) {
      SameDayOrder(login.time, logout.time);
    }
  }

  /** The overtime of a present record is what calculateOvertimeMinutes
      gives for the logout against getOfficeEndTime of the logout. */
  lemma RangeOvertimeAgrees(code: string, first: Option<string>, date: string, ps: seq<Punch>)
    ensures var r := RangeRecordOf(code, first, date, ps);
            r.status == PRESENT ==>
              var out := OutPunch(ps).value.time;
              && ClockDigits(GetOfficeEndTime(out))
              && r.overtimeMinutes == CalculateOvertimeMinutes(TextArg(GetOfficeEndTime(out)), out)
  {
    RecordStatus(code, first, date, ps);
    RecordPresentMinutes(code, first, date, ps);
    if OutPunch(ps).Some? {
      OvertimePastOfficeEnd(OutPunch(ps).value.time, OutPunch(ps).value.time);
    }
  }

  /** A day on which the employee punched only on other terminals gets an
      "Absent" record: that status is reachable. */
  lemma AbsentReachable(rows: seq<Punch>, p: Punch)
    requires p in rows && p.alias != IN_DEVICE && p.alias != OUT_DEVICE
    requires forall q :: q in rows && q.empCode == p.empCode && IsoDatePart(q.time) == IsoDatePart(p.time) ==>
                           q.alias != IN_DEVICE && q.alias != OUT_DEVICE
    ensures exists i :: && 0 <= i < |RangeRecords(rows)|
                        && RangeRecords(rows)[i].empCode == p.empCode
                        && RangeRecords(rows)[i].date == IsoDatePart(p.time)
                        && RangeRecords(rows)[i].status == ABSENT
  {
    var c, d := p.empCode, IsoDatePart(p.time);
    var i := RangeDayListed(rows, c, d);
    RecordOfDay(rows, i);
    RangeRecordStatus(rows, i);
    assert !DayHas(rows, c, d, IN_DEVICE) && !DayHas(rows, c, d, OUT_DEVICE);
  }
}
