/** processAttendance and processWeekAttendance: group the punch rows by
    employee (or by employee and ISO date), then turn each group into one
    record whose login is the first In-Device punch and whose logout is the
    last Out-Device punch, both in input order. */
module Daily {
  import opened Wrappers
  import opened Text
  import opened Clock
  import opened Iso
  import opened TimeHelpers
  import opened Punches
  import opened Sequences

  /** One record of the daily report. `date` is present only in the
      records processWeekAttendance emits. */
  datatype DayRecord = DayRecord(empCode: string, name: string, date: Option<string>, day: string,
                                 login: string, logout: string, workingHours: string, overtime: string)

  function TimeOf(p: Option<Punch>): Option<Instant> {
    if p.Some? then Some(p.value.time) else None
  }

  /** The `.map` callback of both aggregators, applied to the punches pushed
      under one key. The overtime branch is taken only when the Date of the
      last Out punch is greater than the office-end text, which never
      happens (see DayRecordOvertime). */
  function DayRecordOf(ps: seq<Punch>, dated: bool): (r: DayRecord)
    requires ps != []
    ensures r.empCode == ps[0].empCode && r.name == DisplayName(ps[0].firstName)
    ensures r.date == if dated then Some(IsoDatePart(ps[0].time)) else None
    ensures var firstIn := FirstMatch(ps, AliasIs(IN_DEVICE));
            && (firstIn.None? ==> r.login == "-" && r.day == "-")
            && (firstIn.Some? ==> r.login == FormatTime(firstIn.value.time)
                                  && r.day == GetDayShort(firstIn.value.time))
    ensures var lastOut := LastMatch(ps, AliasIs(OUT_DEVICE));
            && (lastOut.None? ==> r.logout == "-")
            && (lastOut.Some? ==> r.logout == FormatTime(lastOut.value.time))
    ensures r.workingHours == CalculateDuration(TimeOf(FirstMatch(ps, AliasIs(IN_DEVICE))),
                                                TimeOf(LastMatch(ps, AliasIs(OUT_DEVICE))))
  {
    var inPunches := Select(ps, AliasIs(IN_DEVICE));
    var outPunches := Select(ps, AliasIs(OUT_DEVICE));
    var firstIn := if |inPunches| > 0 then Some(inPunches[0].time) else None;
    var lastOut := if |outPunches| > 0 then Some(outPunches[|outPunches| - 1].time) else None;
    var hours :=
      if firstIn.Some? && lastOut.Some? then
        var login, logout := firstIn.value, lastOut.value;
        var officeEnd := GetOfficeEndTime(login);
        (CalculateDuration(firstIn, lastOut),
         if DateGreaterThanString(logout, officeEnd)
         then MinutesText(CalculateOvertimeMinutes(TextArg(officeEnd), logout))
         else "0h 0m")
      else ("0h 0m", "0h 0m");
    DayRecord(ps[0].empCode, DisplayName(ps[0].firstName),
              if dated then Some(IsoDatePart(ps[0].time)) else None,
              if firstIn.Some? then GetDayShort(firstIn.value) else "-",
              if firstIn.Some? then FormatTime(firstIn.value) else "-",
              if lastOut.Some? then FormatTime(lastOut.value) else "-",
              hours.0, hours.1)
  }

  /** Overtime is "0h 0m" in every record: the guard compares a Date with a
      string that ToNumber turns into NaN. */
  lemma DayRecordOvertime(ps: seq<Punch>, dated: bool)
    requires ps != []
    ensures DayRecordOf(ps, dated).overtime == "0h 0m"
  {
    var inPunches := Select(ps, AliasIs(IN_DEVICE));
    var outPunches := Select(ps, AliasIs(OUT_DEVICE));
    if |inPunches| > 0 && |outPunches| > 0 {
      OfficeEndNeverExceeded(inPunches[0].time, outPunches[|outPunches| - 1].time);
    }
  }

  /** The lost overtime: a day whose last Out punch is past 18:30 still
      gets "0h 0m", where the overtime the guard was meant to let through is
      not zero. */
  lemma OvertimeLost(ps: seq<Punch>, dated: bool)
    requires ps != []
    requires FirstMatch(ps, AliasIs(IN_DEVICE)).Some?
    requires LastMatch(ps, AliasIs(OUT_DEVICE)).Some?
    requires MinuteOfDay(LastMatch(ps, AliasIs(OUT_DEVICE)).value.time) > 18 * 60 + 30
    ensures DayRecordOf(ps, dated).overtime == "0h 0m"
    ensures IntendedOvertime(ps) != "0h 0m"
  {
    DayRecordOvertime(ps, dated);
    var r := IntendedOvertime(ps);
    IntendedOvertimeReadsBack(ps);
    ZeroMinutesText();
    ZeroTextReadsBack();
    assert DecodeHoursMinutes(r).value != (0, 0);
  }

  /** The overtime minutes the guard was written for: when both punches
      exist and the last Out punch's clock is past 18:30,
      calculateOvertimeMinutes of it against getOfficeEndTime of the first
      In punch; 0 otherwise. */
  function IntendedOvertimeMinutes(ps: seq<Punch>): (m: int)
    ensures var firstIn, lastOut := FirstMatch(ps, AliasIs(IN_DEVICE)), LastMatch(ps, AliasIs(OUT_DEVICE));
            m == if firstIn.Some? && lastOut.Some? && MinuteOfDay(lastOut.value.time) > 18 * 60 + 30
                 then MinuteOfDay(lastOut.value.time) - (18 * 60 + 30) else 0
  {
    var firstIn, lastOut := FirstMatch(ps, AliasIs(IN_DEVICE)), LastMatch(ps, AliasIs(OUT_DEVICE));
    if firstIn.Some? && lastOut.Some? && MinuteOfDay(lastOut.value.time) > 18 * 60 + 30 then
      OvertimePastOfficeEnd(firstIn.value.time, lastOut.value.time);
      CalculateOvertimeMinutes(TextArg(GetOfficeEndTime(firstIn.value.time)), lastOut.value.time)
    else 0
  }

  /** The overtime text the guard was written for: the minutes past 18:30
      of the last Out punch written as `${Math.floor(m/60)}h ${m%60}m`,
      and "0h 0m" when there are none. */
  function IntendedOvertime(ps: seq<Punch>): (r: string)
    ensures var firstIn, lastOut := FirstMatch(ps, AliasIs(IN_DEVICE)), LastMatch(ps, AliasIs(OUT_DEVICE));
            if firstIn.Some? && lastOut.Some? && MinuteOfDay(lastOut.value.time) > 18 * 60 + 30
            then r == MinutesText(MinuteOfDay(lastOut.value.time) - (18 * 60 + 30))
            else r == "0h 0m"
  {
    var m := IntendedOvertimeMinutes(ps);
    ZeroMinutesText();
    if m > 0 then MinutesText(m) else "0h 0m"
  }

  /** The corrected overtime reads back as the minutes of the last Out
      punch past 18:30, split into hours and 0..59 minutes, and as 0 when
      there is no such punch or it is not past 18:30. */
  lemma IntendedOvertimeReadsBack(ps: seq<Punch>)
    ensures DecodeHoursMinutes(IntendedOvertime(ps)).Some?
    ensures var hm := DecodeHoursMinutes(IntendedOvertime(ps)).value;
            var firstIn, lastOut := FirstMatch(ps, AliasIs(IN_DEVICE)), LastMatch(ps, AliasIs(OUT_DEVICE));
            && 0 <= hm.1 < 60
            && hm.0 * 60 + hm.1 == if firstIn.Some? && lastOut.Some? && MinuteOfDay(lastOut.value.time) > 18 * 60 + 30
                                   then MinuteOfDay(lastOut.value.time) - (18 * 60 + 30) else 0
  {
    ZeroMinutesText();
    ZeroTextReadsBack();
    var lastOut := LastMatch(ps, AliasIs(OUT_DEVICE));
    if lastOut.Some? {
      MinutesTextReadsBack(MinuteOfDay(lastOut.value.time) - (18 * 60 + 30));
    }
  }

  /** The record of the rows under one key. */
  function GroupRecord(rows: seq<Punch>, kind: KeyKind, k: string, dated: bool): (r: DayRecord)
    requires k in Keys(rows, kind)
    ensures Select(rows, KeyIs(kind, k)) != []
    ensures r == DayRecordOf(Select(rows, KeyIs(kind, k)), dated)
  {
    GroupHead(rows, kind, k);
    DayRecordOf(Select(rows, KeyIs(kind, k)), dated)
  }

  /** The records of a grouping of `rows`, one per key in insertion order. */
  function Records(rows: seq<Punch>, kind: KeyKind, dated: bool): (recs: seq<DayRecord>)
    ensures |recs| == |Keys(rows, kind)|
  {
    var ks := Keys(rows, kind);
    seq(|ks|, i requires 0 <= i < |ks| => GroupRecord(rows, kind, ks[i], dated))
  }

  /** Emits the record of each group in the order its key was created. */
  method EmitRecords(rows: seq<Punch>, kind: KeyKind, dated: bool) returns (records: seq<DayRecord>)
    ensures records == Records(rows, kind, dated)
  {
    var order, groups := GroupBy(rows, kind);
    records := [];
    for i := 0 to |order|
      invariant records == Records(rows, kind, dated)[..i]
    {
      var key := order[i];
      RecordsStep(rows, kind, dated, order, groups, i);
      records := records + [DayRecordOf(groups[key], dated)];
    }
    TakeAll(Records(rows, kind, dated));
  }

  /** The record the loop pushes for the `i`th key is the next record of
      the specification. */
  lemma RecordsStep(rows: seq<Punch>, kind: KeyKind, dated: bool,
                    order: seq<string>, groups: map<string, seq<Punch>>, i: nat)
    requires order == Keys(rows, kind)
    requires forall k :: k in groups <==> k in order
    requires forall k :: k in groups ==> groups[k] == Select(rows, KeyIs(kind, k))
    requires i < |order|
    ensures order[i] in groups && groups[order[i]] != []
    ensures Records(rows, kind, dated)[..i + 1]
            == Records(rows, kind, dated)[..i] + [DayRecordOf(groups[order[i]], dated)]
  {
    var key := order[i];
    assert key in groups;
    GroupHead(rows, kind, key);
    TakeSnoc(Records(rows, kind, dated), i);
  }

  /** processAttendance: one record per employee code. */
  method ProcessAttendance(rows: seq<Punch>) returns (records: seq<DayRecord>)
    ensures records == Records(rows, ByCode, false)
  {
    records := EmitRecords(rows, ByCode, false);
  }

  /** processWeekAttendance: one record per `${emp_code}_${date}` key. */
  method ProcessWeekAttendance(rows: seq<Punch>) returns (records: seq<DayRecord>)
    ensures records == Records(rows, ByCodeAndDate, true)
  {
    records := EmitRecords(rows, ByCodeAndDate, true);
  }

  /** The facts about record `i` that come from the first row under its
      key. */
  lemma RecordAt(rows: seq<Punch>, kind: KeyKind, dated: bool, i: nat)
    requires i < |Keys(rows, kind)|
    ensures var k := Keys(rows, kind)[i];
            var n := FirstIndex(rows, kind, k);
            var r := Records(rows, kind, dated)[i];
            && n < |rows| && KeyOf(kind, rows[n]) == k
            && r.empCode == rows[n].empCode
            && r.name == DisplayName(rows[n].firstName)
            && r.date == (if dated then Some(IsoDatePart(rows[n].time)) else None)
  {
    GroupHead(rows, kind, Keys(rows, kind)[i]);
  }

  /** Some record is about employee `c`. */
  predicate CodeListed(recs: seq<DayRecord>, c: string) {
    exists i :: 0 <= i < |recs| && recs[i].empCode == c
  }

  /** processAttendance emits exactly one record per employee code of the
      input, in the order the codes first appear, and each record's name
      is that of the code's first row ("-" when it is NULL or empty). */
  lemma DailyOneRecordPerCode(rows: seq<Punch>)
    ensures var recs := Records(rows, ByCode, false);
            && (forall c :: CodeListed(recs, c) <==> Seen(rows, ByCode, c))
            && (forall i, j :: 0 <= i < j < |recs| ==> recs[i].empCode != recs[j].empCode)
            && (forall i, j :: 0 <= i < j < |recs| ==>
                  FirstIndex(rows, ByCode, recs[i].empCode) < FirstIndex(rows, ByCode, recs[j].empCode))
            && (forall i :: 0 <= i < |recs| ==>
                  FirstIndex(rows, ByCode, recs[i].empCode) < |rows|
                  && recs[i].name == DisplayName(rows[FirstIndex(rows, ByCode, recs[i].empCode)].firstName))
  {
    var recs, ks := Records(rows, ByCode, false), Keys(rows, ByCode);
    forall i | 0 <= i < |ks|
      ensures recs[i].empCode == ks[i] && FirstIndex(rows, ByCode, ks[i]) < |rows|
      ensures recs[i].name == DisplayName(rows[FirstIndex(rows, ByCode, ks[i])].firstName)
    {
      RecordAt(rows, ByCode, false, i);
    }
    forall c ensures CodeListed(recs, c) <==> Seen(rows, ByCode, c) {
      if Seen(rows, ByCode, c) {
        var i :| 0 <= i < |ks| && ks[i] == c;
        assert recs[i].empCode == c;
      }
      if CodeListed(recs, c) {
        var i :| 0 <= i < |recs| && recs[i].empCode == c;
        assert ks[i] in ks;
      }
    }
    KeysFirstSeen(rows, ByCode);
  }

  /** Each record's login and weekday come from the first In-Device punch
      under its key in input order, its logout from the last Out-Device
      punch, its working hours are calculateDuration of the two ("0h 0m"
      when one is missing), and punches from other terminals play no
      part. */
  lemma DailyLoginLogout(rows: seq<Punch>, kind: KeyKind, dated: bool)
    ensures var recs := Records(rows, kind, dated);
            var ks := Keys(rows, kind);
            forall i :: 0 <= i < |recs| ==>
              var firstIn := FirstMatch(rows, KeyAndAlias(kind, ks[i], IN_DEVICE));
              var lastOut := LastMatch(rows, KeyAndAlias(kind, ks[i], OUT_DEVICE));
              && (firstIn.None? ==> recs[i].login == "-" && recs[i].day == "-")
              && (firstIn.Some? ==> recs[i].login == FormatTime(firstIn.value.time)
                                    && recs[i].day == GetDayShort(firstIn.value.time))
              && (lastOut.None? ==> recs[i].logout == "-")
              && (lastOut.Some? ==> recs[i].logout == FormatTime(lastOut.value.time))
              && recs[i].workingHours == CalculateDuration(TimeOf(firstIn), TimeOf(lastOut))
  {
    var ks := Keys(rows, kind);
    forall i | 0 <= i < |ks|
      ensures FirstMatch(Select(rows, KeyIs(kind, ks[i])), AliasIs(IN_DEVICE))
              == FirstMatch(rows, KeyAndAlias(kind, ks[i], IN_DEVICE))
      ensures LastMatch(Select(rows, KeyIs(kind, ks[i])), AliasIs(OUT_DEVICE))
              == LastMatch(rows, KeyAndAlias(kind, ks[i], OUT_DEVICE))
    {
      FirstMatchUnderKey(rows, kind, ks[i], IN_DEVICE);
      LastMatchUnderKey(rows, kind, ks[i], OUT_DEVICE);
    }
  }

  /** Overtime is "0h 0m" in every record either aggregator emits. */
  lemma DailyOvertimeAlwaysZero(rows: seq<Punch>, kind: KeyKind, dated: bool)
    ensures forall r :: r in Records(rows, kind, dated) ==> r.overtime == "0h 0m"
  {
    var ks := Keys(rows, kind);
    forall i | 0 <= i < |ks| ensures Records(rows, kind, dated)[i].overtime == "0h 0m" {
      GroupHead(rows, kind, ks[i]);
      DayRecordOvertime(Select(rows, KeyIs(kind, ks[i])), dated);
    }
  }

  /** Some record is about employee `c` on date text `d`. */
  predicate DayListed(recs: seq<DayRecord>, c: string, d: string) {
    exists i :: 0 <= i < |recs| && recs[i].empCode == c && recs[i].date == Some(d)
  }

  /** processWeekAttendance emits exactly one record per employee and ISO
      date present in the input. */
  lemma WeekOneRecordPerEmployeeDay(rows: seq<Punch>)
    ensures var recs := Records(rows, ByCodeAndDate, true);
            && (forall i :: 0 <= i < |recs| ==> recs[i].date.Some?)
            && (forall c, d :: DayListed(recs, c, d) <==> PunchedOn(rows, c, d))
            && (forall i, j :: 0 <= i < j < |recs| ==>
                  recs[i].empCode != recs[j].empCode || recs[i].date != recs[j].date)
  {
    var recs, ks := Records(rows, ByCodeAndDate, true), Keys(rows, ByCodeAndDate);
    forall i | 0 <= i < |ks|
      ensures recs[i].date.Some? && ks[i] == recs[i].empCode + "_" + recs[i].date.value
      ensures PunchedOn(rows, recs[i].empCode, recs[i].date.value)
    {
      WeekRecordAt(rows, i);
    }
    forall c, d | PunchedOn(rows, c, d) ensures DayListed(recs, c, d) {
      var p :| p in rows && p.empCode == c && IsoDatePart(p.time) == d;
      var key := KeyOf(ByCodeAndDate, p);
      assert Seen(rows, ByCodeAndDate, key);
      assert key in ks;
      var i :| 0 <= i < |ks| && ks[i] == key;
      WeekRecordAt(rows, i);
      KeyPartsInjective(c, d, recs[i].empCode, recs[i].date.value);
    }
  }

  lemma WeekRecordAt(rows: seq<Punch>, i: nat)
    requires i < |Keys(rows, ByCodeAndDate)|
    ensures var r := Records(rows, ByCodeAndDate, true)[i];
            && r.date.Some? && |r.date.value| == 10
            && Keys(rows, ByCodeAndDate)[i] == r.empCode + "_" + r.date.value
            && PunchedOn(rows, r.empCode, r.date.value)
  {
    RecordAt(rows, ByCodeAndDate, true, i);
    var n := FirstIndex(rows, ByCodeAndDate, Keys(rows, ByCodeAndDate)[i]);
    assert rows[n] in rows;
  }
}
