/** The helper functions at the top of server.js: the weekday label, the
    "HH:MM" label, the worked duration between two punches, the 18:30 office
    end, the overtime minutes past it, and the JavaScript comparison the
    daily aggregator makes between a Date and that office-end text. Each
    helper reads its instants the way the source does, by cutting the ISO
    text and parsing the pieces; the contracts say what that amounts to in
    terms of the instants' fields. */
module TimeHelpers {
  import opened Wrappers
  import opened Text
  import opened Clock
  import opened Iso

  const WEEKDAY_NAMES: seq<string> := ["Sun", "Mon", "Tue", "Wed", "Thu", "Fri", "Sat"]

  /** The three-letter English weekday of a date, as moment's "ddd". */
  function DayShort(d: CalendarDate): (r: string)
    ensures r in WEEKDAY_NAMES
  {
    WEEKDAY_NAMES[Weekday(d)]
  }

  /** moment(text).format("ddd") for a date text: the weekday of the date
      it names, and moment's "Invalid date" for a text naming none. */
  function MomentDayShort(text: string): (r: string)
    ensures forall d: CalendarDate :: text == DateText(d) ==> r == DayShort(d)
    ensures (forall d: CalendarDate :: text != DateText(d)) ==> r == "Invalid date"
  {
    DateTextNames(text);
    match ParseDateText(text)
    case Some(d) => DayShort(d)
    case None => "Invalid date"
  }

  /** getDayShort: the weekday of the ISO date part of an instant. */
  function GetDayShort(t: Instant): (r: string)
    ensures r == DayShort(DateOf(t))
  {
    ParseDateTextRoundTrip(DateOf(t));
    MomentDayShort(IsoDatePart(t))
  }

  lemma GetDayShortExamples()
    ensures GetDayShort(Stamp(2024, 5, 1, 9, 2, 0, 0)) == "Wed"
    ensures GetDayShort(Stamp(1970, 1, 1, 23, 59, 59, 999)) == "Thu"
  {
    KnownWeekdays();
    assert DayShort(Date(2024, 5, 1)) == WEEKDAY_NAMES[3];
    assert DayShort(Date(1970, 1, 1)) == WEEKDAY_NAMES[4];
  }

  /** formatTime: the zero-padded "HH:MM" of an instant's clock reading. */
  function FormatTime(t: Instant): (r: string)
    ensures |r| == 5 && r[..2] == Pad2(t.hour) && r[2] == ':' && r[3..] == Pad2(t.minute)
  {
    var r := IsoClockPart(t);
    assert r[..2] == Pad2(t.hour) && r[3..] == Pad2(t.minute);
    r
  }

  /** Two labels are equal exactly when the hour and the minute are. */
  lemma FormatTimeInjective(a: Instant, b: Instant)
    ensures FormatTime(a) == FormatTime(b) <==> a.hour == b.hour && a.minute == b.minute
  {
    if FormatTime(a) == FormatTime(b) {
      assert DigitsValue(FormatTime(a)[..2]) == a.hour && DigitsValue(FormatTime(b)[..2]) == b.hour;
      assert DigitsValue(FormatTime(a)[3..]) == a.minute && DigitsValue(FormatTime(b)[3..]) == b.minute;
    }
  }

  /** An ISO-shaped text whose hour and minute positions hold digits. */
  predicate ClockDigits(s: string) {
    |s| >= 16 && AllDigits(s[11..13]) && AllDigits(s[14..16])
  }

  /** parseInt(s.substring(11, 13)) * 60 + parseInt(s.substring(14, 16)). */
  function ClockMinutesOf(s: string): int
    requires ClockDigits(s)
  {
    DigitsValue(s[11..13]) * 60 + DigitsValue(s[14..16])
  }

  /** Read out of an ISO text, the clock minutes are the instant's. */
  lemma IsoClockMinutes(t: Instant)
    ensures ClockDigits(IsoString(t)) && ClockMinutesOf(IsoString(t)) == MinuteOfDay(t)
  {
  }

  /** An ISO-shaped text whose hour, minute and second positions hold digits. */
  predicate SecondsDigits(s: string) {
    ClockDigits(s) && |s| >= 19 && AllDigits(s[17..19])
  }

  /** The seconds since midnight read out of an ISO text: the hour, minute
      and second substrings parsed and added up. */
  function ClockSecondsOf(s: string): int
    requires SecondsDigits(s)
  {
    DigitsValue(s[11..13]) * 3600 + DigitsValue(s[14..16]) * 60 + DigitsValue(s[17..19])
  }

  /** Read out of an ISO text, the clock seconds are the instant's. */
  lemma IsoClockSeconds(t: Instant)
    ensures SecondsDigits(IsoString(t)) && ClockSecondsOf(IsoString(t)) == SecondOfDay(t)
  {
  }

  /** The whole minutes worked between two punches as calculateDuration
      means them: seconds counted, dates ignored, rounded down, and never
      below zero; zero when either punch is missing. */
  function ElapsedMinutes(start: Option<Instant>, end: Option<Instant>): (d: int)
    ensures d >= 0
    ensures start.None? || end.None? ==> d == 0
    ensures start.Some? && end.Some? && SecondOfDay(end.value) - SecondOfDay(start.value) >= 60 ==>
              d * 60 <= SecondOfDay(end.value) - SecondOfDay(start.value) < d * 60 + 60
    ensures start.Some? && end.Some? && SecondOfDay(end.value) - SecondOfDay(start.value) < 60 ==> d == 0
  {
    if start.None? || end.None? then 0
    else
      var diff := (SecondOfDay(end.value) - SecondOfDay(start.value)) / 60;
      if diff <= 0 then 0 else diff
  }

  /** calculateDuration: "0h 0m" for a missing punch or an end at or before
      the start; otherwise the floored minutes between the two clock
      readings, written as whole hours and 0..59 minutes. */
  function CalculateDuration(start: Option<Instant>, end: Option<Instant>): (r: string)
    ensures DecodeHoursMinutes(r).Some?
    ensures var hm := DecodeHoursMinutes(r).value;
            hm.0 * 60 + hm.1 == ElapsedMinutes(start, end) && hm.0 >= 0 && 0 <= hm.1 < 60
    ensures r == "0h 0m" <==> ElapsedMinutes(start, end) == 0
    ensures ElapsedMinutes(start, end) > 0 ==> r == MinutesText(ElapsedMinutes(start, end))
  {
    ZeroMinutesText();
    ZeroTextReadsBack();
    if start.None? || end.None? then "0h 0m"
    else
      IsoClockSeconds(start.value);
      IsoClockSeconds(end.value);
      var startSecs := ClockSecondsOf(IsoString(start.value));
      var endSecs := ClockSecondsOf(IsoString(end.value));
      // Math.floor(endTotalMins - startTotalMins), over whole seconds
      var diffMins := (endSecs - startSecs) / 60;
      if diffMins <= 0 then "0h 0m"
      else
        var r := MinutesText(diffMins);
        MinutesTextReadsBack(diffMins);
        assert DecodeHoursMinutes(r).value != (0, 0);
        r
  }

  /** 18:30 on the date of `t`. */
  function OfficeEnd(t: Instant): Instant {
    Stamp(t.year, t.month, t.day, 18, 30, 0, 0)
  }

  /** getOfficeEndTime: the ISO text of 18:30 on the instant's date. */
  function GetOfficeEndTime(t: Instant): (r: string)
    ensures r == IsoString(OfficeEnd(t))
    ensures NumberTextModelled(r)
  {
    var r := IsoDatePart(t) + "T18:30:00.000Z";
    var iso := IsoString(OfficeEnd(t));
    assert Pad2(18) == "18" && Pad2(30) == "30" && Pad2(0) == "00" && Pad3(0) == "000";
    assert iso[..10] == r[..10];
    assert iso[10..] == r[10..];
    assert iso == iso[..10] + iso[10..] && r == r[..10] + r[10..];
    NonNumericCharAt(r, 10);
    r
  }

  /** The first argument of calculateOvertimeMinutes: a Date, or the text
      getOfficeEndTime returns. */
  datatype TimeArg = DateArg(instant: Instant) | TextArg(text: string)

  /** calculateOvertimeMinutes: the clock minutes of `end` past those of
      `start`, seconds and dates ignored, never below zero. */
  function CalculateOvertimeMinutes(start: TimeArg, end: Instant): (r: int)
    requires start.TextArg? ==> ClockDigits(start.text)
    ensures r >= 0
    ensures start.DateArg? ==> r == if MinuteOfDay(end) > MinuteOfDay(start.instant)
                                    then MinuteOfDay(end) - MinuteOfDay(start.instant) else 0
    ensures start.TextArg? ==> r == if MinuteOfDay(end) > ClockMinutesOf(start.text)
                                    then MinuteOfDay(end) - ClockMinutesOf(start.text) else 0
  {
    var startString := if start.TextArg? then start.text else IsoString(start.instant);
    var endString := IsoString(end);
    IsoClockMinutes(end);
    assert ClockDigits(startString)
           && (start.DateArg? ==> ClockMinutesOf(startString) == MinuteOfDay(start.instant)) by {
      if start.DateArg? {
        IsoClockMinutes(start.instant);
      }
    }
    var startTotal := ClockMinutesOf(startString);
    var endTotal := ClockMinutesOf(endString);
    if endTotal - startTotal > 0 then endTotal - startTotal else 0
  }

  /** Against the office end, overtime is the minutes past 18:30, and none
      for an end at or before 18:30. */
  lemma OvertimePastOfficeEnd(t: Instant, end: Instant)
    ensures ClockDigits(GetOfficeEndTime(t))
    ensures CalculateOvertimeMinutes(TextArg(GetOfficeEndTime(t)), end)
            == if MinuteOfDay(end) > 18 * 60 + 30 then MinuteOfDay(end) - (18 * 60 + 30) else 0
    ensures MinuteOfDay(end) <= 18 * 60 + 30 ==>
            CalculateOvertimeMinutes(TextArg(GetOfficeEndTime(t)), end) == 0
  {
    IsoClockMinutes(OfficeEnd(t));
  }

  /** What ToNumber yields for a string. */
  datatype JsNumber = Finite(value: int) | NaN

  /** White space and line terminators that StringToNumber trims. */
  const NUMERIC_SPACE: string := "\t\n\U{000B}\U{000C}\r \U{00A0}\U{1680}\U{2000}\U{2001}\U{2002}\U{2003}\U{2004}\U{2005}\U{2006}\U{2007}\U{2008}\U{2009}\U{200A}\U{2028}\U{2029}\U{202F}\U{205F}\U{3000}\U{FEFF}"

  /** A character that can occur in some string ToNumber accepts: white
      space, digits, signs, the decimal point, exponent and radix letters,
      hexadecimal digits and the letters of "Infinity". */
  predicate NumericLiteralChar(c: char) {
    IsDigit(c) || c in "+-.eExXoObBabcdefABCDEFInfinity" || c in NUMERIC_SPACE
  }

  /** A string of decimal digits only (the empty string included), checked
      character by character; DigitRunValue ties it to AllDigits. */
  predicate DigitRun(s: string) {
    s == [] || (IsDigit(s[0]) && DigitRun(s[1..]))
  }

  /** The decimal value of a run of digits. */
  function RunValue(s: string): int {
    if s == [] then 0 else RunValue(s[..|s| - 1]) * 10 + (s[|s| - 1] as int - '0' as int)
  }

  lemma {:induction false} DigitRunValue(s: string)
    requires AllDigits(s)
    ensures DigitRun(s) && RunValue(s) == DigitsValue(s)
    decreases |s|
  {
    if s != [] {
      DigitRunValue(s[1..]);
      DigitRunValue(s[..|s| - 1]);
    }
  }

  predicate HasNonNumericChar(s: string) {
    s != [] && (!NumericLiteralChar(s[0]) || HasNonNumericChar(s[1..]))
  }

  lemma {:induction false} NonNumericCharAt(s: string, i: nat)
    requires i < |s| && !NumericLiteralChar(s[i])
    ensures HasNonNumericChar(s)
    decreases i
  {
    if i > 0 {
      NonNumericCharAt(s[1..], i - 1);
    }
  }

  /** The strings whose ToNumber this model gives: runs of digits, and
      strings holding a character that no numeric literal contains. */
  predicate NumberTextModelled(s: string) {
    DigitRun(s) || HasNonNumericChar(s)
  }

  /** ToNumber on the strings this model compares with: a run of digits is
      its value (the empty run is 0), and a string holding a character that
      no numeric literal contains is NaN. */
  function StringToNumber(s: string): (n: JsNumber)
    requires NumberTextModelled(s)
    ensures n.NaN? <==> HasNonNumericChar(s)
  {
    if HasNonNumericChar(s) then NaN else Finite(RunValue(s))
  }

  /** `date > text` in JavaScript: the Date becomes its millisecond count,
      the string becomes ToNumber of it, and any comparison with NaN is
      false. */
  function DateGreaterThanString(d: Instant, s: string): (r: bool)
    requires NumberTextModelled(s)
    ensures r <==> !HasNonNumericChar(s) && EpochMs(d) > RunValue(s)
  {
    match StringToNumber(s)
    case NaN => false
    case Finite(n) => EpochMs(d) > n
  }

  /** A string of digits compares as its number. */
  lemma DigitTextComparison(d: Instant, s: string)
    requires AllDigits(s)
    ensures NumberTextModelled(s) && (DateGreaterThanString(d, s) <==> EpochMs(d) > DigitsValue(s))
  {
    DigitRunValue(s);
    if HasNonNumericChar(s) {
      NoNonNumericInDigits(s);
    }
  }

  lemma {:induction false} NoNonNumericInDigits(s: string)
    requires AllDigits(s)
    ensures !HasNonNumericChar(s)
    decreases |s|
  {
    if s != [] {
      NoNonNumericInDigits(s[1..]);
    }
  }

  /** The office-end text is not a number, so no Date is ever greater than
      it: the overtime branch guarded by `lastOut > officeEnd` never runs. */
  lemma OfficeEndNeverExceeded(t: Instant, end: Instant)
    ensures HasNonNumericChar(GetOfficeEndTime(t))
    ensures StringToNumber(GetOfficeEndTime(t)) == NaN
    ensures !DateGreaterThanString(end, GetOfficeEndTime(t))
  {
    var s := GetOfficeEndTime(t);
    assert s[10] == 'T';
    NonNumericCharAt(s, 10);
  }
}
