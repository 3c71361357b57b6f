/** The ISO 8601 text Date.prototype.toISOString produces,
    "YYYY-MM-DDTHH:MM:SS.mmmZ", and the facts the engine relies on when it
    cuts that text with substring: where each field sits, that it reads back
    as the field, and that date texts sort as the dates do. */
module Iso {
  import opened Wrappers
  import opened Text
  import opened Clock

  /** "YYYY-MM-DD", the first ten characters of the ISO text. */
  function DateText(d: CalendarDate): (s: string)
    ensures |s| == 10 && s[4] == '-' && s[7] == '-'
  {
    Pad4(d.year) + ("-" + (Pad2(d.month) + ("-" + Pad2(d.day))))
  }

  function IsoString(t: Instant): (s: string)
    ensures |s| == 24
    ensures s[..10] == DateText(DateOf(t)) && s[10] == 'T'
    ensures s[11..13] == Pad2(t.hour) && s[13] == ':'
    ensures s[14..16] == Pad2(t.minute) && s[16] == ':'
    ensures s[17..19] == Pad2(t.second) && s[19] == '.'
  {
    var date := DateText(DateOf(t));
    var clock := Pad2(t.hour) + ":" + Pad2(t.minute) + ":" + Pad2(t.second);
    var s := date + "T" + clock + "." + Pad3(t.millis) + "Z";
    assert s[..10] == date;
    assert s[11..19] == clock;
    assert clock[..2] == Pad2(t.hour) && clock[3..5] == Pad2(t.minute) && clock[6..8] == Pad2(t.second);
    s
  }

  /** The date part every grouping key uses: the date text of the
      instant, which IsoDatePartIsPrefix shows is isoString.substring(0, 10). */
  function IsoDatePart(t: Instant): (s: string)
    ensures |s| == 10
  {
    DateText(DateOf(t))
  }

  lemma IsoDatePartIsPrefix(t: Instant)
    ensures IsoDatePart(t) == IsoString(t)[..10]
  {
  }

  /** isoString.substring(11, 16): the "HH:MM" clock label. */
  function IsoClockPart(t: Instant): (s: string)
    ensures s == Pad2(t.hour) + ":" + Pad2(t.minute)
  {
    var s := IsoString(t);
    assert s[11..16] == s[11..13] + [s[13]] + s[14..16];
    s[11..16]
  }

  /** Lexical order of the date texts is calendar order. */
  lemma DateTextOrder(a: CalendarDate, b: CalendarDate)
    ensures StrLt(DateText(a), DateText(b)) <==> DateLt(a, b)
    ensures DateText(a) == DateText(b) <==> a == b
  {
    var ma, mb := Pad2(a.month) + ("-" + Pad2(a.day)), Pad2(b.month) + ("-" + Pad2(b.day));
    var ra, rb := "-" + ma, "-" + mb;
    var da, db := "-" + Pad2(a.day), "-" + Pad2(b.day);
    StrLtConcat(Pad4(a.year), ra, Pad4(b.year), rb);
    StrLtConcat("-", ma, "-", mb);
    StrLtConcat(Pad2(a.month), da, Pad2(b.month), db);
    StrLtConcat("-", Pad2(a.day), "-", Pad2(b.day));
    StrLtIrreflexive("-");
    Pad4Order(a.year, b.year);
    Pad2Order(a.month, b.month);
    Pad2Order(a.day, b.day);
    if DateText(a) == DateText(b) {
      assert DateText(a)[..4] == Pad4(a.year) && DateText(b)[..4] == Pad4(b.year);
      assert DateText(a)[5..7] == Pad2(a.month) && DateText(b)[5..7] == Pad2(b.month);
      assert DateText(a)[8..] == Pad2(a.day) && DateText(b)[8..] == Pad2(b.day);
    }
  }

  /** The calendar date a "YYYY-MM-DD" text names, or None when the text
      has another shape or names no date (moment's strict ISO date form). */
  function ParseDateText(s: string): (r: Option<CalendarDate>)
    ensures r.Some? ==> DateText(r.value) == s
  {
    if |s| == 10 && s[4] == '-' && s[7] == '-'
       && AllDigits(s[..4]) && AllDigits(s[5..7]) && AllDigits(s[8..])
    then
      var d := Date(DigitsValue(s[..4]), DigitsValue(s[5..7]), DigitsValue(s[8..]));
      if ValidDate(d) then
        Pad4OfDigits(s[..4]);
        Pad2OfDigits(s[5..7]);
        Pad2OfDigits(s[8..]);
        assert s == s[..4] + ("-" + (s[5..7] + ("-" + s[8..])));
        Some(d)
      else None
    else None
  }

  /** Every date text reads back as its date. */
  lemma ParseDateTextRoundTrip(d: CalendarDate)
    ensures ParseDateText(DateText(d)) == Some(d)
  {
    var s := DateText(d);
    assert s[..4] == Pad4(d.year) && s[5..7] == Pad2(d.month) && s[8..] == Pad2(d.day);
    Pad4Value(d.year);
    DateTextOrder(ParseDateText(s).value, d);
  }

  /** A text parses to exactly the date it is the text of. */
  lemma DateTextNames(s: string)
    ensures forall d: CalendarDate :: s == DateText(d) ==> ParseDateText(s) == Some(d)
  {
    forall d: CalendarDate | s == DateText(d)
      ensures ParseDateText(s) == Some(d)
    {
      ParseDateTextRoundTrip(d);
    }
  }

}
