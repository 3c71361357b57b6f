/** Text the attendance engine reads and writes: runs of decimal digits
    (what parseInt reads out of an ISO timestamp), integers written the way a
    JavaScript template literal writes them, the "<h>h <m>m" duration text,
    JavaScript's Math.floor division and sign-of-dividend remainder, and the
    code-unit order that Array.prototype.sort uses on strings. */
module Text {
  import opened Wrappers

  predicate IsDigit(c: char) {
    '0' <= c <= '9'
  }

  predicate AllDigits(s: string) {
    forall i :: 0 <= i < |s| ==> IsDigit(s[i])
  }

  function DigitChar(d: nat): (c: char)
    requires d < 10
    ensures IsDigit(c) && c as int - '0' as int == d
  {
    ('0' as int + d) as char
  }

  /** The value of a run of decimal digits (parseInt of such a run). */
  function DigitsValue(s: string): nat
    requires AllDigits(s)
  {
    if s == [] then 0
    else DigitsValue(s[..|s| - 1]) * 10 + (s[|s| - 1] as int - '0' as int)
  }

  /** Two zero-padded digits, as toISOString writes a month, day, hour,
      minute or second. */
  function Pad2(n: nat): (s: string)
    requires n < 100
    ensures |s| == 2 && AllDigits(s) && DigitsValue(s) == n
  {
    var s := [DigitChar(n / 10), DigitChar(n % 10)];
    assert s[..1] == [s[0]] && [s[0]][..0] == [];
    assert DigitsValue(s[..1]) == n / 10;
    s
  }

  /** Three zero-padded digits (milliseconds). */
  function Pad3(n: nat): (s: string)
    requires n < 1000
    ensures |s| == 3 && AllDigits(s)
  {
    [DigitChar(n / 100), DigitChar(n / 10 % 10), DigitChar(n % 10)]
  }

  /** Four zero-padded digits (a year between 0 and 9999). */
  function Pad4(n: nat): (s: string)
    requires n < 10000
    ensures |s| == 4 && AllDigits(s)
  {
    Pad2(n / 100) + Pad2(n % 100)
  }

  function Pow10(n: nat): (r: nat)
    ensures r >= 1
  {
    if n == 0 then 1 else 10 * Pow10(n - 1)
  }

  lemma AllDigitsConcat(a: string, b: string)
    requires AllDigits(a) && AllDigits(b)
    ensures AllDigits(a + b)
  {
    forall i | 0 <= i < |a + b| ensures IsDigit((a + b)[i]) {
      if i >= |a| {
        assert (a + b)[i] == b[i - |a|];
      }
    }
  }

  /** A run of digits read in two pieces. */
  lemma {:induction false} DigitsValueSplit(a: string, b: string)
    requires AllDigits(a) && AllDigits(b)
    ensures AllDigits(a + b) && DigitsValue(a + b) == DigitsValue(a) * Pow10(|b|) + DigitsValue(b)
    decreases |b|
  {
    AllDigitsConcat(a, b);
    if b == [] {
      assert a + b == a;
    } else {
      var b', d := b[..|b| - 1], b[|b| - 1] as int - '0' as int;
      assert (a + b)[..|a + b| - 1] == a + b';
      assert (a + b)[|a + b| - 1] == b[|b| - 1];
      assert Pow10(|b|) == 10 * Pow10(|b'|);
      DigitsValueSplit(a, b');
      ShiftDigit(DigitsValue(a), Pow10(|b'|), DigitsValue(b'), d);
    }
  }

  lemma ShiftDigit(x: int, p: int, y: int, d: int)
    ensures (x * p + y) * 10 + d == x * (10 * p) + (y * 10 + d)
  {
  }

  /** Two digits read back and padded again are the same two digits. */
  lemma Pad2OfDigits(t: string)
    requires |t| == 2 && AllDigits(t)
    ensures DigitsValue(t) < 100 && Pad2(DigitsValue(t)) == t
  {
    assert t[..1] == [t[0]] && t[..1][..0] == [];
    assert DigitsValue(t[..1]) == t[0] as int - '0' as int;
    var v := DigitsValue(t);
    assert v == (t[0] as int - '0' as int) * 10 + (t[1] as int - '0' as int);
    assert DigitChar(v / 10) == t[0] && DigitChar(v % 10) == t[1];
  }

  /** Four digits read back and padded again are the same four digits. */
  lemma Pad4OfDigits(t: string)
    requires |t| == 4 && AllDigits(t)
    ensures DigitsValue(t) < 10000 && Pad4(DigitsValue(t)) == t
  {
    var hi, lo := t[..2], t[2..];
    assert t == hi + lo;
    DigitsValueSplit(hi, lo);
    Pad2OfDigits(hi);
    Pad2OfDigits(lo);
    assert Pow10(2) == 100;
    var v := DigitsValue(t);
    assert v / 100 == DigitsValue(hi) && v % 100 == DigitsValue(lo);
  }

  /** Pad4 writes the number it is given. */
  lemma Pad4Value(n: nat)
    requires n < 10000
    ensures DigitsValue(Pad4(n)) == n
  {
    Pad4OfDigits(Pad4(n));
    Pad4Order(DigitsValue(Pad4(n)), n);
  }

  /** Decimal text of a natural number, most significant digit first. */
  function NatToString(n: nat): (s: string)
    ensures |s| > 0 && AllDigits(s)
    decreases n
  {
    if n < 10 then [DigitChar(n)] else NatToString(n / 10) + [DigitChar(n % 10)]
  }

  lemma {:induction false} NatToStringRoundTrip(n: nat)
    ensures DigitsValue(NatToString(n)) == n
    decreases n
  {
    if n >= 10 {
      var s := NatToString(n);
      assert s[..|s| - 1] == NatToString(n / 10);
      NatToStringRoundTrip(n / 10);
    }
  }

  /** A decimal integer: an optional minus sign, then at least one digit. */
  function ParseInt(s: string): Option<int> {
    if |s| > 0 && s[0] == '-' then
      if |s| > 1 && AllDigits(s[1..]) then Some(0 - DigitsValue(s[1..]) as int) else None
    else if |s| > 0 && AllDigits(s) then Some(DigitsValue(s))
    else None
  }

  /** An integer as `${i}` writes it. */
  function IntToString(i: int): (s: string)
    ensures ParseInt(s) == Some(i)
    ensures forall k :: 0 <= k < |s| ==> IsDigit(s[k]) || s[k] == '-'
  {
    if i < 0 then
      var digits := NatToString(-i);
      NatToStringRoundTrip(-i);
      assert ("-" + digits)[1..] == digits;
      "-" + digits
    else
      NatToStringRoundTrip(i);
      NatToString(i)
  }

  /** The first index of `c` in `s`, or |s| when it does not occur. */
  function IndexOfChar(s: string, c: char): (r: nat)
    ensures r <= |s|
    ensures r < |s| ==> s[r] == c
    ensures forall i :: 0 <= i < r ==> s[i] != c
  {
    if s == [] then 0 else if s[0] == c then 0 else 1 + IndexOfChar(s[1..], c)
  }

  /** The "<h>h <m>m" text every duration of the engine is written as. */
  function HoursMinutesText(h: int, m: int): string {
    IntToString(h) + "h " + IntToString(m) + "m"
  }

  /** Reads a "<h>h <m>m" text back into its two integers. */
  function DecodeHoursMinutes(s: string): Option<(int, int)> {
    var i := IndexOfChar(s, 'h');
    if i + 2 < |s| && s[i + 1] == ' ' && s[|s| - 1] == 'm' then
      match (ParseInt(s[..i]), ParseInt(s[i + 2..|s| - 1]))
      case (Some(h), Some(m)) => Some((h, m))
      case _ => None
    else None
  }

  lemma HoursMinutesRoundTrip(h: int, m: int)
    ensures DecodeHoursMinutes(HoursMinutesText(h, m)) == Some((h, m))
  {
    var a, b := IntToString(h), IntToString(m);
    var s := a + "h " + b + "m";
    assert s == HoursMinutesText(h, m);
    assert s[|a|] == 'h';
    forall k | 0 <= k < |a| ensures s[k] != 'h' {
      assert s[k] == a[k];
    }
    assert IndexOfChar(s, 'h') == |a|;
    assert s[..|a|] == a;
    assert s[|a| + 2..|s| - 1] == b;
  }

  /** Math.floor(w / 60): the hours of a minute count, rounded down. */
  function HoursOf(w: int): (h: int)
    ensures h * 60 <= w < h * 60 + 60
  {
    w / 60
  }

  /** w % 60 in JavaScript: the leftover minutes keep the sign of w. */
  function MinutesOf(w: int): (m: int)
    ensures w >= 0 ==> 0 <= m < 60
    ensures w < 0 ==> -60 < m <= 0
    ensures (w - m) % 60 == 0
  {
    if w >= 0 then w % 60 else -((-w) % 60)
  }

  /** `${Math.floor(w / 60)}h ${w % 60}m`: how every minute count becomes
      text; what it reads back as is MinutesTextReadsBack. */
  function MinutesText(w: int): string {
    HoursMinutesText(HoursOf(w), MinutesOf(w))
  }

  /** For a non-negative count the text reads back as the count; for a
      negative one that is not a whole number of hours it does not, since
      the hours are floored while the minutes keep the sign of the count. */
  lemma MinutesTextReadsBack(w: int)
    ensures var s := MinutesText(w);
            && DecodeHoursMinutes(s).Some?
            && (w >= 0 ==> DecodeHoursMinutes(s).value.0 * 60 + DecodeHoursMinutes(s).value.1 == w)
            && (w >= 0 ==> 0 <= DecodeHoursMinutes(s).value.1 < 60)
            && (w < 0 ==> -60 < DecodeHoursMinutes(s).value.1 <= 0)
            && (w < 0 ==> var (h, m) := DecodeHoursMinutes(s).value;
                          (h + (if m < 0 then 1 else 0)) * 60 + m == w)
  {
    HoursMinutesRoundTrip(HoursOf(w), MinutesOf(w));
    HoursAndMinutes(w);
  }

  /** No minutes are written "0h 0m". */
  lemma ZeroMinutesText()
    ensures MinutesText(0) == "0h 0m"
  {
    assert NatToString(0) == "0";
    assert IntToString(0) == "0";
  }

  /** "0h 0m" reads back as no hours and no minutes. */
  lemma ZeroTextReadsBack()
    ensures DecodeHoursMinutes("0h 0m") == Some((0, 0))
  {
    ZeroMinutesText();
    HoursMinutesRoundTrip(0, 0);
  }

  /** How the floored hours and the sign-of-dividend minutes add back up. */
  lemma HoursAndMinutes(w: int)
    ensures w >= 0 ==> HoursOf(w) * 60 + MinutesOf(w) == w
    ensures w < 0 ==> (HoursOf(w) + (if MinutesOf(w) < 0 then 1 else 0)) * 60 + MinutesOf(w) == w
  {
    var h := HoursOf(w);
    if w >= 0 {
      assert MinutesOf(w) == w % 60;
    } else {
      var q, r := (-w) / 60, (-w) % 60;
      assert -w == q * 60 + r && 0 <= r < 60;
      assert MinutesOf(w) == -r;
      if r == 0 {
        assert w == (-q) * 60;
        assert h == -q;
      } else {
        assert w == (-q - 1) * 60 + (60 - r);
        assert h == -q - 1;
      }
    }
  }

  lemma NegativeMinutesText()
    ensures MinutesText(-15) == "-1h -15m"
  {
    assert NatToString(15) == NatToString(1) + "5" == "15";
    assert IntToString(-1) == "-1" && IntToString(-15) == "-15";
    assert HoursMinutesText(-1, -15) == "-1h -15m";
    assert HoursOf(-15) == -1 && MinutesOf(-15) == -15;
  }

  lemma NegativeWholeHoursText()
    ensures MinutesText(-60) == "-1h 0m"
  {
    assert IntToString(-1) == "-1" && IntToString(0) == "0";
    assert HoursMinutesText(-1, 0) == "-1h 0m";
    assert HoursOf(-60) == -1 && MinutesOf(-60) == 0;
  }

  /** The order Array.prototype.sort puts strings in by default:
      lexicographic on characters, a proper prefix first. */
  predicate StrLt(s: string, t: string)
    decreases |s|
  {
    if s == [] then t != []
    else if t == [] then false
    else if s[0] != t[0] then s[0] < t[0]
    else StrLt(s[1..], t[1..])
  }

  lemma {:induction false} StrLtIrreflexive(s: string)
    ensures !StrLt(s, s)
    decreases |s|
  {
    if s != [] {
      StrLtIrreflexive(s[1..]);
    }
  }

  lemma {:induction false} StrLtTransitive(s: string, t: string, u: string)
    requires StrLt(s, t) && StrLt(t, u)
    ensures StrLt(s, u)
    decreases |s|
  {
    if s != [] && t != [] && u != [] && s[0] == t[0] == u[0] {
      StrLtTransitive(s[1..], t[1..], u[1..]);
    }
  }

  lemma {:induction false} StrLtTotal(s: string, t: string)
    ensures s == t || StrLt(s, t) || StrLt(t, s)
    decreases |s|
  {
    if s != [] && t != [] && s[0] == t[0] {
      StrLtTotal(s[1..], t[1..]);
      if s[1..] == t[1..] {
        assert s == [s[0]] + s[1..] && t == [t[0]] + t[1..];
      }
    }
  }

  lemma {:induction false} StrLtAsymmetric(s: string, t: string)
    requires StrLt(s, t)
    ensures !StrLt(t, s)
    decreases |s|
  {
    if s != [] && t != [] && s[0] == t[0] {
      StrLtAsymmetric(s[1..], t[1..]);
    }
  }

  /** Comparing two texts made of equal-length heads: the heads decide,
      and the tails decide only when the heads are equal. */
  lemma {:induction false} StrLtConcat(a: string, x: string, b: string, y: string)
    requires |a| == |b|
    ensures StrLt(a + x, b + y) <==> StrLt(a, b) || (a == b && StrLt(x, y))
    decreases |a|
  {
    if a != [] {
      assert (a + x)[0] == a[0] && (b + y)[0] == b[0];
      assert (a + x)[1..] == a[1..] + x && (b + y)[1..] == b[1..] + y;
      StrLtConcat(a[1..], x, b[1..], y);
      if a[0] == b[0] && a[1..] == b[1..] {
        assert a == [a[0]] + a[1..] && b == [b[0]] + b[1..];
      }
      if a == b {
        assert a[1..] == b[1..];
      }
    } else {
      assert a + x == x && b + y == y;
    }
  }

  /** Zero-padded two-digit texts sort as their numbers do. */
  lemma Pad2Order(m: nat, n: nat)
    requires m < 100 && n < 100
    ensures StrLt(Pad2(m), Pad2(n)) <==> m < n
    ensures Pad2(m) == Pad2(n) <==> m == n
  {
    var p, q := Pad2(m), Pad2(n);
    assert p == [p[0]] + [p[1]] && q == [q[0]] + [q[1]];
    StrLtConcat([p[0]], [p[1]], [q[0]], [q[1]]);
    assert StrLt([p[0]], [q[0]]) <==> p[0] < q[0];
    assert StrLt([p[1]], [q[1]]) <==> p[1] < q[1];
  }

  /** Zero-padded four-digit texts sort as their numbers do. */
  lemma Pad4Order(m: nat, n: nat)
    requires m < 10000 && n < 10000
    ensures StrLt(Pad4(m), Pad4(n)) <==> m < n
    ensures Pad4(m) == Pad4(n) <==> m == n
  {
    StrLtConcat(Pad2(m / 100), Pad2(m % 100), Pad2(n / 100), Pad2(n % 100));
    Pad2Order(m / 100, n / 100);
    Pad2Order(m % 100, n % 100);
    if Pad4(m) == Pad4(n) {
      assert Pad4(m)[..2] == Pad2(m / 100) && Pad4(m)[2..] == Pad2(m % 100);
      assert Pad4(n)[..2] == Pad2(n / 100) && Pad4(n)[2..] == Pad2(n % 100);
    }
  }

  /** Every string sorts before every later one. */
  predicate Ascending(s: seq<string>) {
    forall i, j :: 0 <= i < j < |s| ==> StrLt(s[i], s[j])
  }

  lemma AscendingCons(h: string, t: seq<string>)
    requires Ascending(t) && forall y :: y in t ==> StrLt(h, y)
    ensures Ascending([h] + t)
  {
    forall i, j | 0 <= i < j < |[h] + t| ensures StrLt(([h] + t)[i], ([h] + t)[j]) {
      if i > 0 {
        assert ([h] + t)[i] == t[i - 1] && ([h] + t)[j] == t[j - 1];
      } else {
        assert ([h] + t)[j] == t[j - 1] && t[j - 1] in t;
      }
    }
  }

  /** Places `x` among the sorted strings `s`. */
  function InsertString(x: string, s: seq<string>): (r: seq<string>)
    requires Ascending(s) && x !in s
    ensures multiset(r) == multiset(s) + multiset{x}
    ensures Ascending(r)
  {
    if s == [] then [x]
    else if StrLt(x, s[0]) then
      BelowAll(x, s);
      AscendingCons(x, s);
      [x] + s
    else
      var h, t := s[0], s[1..];
      assert s == [h] + t;
      AscendingTail(s);
      var rest := InsertString(x, t);
      HeadBelowRest(x, s, rest);
      AscendingCons(h, rest);
      [h] + rest
  }

  /** A string below the head of an ascending list is below all of it. */
  lemma BelowAll(x: string, s: seq<string>)
    requires Ascending(s) && s != [] && StrLt(x, s[0])
    ensures forall y :: y in s ==> StrLt(x, y)
  {
    forall y | y in s ensures StrLt(x, y) {
      var j :| 0 <= j < |s| && s[j] == y;
      if j > 0 {
        StrLtTransitive(x, s[0], s[j]);
      }
    }
  }

  lemma AscendingTail(s: seq<string>)
    requires Ascending(s) && s != []
    ensures Ascending(s[1..])
  {
    forall i, j | 0 <= i < j < |s[1..]| ensures StrLt(s[1..][i], s[1..][j]) {
      assert s[1..][i] == s[i + 1] && s[1..][j] == s[j + 1];
    }
  }

  /** The head of an ascending list that `x` does not go before is below
      everything once `x` is placed in the rest. */
  lemma HeadBelowRest(x: string, s: seq<string>, rest: seq<string>)
    requires Ascending(s) && s != [] && x !in s && !StrLt(x, s[0])
    requires multiset(rest) == multiset(s[1..]) + multiset{x}
    ensures forall y :: y in rest ==> StrLt(s[0], y)
  {
    StrLtTotal(x, s[0]);
    forall y | y in rest ensures StrLt(s[0], y) {
      assert y in multiset(rest);
      if y != x {
        assert y in multiset(s[1..]);
        var j :| 0 <= j < |s[1..]| && s[1..][j] == y;
        assert s[j + 1] == y;
      }
    }
  }

  /** `keys.sort()` on distinct strings: the same strings, ascending. */
  function SortStrings(s: seq<string>): (r: seq<string>)
    requires forall i, j :: 0 <= i < j < |s| ==> s[i] != s[j]
    ensures multiset(r) == multiset(s)
    ensures Ascending(r)
  {
    if s == [] then []
    else
      var init, x := s[..|s| - 1], s[|s| - 1];
      assert s == init + [x];
      var sorted := SortStrings(init);
      assert x !in multiset(sorted);
      InsertString(x, sorted)
  }
}
