/**
 The stored timestamps: Go's Format(time.RFC3339) of a UTC time, compared by SQLite as
 text. Section 5.1 of RFC 3339 promises that such strings sort in time order; this module
 proves it for the proleptic Gregorian calendar of the years 0 to 9999.
 */
module Timestamps {
  import opened Schema

  // ---------------------------------------------------------------- text order

  /** SQLite's BINARY collation. */
  predicate TextLess(a: string, b: string) {
    b != [] && (a == [] || a[0] < b[0] || (a[0] == b[0] && TextLess(a[1..], b[1..])))
  }

  predicate TextAtMost(a: string, b: string) {
    a == b || TextLess(a, b)
  }

  lemma {:induction false} TextLessConcat(a: string, a': string, b: string, b': string)
    requires |a| == |a'|
    ensures TextLess(a + b, a' + b') <==> TextLess(a, a') || (a == a' && TextLess(b, b'))
  {
    if a == [] {
      assert a + b == b && a' + b' == b';
    } else {
      TextLessConcat(a[1..], a'[1..], b, b');
      assert (a + b)[1..] == a[1..] + b && (a' + b')[1..] == a'[1..] + b';
      assert a == [a[0]] + a[1..] && a' == [a'[0]] + a'[1..];
    }
  }

  // ---------------------------------------------------------------- fixed-width numbers

  function Pow10(w: nat): (p: nat)
    ensures p > 0
  {
    if w == 0 then 1 else 10 * Pow10(w - 1)
  }

  function DigitChar(d: nat): char
    requires d < 10
  {
    '0' + d as char
  }

  function Padded(w: nat, n: nat): (s: string)
    ensures |s| == w
  {
    if w == 0 then [] else Padded(w - 1, n / 10) + [DigitChar(n % 10)]
  }

  predicate IsDigit(c: char) {
    '0' <= c <= '9'
  }

  function DigitValue(c: char): nat
    requires IsDigit(c)
  {
    c as int - '0' as int
  }

  function ReadNumber(s: string): Option<nat> {
    if s == [] then Some(0)
    else
      var last := s[|s| - 1];
      match ReadNumber(s[..|s| - 1])
      case None => None
      case Some(n) => if IsDigit(last) then Some(10 * n + DigitValue(last)) else None
  }

  lemma DigitIsDigit(d: nat)
    requires d < 10
    ensures IsDigit(DigitChar(d)) && DigitValue(DigitChar(d)) == d
  {}

  lemma {:induction false} ReadPadded(w: nat, n: nat)
    requires n < Pow10(w)
    ensures ReadNumber(Padded(w, n)) == Some(n)
  {
    if w > 0 {
      ReadPadded(w - 1, n / 10);
      DigitIsDigit(n % 10);
      var s := Padded(w, n);
      assert s[..|s| - 1] == Padded(w - 1, n / 10);
    }
  }

  /** A text is read as a number iff it is that number's digits. */
  lemma {:induction false} ReadIsExact(s: string, n: nat)
    ensures ReadNumber(s) == Some(n) <==> n < Pow10(|s|) && s == Padded(|s|, n)
  {
    if s != [] {
      var before, last := s[..|s| - 1], s[|s| - 1];
      assert s == before + [last];
      ReadIsExact(before, n / 10);
      DigitIsDigit(n % 10);
      assert n == 10 * (n / 10) + n % 10;
      var padded := Padded(|s|, n);
      assert padded[..|s| - 1] == Padded(|s| - 1, n / 10) && padded[|s| - 1] == DigitChar(n % 10);
    }
  }

  lemma {:induction false} PaddedOrder(w: nat, a: nat, b: nat)
    requires a < Pow10(w) && b < Pow10(w)
    ensures TextLess(Padded(w, a), Padded(w, b)) <==> a < b
    ensures Padded(w, a) == Padded(w, b) <==> a == b
  {
    if w > 0 {
      PaddedOrder(w - 1, a / 10, b / 10);
      DigitIsDigit(a % 10);
      DigitIsDigit(b % 10);
      TextLessConcat(Padded(w - 1, a / 10), Padded(w - 1, b / 10), [DigitChar(a % 10)], [DigitChar(b % 10)]);
      assert TextLess([DigitChar(a % 10)], [DigitChar(b % 10)]) <==> a % 10 < b % 10;
      ReadPadded(w, a);
      ReadPadded(w, b);
    }
  }

  // ---------------------------------------------------------------- fields and separators

  datatype Field = Field(width: nat, separator: char)

  /** 2006-01-02T15:04:05Z */
  const LAYOUT := [Field(4, '-'), Field(2, '-'), Field(2, 'T'), Field(2, ':'), Field(2, ':'), Field(2, 'Z')]

  predicate Fits(layout: seq<Field>, values: seq<nat>) {
    |layout| == |values| && forall i | 0 <= i < |layout| :: values[i] < Pow10(layout[i].width)
  }

  function Render(layout: seq<Field>, values: seq<nat>): string
    requires |layout| == |values|
  {
    if layout == [] then []
    else Padded(layout[0].width, values[0]) + [layout[0].separator] + Render(layout[1..], values[1..])
  }

  function ReadFields(layout: seq<Field>, s: string): Option<seq<nat>> {
    if layout == [] then if s == [] then Some([]) else None
    else
      var w := layout[0].width;
      if |s| < w + 1 || s[w] != layout[0].separator then None
      else match (ReadNumber(s[..w]), ReadFields(layout[1..], s[w + 1..]))
        case (Some(n), Some(rest)) => Some([n] + rest)
        case _ => None
  }

  predicate LexLess(a: seq<nat>, b: seq<nat>)
    requires |a| == |b|
  {
    a != [] && (a[0] < b[0] || (a[0] == b[0] && LexLess(a[1..], b[1..])))
  }

  lemma {:induction false} ReadRendered(layout: seq<Field>, values: seq<nat>)
    requires Fits(layout, values)
    ensures ReadFields(layout, Render(layout, values)) == Some(values)
  {
    if layout != [] {
      ReadRendered(layout[1..], values[1..]);
      var w, s := layout[0].width, Render(layout, values);
      ReadPadded(w, values[0]);
      var head, tail := Padded(w, values[0]), Render(layout[1..], values[1..]);
      assert s == head + [layout[0].separator] + tail;
      assert s[..w] == head && s[w] == layout[0].separator && s[w + 1..] == tail;
      assert values == [values[0]] + values[1..];
    }
  }

  lemma {:induction false} FieldsAreExact(layout: seq<Field>, s: string, values: seq<nat>)
    requires ReadFields(layout, s) == Some(values)
    ensures Fits(layout, values) && s == Render(layout, values)
  {
    if layout != [] {
      var w, n, rest := FirstField(layout, s, values);
      FieldsAreExact(layout[1..], s[w + 1..], rest);
      ReadIsExact(s[..w], n);
      assert values[1..] == rest;
      SplitAt(s, w);
    }
  }

  lemma FirstField(layout: seq<Field>, s: string, values: seq<nat>) returns (w: nat, n: nat, rest: seq<nat>)
    requires layout != [] && ReadFields(layout, s) == Some(values)
    ensures w == layout[0].width < |s| && s[w] == layout[0].separator && values == [n] + rest
    ensures ReadNumber(s[..w]) == Some(n) && ReadFields(layout[1..], s[w + 1..]) == Some(rest)
  {
    w := layout[0].width;
    n, rest := ReadNumber(s[..w]).value, ReadFields(layout[1..], s[w + 1..]).value;
  }

  lemma SplitAt(s: string, w: nat)
    requires w < |s|
    ensures s == s[..w] + [s[w]] + s[w + 1..]
  {}

  lemma {:induction false} RenderOrder(layout: seq<Field>, a: seq<nat>, b: seq<nat>)
    requires Fits(layout, a) && Fits(layout, b)
    ensures TextLess(Render(layout, a), Render(layout, b)) <==> LexLess(a, b)
  {
    if layout != [] {
      RenderOrder(layout[1..], a[1..], b[1..]);
      var w, separator := layout[0].width, [layout[0].separator];
      PaddedOrder(w, a[0], b[0]);
      TextLessConcat(Padded(w, a[0]) + separator, Padded(w, b[0]) + separator,
                     Render(layout[1..], a[1..]), Render(layout[1..], b[1..]));
      TextLessConcat(Padded(w, a[0]), Padded(w, b[0]), separator, separator);
      assert !TextLess(separator, separator);
      assert Padded(w, a[0]) + separator == Padded(w, b[0]) + separator <==> a[0] == b[0] by {
        assert (Padded(w, a[0]) + separator)[..w] == Padded(w, a[0]);
        assert (Padded(w, b[0]) + separator)[..w] == Padded(w, b[0]);
      }
    }
  }

  lemma {:induction false} LexTotal(a: seq<nat>, b: seq<nat>)
    requires |a| == |b|
    ensures a == b || LexLess(a, b) || LexLess(b, a)
  {
    if a != [] {
      LexTotal(a[1..], b[1..]);
      assert a == [a[0]] + a[1..] && b == [b[0]] + b[1..];
    }
  }

  // ---------------------------------------------------------------- the calendar

  datatype Civil = Civil(year: nat, month: nat, day: nat, hour: nat, minute: nat, second: nat)

  predicate IsLeap(y: nat) {
    y % 4 == 0 && (y % 100 != 0 || y % 400 == 0)
  }

  function YearDays(y: nat): nat {
    if IsLeap(y) then 366 else 365
  }

  function MonthDays(y: nat, m: nat): nat {
    if m == 2 then if IsLeap(y) then 29 else 28
    else if m == 4 || m == 6 || m == 9 || m == 11 then 30
    else 31
  }

  predicate ValidCivil(c: Civil) {
    && c.year <= 9999 && 1 <= c.month <= 12 && 1 <= c.day <= MonthDays(c.year, c.month)
    && c.hour < 24 && c.minute < 60 && c.second < 60
  }

  function DaysBeforeYear(y: nat): nat {
    if y == 0 then 0 else DaysBeforeYear(y - 1) + YearDays(y - 1)
  }

  function DaysBeforeMonth(y: nat, m: nat): nat {
    if m <= 1 then 0 else DaysBeforeMonth(y, m - 1) + MonthDays(y, m - 1)
  }

  function DayOf(c: Civil): nat
    requires 1 <= c.day
  {
    DaysBeforeYear(c.year) + DaysBeforeMonth(c.year, c.month) + c.day - 1
  }

  function SecondOfDay(c: Civil): nat {
    (c.hour * 60 + c.minute) * 60 + c.second
  }

  const DAY := 86400

  /** Seconds since 0000-01-01T00:00:00Z. */
  function SecondsOf(c: Civil): nat
    requires 1 <= c.day
  {
    DayOf(c) * DAY + SecondOfDay(c)
  }

  /** The instants whose year has four digits. */
  predicate InCalendar(seconds: int) {
    0 <= seconds < DaysBeforeYear(10000) * DAY
  }

  function CivilFrom(y: nat, day: nat, second: nat): Civil
    decreases day
  {
    if day < YearDays(y) then CivilInYear(y, 1, day, second) else CivilFrom(y + 1, day - YearDays(y), second)
  }

  function CivilInYear(y: nat, m: nat, day: nat, second: nat): Civil
    decreases day
  {
    if m >= 12 || day < MonthDays(y, m) then
      Civil(y, m, day + 1, second / 3600, second / 60 % 60, second % 60)
    else CivilInYear(y, m + 1, day - MonthDays(y, m), second)
  }

  /** The calendar fields of an instant. */
  function CivilOf(seconds: nat): Civil {
    CivilFrom(0, seconds / DAY, seconds % DAY)
  }

  lemma MonthsOfYear(y: nat)
    ensures DaysBeforeMonth(y, 12) + MonthDays(y, 12) == YearDays(y)
  {
    assert DaysBeforeMonth(y, 2) == 31;
    assert DaysBeforeMonth(y, 4) == DaysBeforeMonth(y, 2) + MonthDays(y, 2) + 31;
    assert DaysBeforeMonth(y, 6) == DaysBeforeMonth(y, 4) + 61;
    assert DaysBeforeMonth(y, 8) == DaysBeforeMonth(y, 6) + 61;
    assert DaysBeforeMonth(y, 10) == DaysBeforeMonth(y, 8) + 61;
    assert DaysBeforeMonth(y, 12) == DaysBeforeMonth(y, 10) + 61;
  }

  lemma {:induction false} CivilInYearInverse(y: nat, m: nat, day: nat, second: nat)
    requires y <= 9999 && 1 <= m <= 12 && second < DAY
    requires DaysBeforeMonth(y, m) + day < DaysBeforeMonth(y, 12) + MonthDays(y, 12)
    ensures var c := CivilInYear(y, m, day, second);
            && ValidCivil(c) && c.year == y && SecondOfDay(c) == second
            && DaysBeforeMonth(y, c.month) + c.day - 1 == DaysBeforeMonth(y, m) + day
    decreases day
  {
    if m < 12 && day >= MonthDays(y, m) {
      assert DaysBeforeMonth(y, m + 1) == DaysBeforeMonth(y, m) + MonthDays(y, m);
      CivilInYearInverse(y, m + 1, day - MonthDays(y, m), second);
    } else {
      CivilInMonth(y, m, day, second);
    }
  }

  lemma CivilInMonth(y: nat, m: nat, day: nat, second: nat)
    requires y <= 9999 && 1 <= m <= 12 && second < DAY && day < MonthDays(y, m)
    ensures var c := CivilInYear(y, m, day, second);
            ValidCivil(c) && c.year == y && c.month == m && c.day == day + 1 && SecondOfDay(c) == second
  {
    ClockInverse(second);
  }

  lemma ClockInverse(second: nat)
    requires second < DAY
    ensures second / 3600 < 24 && second / 60 % 60 < 60 && second % 60 < 60
    ensures (second / 3600 * 60 + second / 60 % 60) * 60 + second % 60 == second
  {
    assert second / 3600 == second / 60 / 60;
  }

  lemma {:induction false} YearsGrow(a: nat, b: nat)
    requires a <= b
    ensures DaysBeforeYear(a) <= DaysBeforeYear(b)
    ensures a < b ==> DaysBeforeYear(a) + YearDays(a) <= DaysBeforeYear(b)
    decreases b
  {
    if a < b {
      YearsGrow(a, b - 1);
    }
  }

  lemma {:induction false} CivilFromInverse(y: nat, day: nat, second: nat)
    requires second < DAY && DaysBeforeYear(y) + day < DaysBeforeYear(10000)
    ensures ValidCivil(CivilFrom(y, day, second))
    ensures SecondsOf(CivilFrom(y, day, second)) == (DaysBeforeYear(y) + day) * DAY + second
    decreases day
  {
    if y >= 10000 {
      YearsGrow(10000, y);
      assert false;
    } else if day < YearDays(y) {
      MonthsOfYear(y);
      CivilInYearInverse(y, 1, day, second);
    } else {
      CivilFromInverse(y + 1, day - YearDays(y), second);
    }
  }

  /** Converting an instant to calendar fields and back gives the instant. */
  lemma CivilInverse(seconds: nat)
    requires InCalendar(seconds)
    ensures ValidCivil(CivilOf(seconds)) && SecondsOf(CivilOf(seconds)) == seconds
  {
    CivilFromInverse(0, seconds / DAY, seconds % DAY);
  }

  function ValuesOf(c: Civil): seq<nat> {
    [c.year, c.month, c.day, c.hour, c.minute, c.second]
  }

  lemma {:induction false} MonthsGrow(y: nat, a: nat, b: nat)
    requires 1 <= a < b
    ensures DaysBeforeMonth(y, a) + MonthDays(y, a) <= DaysBeforeMonth(y, b)
    decreases b
  {
    if a < b - 1 {
      MonthsGrow(y, a, b - 1);
    }
  }

  lemma DayWithinYear(c: Civil)
    requires ValidCivil(c)
    ensures DaysBeforeYear(c.year) <= DayOf(c) < DaysBeforeYear(c.year) + YearDays(c.year)
  {
    MonthsOfYear(c.year);
    if c.month < 12 {
      MonthsGrow(c.year, c.month, 12);
    }
  }

  lemma SecondWithinDay(c: Civil)
    requires ValidCivil(c)
    ensures SecondOfDay(c) < DAY
  {}

  /** One calendar time before another, field by field from the year down. */
  predicate CivilLess(a: Civil, b: Civil) {
    || a.year < b.year
    || (a.year == b.year
        && (|| a.month < b.month
            || (a.month == b.month
                && (a.day < b.day || (a.day == b.day && SecondOfDay(a) < SecondOfDay(b))))))
  }

  lemma LexOne(m: nat, n: nat)
    ensures LexLess([m], [n]) <==> m < n
  {
    var a, b := [m], [n];
    assert a[1..] == [] && b[1..] == [];
    assert !LexLess(a[1..], b[1..]);
    assert LexLess(a, b) <==> a[0] < b[0] || (a[0] == b[0] && LexLess(a[1..], b[1..]));
  }

  lemma LexClock(a: Civil, b: Civil)
    requires LexLess([a.hour, a.minute, a.second], [b.hour, b.minute, b.second])
    ensures || a.hour < b.hour
            || (a.hour == b.hour && (a.minute < b.minute || (a.minute == b.minute && a.second < b.second)))
  {
    var x, y := [a.hour, a.minute, a.second], [b.hour, b.minute, b.second];
    assert x[1..] == [a.minute, a.second] && y[1..] == [b.minute, b.second];
    assert [a.minute, a.second][1..] == [a.second] && [b.minute, b.second][1..] == [b.second];
    LexOne(a.second, b.second);
    assert LexLess([a.minute, a.second], [b.minute, b.second]) ==>
        a.minute < b.minute || (a.minute == b.minute && LexLess([a.second], [b.second]));
  }

  lemma LexIsCivilLess(a: Civil, b: Civil)
    requires ValidCivil(a) && ValidCivil(b) && LexLess(ValuesOf(a), ValuesOf(b))
    ensures CivilLess(a, b)
  {
    var a1, b1 := ValuesOf(a)[1..], ValuesOf(b)[1..];
    var a2, b2 := a1[1..], b1[1..];
    var a3, b3 := a2[1..], b2[1..];
    if a.year == b.year && a.month == b.month && a.day == b.day {
      assert LexLess(a1, b1);
      assert LexLess(a2, b2);
      assert LexLess(a3, b3);
      assert a3 == [a.hour, a.minute, a.second] && b3 == [b.hour, b.minute, b.second];
      LexClock(a, b);
    } else if a.year == b.year {
      assert LexLess(a1, b1);
      assert a.month == b.month ==> LexLess(a2, b2);
    }
  }

  /** Earlier calendar fields mean an earlier instant. */
  lemma FieldsOrderInstants(a: Civil, b: Civil)
    requires ValidCivil(a) && ValidCivil(b) && LexLess(ValuesOf(a), ValuesOf(b))
    ensures SecondsOf(a) < SecondsOf(b)
  {
    LexIsCivilLess(a, b);
    SecondWithinDay(a);
    DayWithinYear(a);
    DayWithinYear(b);
    if a.year < b.year {
      YearsGrow(a.year, b.year);
    } else if a.month < b.month {
      MonthsGrow(a.year, a.month, b.month);
    }
  }

  // ---------------------------------------------------------------- the Gregorian rules

  /** Days before a year: every fourth one is a leap year but for every hundredth, but for every four hundredth. */
  lemma {:induction false} GregorianYears(y: nat)
    ensures DaysBeforeYear(y) == 365 * y + if y == 0 then 0 else (y - 1) / 4 - (y - 1) / 100 + (y - 1) / 400 + 1
  {
    if y > 1 {
      GregorianYears(y - 1);
      Quotients(y - 1);
    }
  }

  lemma Quotients(x: nat)
    requires x > 0
    ensures x / 4 == (x - 1) / 4 + if x % 4 == 0 then 1 else 0
    ensures x / 100 == (x - 1) / 100 + if x % 100 == 0 then 1 else 0
    ensures x / 400 == (x - 1) / 400 + if x % 400 == 0 then 1 else 0
    ensures (x % 400 == 0 ==> x % 100 == 0) && (x % 100 == 0 ==> x % 4 == 0)
  {}

  /** The day of a year on which each month begins, in a year that is not a leap year. */
  const MONTH_STARTS := [0, 31, 59, 90, 120, 151, 181, 212, 243, 273, 304, 334]

  lemma MonthStarts(y: nat, m: nat)
    requires 1 <= m <= 12
    ensures DaysBeforeMonth(y, m) ==
            MONTH_STARTS[m - 1] + if m > 2 && y % 4 == 0 && (y % 100 != 0 || y % 400 == 0) then 1 else 0
  {
    assert DaysBeforeMonth(y, 1) == 0 && DaysBeforeMonth(y, 2) == 31;
    assert DaysBeforeMonth(y, 3) == 31 + MonthDays(y, 2);
    assert DaysBeforeMonth(y, 4) == DaysBeforeMonth(y, 3) + 31;
    assert DaysBeforeMonth(y, 5) == DaysBeforeMonth(y, 4) + 30;
    assert DaysBeforeMonth(y, 6) == DaysBeforeMonth(y, 5) + 31;
    assert DaysBeforeMonth(y, 7) == DaysBeforeMonth(y, 6) + 30;
    assert DaysBeforeMonth(y, 8) == DaysBeforeMonth(y, 7) + 31;
    assert DaysBeforeMonth(y, 9) == DaysBeforeMonth(y, 8) + 31;
    assert DaysBeforeMonth(y, 10) == DaysBeforeMonth(y, 9) + 30;
    assert DaysBeforeMonth(y, 11) == DaysBeforeMonth(y, 10) + 31;
    assert DaysBeforeMonth(y, 12) == DaysBeforeMonth(y, 11) + 30;
  }

  // ---------------------------------------------------------------- formatting

  /** An instant in nanoseconds since 0000-01-01T00:00:00Z, the resolution of time.Now. */
  type Instant = nat

  const HOUR: nat := 3600 * SECOND

  predicate Formattable(t: int) {
    0 <= t && InCalendar(t / SECOND)
  }

  /** t.UTC().Format(time.RFC3339), which drops the fraction of a second. */
  function Format(t: Instant): Timestamp {
    Render(LAYOUT, ValuesOf(CivilOf(t / SECOND)))
  }

  /** time.Parse(time.RFC3339, s) on the UTC form the server writes. */
  function Parse(s: Timestamp): Option<Instant> {
    match ReadFields(LAYOUT, s)
    case None => None
    case Some(v) =>
      if |v| != 6 then None
      else
        var c := Civil(v[0], v[1], v[2], v[3], v[4], v[5]);
        if ValidCivil(c) then Some(SecondsOf(c) * SECOND) else None
  }

  lemma LayoutFits(c: Civil)
    requires ValidCivil(c)
    ensures Fits(LAYOUT, ValuesOf(c))
  {
    assert Pow10(4) == 10 * Pow10(3) && Pow10(3) == 10 * Pow10(2) && Pow10(2) == 100;
  }

  /** Parsing what was formatted gives the instant back, cut to the second. */
  lemma ParseFormat(t: Instant)
    requires Formattable(t)
    ensures Parse(Format(t)) == Some(t / SECOND * SECOND)
  {
    var c := CivilOf(t / SECOND);
    CivilInverse(t / SECOND);
    LayoutFits(c);
    ReadRendered(LAYOUT, ValuesOf(c));
  }

  /** Stored timestamps compare as text exactly as their instants compare in whole seconds. */
  lemma FormatOrder(a: Instant, b: Instant)
    requires Formattable(a) && Formattable(b)
    ensures TextLess(Format(a), Format(b)) <==> a / SECOND < b / SECOND
    ensures Format(a) == Format(b) <==> a / SECOND == b / SECOND
  {
    var c, d := CivilOf(a / SECOND), CivilOf(b / SECOND);
    CivilInverse(a / SECOND);
    CivilInverse(b / SECOND);
    LayoutFits(c);
    LayoutFits(d);
    RenderOrder(LAYOUT, ValuesOf(c), ValuesOf(d));
    LexTotal(ValuesOf(c), ValuesOf(d));
    if LexLess(ValuesOf(c), ValuesOf(d)) {
      FieldsOrderInstants(c, d);
    } else if LexLess(ValuesOf(d), ValuesOf(c)) {
      FieldsOrderInstants(d, c);
    } else {
      assert c.year == ValuesOf(c)[0] && c.month == ValuesOf(c)[1] && c.day == ValuesOf(c)[2]
          && c.hour == ValuesOf(c)[3] && c.minute == ValuesOf(c)[4] && c.second == ValuesOf(c)[5];
    }
    ParseFormat(a);
    ParseFormat(b);
  }

  /** Nothing else is parsed: a text is read as an instant iff it is what that instant, in whole seconds, is stored
      as. */
  lemma ParseIsExact(s: Timestamp, t: Instant)
    ensures Parse(s) == Some(t) <==> Formattable(t) && t % SECOND == 0 && s == Format(t)
  {
    if Formattable(t) && t % SECOND == 0 && s == Format(t) {
      ParseFormat(t);
    }
    if Parse(s) == Some(t) {
      ParsedIsFormatted(s, t);
    }
  }

  lemma ParsedIsFormatted(s: Timestamp, t: Instant)
    requires Parse(s) == Some(t)
    ensures Formattable(t) && t % SECOND == 0 && s == Format(t)
  {
    var v := ReadFields(LAYOUT, s).value;
    var c := Civil(v[0], v[1], v[2], v[3], v[4], v[5]);
    FieldsAreExact(LAYOUT, s, v);
    CivilOfSeconds(c);
    assert ValuesOf(c) == v;
    assert t == SecondsOf(c) * SECOND && t / SECOND == SecondsOf(c);
  }

  // ---------------------------------------------------------------- the text

  function DigitAt(n: nat, power: nat): char
    requires power > 0
  {
    DigitChar(n / power % 10)
  }

  lemma PaddedTwo(n: nat)
    ensures Padded(2, n) == [DigitAt(n, 10), DigitAt(n, 1)]
  {
    assert Padded(1, n / 10) == [DigitChar(n / 10 % 10)] by {
      assert Padded(0, n / 10 / 10) == [];
    }
  }

  lemma PaddedFour(n: nat)
    ensures Padded(4, n) == [DigitAt(n, 1000), DigitAt(n, 100), DigitAt(n, 10), DigitAt(n, 1)]
  {
    PaddedTwo(n / 100);
    assert n / 10 / 10 == n / 100 && n / 100 / 10 == n / 1000;
    assert Padded(3, n / 10) == Padded(2, n / 100) + [DigitChar(n / 10 % 10)];
  }

  /** Two instants with the same calendar fields are in the same second, so the fields of an instant are those it was
      made from. */
  lemma CivilOfSeconds(c: Civil)
    requires ValidCivil(c)
    ensures InCalendar(SecondsOf(c)) && CivilOf(SecondsOf(c)) == c
  {
    DayWithinYear(c);
    SecondWithinDay(c);
    YearsGrow(c.year, 10000);
    var again := CivilOf(SecondsOf(c));
    CivilInverse(SecondsOf(c));
    LexTotal(ValuesOf(c), ValuesOf(again));
    if LexLess(ValuesOf(c), ValuesOf(again)) {
      FieldsOrderInstants(c, again);
    } else if LexLess(ValuesOf(again), ValuesOf(c)) {
      FieldsOrderInstants(again, c);
    }
    var v, w := ValuesOf(c), ValuesOf(again);
    assert v[0] == w[0] && v[1] == w[1] && v[2] == w[2] && v[3] == w[3] && v[4] == w[4] && v[5] == w[5];
  }

  /** Section 5.6 of RFC 3339, for UTC: a timestamp is the four digits of the year, two of the month and of the day,
      a T, two of the hour, the minute and the second, and a Z. */
  lemma TimestampText(c: Civil)
    requires ValidCivil(c)
    ensures Format(SecondsOf(c) * SECOND) ==
            [DigitAt(c.year, 1000), DigitAt(c.year, 100), DigitAt(c.year, 10), DigitAt(c.year, 1), '-',
             DigitAt(c.month, 10), DigitAt(c.month, 1), '-', DigitAt(c.day, 10), DigitAt(c.day, 1), 'T',
             DigitAt(c.hour, 10), DigitAt(c.hour, 1), ':', DigitAt(c.minute, 10), DigitAt(c.minute, 1), ':',
             DigitAt(c.second, 10), DigitAt(c.second, 1), 'Z']
  {
    CivilOfSeconds(c);
    assert SecondsOf(c) * SECOND / SECOND == SecondsOf(c);
    PaddedFour(c.year);
    PaddedTwo(c.month);
    PaddedTwo(c.day);
    PaddedTwo(c.hour);
    PaddedTwo(c.minute);
    PaddedTwo(c.second);
    RenderedFields(ValuesOf(c));
    Joined(Padded(4, c.year), Padded(2, c.month), Padded(2, c.day), Padded(2, c.hour), Padded(2, c.minute),
           Padded(2, c.second));
  }

  lemma Joined(y: string, mo: string, d: string, h: string, mi: string, s: string)
    requires |y| == 4 && |mo| == |d| == |h| == |mi| == |s| == 2
    ensures y + "-" + mo + "-" + d + "T" + h + ":" + mi + ":" + s + "Z" ==
            [y[0], y[1], y[2], y[3], '-', mo[0], mo[1], '-', d[0], d[1], 'T',
             h[0], h[1], ':', mi[0], mi[1], ':', s[0], s[1], 'Z']
  {}

  lemma RenderedFields(v: seq<nat>)
    requires |v| == 6
    ensures Render(LAYOUT, v) == Padded(4, v[0]) + "-" + Padded(2, v[1]) + "-" + Padded(2, v[2]) + "T"
                                 + Padded(2, v[3]) + ":" + Padded(2, v[4]) + ":" + Padded(2, v[5]) + "Z"
  {
    var v1, v2, v3 := v[1..], v[2..], v[3..];
    RenderOne(LAYOUT, v);
    RenderOne(LAYOUT[1..], v1);
    RenderOne(LAYOUT[2..], v2);
    assert LAYOUT[1..][1..] == LAYOUT[2..] && LAYOUT[2..][1..] == LAYOUT[3..] && v1[1..] == v2 && v2[1..] == v3;
    RenderedClock(v3);
  }

  lemma RenderedClock(v: seq<nat>)
    requires |v| == 3
    ensures Render(LAYOUT[3..], v) == Padded(2, v[0]) + ":" + Padded(2, v[1]) + ":" + Padded(2, v[2]) + "Z"
  {
    var v1, v2 := v[1..], v[2..];
    RenderOne(LAYOUT[3..], v);
    RenderOne(LAYOUT[4..], v1);
    RenderOne(LAYOUT[5..], v2);
    assert LAYOUT[3..][1..] == LAYOUT[4..] && LAYOUT[4..][1..] == LAYOUT[5..] && v1[1..] == v2;
    assert LAYOUT[5..][1..] == [] && v2[1..] == [] && Render([], []) == [];
  }

  lemma RenderOne(layout: seq<Field>, values: seq<nat>)
    requires |layout| == |values| > 0
    ensures Render(layout, values) ==
            Padded(layout[0].width, values[0]) + [layout[0].separator] + Render(layout[1..], values[1..])
  {}

  /** Days from the first of January of the year 0 by the Gregorian rules. */
  function GregorianDay(year: nat, month: nat, day: nat): int
    requires 1 <= month <= 12
  {
    365 * year + (if year == 0 then 0 else (year - 1) / 4 - (year - 1) / 100 + (year - 1) / 400 + 1)
    + MONTH_STARTS[month - 1] + (if month > 2 && year % 4 == 0 && (year % 100 != 0 || year % 400 == 0) then 1 else 0)
    + day - 1
  }

  /** The instant that calendar fields stand for, in closed form. */
  lemma SecondsOfFields(c: Civil)
    requires ValidCivil(c)
    ensures SecondsOf(c) ==
            GregorianDay(c.year, c.month, c.day) * 86_400 + c.hour * 3600 + c.minute * 60 + c.second
  {
    GregorianYears(c.year);
    MonthStarts(c.year, c.month);
  }
}
