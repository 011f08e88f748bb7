/**
 The slice of `java.time.LocalDate` the services use: proleptic Gregorian dates,
 their day number counted from 1970-01-01, the weekday, the next day, walks over
 a range of days, and the ISO `yyyy-MM-dd` text form.
 */
module Calendar {
  import opened Outcomes
  import opened Text

  datatype YearMonthDay = YMD(year: int, month: int, day: int)

  /** The Gregorian leap rule (`Year.isLeap`). */
  predicate IsLeapYear(y: int) {
    y % 4 == 0 && (y % 100 != 0 || y % 400 == 0)
  }

  predicate ValidMonth(m: int) {
    1 <= m <= 12
  }

  /** `YearMonth.lengthOfMonth`. */
  function DaysInMonth(y: int, m: int): (n: int)
    requires ValidMonth(m)
    ensures 28 <= n <= 31
  {
    if m == 2 then (if IsLeapYear(y) then 29 else 28)
    else if m == 4 || m == 6 || m == 9 || m == 11 then 30
    else 31
  }

  predicate ValidDate(d: YearMonthDay) {
    ValidMonth(d.month) && 1 <= d.day <= DaysInMonth(d.year, d.month)
  }

  /** A calendar day that `LocalDate` can represent (the year range is unbounded here). */
  type Date = d: YearMonthDay | ValidDate(d) witness YMD(1970, 1, 1)

  function DaysInYear(y: int): int {
    if IsLeapYear(y) then 366 else 365
  }

  /** Days of year `y` that precede the first of month `m`. */
  function DaysBeforeMonth(y: int, m: int): int
    requires ValidMonth(m)
  {
    var common :=
      if m == 1 then 0 else if m == 2 then 31 else if m == 3 then 59
      else if m == 4 then 90 else if m == 5 then 120 else if m == 6 then 151
      else if m == 7 then 181 else if m == 8 then 212 else if m == 9 then 243
      else if m == 10 then 273 else if m == 11 then 304 else 334;
    common + (if m > 2 && IsLeapYear(y) then 1 else 0)
  }

  /** The number of leap years in 1..n, extended to all integers with the same step law. */
  function LeapYearsThrough(n: int): int {
    n / 4 - n / 100 + n / 400
  }

  /** The day number of January 1st of year `y`, counted from 1970-01-01. */
  function DaysBeforeYear(y: int): int {
    365 * (y - 1970) + LeapYearsThrough(y - 1) - LeapYearsThrough(1969)
  }

  /** `LocalDate.toEpochDay`: the number of days since 1970-01-01. */
  function EpochDay(d: Date): int {
    DaysBeforeYear(d.year) + DaysBeforeMonth(d.year, d.month) + d.day - 1
  }

  lemma LeapYearStep(y: int)
    ensures LeapYearsThrough(y) - LeapYearsThrough(y - 1) == (if IsLeapYear(y) then 1 else 0)
  {
    QuotientsStep(y);
    DivisorsNest(y);
  }

  /** Each of the three quotients of `LeapYearsThrough` goes up by one exactly at a multiple. */
  lemma QuotientsStep(y: int)
    ensures y / 4 - (y - 1) / 4 == (if y % 4 == 0 then 1 else 0)
    ensures y / 100 - (y - 1) / 100 == (if y % 100 == 0 then 1 else 0)
    ensures y / 400 - (y - 1) / 400 == (if y % 400 == 0 then 1 else 0)
  {
    StepBy4(y - 1);
    StepBy100(y - 1);
    StepBy400(y - 1);
  }

  lemma DivisorsNest(y: int)
    ensures y % 400 == 0 ==> y % 100 == 0
    ensures y % 100 == 0 ==> y % 4 == 0
  {
    var p400, q100, r100 := y / 400, y / 100, y % 100;
    assert y == 100 * q100 + r100;
    if y % 400 == 0 {
      assert y == 400 * p400;
      assert r100 == 100 * (4 * p400 - q100);
    }
    var q4, r4 := y / 4, y % 4;
    assert y == 4 * q4 + r4;
    if r100 == 0 {
      assert r4 == 4 * (25 * q100 - q4);
    }
  }

  // Stepping the dividend by one moves the quotient up exactly when the remainder wraps to zero.
  lemma StepBy4(x: int)
    ensures (x + 1) / 4 == (if x % 4 == 3 then x / 4 + 1 else x / 4)
    ensures (x + 1) % 4 == (if x % 4 == 3 then 0 else x % 4 + 1)
  {
    var q, r := x / 4, x % 4;
    assert x == 4 * q + r;
    if r == 3 {
      assert x + 1 == 4 * (q + 1);
    } else {
      assert x + 1 == 4 * q + (r + 1);
    }
  }

  lemma StepBy100(x: int)
    ensures (x + 1) / 100 == (if x % 100 == 99 then x / 100 + 1 else x / 100)
    ensures (x + 1) % 100 == (if x % 100 == 99 then 0 else x % 100 + 1)
  {
    var q, r := x / 100, x % 100;
    assert x == 100 * q + r;
    if r == 99 {
      assert x + 1 == 100 * (q + 1);
    } else {
      assert x + 1 == 100 * q + (r + 1);
    }
  }

  lemma StepBy400(x: int)
    ensures (x + 1) / 400 == (if x % 400 == 399 then x / 400 + 1 else x / 400)
    ensures (x + 1) % 400 == (if x % 400 == 399 then 0 else x % 400 + 1)
  {
    var q, r := x / 400, x % 400;
    assert x == 400 * q + r;
    if r == 399 {
      assert x + 1 == 400 * (q + 1);
    } else {
      assert x + 1 == 400 * q + (r + 1);
    }
  }

  /** Consecutive years are one year-length apart. */
  lemma DaysBeforeNextYear(y: int)
    ensures DaysBeforeYear(y + 1) == DaysBeforeYear(y) + DaysInYear(y)
  {
    LeapYearStep(y);
  }

  lemma {:induction false} DaysBeforeYearGrows(x: int, y: int)
    requires x <= y
    ensures DaysBeforeYear(x) + 365 * (y - x) <= DaysBeforeYear(y)
    decreases y - x
  {
    if x < y {
      DaysBeforeYearGrows(x, y - 1);
      DaysBeforeNextYear(y - 1);
    }
  }

  /** The month table adds up: month `m` ends where month `m + 1` (or the year) begins. */
  lemma MonthEnds(y: int, m: int)
    requires ValidMonth(m)
    ensures m < 12 ==> DaysBeforeMonth(y, m) + DaysInMonth(y, m) == DaysBeforeMonth(y, m + 1)
    ensures m == 12 ==> DaysBeforeMonth(y, m) + DaysInMonth(y, m) == DaysInYear(y)
  {
  }

  lemma {:induction false} MonthsAreOrdered(y: int, m: int, n: int)
    requires ValidMonth(m) && ValidMonth(n) && m < n
    ensures DaysBeforeMonth(y, m) + DaysInMonth(y, m) <= DaysBeforeMonth(y, n)
    decreases n - m
  {
    MonthEnds(y, m);
    if m + 1 < n {
      MonthsAreOrdered(y, m + 1, n);
    }
  }

  /** `LocalDate.plusDays(1)`. */
  function NextDay(d: Date): (r: Date)
    ensures EpochDay(r) == EpochDay(d) + 1
  {
    MonthEnds(d.year, d.month);
    if d.day < DaysInMonth(d.year, d.month) then YMD(d.year, d.month, d.day + 1)
    else if d.month < 12 then YMD(d.year, d.month + 1, 1)
    else (DaysBeforeNextYear(d.year); YMD(d.year + 1, 1, 1))
  }

  /** Java's `compareTo` order on dates: by year, then month, then day. */
  predicate ChronologicallyBefore(a: Date, b: Date) {
    a.year < b.year
    || (a.year == b.year && a.month < b.month)
    || (a.year == b.year && a.month == b.month && a.day < b.day)
  }

  /** `LocalDate.isBefore`, decided on day numbers. */
  predicate Before(a: Date, b: Date) {
    EpochDay(a) < EpochDay(b)
  }

  lemma EpochDayIncreases(a: Date, b: Date)
    requires ChronologicallyBefore(a, b)
    ensures EpochDay(a) < EpochDay(b)
  {
    MonthEnds(a.year, 12);
    if a.year < b.year {
      if a.month < 12 {
        MonthsAreOrdered(a.year, a.month, 12);
      }
      DaysBeforeNextYear(a.year);
      DaysBeforeYearGrows(a.year + 1, b.year);
    } else if a.month < b.month {
      MonthsAreOrdered(a.year, a.month, b.month);
    }
  }

  /** Comparing day numbers is comparing dates the way `LocalDate.isBefore` does. */
  lemma BeforeIsChronological(a: Date, b: Date)
    ensures Before(a, b) <==> ChronologicallyBefore(a, b)
  {
    if ChronologicallyBefore(a, b) {
      EpochDayIncreases(a, b);
    } else if a != b {
      assert ChronologicallyBefore(b, a);
      EpochDayIncreases(b, a);
    }
  }

  /** Distinct dates have distinct day numbers. */
  lemma EpochDayInjective(a: Date, b: Date)
    requires EpochDay(a) == EpochDay(b)
    ensures a == b
  {
    BeforeIsChronological(a, b);
    BeforeIsChronological(b, a);
  }

  const WeekdayNames: seq<string> :=
    ["MONDAY", "TUESDAY", "WEDNESDAY", "THURSDAY", "FRIDAY", "SATURDAY", "SUNDAY"]

  /** `getDayOfWeek().ordinal()`: 0 for Monday; 1970-01-01 was a Thursday. */
  function DayOfWeek(d: Date): (w: nat)
    ensures w < 7
  {
    (EpochDay(d) + 3) % 7
  }

  /** `getDayOfWeek().name()` (equally `toString()`): the upper-case English weekday name. */
  function DayName(d: Date): string {
    WeekdayNames[DayOfWeek(d)]
  }

  /** The day after a date falls on the next weekday, Sunday wrapping round to Monday. */
  lemma {:induction false} WeekdayAdvances(d: Date)
    ensures DayOfWeek(NextDay(d)) == (DayOfWeek(d) + 1) % 7
    ensures DayName(NextDay(d)) == WeekdayNames[(DayOfWeek(d) + 1) % 7]
  {
    SevenStep(EpochDay(d) + 3);
  }

  lemma SevenStep(x: int)
    ensures (x + 1) % 7 == (x % 7 + 1) % 7
  {
    var q, r := x / 7, x % 7;
    assert x == 7 * q + r;
    if r == 6 {
      assert x + 1 == 7 * (q + 1);
    } else {
      assert x + 1 == 7 * q + (r + 1);
    }
  }

  /** Fixed points of the Gregorian week: the epoch was a Thursday, 2000-01-01 a Saturday. */
  lemma KnownWeekdays()
    ensures DayName(YMD(1970, 1, 1)) == "THURSDAY"
    ensures DayName(YMD(2000, 1, 1)) == "SATURDAY"
    ensures DayName(YMD(2025, 4, 13)) == "SUNDAY"
    ensures DayName(YMD(1969, 12, 31)) == "WEDNESDAY"
  {
  }

  /** Weekday names are already upper case, so upper-casing leaves them alone. */
  lemma DayNameIsUpper(d: Date)
    ensures Upper(DayName(d)) == DayName(d)
  {
  }

  /** The days `from`, `from + 1`, ... strictly before `until` (the loop `while (d.isBefore(until))`). */
  function DatesBefore(from: Date, until: Date): (r: seq<Date>)
    ensures |r| == if Before(from, until) then EpochDay(until) - EpochDay(from) else 0
    ensures forall i :: 0 <= i < |r| ==> EpochDay(r[i]) == EpochDay(from) + i
    decreases EpochDay(until) - EpochDay(from)
  {
    if Before(from, until) then [from] + DatesBefore(NextDay(from), until) else []
  }

  /** The days from `from` through `last`, both included (the loop `while (!d.isAfter(last))`). */
  function DatesThrough(from: Date, last: Date): seq<Date> {
    DatesBefore(from, NextDay(last))
  }

  /** A walk visits exactly the dates whose day numbers lie in its half-open range. */
  lemma DatesBeforeMembers(from: Date, until: Date, d: Date)
    ensures d in DatesBefore(from, until) <==> EpochDay(from) <= EpochDay(d) < EpochDay(until)
  {
    var r := DatesBefore(from, until);
    if EpochDay(from) <= EpochDay(d) < EpochDay(until) {
      var i := EpochDay(d) - EpochDay(from);
      EpochDayInjective(r[i], d);
    }
  }

  lemma DatesBeforeAllMembers(from: Date, until: Date)
    ensures forall d :: d in DatesBefore(from, until) <==> EpochDay(from) <= EpochDay(d) < EpochDay(until)
  {
    forall d: Date
      ensures d in DatesBefore(from, until) <==> EpochDay(from) <= EpochDay(d) < EpochDay(until)
    {
      DatesBeforeMembers(from, until, d);
    }
  }

  /** Each step of a walk is one `plusDays(1)` after the previous one. */
  lemma DatesBeforeConsecutive(from: Date, until: Date)
    ensures forall i :: 0 < i < |DatesBefore(from, until)| ==>
      DatesBefore(from, until)[i] == NextDay(DatesBefore(from, until)[i - 1])
  {
    var r := DatesBefore(from, until);
    forall i | 0 < i < |r|
      ensures r[i] == NextDay(r[i - 1])
    {
      EpochDayInjective(r[i], NextDay(r[i - 1]));
    }
  }

  function FirstOfMonth(y: int, m: int): Date
    requires ValidMonth(m)
  {
    YMD(y, m, 1)
  }

  function LastOfMonth(y: int, m: int): Date
    requires ValidMonth(m)
  {
    YMD(y, m, DaysInMonth(y, m))
  }

  /** A date lies in month (`y`, `m`) exactly when its day number lies between that month's first and last. */
  lemma InMonthIffBetween(d: Date, y: int, m: int)
    requires ValidMonth(m)
    ensures d.year == y && d.month == m <==>
      EpochDay(FirstOfMonth(y, m)) <= EpochDay(d) <= EpochDay(LastOfMonth(y, m))
  {
    BeforeIsChronological(d, FirstOfMonth(y, m));
    BeforeIsChronological(LastOfMonth(y, m), d);
  }

  /** `YearMonth.atDay(1)` .. `atDay(lengthOfMonth())` in order. */
  function MonthDates(y: int, m: int): (r: seq<Date>)
    requires ValidMonth(m)
    ensures |r| == DaysInMonth(y, m)
    ensures forall i :: 0 <= i < |r| ==> r[i] == YMD(y, m, i + 1)
  {
    DaysFrom(y, m, 1)
  }

  function DaysFrom(y: int, m: int, k: int): (r: seq<Date>)
    requires ValidMonth(m) && 1 <= k <= DaysInMonth(y, m) + 1
    ensures |r| == DaysInMonth(y, m) + 1 - k
    ensures forall i :: 0 <= i < |r| ==> r[i] == YMD(y, m, k + i)
    decreases DaysInMonth(y, m) + 1 - k
  {
    if k > DaysInMonth(y, m) then []
    else
      var d: Date := YMD(y, m, k);
      [d] + DaysFrom(y, m, k + 1)
  }

  /** Walking from the first to the last of a month visits days 1 .. lengthOfMonth in order. */
  lemma WalkOfMonthIsMonthDates(y: int, m: int)
    requires ValidMonth(m)
    ensures DatesThrough(FirstOfMonth(y, m), LastOfMonth(y, m)) == MonthDates(y, m)
  {
    var walk := DatesThrough(FirstOfMonth(y, m), LastOfMonth(y, m));
    var days := MonthDates(y, m);
    assert |walk| == |days|;
    forall i | 0 <= i < |walk|
      ensures walk[i] == days[i]
    {
      EpochDayInjective(walk[i], days[i]);
    }
  }

  /** `LocalDate.parse` with the ISO `yyyy-MM-dd` form (four-digit unsigned years only). */
  function ParseIsoDate(s: string): (r: Option<Date>)
  {
    if |s| == 10 && s[4] == '-' && s[7] == '-'
       && AllDigits(s[..4]) && AllDigits(s[5..7]) && AllDigits(s[8..])
    then
      var d := YMD(DecimalValue(s[..4]), DecimalValue(s[5..7]), DecimalValue(s[8..]));
      if ValidDate(d) then Some(d) else None
    else None
  }

  /** `LocalDate.toString` for years 0 .. 9999. */
  function FormatIsoDate(d: Date): (s: string)
    requires 0 <= d.year <= 9999
    ensures |s| == 10
  {
    ZeroPadded(d.year, 4) + "-" + ZeroPadded(d.month, 2) + "-" + ZeroPadded(d.day, 2)
  }

  /** Parsing a formatted date gives the date back. */
  lemma ParseFormatRoundTrip(d: Date)
    requires 0 <= d.year <= 9999
    ensures ParseIsoDate(FormatIsoDate(d)) == Some(d)
  {
    var s := FormatIsoDate(d);
    assert s[..4] == ZeroPadded(d.year, 4);
    assert s[5..7] == ZeroPadded(d.month, 2);
    assert s[8..] == ZeroPadded(d.day, 2);
    DecimalValueOfZeroPadded(d.year, 4);
    DecimalValueOfZeroPadded(d.month, 2);
    DecimalValueOfZeroPadded(d.day, 2);
  }

  /** The text form is canonical: whatever parses is exactly the formatting of its date. */
  lemma FormatParseRoundTrip(s: string)
    requires ParseIsoDate(s).Some?
    ensures 0 <= ParseIsoDate(s).value.year <= 9999
    ensures FormatIsoDate(ParseIsoDate(s).value) == s
  {
    DecimalValueBound(s[..4]);
    ZeroPaddedOfDecimalValue(s[..4]);
    ZeroPaddedOfDecimalValue(s[5..7]);
    ZeroPaddedOfDecimalValue(s[8..]);
    assert s == s[..4] + "-" + s[5..7] + "-" + s[8..];
  }
}
