/** Calendar dates of the proleptic Gregorian calendar, as `java.time.LocalDate`
    and the date part of a JavaScript `Date` both use them: month lengths,
    a running day count (the order in which `Date` values compare), the
    day of the week, and the ISO `YYYY-MM-DD` text form. */
module Dates {
  import opened Common
  import opened Decimal

  /** A calendar date; `month` is 1-based (January is 1). */
  datatype Date = Date(year: int, month: int, day: int)

  predicate IsLeapYear(y: int) {
    y % 4 == 0 && (y % 100 != 0 || y % 400 == 0)
  }

  function DaysInYear(y: int): int {
    if IsLeapYear(y) then 366 else 365
  }

  /** The number of days of month `m` (1..12) of year `y`. */
  function DaysInMonth(y: int, m: int): (n: int)
    requires 1 <= m <= 12
    ensures 28 <= n <= 31
  {
    if m == 2 then (if IsLeapYear(y) then 29 else 28)
    else if m == 4 || m == 6 || m == 9 || m == 11 then 30
    else 31
  }

  predicate IsValidDate(d: Date) {
    1 <= d.month <= 12 && 1 <= d.day <= DaysInMonth(d.year, d.month)
  }

  /** Days from 0001-01-01 to January 1st of year `y` (negative before it). */
  function DaysBeforeYear(y: int): int {
    365 * (y - 1) + (y - 1) / 4 - (y - 1) / 100 + (y - 1) / 400
  }

  /** Days from January 1st of year `y` to the first of month `m` (1..13). */
  function DaysBeforeMonth(y: int, m: int): (n: nat)
    requires 1 <= m <= 13
  {
    if m == 1 then 0 else DaysBeforeMonth(y, m - 1) + DaysInMonth(y, m - 1)
  }

  /** A running count of days, 0 on 0001-01-01; a JavaScript `Date` at
      local midnight of `d` compares with others as this count does. */
  function DayNumber(d: Date): int
    requires IsValidDate(d)
  {
    DaysBeforeYear(d.year) + DaysBeforeMonth(d.year, d.month) + d.day - 1
  }

  /** `Date.prototype.getDay()`: 0 is Sunday, 6 is Saturday.
      0001-01-01 of the proleptic Gregorian calendar was a Monday. */
  function DayOfWeek(d: Date): (w: nat)
    requires IsValidDate(d)
    ensures w < 7
  {
    (DayNumber(d) + 1) % 7
  }

  /** The twelve months make up the year. */
  lemma MonthsMakeYear(y: int)
    ensures DaysBeforeMonth(y, 13) == DaysInYear(y)
  {
    assert DaysBeforeMonth(y, 2) == 31;
    assert DaysBeforeMonth(y, 3) == 31 + DaysInMonth(y, 2);
    assert DaysBeforeMonth(y, 4) == DaysBeforeMonth(y, 3) + 31;
    assert DaysBeforeMonth(y, 5) == DaysBeforeMonth(y, 4) + 30;
    assert DaysBeforeMonth(y, 6) == DaysBeforeMonth(y, 5) + 31;
    assert DaysBeforeMonth(y, 7) == DaysBeforeMonth(y, 6) + 30;
    assert DaysBeforeMonth(y, 8) == DaysBeforeMonth(y, 7) + 31;
    assert DaysBeforeMonth(y, 9) == DaysBeforeMonth(y, 8) + 31;
    assert DaysBeforeMonth(y, 10) == DaysBeforeMonth(y, 9) + 30;
    assert DaysBeforeMonth(y, 11) == DaysBeforeMonth(y, 10) + 31;
    assert DaysBeforeMonth(y, 12) == DaysBeforeMonth(y, 11) + 30;
  }

  /** Consecutive new years are a year's length apart: the leap-year rule
      and the day count agree. */
  lemma YearStart(y: int)
    ensures DaysBeforeYear(y + 1) == DaysBeforeYear(y) + DaysInYear(y)
  {
    var q4, q100, q400 := (y - 1) / 4, (y - 1) / 100, (y - 1) / 400;
    assert y / 4 == q4 + (if y % 4 == 0 then 1 else 0);
    assert y / 100 == q100 + (if y % 100 == 0 then 1 else 0);
    assert y / 400 == q400 + (if y % 400 == 0 then 1 else 0);
  }

  /** The first of the next month comes `DaysInMonth` days after the first
      of this one, across a year boundary too. */
  lemma NextMonthStart(y: int, m: int)
    requires 1 <= m <= 12
    ensures m < 12 ==> DayNumber(Date(y, m + 1, 1)) == DayNumber(Date(y, m, 1)) + DaysInMonth(y, m)
    ensures m == 12 ==> DayNumber(Date(y + 1, 1, 1)) == DayNumber(Date(y, m, 1)) + DaysInMonth(y, m)
  {
    if m == 12 {
      MonthsMakeYear(y);
      YearStart(y);
    }
  }

  /** The weekday of the first of the next month follows from this month's
      first weekday and its length (how consecutive calendar grids line up). */
  lemma NextMonthFirstWeekday(y: int, m: int)
    requires 1 <= m <= 12
    ensures m < 12 ==> DayOfWeek(Date(y, m + 1, 1)) == (DayOfWeek(Date(y, m, 1)) + DaysInMonth(y, m)) % 7
    ensures m == 12 ==> DayOfWeek(Date(y + 1, 1, 1)) == (DayOfWeek(Date(y, m, 1)) + DaysInMonth(y, m)) % 7
  {
    NextMonthStart(y, m);
    var n := DayNumber(Date(y, m, 1));
    var k := DaysInMonth(y, m);
    WeekdayShift(n + 1, k);
  }

  lemma WeekdayShift(a: int, k: int)
    ensures (a + k) % 7 == (a % 7 + k) % 7
  {
  }

  /** Two familiar anchors: 1970-01-01 was a Thursday, 2024-03-18 a Monday. */
  lemma KnownWeekdays()
    ensures DayOfWeek(Date(1970, 1, 1)) == 4
    ensures DayOfWeek(Date(2024, 3, 18)) == 1
  {
    assert DaysBeforeMonth(2024, 3) == 60;
  }

  /** The day count only grows from one year's start to a later one's. */
  lemma {:induction false} DaysBeforeYearGrows(a: int, b: int)
    requires a < b
    ensures DaysBeforeYear(a) + DaysInYear(a) <= DaysBeforeYear(b)
    decreases b - a
  {
    YearStart(a);
    if a + 1 < b {
      DaysBeforeYearGrows(a + 1, b);
    }
  }

  /** Within a year, a later month starts no earlier than the end of an
      earlier one. */
  lemma {:induction false} DaysBeforeMonthGrows(y: int, a: int, b: int)
    requires 1 <= a < b <= 13
    ensures DaysBeforeMonth(y, a) + DaysInMonth(y, a) <= DaysBeforeMonth(y, b)
    decreases b - a
  {
    if a + 1 < b {
      DaysBeforeMonthGrows(y, a + 1, b);
    }
  }

  /** Calendar order: year first, then month, then day. */
  predicate Before(a: Date, b: Date) {
    a.year < b.year ||
    (a.year == b.year && (a.month < b.month || (a.month == b.month && a.day < b.day)))
  }

  /** The day count orders valid dates exactly as the calendar does, so
      comparing `Date` values at midnight is comparing dates. */
  lemma DayNumberOrder(a: Date, b: Date)
    requires IsValidDate(a) && IsValidDate(b)
    ensures Before(a, b) <==> DayNumber(a) < DayNumber(b)
    ensures a == b <==> DayNumber(a) == DayNumber(b)
  {
    MonthsMakeYear(a.year);
    MonthsMakeYear(b.year);
    if a.month < 13 { DaysBeforeMonthGrows(a.year, a.month, 13); }
    if b.month < 13 { DaysBeforeMonthGrows(b.year, b.month, 13); }
    if a.year < b.year {
      DaysBeforeYearGrows(a.year, b.year);
    } else if b.year < a.year {
      DaysBeforeYearGrows(b.year, a.year);
    } else if a.month < b.month {
      DaysBeforeMonthGrows(a.year, a.month, b.month);
    } else if b.month < a.month {
      DaysBeforeMonthGrows(a.year, b.month, a.month);
    }
  }

  /** `LocalDate.toString()` for years 0..9999: `yyyy-MM-dd`. */
  function FormatIsoDate(d: Date): (s: string)
    requires 0 <= d.year < 10000 && IsValidDate(d)
    ensures |s| == 10 && s[4] == '-' && s[7] == '-'
  {
    Digits(d.year, 4) + "-" + Digits(d.month, 2) + "-" + Digits(d.day, 2)
  }

  /** `LocalDate.parse(s)` with the strict ISO local-date format on
      unsigned four-digit years; `None` stands for the parse exception,
      thrown for bad syntax and for dates that do not exist. */
  function ParseIsoDate(s: string): (r: Option<Date>)
    ensures r.Some? ==> IsValidDate(r.value) && 0 <= r.value.year < 10000
  {
    if |s| == 10 && s[4] == '-' && s[7] == '-' &&
       AllDigits(s[0..4]) && AllDigits(s[5..7]) && AllDigits(s[8..10])
    then
      var d := Date(DecimalValue(s[0..4]), DecimalValue(s[5..7]), DecimalValue(s[8..10]));
      if IsValidDate(d) then Some(d) else None
    else None
  }

  /** Parsing the text of a date gives the date back. */
  lemma FormatThenParse(d: Date)
    requires 0 <= d.year < 10000 && IsValidDate(d)
    ensures ParseIsoDate(FormatIsoDate(d)) == Some(d)
  {
    var s := FormatIsoDate(d);
    assert s[0..4] == Digits(d.year, 4);
    assert s[5..7] == Digits(d.month, 2);
    assert s[8..10] == Digits(d.day, 2);
    DigitsValue(d.year, 4);
    DigitsValue(d.month, 2);
    DigitsValue(d.day, 2);
  }

  /** Only the canonical text is accepted: what parses is exactly the text
      of the parsed date. */
  lemma ParseThenFormat(s: string)
    requires ParseIsoDate(s).Some?
    ensures FormatIsoDate(ParseIsoDate(s).value) == s
  {
    ValueDigits(s[0..4]);
    ValueDigits(s[5..7]);
    ValueDigits(s[8..10]);
    assert s == s[0..4] + "-" + s[5..7] + "-" + s[8..10];
  }
}
