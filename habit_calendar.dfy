/** The month grid of the habit calendar: month length and first weekday,
    the list of cells (blanks, then the days of the month), the `YYYY-MM-DD`
    key of a day, month navigation, and the two per-cell rules (is the day
    achieved, is its status shown). A JavaScript `Date` at local midnight
    is a `Dates.Date`; the current time is a date plus the milliseconds
    since its midnight. Months are 0-based here, as `getMonth()` returns
    them. */
module HabitCalendar {
  import opened Common
  import opened Decimal
  import opened Dates

  /** A month as `new Date(year, month)` holds it: `month0` is 0..11. */
  datatype Month = Month(year: int, month0: int)

  predicate IsMonth(m: Month) { 0 <= m.month0 < 12 }

  /** The month `new Date(year, month0)` lands in for any `month0`: months
      outside 0..11 carry into the year. */
  function MonthOf(year: int, month0: int): (m: Month)
    ensures IsMonth(m)
    ensures 12 * m.year + m.month0 == 12 * year + month0
  {
    Month(year + month0 / 12, month0 % 12)
  }

  /** The month shown before `m`: `new Date(y, getMonth() - 1)`. */
  function PrevMonth(m: Month): (p: Month)
    ensures IsMonth(p) && 12 * p.year + p.month0 == 12 * m.year + m.month0 - 1
  {
    MonthOf(m.year, m.month0 - 1)
  }

  /** The month shown after `m`: `new Date(y, getMonth() + 1)`. */
  function NextMonth(m: Month): (n: Month)
    ensures IsMonth(n) && 12 * n.year + n.month0 == 12 * m.year + m.month0 + 1
  {
    MonthOf(m.year, m.month0 + 1)
  }

  /** January steps back to December of the year before, December forward
      to January of the year after; other months stay in their year. */
  lemma NavigationWraps(year: int, month0: int)
    requires 0 <= month0 < 12
    ensures PrevMonth(Month(year, month0)) ==
              if month0 == 0 then Month(year - 1, 11) else Month(year, month0 - 1)
    ensures NextMonth(Month(year, month0)) ==
              if month0 == 11 then Month(year + 1, 0) else Month(year, month0 + 1)
  {
  }

  /** The two buttons undo each other. */
  lemma NavigationInverse(m: Month)
    requires IsMonth(m)
    ensures NextMonth(PrevMonth(m)) == m
    ensures PrevMonth(NextMonth(m)) == m
  {
    NavigationWraps(m.year, m.month0);
    var p := PrevMonth(m);
    NavigationWraps(p.year, p.month0);
    var n := NextMonth(m);
    NavigationWraps(n.year, n.month0);
  }

  /** The `Date` of day `day` of a month. */
  function DayOf(m: Month, day: int): Date {
    Date(m.year, m.month0 + 1, day)
  }

  /** `getDaysInMonth`: `new Date(year, month0 + 1, 0)` is the day before
      the first of the next month, and its `getDate()` is the last day of
      this month. */
  function GetDaysInMonth(m: Month): (n: int)
    requires IsMonth(m)
    ensures 28 <= n <= 31
    ensures IsValidDate(DayOf(m, n)) && !IsValidDate(DayOf(m, n + 1))
    ensures var next := NextMonth(m);
            DayNumber(DayOf(m, n)) + 1 == DayNumber(DayOf(next, 1))
  {
    NextMonthStart(m.year, m.month0 + 1);
    DaysInMonth(m.year, m.month0 + 1)
  }

  /** `getFirstDayOfMonth`: the weekday of the first, 0 for Sunday. */
  function GetFirstDayOfMonth(m: Month): (w: nat)
    requires IsMonth(m)
    ensures w < 7
  {
    DayOfWeek(DayOf(m, 1))
  }

  /** Day `i` of a month falls `i - 1` weekdays after the first. */
  lemma WeekdayOfDay(m: Month, i: int)
    requires IsMonth(m) && IsValidDate(DayOf(m, i))
    ensures DayOfWeek(DayOf(m, i)) == (GetFirstDayOfMonth(m) + i - 1) % 7
  {
    var n := DayNumber(DayOf(m, 1)) + 1;
    assert DayNumber(DayOf(m, i)) + 1 == n + (i - 1);
    WeekdayShift(n, i - 1);
  }

  /** `generateCalendarDays`: one blank cell per weekday before the first,
      then every day of the month in order. Each day lands in the column of
      its weekday, so the grid lines up under the Sunday-first header. */
  method GenerateCalendarDays(m: Month) returns (days: seq<Option<Date>>)
    requires IsMonth(m)
    ensures |days| == GetFirstDayOfMonth(m) + GetDaysInMonth(m)
    ensures forall k :: 0 <= k < GetFirstDayOfMonth(m) ==> days[k] == None
    ensures forall i :: 1 <= i <= GetDaysInMonth(m) ==> days[GetFirstDayOfMonth(m) + i - 1] == Some(DayOf(m, i))
    ensures forall k :: 0 <= k < |days| && days[k].Some? ==>
              IsValidDate(days[k].value) && DayOfWeek(days[k].value) == k % 7
  {
    var daysInMonth := GetDaysInMonth(m);
    var firstDay := GetFirstDayOfMonth(m);
    days := [];
    var i := 0;
    while i < firstDay
      invariant 0 <= i <= firstDay
      invariant |days| == i
      invariant forall k :: 0 <= k < i ==> days[k] == None
    {
      days := days + [None];
      i := i + 1;
    }
    i := 1;
    while i <= daysInMonth
      invariant 1 <= i <= daysInMonth + 1
      invariant |days| == firstDay + i - 1
      invariant forall k :: 0 <= k < firstDay ==> days[k] == None
      invariant forall j :: 1 <= j < i ==> days[firstDay + j - 1] == Some(DayOf(m, j))
      invariant forall k :: 0 <= k < |days| && days[k].Some? ==>
                  IsValidDate(days[k].value) && DayOfWeek(days[k].value) == k % 7
    {
      WeekdayOfDay(m, i);
      days := days + [Some(DayOf(m, i))];
      i := i + 1;
    }
  }

  /** The last six characters of the `getDateString` text are the padded
      month and day. */
  lemma DateTextFields(year: string, m: string, d: string)
    requires |m| == 2 && |d| == 2
    ensures var s := year + "-" + m + "-" + d;
            |s| == |year| + 6 && s[|s| - 6..] == "-" + m + "-" + d
  {
    var s := year + "-" + m + "-" + d;
    var t := "-" + m + "-" + d;
    forall k | 0 <= k < 6 ensures s[|year| + k] == t[k] {
    }
  }

  /** The shape of the `getDateString` text. */
  lemma DateTextShape(d: Date)
    requires IsValidDate(d)
    ensures var s := IntToDecimal(d.year) + "-" + PadStart(NatToDecimal(d.month), 2, '0') + "-" + PadStart(NatToDecimal(d.day), 2, '0');
            |s| >= 7 && s[|s| - 6..] == "-" + Digits(d.month, 2) + "-" + Digits(d.day, 2) &&
            (1000 <= d.year <= 9999 ==> s == FormatIsoDate(d))
  {
    PadStartTwoDigits(d.month);
    PadStartTwoDigits(d.day);
    DateTextFields(IntToDecimal(d.year), Digits(d.month, 2), Digits(d.day, 2));
    if 1000 <= d.year <= 9999 {
      ShortestIsFixedWidth(d.year, 4);
    }
  }

  /** `getDateString`: `String(year)`, then the 1-based month and the day,
      each padded to two digits. For four-digit years that is the text
      `LocalDate.toString()` writes. */
  function GetDateString(d: Date): (s: string)
    requires IsValidDate(d)
    ensures |s| >= 7 && s[|s| - 6..] == "-" + Digits(d.month, 2) + "-" + Digits(d.day, 2)
    ensures 1000 <= d.year <= 9999 ==> s == FormatIsoDate(d)
  {
    DateTextShape(d);
    IntToDecimal(d.year) + "-" + PadStart(NatToDecimal(d.month), 2, '0') + "-" + PadStart(NatToDecimal(d.day), 2, '0')
  }

  /** For four-digit years the key is the ISO date the backend writes and
      reads, so it round-trips through `LocalDate`. */
  lemma DateStringIsIso(d: Date)
    requires IsValidDate(d) && 1000 <= d.year <= 9999
    ensures ParseIsoDate(GetDateString(d)) == Some(d)
  {
    Dates.FormatThenParse(d);
  }

  /** Distinct days of four-digit years have distinct keys. */
  lemma DateStringInjective(a: Date, b: Date)
    requires IsValidDate(a) && 1000 <= a.year <= 9999
    requires IsValidDate(b) && 1000 <= b.year <= 9999
    requires GetDateString(a) == GetDateString(b)
    ensures a == b
  {
    DateStringIsIso(a);
    DateStringIsIso(b);
  }

  const MsPerDay := 86_400_000

  /** The current time: a local date and the milliseconds since its midnight. */
  datatype Instant = Instant(date: Date, msOfDay: int)

  predicate IsInstant(t: Instant) { IsValidDate(t.date) && 0 <= t.msOfDay < MsPerDay }

  /** The time value of local midnight of `d`, up to a constant offset. */
  function Midnight(d: Date): int
    requires IsValidDate(d)
  {
    DayNumber(d) * MsPerDay
  }

  function TimeValue(t: Instant): int
    requires IsInstant(t)
  {
    Midnight(t.date) + t.msOfDay
  }

  /** `isToday`: the same day, month and year as now. */
  predicate IsToday(day: Date, now: Instant) {
    day.day == now.date.day && day.month == now.date.month && day.year == now.date.year
  }

  /** `isPast`: `day <= realToday`, comparing time values. */
  predicate IsPast(day: Date, now: Instant)
    requires IsValidDate(day) && IsInstant(now)
  {
    Midnight(day) <= TimeValue(now)
  }

  /** `isAfterStart`: `day >= normalizedStartDate`, midnight of the start. */
  predicate IsAfterStart(day: Date, start: Date)
    requires IsValidDate(day) && IsValidDate(start)
  {
    Midnight(day) >= Midnight(start)
  }

  /** Comparing time values at midnight is comparing day numbers. */
  lemma MidnightOrder(day: Date, now: Instant, start: Date)
    requires IsValidDate(day) && IsInstant(now) && IsValidDate(start)
    ensures IsPast(day, now) <==> DayNumber(day) <= DayNumber(now.date)
    ensures IsAfterStart(day, start) <==> DayNumber(day) >= DayNumber(start)
  {
    var a, b := DayNumber(day), DayNumber(now.date);
    if a <= b {
      assert a * MsPerDay <= b * MsPerDay;
    } else {
      assert (b + 1) * MsPerDay <= a * MsPerDay;
    }
    if DayNumber(day) >= DayNumber(start) {
      assert DayNumber(day) * MsPerDay >= DayNumber(start) * MsPerDay;
    } else {
      assert (DayNumber(day) + 1) * MsPerDay <= DayNumber(start) * MsPerDay;
    }
  }

  /** `shouldShowStatus`: shown exactly on the days from the start date to
      today, both included, in calendar order. */
  predicate ShouldShowStatus(day: Date, now: Instant, start: Date): (r: bool)
    requires IsValidDate(day) && IsInstant(now) && IsValidDate(start)
    ensures r <==> !Before(day, start) && !Before(now.date, day)
  {
    DayNumberOrder(day, start);
    DayNumberOrder(now.date, day);
    MidnightOrder(day, now, start);
    (IsPast(day, now) || IsToday(day, now)) && IsAfterStart(day, start)
  }

  /** `isAchieved`: today shows the parent's `todayStatus`, any other day
      whether its key maps to `true`; for four-digit years the key is the
      date text the backend lists achievements under. */
  function IsAchieved(day: Date, now: Instant, todayStatus: bool, achievements: map<string, bool>): (r: bool)
    requires IsValidDate(day)
    ensures IsToday(day, now) ==> r == todayStatus
    ensures !IsToday(day, now) && 1000 <= day.year <= 9999 ==>
              (r <==> FormatIsoDate(day) in achievements && achievements[FormatIsoDate(day)])
  {
    if IsToday(day, now) then todayStatus
    else GetDateString(day) in achievements && achievements[GetDateString(day)]
  }

  /** A day other than today with no entry, or with `false`, is not achieved;
      the entry of one day says nothing about another. */
  lemma AchievedByKey(day: Date, other: Date, now: Instant, todayStatus: bool, achievements: map<string, bool>, v: bool)
    requires IsValidDate(day) && IsValidDate(other) && 1000 <= day.year <= 9999 && 1000 <= other.year <= 9999
    requires !IsToday(day, now)
    ensures GetDateString(day) !in achievements ==> !IsAchieved(day, now, todayStatus, achievements)
    ensures IsAchieved(day, now, todayStatus, achievements[GetDateString(day) := v]) == v
    ensures other != day ==>
              IsAchieved(day, now, todayStatus, achievements[GetDateString(other) := v]) ==
              IsAchieved(day, now, todayStatus, achievements)
  {
    if other != day && GetDateString(other) == GetDateString(day) {
      DateStringInjective(other, day);
    }
  }
}
