/** The habit detail page: the map from `YYYY-MM-DD` keys to achievement,
    its toggle, and the progress towards the 66-day target. */
module HabitDetail {
  import opened Common
  import opened Dates
  import opened HabitCalendar

  /** The number of achieved days that makes a habit. */
  const TargetDays := 66

  /** `handleToggleAchievement`'s update once the server has accepted it:
      the day's entry becomes the negation of its old value, a missing
      entry counting as `false`. */
  function ToggleAchievement(achievements: map<string, bool>, date: string): (r: map<string, bool>)
    ensures date in r && r[date] == !(date in achievements && achievements[date])
    ensures r.Keys == achievements.Keys + {date}
    ensures forall k :: k in achievements && k != date ==> r[k] == achievements[k]
  {
    achievements[date := !(date in achievements && achievements[date])]
  }

  /** The keys whose entry is `true`. */
  function AchievedDates(achievements: map<string, bool>): set<string> {
    set k | k in achievements && achievements[k]
  }

  /** `achievedDays`: how many entries are `true`; none exactly when no
      entry is `true`. */
  function AchievedDays(achievements: map<string, bool>): (n: nat)
    ensures n == 0 <==> forall k :: k in achievements ==> !achievements[k]
  {
    var dates := AchievedDates(achievements);
    assert (exists k :: k in achievements && achievements[k]) ==> |dates| > 0 by {
      if k :| k in achievements && achievements[k] {
        assert k in dates;
      }
    }
    |dates|
  }

  /** A toggle moves the count of achieved days by exactly one: up when the
      day was not achieved, down when it was. */
  lemma ToggleMovesCount(achievements: map<string, bool>, date: string)
    ensures AchievedDays(ToggleAchievement(achievements, date)) ==
              if date in achievements && achievements[date] then AchievedDays(achievements) - 1
              else AchievedDays(achievements) + 1
  {
    var before := AchievedDates(achievements);
    var after := AchievedDates(ToggleAchievement(achievements, date));
    if date in achievements && achievements[date] {
      assert after == before - {date};
    } else {
      assert after == before + {date};
    }
  }

  /** Toggling a day twice restores its entry (a missing one becomes `false`). */
  lemma ToggleTwice(achievements: map<string, bool>, date: string)
    ensures ToggleAchievement(ToggleAchievement(achievements, date), date) ==
              achievements[date := date in achievements && achievements[date]]
  {
  }

  /** `calculateProgress`: no habit loaded gives 0; otherwise
      `min(round(achievedDays / 66 * 100), 100)`, computed exactly as
      `floor(100 * a / 66 + 1/2)` (the quotient is never exactly half way). */
  function Progress(hasHabit: bool, achievements: map<string, bool>): (p: nat)
    ensures p <= 100
    ensures !hasHabit ==> p == 0
  {
    if !hasHabit then 0 else RoundedPercent(AchievedDays(achievements))
  }

  function RoundedPercent(a: nat): (p: nat)
    ensures p <= 100
  {
    Min((100 * a + TargetDays / 2) / TargetDays, 100) as nat
  }

  /** Below the target the percentage is the nearest whole percent of
      `a / 66`; from the target on it is 100, and only then. */
  lemma RoundedPercentMeaning(a: nat)
    ensures a < TargetDays ==> var p := RoundedPercent(a);
              TargetDays * (2 * p - 1) <= 200 * a < TargetDays * (2 * p + 1)
    ensures RoundedPercent(a) == 100 <==> a >= TargetDays
  {
    var q := (100 * a + 33) / 66;
    assert 66 * q <= 100 * a + 33 < 66 * q + 66;
    if a < TargetDays {
      assert q < 100;
    }
  }

  /** More achieved days never show less progress. */
  lemma RoundedPercentMonotone(a: nat, b: nat)
    requires a <= b
    ensures RoundedPercent(a) <= RoundedPercent(b)
  {
    var qa, qb := (100 * a + 33) / 66, (100 * b + 33) / 66;
    assert 66 * qa <= 100 * a + 33 <= 100 * b + 33 < 66 * qb + 66;
  }

  /** On the calendar, toggling a day other than today flips that cell and
      no other. */
  lemma ToggleShowsOnCalendar(day: Date, other: Date, now: Instant, todayStatus: bool, achievements: map<string, bool>)
    requires IsValidDate(day) && IsValidDate(other) && 1000 <= day.year <= 9999 && 1000 <= other.year <= 9999
    requires !IsToday(day, now)
    ensures IsAchieved(day, now, todayStatus, ToggleAchievement(achievements, GetDateString(day))) ==
              !IsAchieved(day, now, todayStatus, achievements)
    ensures other != day ==>
              IsAchieved(day, now, todayStatus, ToggleAchievement(achievements, GetDateString(other))) ==
              IsAchieved(day, now, todayStatus, achievements)
  {
    var key := GetDateString(day);
    AchievedByKey(day, day, now, todayStatus, achievements, !(key in achievements && achievements[key]));
    var okey := GetDateString(other);
    AchievedByKey(day, other, now, todayStatus, achievements, !(okey in achievements && achievements[okey]));
  }
}
