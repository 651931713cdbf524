/** The three habit tables and the records the API exchanges for them:
    `Habits`, `HabitAchievements` and `HabitDetails` with their keys,
    column bounds, references and unique indexes, and the DTO records with
    their defaults. */
module HabitModels {
  import opened Common
  import opened Decimal
  import opened Uuids
  import opened Dates

  /** A `LocalDateTime`; its ISO text form is not modelled. */
  type Timestamp = int

  /** `varchar("title", 255)` of `Habits`. */
  const HabitTitleMaxLength := 255
  /** `varchar("photo_path", 255)` of `HabitDetails`. */
  const PhotoPathMaxLength := 255

  /** A row of `Habits`: a UUID primary key, a title, a nullable
      description and the creation time. */
  datatype HabitRow = HabitRow(id: Uuid, title: string, description: Option<string>, createdAt: Timestamp)

  /** `HabitDTO`: the id and the creation time are optional and absent by default. */
  datatype HabitDTO = HabitDTO(
    id: Option<string> := None,
    title: string,
    description: Option<string> := None,
    createdAt: Option<Timestamp> := None)

  /** A row of `HabitAchievements`: whether a habit was done on a date.
      `achieved` is a plain boolean, so every row has one. */
  datatype AchievementRow = AchievementRow(id: Uuid, habitId: Uuid, achievementDate: Date, achieved: bool)

  /** `HabitAchievementDTO`: the id is optional and absent by default. */
  datatype AchievementDTO = AchievementDTO(
    id: Option<string> := None,
    habitId: string,
    achievementDate: string,
    achieved: bool)

  /** A row of `HabitDetails`: notes, minutes spent and a photo path, each nullable. */
  datatype DetailRow = DetailRow(
    id: Uuid, habitId: Uuid, achievementDate: Date,
    notes: Option<string>, duration: Option<int>, photo: Option<string>)

  /** `HabitDetailDTO`: everything but the habit and the date is optional. */
  datatype DetailDTO = DetailDTO(
    id: Option<string> := None,
    habitId: string,
    achievementDate: string,
    notes: Option<string> := None,
    duration: Option<int> := None,
    photo: Option<string> := None)

  function HabitIds(rows: seq<HabitRow>): set<Uuid> {
    set i | 0 <= i < |rows| :: rows[i].id
  }

  /** A date the ISO text form covers (see `Dates.ParseIsoDate`). */
  predicate StorableDate(d: Date) {
    IsValidDate(d) && 0 <= d.year < 10000
  }

  /** The constraints of `Habits`: the UUID primary key is unique and a
      title fits its column. */
  predicate HabitsTableOk(rows: seq<HabitRow>) {
    (forall i, j :: 0 <= i < j < |rows| ==> rows[i].id != rows[j].id) &&
    (forall i :: 0 <= i < |rows| ==> |rows[i].title| <= HabitTitleMaxLength)
  }

  /** The constraints of `HabitAchievements`: a unique primary key, at
      most one row per (habit, date), and every row's habit exists. */
  predicate AchievementsTableOk(rows: seq<AchievementRow>, habits: set<Uuid>) {
    (forall i, j :: 0 <= i < j < |rows| ==>
       rows[i].id != rows[j].id &&
       (rows[i].habitId, rows[i].achievementDate) != (rows[j].habitId, rows[j].achievementDate)) &&
    (forall i :: 0 <= i < |rows| ==> rows[i].habitId in habits && StorableDate(rows[i].achievementDate))
  }

  /** The constraints of `HabitDetails`: a unique primary key, at most one
      row per (habit, date), every row's habit exists, a photo path fits
      its column and a duration is a 32-bit integer. */
  predicate DetailsTableOk(rows: seq<DetailRow>, habits: set<Uuid>) {
    (forall i, j :: 0 <= i < j < |rows| ==>
       rows[i].id != rows[j].id &&
       (rows[i].habitId, rows[i].achievementDate) != (rows[j].habitId, rows[j].achievementDate)) &&
    (forall i :: 0 <= i < |rows| ==>
       rows[i].habitId in habits && StorableDate(rows[i].achievementDate) &&
       (rows[i].photo.Some? ==> |rows[i].photo.value| <= PhotoPathMaxLength) &&
       (rows[i].duration.Some? ==> IntMin <= rows[i].duration.value <= IntMax))
  }

  /** The fields a request body may leave out take the DTOs' defaults. */
  lemma DtoDefaults(title: string, habitId: string, date: string, achieved: bool)
    ensures HabitDTO(title := title) == HabitDTO(None, title, None, None)
    ensures AchievementDTO(habitId := habitId, achievementDate := date, achieved := achieved)
            == AchievementDTO(None, habitId, date, achieved)
    ensures DetailDTO(habitId := habitId, achievementDate := date)
            == DetailDTO(None, habitId, date, None, None, None)
  {
  }
}
