/** `HabitService`: reads and writes of the habit tables. The tables are
    the class's fields, each a sequence of rows; a query without `orderBy`
    is given the rows in sequence order, an order SQL itself leaves
    unspecified. The database's own checks (the column
    bounds, the unique indexes and the references) become error results,
    and a write the database refuses leaves every table as it was. A new
    UUID and the current time are parameters. */
module HabitService {
  import opened Common
  import opened Uuids
  import opened Dates
  import opened HabitModels

  /** What the service's callers see instead of a result. */
  datatype ServiceError =
    | InvalidUuid          // `UUID.fromString` throws IllegalArgumentException
    | InvalidDate          // `LocalDate.parse` throws on text that is not an existing ISO date
    | ValueTooLong         // the database refuses a title longer than its column
    | ForeignKeyViolation  // the database refuses a dangling or a still-referenced habit

  predicate Consistent(habits: seq<HabitRow>, achievements: seq<AchievementRow>, details: seq<DetailRow>) {
    HabitsTableOk(habits) &&
    AchievementsTableOk(achievements, HabitIds(habits)) &&
    DetailsTableOk(details, HabitIds(habits))
  }

  /** The row-to-DTO mapping of `getAllHabits` and `getHabit`. */
  function ToHabitDTO(row: HabitRow): (dto: HabitDTO)
    ensures dto.id.Some? && ParseUuid(dto.id.value) == Some(row.id)
    ensures dto.title == row.title && dto.description == row.description
    ensures dto.createdAt == Some(row.createdAt)
  {
    Uuids.FormatThenParse(row.id);
    HabitDTO(Some(FormatUuid(row.id)), row.title, row.description, Some(row.createdAt))
  }

  /** The row-to-DTO mapping of `getHabitAchievements`: the habit id is the
      caller's text, the date is `LocalDate.toString()`. */
  function ToAchievementDTO(habitId: string, row: AchievementRow): (dto: AchievementDTO)
    requires StorableDate(row.achievementDate)
    ensures dto.id.Some? && ParseUuid(dto.id.value) == Some(row.id)
    ensures dto.habitId == habitId && dto.achieved == row.achieved
    ensures ParseIsoDate(dto.achievementDate) == Some(row.achievementDate)
  {
    Uuids.FormatThenParse(row.id);
    Dates.FormatThenParse(row.achievementDate);
    AchievementDTO(Some(FormatUuid(row.id)), habitId, FormatIsoDate(row.achievementDate), row.achieved)
  }

  function HabitIndex(rows: seq<HabitRow>, u: Uuid): Option<nat> {
    FindIndex(rows, (row: HabitRow) => row.id == u)
  }

  lemma HabitIndexFinds(rows: seq<HabitRow>, u: Uuid)
    ensures HabitIndex(rows, u).Some? <==> u in HabitIds(rows)
    ensures HabitIndex(rows, u).Some? ==> rows[HabitIndex(rows, u).value].id == u
  {
    var p := (row: HabitRow) => row.id == u;
    if u in HabitIds(rows) {
      var i :| 0 <= i < |rows| && rows[i].id == u;
      assert p(rows[i]);
    }
  }

  lemma HabitIdsAppend(rows: seq<HabitRow>, row: HabitRow)
    ensures HabitIds(rows + [row]) == HabitIds(rows) + {row.id}
  {
    var r := rows + [row];
    assert r[|rows|] == row;
    forall v | v in HabitIds(rows) ensures v in HabitIds(r) {
      var k :| 0 <= k < |rows| && rows[k].id == v;
      assert r[k] == rows[k];
    }
  }

  lemma HabitIdsUpdate(rows: seq<HabitRow>, i: nat, row: HabitRow)
    requires i < |rows| && row.id == rows[i].id
    ensures HabitIds(rows[i := row]) == HabitIds(rows)
  {
    var r := rows[i := row];
    forall v | v in HabitIds(rows) ensures v in HabitIds(r) {
      var k :| 0 <= k < |rows| && rows[k].id == v;
      assert r[k].id == v;
    }
    forall v | v in HabitIds(r) ensures v in HabitIds(rows) {
      var k :| 0 <= k < |r| && r[k].id == v;
      assert rows[k].id == v;
    }
  }

  /** The habits table without the rows whose id is `u` (a `deleteWhere`). */
  function WithoutHabit(rows: seq<HabitRow>, u: Uuid): seq<HabitRow> {
    Filter(rows, (row: HabitRow) => row.id != u)
  }

  lemma WithoutHabitRows(rows: seq<HabitRow>, u: Uuid)
    ensures forall row :: row in WithoutHabit(rows, u) <==> row in rows && row.id != u
    ensures HabitIds(WithoutHabit(rows, u)) == HabitIds(rows) - {u}
    ensures HabitsTableOk(rows) ==> HabitsTableOk(WithoutHabit(rows, u))
  {
    if HabitsTableOk(rows) {
      FilterKeepsDistinct(rows, (row: HabitRow) => row.id != u, (row: HabitRow) => row.id);
    }
    var keep := (row: HabitRow) => row.id != u;
    var r := WithoutHabit(rows, u);
    forall row | row in rows && row.id != u ensures row in r {
      var k :| 0 <= k < |rows| && rows[k] == row;
      assert keep(rows[k]);
    }
    forall row | row in r ensures row in rows && row.id != u {
      var k :| 0 <= k < |r| && r[k] == row;
    }
    forall v | v in HabitIds(rows) - {u} ensures v in HabitIds(r) {
      var k :| 0 <= k < |rows| && rows[k].id == v;
      assert rows[k] in r;
      var m :| 0 <= m < |r| && r[m] == rows[k];
    }
    forall v | v in HabitIds(r) ensures v in HabitIds(rows) - {u} {
      var m :| 0 <= m < |r| && r[m].id == v;
      assert r[m] in rows;
    }
  }

  /** Some achievement or detail row refers to habit `u`. */
  predicate Referenced(achievements: seq<AchievementRow>, details: seq<DetailRow>, u: Uuid) {
    (exists i :: 0 <= i < |achievements| && achievements[i].habitId == u) ||
    (exists i :: 0 <= i < |details| && details[i].habitId == u)
  }

  /** Removing a habit nothing refers to keeps every table's constraints. */
  lemma DeleteKeepsConsistent(habits: seq<HabitRow>, achievements: seq<AchievementRow>, details: seq<DetailRow>, u: Uuid)
    requires Consistent(habits, achievements, details)
    requires !Referenced(achievements, details, u)
    ensures Consistent(WithoutHabit(habits, u), achievements, details)
    ensures forall row :: row in WithoutHabit(habits, u) <==> row in habits && row.id != u
    ensures HabitIds(WithoutHabit(habits, u)) == HabitIds(habits) - {u}
  {
    WithoutHabitRows(habits, u);
  }

  /** The rows of `HabitAchievements` selected by `habitId eq u`. */
  function AchievementsOf(rows: seq<AchievementRow>, u: Uuid): seq<AchievementRow> {
    Filter(rows, (row: AchievementRow) => row.habitId == u)
  }

  function AchievementDTOs(habitId: string, rows: seq<AchievementRow>): seq<AchievementDTO>
    requires forall k :: 0 <= k < |rows| ==> StorableDate(rows[k].achievementDate)
  {
    seq(|rows|, k requires 0 <= k < |rows| => ToAchievementDTO(habitId, rows[k]))
  }

  /** The DTOs listed for a habit are those of its rows, and of nothing else. */
  lemma ListedAchievements(habitId: string, u: Uuid, rows: seq<AchievementRow>)
    requires forall i :: 0 <= i < |rows| ==> StorableDate(rows[i].achievementDate)
    ensures forall k :: 0 <= k < |AchievementsOf(rows, u)| ==>
              AchievementsOf(rows, u)[k] in rows && AchievementsOf(rows, u)[k].habitId == u
    ensures forall k :: 0 <= k < |AchievementDTOs(habitId, AchievementsOf(rows, u))| ==>
              exists i :: 0 <= i < |rows| && rows[i].habitId == u &&
                          AchievementDTOs(habitId, AchievementsOf(rows, u))[k] == ToAchievementDTO(habitId, rows[i])
    ensures forall i :: 0 <= i < |rows| && rows[i].habitId == u ==>
              ToAchievementDTO(habitId, rows[i]) in AchievementDTOs(habitId, AchievementsOf(rows, u))
  {
    var sel := AchievementsOf(rows, u);
    var dtos := AchievementDTOs(habitId, sel);
    forall k | 0 <= k < |dtos|
      ensures exists i :: 0 <= i < |rows| && rows[i].habitId == u && dtos[k] == ToAchievementDTO(habitId, rows[i])
    {
      var i :| 0 <= i < |rows| && rows[i] == sel[k];
    }
    forall i | 0 <= i < |rows| && rows[i].habitId == u
      ensures ToAchievementDTO(habitId, rows[i]) in dtos
    {
      var keep := (row: AchievementRow) => row.habitId == u;
      assert keep(rows[i]);
      var k :| 0 <= k < |sel| && sel[k] == rows[i];
      assert dtos[k] == ToAchievementDTO(habitId, rows[i]);
    }
  }

  lemma ListedPairInOrder(habitId: string, u: Uuid, rows: seq<AchievementRow>, i: nat, j: nat)
    requires forall k :: 0 <= k < |rows| ==> StorableDate(rows[k].achievementDate)
    requires i < j < |rows| && rows[i].habitId == u && rows[j].habitId == u
    ensures exists a, b :: 0 <= a < b < |AchievementDTOs(habitId, AchievementsOf(rows, u))| &&
                           AchievementDTOs(habitId, AchievementsOf(rows, u))[a] == ToAchievementDTO(habitId, rows[i]) &&
                           AchievementDTOs(habitId, AchievementsOf(rows, u))[b] == ToAchievementDTO(habitId, rows[j])
  {
    var keep := (row: AchievementRow) => row.habitId == u;
    var sel := AchievementsOf(rows, u);
    var dtos := AchievementDTOs(habitId, sel);
    assert keep(rows[i]) && keep(rows[j]);
    FilterPreservesOrder(rows, keep, i, j);
    var a, b :| 0 <= a < b < |sel| && sel[a] == rows[i] && sel[b] == rows[j];
    assert dtos[a] == ToAchievementDTO(habitId, rows[i]) && dtos[b] == ToAchievementDTO(habitId, rows[j]);
  }

  /** `dtos` lists the DTOs of the rows of habit `u` in the order of the rows. */
  predicate InTableOrder(habitId: string, u: Uuid, rows: seq<AchievementRow>, dtos: seq<AchievementDTO>) {
    forall i, j :: 0 <= i < j < |rows| && rows[i].habitId == u && rows[j].habitId == u &&
                   StorableDate(rows[i].achievementDate) && StorableDate(rows[j].achievementDate) ==>
      exists a, b :: 0 <= a < b < |dtos| &&
                     dtos[a] == ToAchievementDTO(habitId, rows[i]) && dtos[b] == ToAchievementDTO(habitId, rows[j])
  }

  /** The DTOs of a habit's rows are listed in the order of the rows in the
      sequence (the model's choice for a query without `orderBy`). */
  lemma ListedInOrder(habitId: string, u: Uuid, rows: seq<AchievementRow>)
    requires forall k :: 0 <= k < |rows| ==> StorableDate(rows[k].achievementDate)
    ensures InTableOrder(habitId, u, rows, AchievementDTOs(habitId, AchievementsOf(rows, u)))
  {
    forall i, j | 0 <= i < j < |rows| && rows[i].habitId == u && rows[j].habitId == u
      ensures exists a, b :: 0 <= a < b < |AchievementDTOs(habitId, AchievementsOf(rows, u))| &&
                             AchievementDTOs(habitId, AchievementsOf(rows, u))[a] == ToAchievementDTO(habitId, rows[i]) &&
                             AchievementDTOs(habitId, AchievementsOf(rows, u))[b] == ToAchievementDTO(habitId, rows[j])
    {
      ListedPairInOrder(habitId, u, rows, i, j);
    }
  }

  /** With unique row ids, no row of the habit is listed twice. */
  lemma ListedOnce(habitId: string, u: Uuid, rows: seq<AchievementRow>)
    requires forall k :: 0 <= k < |rows| ==> StorableDate(rows[k].achievementDate)
    requires forall i, j :: 0 <= i < j < |rows| ==> rows[i].id != rows[j].id
    ensures forall a, b :: 0 <= a < b < |AchievementDTOs(habitId, AchievementsOf(rows, u))| ==>
              AchievementDTOs(habitId, AchievementsOf(rows, u))[a].id != AchievementDTOs(habitId, AchievementsOf(rows, u))[b].id
  {
    var keep := (row: AchievementRow) => row.habitId == u;
    var id := (row: AchievementRow) => row.id;
    var sel := AchievementsOf(rows, u);
    var dtos := AchievementDTOs(habitId, sel);
    FilterKeepsDistinct(rows, keep, id);
    forall a, b | 0 <= a < b < |dtos| ensures dtos[a].id != dtos[b].id {
      assert id(sel[a]) != id(sel[b]);
    }
  }

  predicate SameDay(row: AchievementRow, u: Uuid, d: Date) {
    row.habitId == u && row.achievementDate == d
  }

  /** The row selected by `(habitId eq u) and (achievementDate eq d)`. */
  function AchievementIndex(rows: seq<AchievementRow>, u: Uuid, d: Date): Option<nat> {
    FindIndex(rows, (row: AchievementRow) => SameDay(row, u, d))
  }

  /** The achievements table after a successful `updateHabitAchievement(u, d, achieved)`:
      the row for (u, d) gets the new flag, or a row with the fresh id is added. */
  function Upserted(rows: seq<AchievementRow>, u: Uuid, d: Date, achieved: bool, freshId: Uuid): seq<AchievementRow> {
    match AchievementIndex(rows, u, d)
    case Some(i) => rows[i := rows[i].(achieved := achieved)]
    case None => rows + [AchievementRow(freshId, u, d, achieved)]
  }

  /** The id of the row `updateHabitAchievement` reports: the existing row's, or the fresh one. */
  function UpsertedId(rows: seq<AchievementRow>, u: Uuid, d: Date, freshId: Uuid): Uuid {
    match AchievementIndex(rows, u, d)
    case Some(i) => rows[i].id
    case None => freshId
  }

  /** After the upsert the table holds a row for (u, d) with the reported
      id and the new flag, and every other row is kept as it was. */
  lemma UpsertRowFor(rows: seq<AchievementRow>, u: Uuid, d: Date, achieved: bool, freshId: Uuid)
    ensures AchievementRow(UpsertedId(rows, u, d, freshId), u, d, achieved) in Upserted(rows, u, d, achieved, freshId)
    ensures forall row :: !SameDay(row, u, d) ==> (row in Upserted(rows, u, d, achieved, freshId) <==> row in rows)
  {
    var r := Upserted(rows, u, d, achieved, freshId);
    match AchievementIndex(rows, u, d)
    case Some(i) =>
      assert r[i] == AchievementRow(UpsertedId(rows, u, d, freshId), u, d, achieved);
      forall row | !SameDay(row, u, d) && row in rows ensures row in r {
        var k :| 0 <= k < |rows| && rows[k] == row;
        assert r[k] == row;
      }
    case None =>
      assert r[|rows|] == AchievementRow(freshId, u, d, achieved);
  }

  /** The upsert keeps the table's constraints: still one row per (habit,
      date) and unique ids, as long as the habit exists when a row is added. */
  lemma UpsertKeepsTableOk(rows: seq<AchievementRow>, habits: set<Uuid>, u: Uuid, d: Date, achieved: bool, freshId: Uuid)
    requires AchievementsTableOk(rows, habits)
    requires forall i :: 0 <= i < |rows| ==> rows[i].id != freshId
    requires StorableDate(d)
    requires AchievementIndex(rows, u, d).None? ==> u in habits
    ensures AchievementsTableOk(Upserted(rows, u, d, achieved, freshId), habits)
  {
    var p := (row: AchievementRow) => SameDay(row, u, d);
    if AchievementIndex(rows, u, d).None? {
      assert forall j :: 0 <= j < |rows| ==> !p(rows[j]);
    }
  }

  /** At most one row per (habit, date) after the upsert: the row it
      reports is the only one for (u, d). */
  lemma UpsertLeavesOneRow(rows: seq<AchievementRow>, habits: set<Uuid>, u: Uuid, d: Date, achieved: bool, freshId: Uuid)
    requires AchievementsTableOk(rows, habits)
    requires forall i :: 0 <= i < |rows| ==> rows[i].id != freshId
    requires StorableDate(d)
    requires AchievementIndex(rows, u, d).None? ==> u in habits
    ensures forall row :: row in Upserted(rows, u, d, achieved, freshId) && SameDay(row, u, d) ==>
              row == AchievementRow(UpsertedId(rows, u, d, freshId), u, d, achieved)
  {
    UpsertKeepsTableOk(rows, habits, u, d, achieved, freshId);
    UpsertRowFor(rows, u, d, achieved, freshId);
    var r := Upserted(rows, u, d, achieved, freshId);
    var want := AchievementRow(UpsertedId(rows, u, d, freshId), u, d, achieved);
    forall row | row in r && SameDay(row, u, d) ensures row == want {
      var a :| 0 <= a < |r| && r[a] == row;
      var b :| 0 <= b < |r| && r[b] == want;
      if a != b {
        assert false;
      }
    }
  }

  /** Calling the upsert again for the same (habit, date) finds the row the
      first call left: it reports the same id, and the table is as if only
      the last flag had been written. */
  lemma UpsertRepeated(rows: seq<AchievementRow>, u: Uuid, d: Date, a1: bool, a2: bool, f1: Uuid, f2: Uuid)
    ensures UpsertedId(Upserted(rows, u, d, a1, f1), u, d, f2) == UpsertedId(rows, u, d, f1)
    ensures Upserted(Upserted(rows, u, d, a1, f1), u, d, a2, f2) == Upserted(rows, u, d, a2, f1)
  {
    var p := (row: AchievementRow) => SameDay(row, u, d);
    var once := Upserted(rows, u, d, a1, f1);
    match AchievementIndex(rows, u, d)
    case Some(i) =>
      assert p(once[i]);
      assert forall j :: 0 <= j < i ==> once[j] == rows[j];
      assert AchievementIndex(once, u, d) == Some(i);
    case None =>
      assert p(once[|rows|]);
      assert forall j :: 0 <= j < |rows| ==> once[j] == rows[j] && !p(rows[j]);
      assert AchievementIndex(once, u, d) == Some(|rows|);
      assert once[|rows| := once[|rows|].(achieved := a2)] == rows + [AchievementRow(f1, u, d, a2)];
  }

  class HabitService {
    var habits: seq<HabitRow>
    var achievements: seq<AchievementRow>
    var details: seq<DetailRow>
    /** `Habits.createdAt` is declared with `default(LocalDateTime.now())`,
        a value taken once, when the table object is initialised: every
        inserted habit gets this same creation time. */
    const createdAtDefault: Timestamp

    ghost predicate Valid()
      reads this
    {
      Consistent(habits, achievements, details)
    }

    /** A service over the database file as it is when the application starts. */
    constructor (createdAtDefault: Timestamp, habits: seq<HabitRow>, achievements: seq<AchievementRow>, details: seq<DetailRow>)
      requires Consistent(habits, achievements, details)
      ensures Valid()
      ensures this.createdAtDefault == createdAtDefault
      ensures this.habits == habits && this.achievements == achievements && this.details == details
    {
      this.createdAtDefault := createdAtDefault;
      this.habits := habits;
      this.achievements := achievements;
      this.details := details;
    }

    /** `getAllHabits`: every habit, in the order of the row sequence, as DTOs. */
    function GetAllHabits(): (r: seq<HabitDTO>)
      reads this
      ensures |r| == |habits|
      ensures forall i :: 0 <= i < |r| ==>
                r[i].id.Some? && ParseUuid(r[i].id.value) == Some(habits[i].id) &&
                r[i].title == habits[i].title && r[i].description == habits[i].description &&
                r[i].createdAt == Some(habits[i].createdAt)
    {
      seq(|habits|, i requires 0 <= i < |habits| reads this => ToHabitDTO(habits[i]))
    }

    /** `getHabit(id)`: malformed text fails, a well-formed id without a row is `None`. */
    function GetHabit(id: string): (r: Result<Option<HabitDTO>, ServiceError>)
      reads this
      ensures ParseUuid(id).None? <==> r == Failure(InvalidUuid)
      ensures ParseUuid(id).Some? ==> r.Success? && (r.value.Some? <==> ParseUuid(id).value in HabitIds(habits))
      ensures r.Success? && r.value.Some? ==>
                r.value.value.id.Some? && ParseUuid(r.value.value.id.value) == ParseUuid(id) &&
                exists i :: 0 <= i < |habits| && habits[i].id == ParseUuid(id).value && r.value.value == ToHabitDTO(habits[i])
    {
      match ParseUuid(id)
      case None => Failure(InvalidUuid)
      case Some(u) =>
        HabitIndexFinds(habits, u);
        match HabitIndex(habits, u)
        case None => Success(None)
        case Some(i) => Success(Some(ToHabitDTO(habits[i])))
    }

    /** `createHabit`: inserts one row with the fresh id and reports the
        request with that id and the current time. */
    method CreateHabit(habit: HabitDTO, freshId: Uuid, now: Timestamp) returns (r: Result<HabitDTO, ServiceError>)
      requires Valid()
      requires freshId !in HabitIds(habits)
      modifies this
      ensures Valid()
      ensures achievements == old(achievements) && details == old(details)
      ensures |habit.title| > HabitTitleMaxLength ==> r == Failure(ValueTooLong) && habits == old(habits)
      ensures |habit.title| <= HabitTitleMaxLength ==>
                r == Success(habit.(id := Some(FormatUuid(freshId)), createdAt := Some(now))) &&
                habits == old(habits) + [HabitRow(freshId, habit.title, habit.description, createdAtDefault)]
      // Reading the new habit back gives the stored creation time, not the reported one.
      ensures r.Success? ==> GetHabit(r.value.id.value) == Success(Some(r.value.(createdAt := Some(createdAtDefault))))
    {
      if |habit.title| > HabitTitleMaxLength {
        return Failure(ValueTooLong);
      }
      var row := HabitRow(freshId, habit.title, habit.description, createdAtDefault);
      habits := habits + [row];
      r := Success(habit.(id := Some(FormatUuid(freshId)), createdAt := Some(now)));
      HabitIdsAppend(old(habits), row);
      Uuids.FormatThenParse(freshId);
      HabitIndexFinds(habits, freshId);
      var i := HabitIndex(habits, freshId).value;
      assert habits[i] == row;
    }

    /** `updateHabit`: true iff the habit exists; then only its title and
        description change. */
    method UpdateHabit(id: string, habit: HabitDTO) returns (r: Result<bool, ServiceError>)
      requires Valid()
      modifies this
      ensures Valid()
      ensures achievements == old(achievements) && details == old(details)
      ensures ParseUuid(id).None? ==> r == Failure(InvalidUuid)
      ensures ParseUuid(id).Some? ==>
                var u := ParseUuid(id).value;
                if u !in HabitIds(old(habits)) then r == Success(false)
                else if |habit.title| > HabitTitleMaxLength then r == Failure(ValueTooLong)
                else r == Success(true)
      ensures r == Success(true) ==>
                |habits| == |old(habits)| &&
                forall j :: 0 <= j < |habits| ==>
                  habits[j] == if Some(old(habits)[j].id) == ParseUuid(id)
                               then old(habits)[j].(title := habit.title, description := habit.description)
                               else old(habits)[j]
      ensures r != Success(true) ==> habits == old(habits)
    {
      var parsed := ParseUuid(id);
      if parsed.None? {
        return Failure(InvalidUuid);
      }
      var u := parsed.value;
      HabitIndexFinds(habits, u);
      var found := HabitIndex(habits, u);
      if found.None? {
        return Success(false);
      }
      if |habit.title| > HabitTitleMaxLength {
        return Failure(ValueTooLong);
      }
      var i := found.value;
      habits := habits[i := habits[i].(title := habit.title, description := habit.description)];
      HabitIdsUpdate(old(habits), i, habits[i]);
      r := Success(true);
    }

    /** `deleteHabit`: removes only the habit row, without touching the
        achievements and details; the database refuses while any of them
        still references the habit. */
    method DeleteHabit(id: string) returns (r: Result<bool, ServiceError>)
      requires Valid()
      modifies this
      ensures Valid()
      ensures achievements == old(achievements) && details == old(details)
      ensures ParseUuid(id).None? ==> r == Failure(InvalidUuid)
      ensures ParseUuid(id).Some? ==>
                var u := ParseUuid(id).value;
                if Referenced(achievements, details, u)
                then r == Failure(ForeignKeyViolation)
                else r == Success(u in HabitIds(old(habits))) && habits == WithoutHabit(old(habits), u)
      ensures r.Failure? ==> habits == old(habits)
      ensures r.Success? ==> forall row :: row in habits <==> row in old(habits) && Some(row.id) != ParseUuid(id)
      ensures r.Success? ==> GetHabit(id) == Success(None)
    {
      var parsed := ParseUuid(id);
      if parsed.None? {
        return Failure(InvalidUuid);
      }
      var u := parsed.value;
      if Referenced(achievements, details, u) {
        return Failure(ForeignKeyViolation);
      }
      var existed := u in HabitIds(habits);
      DeleteKeepsConsistent(habits, achievements, details, u);
      habits := WithoutHabit(habits, u);
      r := Success(existed);
      HabitIndexFinds(habits, u);
    }

    /** `getHabitAchievements`: exactly the rows of the habit, each once and
        in the sequence order of the rows, each DTO carrying the caller's
        habit id text. */
    function GetHabitAchievements(habitId: string): (r: Result<seq<AchievementDTO>, ServiceError>)
      reads this
      requires Valid()
      ensures ParseUuid(habitId).None? <==> r == Failure(InvalidUuid)
      ensures r.Success? ==>
                var u := ParseUuid(habitId).value;
                forall k :: 0 <= k < |r.value| ==>
                  r.value[k].habitId == habitId &&
                  exists i :: 0 <= i < |achievements| && achievements[i].habitId == u &&
                              r.value[k] == ToAchievementDTO(habitId, achievements[i])
      ensures r.Success? ==>
                var u := ParseUuid(habitId).value;
                forall i :: 0 <= i < |achievements| && achievements[i].habitId == u ==>
                  ToAchievementDTO(habitId, achievements[i]) in r.value
      ensures r.Success? ==> InTableOrder(habitId, ParseUuid(habitId).value, achievements, r.value)
      ensures r.Success? ==> forall a, b :: 0 <= a < b < |r.value| ==> r.value[a].id != r.value[b].id
    {
      match ParseUuid(habitId)
      case None => Failure(InvalidUuid)
      case Some(u) =>
        ListedAchievements(habitId, u, achievements);
        ListedInOrder(habitId, u, achievements);
        ListedOnce(habitId, u, achievements);
        Success(AchievementDTOs(habitId, AchievementsOf(achievements, u)))
    }

    /** `updateHabitAchievement`: the upsert on (habit, date). */
    method UpdateHabitAchievement(habitId: string, date: string, achieved: bool, freshId: Uuid)
      returns (r: Result<AchievementDTO, ServiceError>)
      requires Valid()
      requires forall i :: 0 <= i < |achievements| ==> achievements[i].id != freshId
      modifies this
      ensures Valid()
      ensures habits == old(habits) && details == old(details)
      ensures ParseUuid(habitId).None? ==> r == Failure(InvalidUuid)
      ensures ParseUuid(habitId).Some? && ParseIsoDate(date).None? ==> r == Failure(InvalidDate)
      ensures ParseUuid(habitId).Some? && ParseIsoDate(date).Some? ==>
                var u, d := ParseUuid(habitId).value, ParseIsoDate(date).value;
                if AchievementIndex(old(achievements), u, d).None? && u !in HabitIds(habits)
                then r == Failure(ForeignKeyViolation)
                else
                  r == Success(AchievementDTO(Some(FormatUuid(UpsertedId(old(achievements), u, d, freshId))), habitId, date, achieved)) &&
                  achievements == Upserted(old(achievements), u, d, achieved, freshId)
      ensures r.Failure? ==> achievements == old(achievements)
      // What was reported is what a later `getHabitAchievements` lists.
      ensures r.Success? ==> GetHabitAchievements(habitId).Success? && r.value in GetHabitAchievements(habitId).value
    {
      var parsedId := ParseUuid(habitId);
      if parsedId.None? {
        return Failure(InvalidUuid);
      }
      var parsedDate := ParseIsoDate(date);
      if parsedDate.None? {
        return Failure(InvalidDate);
      }
      var u, d := parsedId.value, parsedDate.value;
      var existing := AchievementIndex(achievements, u, d);
      var rowId: Uuid;
      if existing.Some? {
        var i := existing.value;
        rowId := achievements[i].id;
        achievements := achievements[i := achievements[i].(achieved := achieved)];
      } else {
        if u !in HabitIds(habits) {
          return Failure(ForeignKeyViolation);
        }
        rowId := freshId;
        achievements := achievements + [AchievementRow(freshId, u, d, achieved)];
      }
      r := Success(AchievementDTO(Some(FormatUuid(rowId)), habitId, date, achieved));
      UpsertKeepsTableOk(old(achievements), HabitIds(habits), u, d, achieved, freshId);
      UpsertRowFor(old(achievements), u, d, achieved, freshId);
      var row := AchievementRow(rowId, u, d, achieved);
      Dates.ParseThenFormat(date);
      assert ToAchievementDTO(habitId, row) == r.value;
    }
  }
}
