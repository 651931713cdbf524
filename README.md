# Habit tracker and todo list — a Dafny model

The application is a habit tracker with a separate todo list. A Kotlin
backend (Ktor routes and Exposed tables on H2) stores habits, one
achievement flag per habit and day, optional per-day details and todos. A
React frontend shows the habits ten to a page and draws a month calendar of
achieved days. It also shows progress towards a 66-day target and edits its
lists once the server has answered.

This project models the logic of that application:

- **Habit tables and service** (`habit_models.dfy`, `habit_service.dfy`).
  The three tables `Habits`, `HabitAchievements` and `HabitDetails` are
  sequences of rows held by the class `HabitService`. Their constraints are
  the invariant `Valid()`: unique UUID keys, one row per (habit, date), every
  row's habit exists, and title and photo-path lengths. `createHabit`,
  `updateHabit`, `deleteHabit` and the achievement upsert
  `updateHabitAchievement` are methods. The three queries are functions.
  `UUID.fromString`, `UUID.toString`, `LocalDate.parse` and
  `LocalDate.toString` are modelled exactly on canonical text
  (`uuids.dfy`, `dates.dfy`), with their round trips proved.
- **Todo store** (`todo_store.dfy`). `TodoTable` holds the `Todos` rows and
  the next auto-increment key. Each `/todos` handler is a method that returns
  its response: a value, `BadRequest` when the path id is not an integer (by
  Kotlin's `toIntOrNull`, in `decimal.dfy`), `NotFound`, or the database's
  refusal of an over-long title.
- **Frontend helpers**, one module per component:
  - the calendar grid and its day keys (`habit_calendar.dfy`);
  - pagination and the list edits of the habit list (`habit_list.dfy`);
  - the achievement toggle and the progress percentage, computed exactly in
    integers (`habit_detail.dfy`);
  - the todo list edits (`todo_app.dfy`);
  - the detail dialog's clipping, clamping and form assembly
    (`achievement_modal.dfy`).

The clock and `UUID.randomUUID()` become parameters: a current time, and a
fresh id with a precondition that it is not in use.

Two behaviours of the database layer shape the service model:

- **Deleting a referenced habit is refused.** `deleteHabit` deletes only
  the habit row. Both dependent tables reference `Habits` with no delete
  rule, so the database refuses to delete a habit that still has
  achievement or detail rows. `DeleteHabit` reports this as
  `ForeignKeyViolation` and changes nothing.
- **Stored habits share one creation time.** The `createdAt` column default
  is `default(LocalDateTime.now())`, a value computed once, when the table
  object is initialised. Every stored habit gets that time
  (`createdAtDefault`). `createHabit` answers with the current time, so its
  answer and a later `getHabit` can differ in `createdAt`.

## Model

| member | source | states |
|---|---|---|
| Uuids.ParseUuid | backend/src/services/HabitService.kt:30 | on the modelled texts, `UUID.fromString` succeeds exactly on the canonical 8-4-4-4-12 hexadecimal text, and each digit of the result is the digit at its text position |
| Uuids.FormatUuid | backend/src/services/HabitService.kt:34 | `UUID.toString` writes canonical text in lower-case hexadecimal |
| Uuids.FormatThenParse | backend/src/services/HabitService.kt:34 | the text `toString` writes for a UUID parses back to that UUID |
| Uuids.ParseThenFormat | backend/src/services/HabitService.kt:30 | any text that parses is written back as the same text in lower case |
| Uuids.FormatInjective | backend/src/services/HabitService.kt:34 | distinct UUIDs have distinct text |
| Dates.ParseIsoDate | backend/src/services/HabitService.kt:94 | `LocalDate.parse` accepts only existing dates with a four-digit year |
| Dates.FormatThenParse | backend/src/services/HabitService.kt:85 | the `yyyy-MM-dd` text of a date parses back to the date |
| Dates.FormatIsoDate | backend/src/services/HabitService.kt:85 | `LocalDate.toString` of a four-digit-year date is ten characters with dashes at positions 4 and 7 |
| Dates.ParseThenFormat | backend/src/services/HabitService.kt:94 | only canonical text parses: what parses is the text of the parsed date |
| Dates.DaysInMonth | frontend/src/components/HabitCalendar.tsx:34-36 | a Gregorian month has 28 to 31 days |
| Dates.DayOfWeek | frontend/src/components/HabitCalendar.tsx:40 | `getDay()` is a weekday 0..6, 0 for Sunday |
| Dates.DayNumberOrder | frontend/src/components/HabitCalendar.tsx:146-155 | the running day count orders valid dates exactly as calendar order does, and equal counts mean equal dates |
| Dates.NextMonthFirstWeekday | frontend/src/components/HabitCalendar.tsx:39-41 | the first weekday of the next month is this month's first weekday shifted by the month's length, across year ends too |
| Dates.KnownWeekdays | frontend/src/components/HabitCalendar.tsx:39-41 | the weekday function gives Thursday for 1970-01-01 and Monday for 2024-03-18 |
| Decimal.PadStartTwoDigits | frontend/src/components/HabitCalendar.tsx:101-102 | `String(n).padStart(2, "0")` is the two-digit field of n for every n below 100 |
| Decimal.ToIntOrNull | backend/src/routes/TodoRoutes.kt:28 | `toIntOrNull` yields a value only for an optionally signed digit string, and that value is the number the text denotes and fits in 32 bits |
| Decimal.ToIntOrNullOfDecimal | backend/src/routes/TodoRoutes.kt:28 | the text of every 32-bit integer reads back as that integer |
| Decimal.ToIntOrNullRejects | backend/src/routes/TodoRoutes.kt:28-32 | a character that is neither a digit nor a leading sign makes the id invalid |
| Decimal.ToIntOrNullExamples | backend/src/routes/TodoRoutes.kt:28-32 | "", "-", "abc", "1.5" and " 7" are rejected; "007", "+7" and "-12" are accepted |
| Decimal.ParseIntJs | frontend/src/components/AchievementModal.tsx:110 | `parseInt` gives `NaN` exactly when no digit follows the optional sign, and is non-negative without a minus sign |
| Decimal.ParseIntJsOfDecimal | frontend/src/components/AchievementModal.tsx:110 | `parseInt` reads back the text of any integer and ignores what follows its digits |
| HabitModels.DtoDefaults | backend/src/models/Habit.kt:18-23 | a body that omits them gets no id, no description and no creation time (and likewise for the achievement and detail DTOs of backend/src/models/HabitAchievements.kt:26-31 and backend/src/models/HabitDetails.kt:30-37) |
| HabitService.HabitService.constructor | backend/src/models/HabitDetails.kt:11-26 | the service starts from tables that satisfy every key, unique-index, reference and column-bound constraint of the three tables |
| HabitService.ToHabitDTO | backend/src/services/HabitService.kt:33-38 | the DTO's id text parses back to the row's id, and title, description and creation time are the row's |
| HabitService.ToAchievementDTO | backend/src/services/HabitService.kt:82-87 | the DTO carries the caller's habit id text, a row id that parses back, the row's flag, and a date text that parses back to the row's date |
| HabitService.HabitService.GetAllHabits | backend/src/services/HabitService.kt:17-26 | one DTO per habit row, in the order of the model's row sequence, with the row's fields |
| HabitService.HabitService.GetHabit | backend/src/services/HabitService.kt:29-41 | malformed id text fails with `InvalidUuid`; a well-formed id gives a habit iff a row has that id, and then the habit is that row's DTO |
| HabitService.HabitIndexFinds | backend/src/services/HabitService.kt:31 | the key lookup finds a row iff the id is in the table, and the row it finds has that id |
| HabitService.HabitService.CreateHabit | backend/src/services/HabitService.kt:44-54 | appends exactly one row with the fresh id and the given title and description; returns the request with that id and the current time; a title over 255 characters is refused and nothing changes; reading the new habit back gives the stored creation time |
| HabitService.HabitService.UpdateHabit | backend/src/services/HabitService.kt:57-65 | true iff a row with that id existed; then only that row's title and description change, and its id, creation time and all other rows and tables are unchanged |
| HabitService.HabitService.DeleteHabit | backend/src/services/HabitService.kt:68-73 | true iff the id existed; removes only that habit row and no achievement or detail; a still-referenced habit is refused and nothing changes; afterwards `getHabit` finds nothing |
| HabitService.WithoutHabitRows | backend/src/services/HabitService.kt:70 | the delete keeps exactly the rows with other ids, removes exactly that id from the key set and keeps the keys unique |
| HabitService.DeleteKeepsConsistent | backend/src/models/HabitAchievements.kt:12 | removing a habit that no achievement or detail references keeps every reference valid |
| HabitService.ListedAchievements | backend/src/services/HabitService.kt:79-88 | the listed DTOs are those of the rows whose habit is the argument, all of them and nothing else |
| HabitService.ListedInOrder | backend/src/services/HabitService.kt:79-88 | the DTOs of the habit's rows appear in the order of the rows in the model's sequence |
| HabitService.ListedOnce | backend/src/services/HabitService.kt:79-88 | with unique row ids, no two listed DTOs share an id, so no row is listed twice |
| HabitService.HabitService.GetHabitAchievements | backend/src/services/HabitService.kt:76-89 | malformed id text fails; otherwise every DTO carries the caller's habit id and comes from a row of that habit, every row of that habit is listed, in the order of the model's row sequence, and no two DTOs share an id, so each row is listed once |
| HabitService.UpsertRowFor | backend/src/services/HabitService.kt:97-129 | after the upsert a row for (habit, date) exists with the reported id and the new flag, and every row for another (habit, date) is kept |
| HabitService.UpsertKeepsTableOk | backend/src/models/HabitAchievements.kt:19-21 | the upsert keeps ids unique, one row per (habit, date), and every row's habit existing |
| HabitService.UpsertLeavesOneRow | backend/src/services/HabitService.kt:92-130 | after the upsert the reported row is the only row for (habit, date) |
| HabitService.UpsertRepeated | backend/src/services/HabitService.kt:92-130 | repeating the upsert for the same (habit, date) reports the same id, and the table is as if only the last flag had been written |
| HabitService.HabitService.UpdateHabitAchievement | backend/src/services/HabitService.kt:92-130 | bad id or date text fails; an existing row for (habit, date) keeps its id and gets the flag; otherwise a row with the fresh id is inserted, refused when the habit does not exist; the reported DTO is then listed by `getHabitAchievements` |
| TodoStore.ToDTO | backend/src/routes/TodoRoutes.kt:147-154 | id, title, description and completion are the row's; the priority is not copied, so it is the DTO default 1 |
| TodoStore.RequestDefaults | backend/src/models/todoDTO.kt:7-13 | a request body that omits them gets no id, no description, `completed` false and priority 1, the column defaults of backend/src/plugins/Databases.kt:16-17 |
| TodoStore.TodoTable.constructor | backend/src/plugins/Databases.kt:13-27 | the table starts empty, with the first key 1 |
| TodoStore.TodoTable.ListTodos | backend/src/routes/TodoRoutes.kt:19-24 | one DTO per row, in strictly ascending id order |
| TodoStore.TodoTable.GetTodo | backend/src/routes/TodoRoutes.kt:27-43 | non-integer id text gives `BadRequest`; otherwise the todo is found iff a row has that id, and the answer is that row's DTO, else `NotFound` |
| TodoStore.TodoTable.CreateTodo | backend/src/routes/TodoRoutes.kt:46-67 | stores the request's four fields under the next key and answers with the stored todo, which reading it by id gives back; a title over 100 characters is refused and nothing changes |
| TodoStore.TodoTable.PutTodo | backend/src/routes/TodoRoutes.kt:70-96 | `BadRequest` for non-integer ids; `NotFound` with the store unchanged for a missing id; otherwise the row's four fields are overwritten |
| TodoStore.OverwrittenRows | backend/src/routes/TodoRoutes.kt:79-84 | the overwrite gives the row with that id exactly the request's title, description, completion and priority under the same key, and leaves every other row and the order unchanged |
| TodoStore.TodoTable.DeleteTodo | backend/src/routes/TodoRoutes.kt:99-117 | `BadRequest` for non-integer ids; removes the todo iff it exists, else `NotFound` and nothing changes |
| TodoStore.WithoutTodoRows | backend/src/routes/TodoRoutes.kt:106-110 | the delete removes exactly the row with that key, keeps the rest ascending, and shrinks the table by one iff the key was there |
| TodoStore.TodoTable.ToggleTodo | backend/src/routes/TodoRoutes.kt:120-142 | `BadRequest` for non-integer ids; `NotFound` with the store unchanged for a missing id; otherwise only that todo's completion is negated |
| TodoStore.ToggledRows | backend/src/routes/TodoRoutes.kt:130 | the toggle negates the completion of the row with that id and changes nothing else |
| TodoStore.ToggleTwice | backend/src/routes/TodoRoutes.kt:127-141 | toggling twice restores the table |
| TodoStore.UpdatesKeepTableOk | backend/src/plugins/Databases.kt:13-17 | overwrites with fitting titles and toggles keep keys ascending and titles within 100 characters |
| TodoStore.AppendKeepsTableOk | backend/src/routes/TodoRoutes.kt:49-54 | a new row under the next key keeps the keys ascending and is found by that key |
| HabitCalendar.GetDaysInMonth | frontend/src/components/HabitCalendar.tsx:34-36 | `new Date(y, m + 1, 0)` is the last valid day of the month: the next day number is the first of the next month |
| HabitCalendar.GenerateCalendarDays | frontend/src/components/HabitCalendar.tsx:44-60 | `firstDay + daysInMonth` cells; the first `firstDay` are blank; cell `firstDay + i - 1` is day `i`; every day sits in the column of its weekday |
| HabitCalendar.GetFirstDayOfMonth | frontend/src/components/HabitCalendar.tsx:39-41 | the weekday of the first of the month is 0..6 |
| HabitCalendar.WeekdayOfDay | frontend/src/components/HabitCalendar.tsx:39-41 | day `i` of a month falls `i - 1` weekdays after the first |
| HabitCalendar.GetDateString | frontend/src/components/HabitCalendar.tsx:99-104 | the key ends in `-MM-DD`, the 1-based month and the day as two digits; for four-digit years it is the `YYYY-MM-DD` text `LocalDate.toString` writes |
| HabitCalendar.DateStringIsIso | frontend/src/components/HabitCalendar.tsx:99-104 | for four-digit years the key parses back to its date in the backend |
| HabitCalendar.DateStringInjective | frontend/src/components/HabitCalendar.tsx:99-104 | distinct days of four-digit years have distinct keys |
| HabitCalendar.MonthOf | frontend/src/components/HabitCalendar.tsx:88-95 | `new Date(y, m)` lands in a month 0..11 that is the same number of months from year 0 |
| HabitCalendar.PrevMonth | frontend/src/components/HabitCalendar.tsx:206-211 | the previous month is a month 0..11 one month earlier counted from year 0 |
| HabitCalendar.NextMonth | frontend/src/components/HabitCalendar.tsx:222-227 | the next month is a month 0..11 one month later counted from year 0 |
| HabitCalendar.NavigationWraps | frontend/src/components/HabitCalendar.tsx:206-229 | January's previous month is December of the year before, December's next is January of the year after, and other months stay in their year |
| HabitCalendar.NavigationInverse | frontend/src/components/HabitCalendar.tsx:206-229 | the previous and next buttons undo each other |
| HabitCalendar.ShouldShowStatus | frontend/src/components/HabitCalendar.tsx:146-163 | the status is shown iff the day is not before the start date and not after today |
| HabitCalendar.IsAchieved | frontend/src/components/HabitCalendar.tsx:158-160 | today shows `todayStatus`; another day of a four-digit year is achieved iff the backend's date text of that day maps to true |
| HabitCalendar.AchievedByKey | frontend/src/components/HabitCalendar.tsx:158-160 | a day other than today is achieved only if its key maps to true (a missing key means no), and one day's entry does not affect another day |
| HabitList.TotalPages | frontend/src/pages/HabitList.tsx:19 | the page count is the ceiling of length / 10 |
| HabitList.CurrentHabits | frontend/src/pages/HabitList.tsx:20-23 | the page holds exactly the habits from position (page-1)*10 up to ten further or the end of the list, so at most 10 |
| HabitList.PagesCoverList | frontend/src/pages/HabitList.tsx:19-23 | every habit is on page i/10+1, within the page count, in row i%10; every page before the last is full |
| HabitList.FetchedHabits | frontend/src/pages/HabitList.tsx:35 | the fetched list is stored in reverse order |
| HabitList.NewHabit | frontend/src/pages/HabitList.tsx:56-61 | the added habit has the server's id, the form's fields, and the server's creation time or else now |
| HabitList.AddHabit | frontend/src/pages/HabitList.tsx:65 | the new habit is prepended to an otherwise unchanged list |
| HabitList.EditHabit | frontend/src/pages/HabitList.tsx:76-93 | nothing changes when no habit is being edited; otherwise only habits with that id take the form's title and description, and ids, creation times and the length are kept |
| HabitList.EditIdempotent | frontend/src/pages/HabitList.tsx:89-93 | saving the same form twice is saving it once |
| HabitList.DeleteHabit | frontend/src/pages/HabitList.tsx:107 | the delete keeps exactly the habits whose id differs |
| HabitList.DeleteHabitKeepsOrder | frontend/src/pages/HabitList.tsx:107 | the habits that remain keep their order |
| HabitList.DeleteUndoesAdd | frontend/src/pages/HabitList.tsx:65-107 | deleting a just-added habit with a new id gives the list back |
| HabitList.ClampPage | frontend/src/pages/HabitList.tsx:110-113 | the page only moves down, and then to `ceil((len-1)/10)`, which is positive |
| HabitList.ClampKeepsPageInRange | frontend/src/pages/HabitList.tsx:110-113 | after deleting one of `len` habits, an in-range page ends in the range of the shorter list |
| HabitList.ClampedPageNotEmpty | frontend/src/pages/HabitList.tsx:107-113 | after deleting one habit from a list that keeps at least one, the clamped page shows something |
| HabitDetail.ToggleAchievement | frontend/src/pages/HabitDetail.tsx:66-80 | the day's entry becomes the negation of its old value (missing means false), and every other date keeps its entry |
| HabitDetail.ToggleMovesCount | frontend/src/pages/HabitDetail.tsx:68-89 | a toggle moves the count of achieved days by exactly one, up or down |
| HabitDetail.AchievedDays | frontend/src/pages/HabitDetail.tsx:89 | the count of achieved days is zero exactly when no entry is true |
| HabitDetail.RoundedPercent | frontend/src/pages/HabitDetail.tsx:90 | the rounded percentage never exceeds 100 |
| HabitDetail.Progress | frontend/src/pages/HabitDetail.tsx:87-91 | progress lies in 0..100, and is 0 when no habit is loaded |
| HabitDetail.RoundedPercentMeaning | frontend/src/pages/HabitDetail.tsx:90 | below 66 days the percentage is the nearest whole percent of days / 66; it is 100 iff at least 66 days are achieved |
| HabitDetail.RoundedPercentMonotone | frontend/src/pages/HabitDetail.tsx:89-90 | more achieved days never give less progress |
| HabitDetail.ToggleShowsOnCalendar | frontend/src/pages/HabitDetail.tsx:77-80 | toggling a day other than today flips that calendar cell and no other |
| TodoApp.AddTodo | frontend/src/App.tsx:35 | the created todo is appended to an otherwise unchanged list |
| TodoApp.ToggleRequest | frontend/src/App.tsx:43-50 | no todo with the id means no request; otherwise the request is such a todo with `completed` set to the negated argument |
| TodoApp.ReplaceWithReply | frontend/src/App.tsx:51 | every todo with the id is replaced by the reply body and every other todo is kept |
| TodoApp.ToggleStoresText | frontend/src/App.tsx:47-51 | with the update handler's text reply, the toggled todo's place holds that text, and only the todos with other ids remain todos |
| TodoApp.ToggleTodo | frontend/src/App.tsx:42-56 | an unknown id changes nothing; otherwise only the todos with the id are replaced, by the todo that was sent |
| TodoApp.ToggleFlipsOne | frontend/src/App.tsx:42-56 | with distinct ids, the toggle negates exactly that todo's completion, and toggling back restores the list |
| TodoApp.DeleteTodo | frontend/src/App.tsx:61 | the delete keeps exactly the todos whose id differs |
| TodoApp.DeleteTodoKeepsOrder | frontend/src/App.tsx:61 | the todos that remain keep their order |
| TodoApp.DeleteUndoesAdd | frontend/src/App.tsx:35-61 | deleting a just-added todo with a new id gives the list back |
| AchievementModal.ClipNotes | frontend/src/components/AchievementModal.tsx:81 | the notes are the first min(length, 255) characters of the text, and text that fits is kept whole |
| AchievementModal.ClipIdempotent | frontend/src/components/AchievementModal.tsx:81 | clipping again changes nothing |
| AchievementModal.ClampDuration | frontend/src/components/AchievementModal.tsx:110 | the duration is never negative, is 0 for text that is not a number, and is otherwise the parsed number raised to 0 |
| AchievementModal.ClampDurationMeaning | frontend/src/components/AchievementModal.tsx:110 | a typed whole number is kept (fraction and exponent dropped), a negative one becomes 0, and text that does not start with a number becomes 0 |
| AchievementModal.LookupAt | frontend/src/components/AchievementModal.tsx:28-45 | in a form with distinct field names, a name's lookup finds its field's value, and an absent name finds nothing |
| AchievementModal.HandleHabitDetails | frontend/src/components/AchievementModal.tsx:23-48 | no form without a non-empty route id; otherwise `habitId` and `achievementDate` come first, `notes` only when non-empty, `duration` only when non-zero, and `photo` only when one was chosen; field names are distinct |

## Left out

- HTTP routing, status codes, JSON bodies and the habit routes' error handling are not modelled. The service's `Failure` kinds stand for the exceptions those routes turn into responses.
- The multipart upload that writes photos under `./uploads`, and the detail operations the habit routes call (`createHabitDetail`, `deleteHabitDetail`, `getHabitDetails`), are not part of this model: the service shown does not define them. The `HabitDetails` table appears only through its constraints and the references that block a delete.
- Database connection, schema creation, CORS, static-file routing and the build script are configuration and are not modelled.
- Transactions and concurrency are not modelled: each operation is one atomic step, and two concurrent upserts for one (habit, date) cannot race here.
- Network calls (axios), error alerts, console logging, JSX and CSS are not modelled. Each frontend edit is the state change that follows a successful response.
- `TodoList.tsx` is not modelled: its optimistic toggle races an async reply against a refetch.
- `Todo` is imported from `types.ts` by the todo page, but that file does not declare it. `TodoApp.Todo` takes the fields of the server's `TodoDTO`, without priority.
- Clock, time zone and UUID generation are parameters. A JavaScript `Date` is a local (year, month, day), and the current time is a date plus milliseconds since local midnight. Daylight-saving shifts, the UTC `toISOString` day of the detail page, and the 0..99 two-digit-year rule of `new Date(y, m)` are not modelled.
- The `ISO_DATE_TIME` text of creation times is not modelled: a timestamp is an opaque number. The `created_at` columns of achievements and details are not modelled either.
- `new Date(response.data.createdAt || new Date())` parsing the server's date text is not modelled: the response's creation time is an opaque number or absent.
- Uuids.ParseUuid: only the canonical 36-character form with ASCII hexadecimal digits is modelled. Java also accepts other texts through its slow path: shorter groups, a `+` at the head of a group (as in `+2345678-1234-1234-1234-123456789012`), and non-ASCII digits that `Character.digit` reads as hexadecimal. The model rejects these.
- Dates.ParseIsoDate: only unsigned four-digit years are modelled. `LocalDate`'s signed and longer years are not.
- Decimal.ToIntOrNull: only ASCII digits are read. Kotlin also accepts other Unicode decimal digits.
- Decimal.ParseIntJs: leading white space, `0x` prefixes and the floating-point rounding of very long digit strings are not modelled.
- HabitService.HabitService.UpdateHabit: an over-long title is refused only when a row with the id exists. If the length is checked before the row is looked up, an absent id also fails instead of returning false.
- HabitService.HabitService.GetHabitAchievements: the query (backend/src/services/HabitService.kt:79-80) has no `ORDER BY`, so SQL leaves the order of the rows unspecified; H2 may read them through the `(habitId, achievementDate)` unique index (backend/src/models/HabitAchievements.kt:19-21) and so in date order. The model fixes the order as the order of its row sequence, and `HabitService.ListedInOrder` states that choice, not a promise of the database. Membership, listing each row once and the DTO contents do not depend on it. The same holds for the order of `HabitService.HabitService.GetAllHabits`, whose `selectAll` (backend/src/services/HabitService.kt:17) has no `ORDER BY` either.
- TodoStore.TodoTable.CreateTodo: overflow of the 32-bit auto-increment key is not modelled, and the "failed to create" answer cannot happen in the model because the new row is always found. A refused over-long title leaves the key counter unchanged in the model. H2 may already have drawn a key from the identity sequence before it checks the length, and does not give it back, so the next stored todo may get a larger key.
- AchievementModal.ClipNotes: lengths count `char`s, not UTF-16 code units.
- HabitDetail.ToggleShowsOnCalendar: the lemma assumes the calendar receives `todayStatus` and `habitDetails`. The habit detail page (frontend/src/pages/HabitDetail.tsx:182-187) passes neither: it passes an undeclared `onToggleAchievement` instead. As written, the calendar's `habitDetails[dateStr]` (frontend/src/components/HabitCalendar.tsx:189) reads a property of `undefined` on its first render, and today's cell would read an undefined `todayStatus`.
- HabitCalendar.IsAchieved: `todayStatus` is a boolean here; the missing prop of the detail page is not modelled.

## Findings

| source | as written | input that shows it | evidently intended | confidence | as-written member | corrected member |
|---|---|---|---|---|---|---|
| frontend/src/App.tsx:47-51 | after a successful update, the toggled todo is replaced by the update response's body | toggling a listed todo once the todo routes are reachable at the client's URL (backend/src/plugins/Routing.kt:9-15 mounts only the habit routes, frontend/src/services/todoService.ts:5 targets `/api/todos` while the routes sit under `/todos`, and the toggle route is a PATCH where the client sends a PUT): the update handler answers with the text "Todo updated" (backend/src/routes/TodoRoutes.kt:92), so the list then holds that string in place of the todo | replace the todo with the toggled todo that was sent | not executed; high | TodoApp.ToggleStoresText | TodoApp.ToggleTodo |
