/** The habit list page: the fetched list shown newest first, ten habits a
    page, and the edits the page makes to its list once the server has
    accepted an add, an edit or a delete. */
module HabitList {
  import opened Common

  /** A habit as the page holds it; the creation time is opaque. */
  datatype Habit = Habit(id: string, title: string, description: Option<string>, createdAt: int)

  /** What the form hands back: a habit without id and creation time. */
  datatype HabitData = HabitData(title: string, description: Option<string>)

  const ItemsPerPage := 10

  /** `Math.ceil(a / b)` for a positive `b`; a negative zero counts as 0. */
  function CeilDiv(a: int, b: int): (q: int)
    requires b > 0
    ensures b * (q - 1) < a <= b * q
  {
    -((-a) / b)
  }

  /** `totalPages`. */
  function TotalPages(len: nat): (n: nat)
    ensures ItemsPerPage * (n - 1) < len <= ItemsPerPage * n
  {
    CeilDiv(len, ItemsPerPage)
  }

  /** `currentHabits`: the slice of page `page` (1-based). */
  function CurrentHabits(habits: seq<Habit>, page: int): (r: seq<Habit>)
    requires page >= 1
    ensures |r| <= ItemsPerPage
    ensures |r| == Max(0, Min((page - 1) * ItemsPerPage + ItemsPerPage, |habits|) - (page - 1) * ItemsPerPage)
    ensures forall k :: 0 <= k < |r| ==> (page - 1) * ItemsPerPage + k < |habits| && r[k] == habits[(page - 1) * ItemsPerPage + k]
  {
    var start := (page - 1) * ItemsPerPage;
    JsSlice(habits, start, start + ItemsPerPage)
  }

  /** Every habit is shown on exactly one of the pages 1..`totalPages`: on
      page `i / 10 + 1`, in row `i % 10`, and a page before the last is full. */
  lemma PagesCoverList(habits: seq<Habit>, i: nat)
    requires i < |habits|
    ensures 1 <= i / ItemsPerPage + 1 <= TotalPages(|habits|)
    ensures var page := CurrentHabits(habits, i / ItemsPerPage + 1);
            i % ItemsPerPage < |page| && page[i % ItemsPerPage] == habits[i]
    ensures forall p :: 1 <= p < TotalPages(|habits|) ==> |CurrentHabits(habits, p)| == ItemsPerPage
  {
    var page := i / ItemsPerPage + 1;
    var start := (page - 1) * ItemsPerPage;
    assert start + i % ItemsPerPage == i;
    var r := CurrentHabits(habits, page);
    assert |r| == Max(0, Min(start + ItemsPerPage, |habits|) - start);
  }

  /** `fetchHabits`: the server's list (oldest first) is shown reversed. */
  function FetchedHabits(response: seq<Habit>): (r: seq<Habit>)
    ensures |r| == |response|
    ensures forall k :: 0 <= k < |r| ==> r[k] == response[|response| - 1 - k]
  {
    forall k | 0 <= k < |response| ensures Reverse(response)[k] == response[|response| - 1 - k] {
      ReverseAt(response, k);
    }
    Reverse(response)
  }

  /** The habit the page adds after a created response: the server's id,
      the form's fields, and the server's creation time or else now. */
  function NewHabit(data: HabitData, id: string, createdAt: Option<int>, now: int): (h: Habit)
    ensures h.id == id && h.title == data.title && h.description == data.description
    ensures h.createdAt == if createdAt.Some? then createdAt.value else now
  {
    Habit(id, data.title, data.description, createdAt.GetOr(now))
  }

  /** `handleAddHabit`: the new habit goes first. */
  function AddHabit(habits: seq<Habit>, h: Habit): (r: seq<Habit>)
    ensures |r| == |habits| + 1 && r[0] == h && r[1..] == habits
  {
    [h] + habits
  }

  /** `handleEditHabit`: no habit being edited means no change; otherwise
      every habit with its id takes the form's title and description. */
  function EditHabit(habits: seq<Habit>, editing: Option<Habit>, data: HabitData): (r: seq<Habit>)
    ensures |r| == |habits|
    ensures forall k :: 0 <= k < |r| ==> r[k].id == habits[k].id && r[k].createdAt == habits[k].createdAt
    ensures forall k :: 0 <= k < |r| ==>
              if editing.Some? && habits[k].id == editing.value.id
              then r[k].title == data.title && r[k].description == data.description
              else r[k] == habits[k]
  {
    match editing
    case None => habits
    case Some(e) =>
      seq(|habits|, k requires 0 <= k < |habits| =>
        if habits[k].id == e.id then habits[k].(title := data.title, description := data.description) else habits[k])
  }

  /** Saving the same form twice is saving it once. */
  lemma EditIdempotent(habits: seq<Habit>, editing: Option<Habit>, data: HabitData)
    ensures EditHabit(EditHabit(habits, editing, data), editing, data) == EditHabit(habits, editing, data)
  {
  }

  /** The `filter` test of `handleDeleteHabit`. */
  function OtherThan(id: string): Habit -> bool {
    (h: Habit) => h.id != id
  }

  /** `handleDeleteHabit`'s list update: it removes exactly the habits with
      that id. */
  function DeleteHabit(habits: seq<Habit>, id: string): (r: seq<Habit>)
    ensures forall h :: h in r <==> h in habits && h.id != id
  {
    FilterMembers(habits, OtherThan(id));
    Filter(habits, OtherThan(id))
  }

  /** Deleting keeps the remaining habits in their order. */
  lemma DeleteHabitKeepsOrder(habits: seq<Habit>, id: string)
    ensures forall i, j :: 0 <= i < j < |habits| && habits[i].id != id && habits[j].id != id ==>
              exists a, b :: 0 <= a < b < |DeleteHabit(habits, id)| &&
                             DeleteHabit(habits, id)[a] == habits[i] && DeleteHabit(habits, id)[b] == habits[j]
  {
    var keep := OtherThan(id);
    var r := DeleteHabit(habits, id);
    forall i, j | 0 <= i < j < |habits| && habits[i].id != id && habits[j].id != id
      ensures exists a, b :: 0 <= a < b < |r| && r[a] == habits[i] && r[b] == habits[j]
    {
      assert keep(habits[i]) && keep(habits[j]);
      FilterPreservesOrder(habits, keep, i, j);
    }
  }

  /** Deleting a habit just added, whose id the list did not hold, gives
      the list back. */
  lemma DeleteUndoesAdd(habits: seq<Habit>, h: Habit)
    requires forall k :: 0 <= k < |habits| ==> habits[k].id != h.id
    ensures DeleteHabit(AddHabit(habits, h), h.id) == habits
  {
    var keep := OtherThan(h.id);
    var added := AddHabit(habits, h);
    assert added[1..] == habits;
    FilterAll(habits, keep);
  }

  /** The page after a delete: `Math.ceil((len - 1) / 10)` with the length
      from before the delete, taken only when the current page lies beyond
      it and it is positive. */
  function ClampPage(page: int, oldLen: nat): (r: int)
    ensures r <= page
    ensures r != page ==> r == CeilDiv(oldLen - 1, ItemsPerPage) && r >= 1
  {
    var total := CeilDiv(oldLen - 1, ItemsPerPage);
    if page > total && total > 0 then total else page
  }

  /** When one habit of a list of `oldLen` goes, a page that was in range
      is clamped into the range of the shorter list, so it still shows
      something unless the list became empty. */
  lemma ClampKeepsPageInRange(page: int, oldLen: nat)
    requires 1 <= page <= TotalPages(oldLen)
    ensures 1 <= ClampPage(page, oldLen)
    ensures oldLen >= 2 ==> ClampPage(page, oldLen) <= TotalPages(oldLen - 1)
    ensures oldLen == 1 ==> ClampPage(page, oldLen) == 1
  {
  }

  /** The page shown after a delete with a clamped page is not empty. */
  lemma ClampedPageNotEmpty(habits: seq<Habit>, page: int)
    requires |habits| >= 1 && 1 <= page <= TotalPages(|habits| + 1)
    ensures |CurrentHabits(habits, ClampPage(page, |habits| + 1))| >= 1
  {
    ClampKeepsPageInRange(page, |habits| + 1);
    var p := ClampPage(page, |habits| + 1);
    var start := (p - 1) * ItemsPerPage;
    assert start < |habits|;
    assert |CurrentHabits(habits, p)| == Max(0, Min(start + ItemsPerPage, |habits|) - start);
  }
}
