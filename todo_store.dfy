/** The `Todos` table and the `/todos` handlers that read and write it.
    The table is a field of `TodoTable` holding the rows in insertion
    order, together with the next value of the auto-increment key; each
    handler becomes a method (or, for the reads, a function) whose result
    is the response it sends: a value, or `BadRequest`, `NotFound` or the
    database's refusal of an over-long title. */
module TodoStore {
  import opened Common
  import opened Decimal

  /** `varchar("title", 100)`. */
  const TitleMaxLength := 100
  /** The column default of `completed` and the DTO default alike. */
  const DefaultCompleted := false
  /** The column default of `priority` and the DTO default alike. */
  const DefaultPriority := 1
  /** The first value of the auto-increment key of an `IntIdTable`. */
  const FirstId := 1

  /** A row of `Todos`, the fields of the `Todo` entity. */
  datatype TodoRow = TodoRow(id: int, title: string, description: Option<string>, completed: bool, priority: int)

  /** `TodoDTO`, with the defaults a request body may rely on. */
  datatype TodoDTO = TodoDTO(
    id: Option<int> := None,
    title: string,
    description: Option<string> := None,
    completed: bool := DefaultCompleted,
    priority: int := DefaultPriority)

  /** The error responses of the handlers. */
  datatype TodoError =
    | BadRequest    // the path id is not an integer
    | NotFound      // no todo has that id
    | ValueTooLong  // the database refuses a title longer than its column

  // ---------------------------------------------------------------------
  // The table as a value
  // ---------------------------------------------------------------------

  /** `Todo.toDTO()`: the priority is not copied, so the DTO carries its
      default. */
  function ToDTO(row: TodoRow): (dto: TodoDTO)
    ensures dto.id == Some(row.id)
    ensures dto.title == row.title && dto.description == row.description && dto.completed == row.completed
    ensures dto.priority == DefaultPriority
  {
    TodoDTO(id := Some(row.id), title := row.title, description := row.description, completed := row.completed)
  }

  predicate Ascending(rows: seq<TodoRow>) {
    forall i, j :: 0 <= i < j < |rows| ==> rows[i].id < rows[j].id
  }

  /** The keys ascend along the rows (so they are distinct), all below the
      next key to hand out, and every title fits its column. */
  predicate TableOk(rows: seq<TodoRow>, nextId: int) {
    FirstId <= nextId && Ascending(rows) &&
    (forall i :: 0 <= i < |rows| ==> FirstId <= rows[i].id < nextId && |rows[i].title| <= TitleMaxLength)
  }

  function TodoIndex(rows: seq<TodoRow>, id: int): Option<nat> {
    FindIndex(rows, (row: TodoRow) => row.id == id)
  }

  lemma TodoIndexFinds(rows: seq<TodoRow>, id: int)
    ensures TodoIndex(rows, id).Some? <==> exists i :: 0 <= i < |rows| && rows[i].id == id
    ensures TodoIndex(rows, id).Some? ==> rows[TodoIndex(rows, id).value].id == id
  {
    var p := (row: TodoRow) => row.id == id;
    if exists i :: 0 <= i < |rows| && rows[i].id == id {
      var i :| 0 <= i < |rows| && rows[i].id == id;
      assert p(rows[i]);
    }
  }

  /** The first row with key `id` is at `i`. */
  lemma TodoIndexAt(rows: seq<TodoRow>, id: int, i: nat)
    requires i < |rows| && rows[i].id == id
    requires forall j :: 0 <= j < i ==> rows[j].id != id
    ensures TodoIndex(rows, id) == Some(i)
  {
    TodoIndexFinds(rows, id);
  }

  /** `Todo.findById(id)`. */
  function FindTodo(rows: seq<TodoRow>, id: int): (r: Option<TodoRow>)
    ensures r.Some? <==> exists i :: 0 <= i < |rows| && rows[i].id == id
    ensures r.Some? ==> r.value in rows && r.value.id == id
  {
    TodoIndexFinds(rows, id);
    match TodoIndex(rows, id)
    case None => None
    case Some(i) => Some(rows[i])
  }

  /** The rows after the update of `put`: the row with key `id` takes the
      request's title, description, completion and priority. */
  function Overwritten(rows: seq<TodoRow>, id: int, dto: TodoDTO): seq<TodoRow> {
    match TodoIndex(rows, id)
    case None => rows
    case Some(i) => rows[i := TodoRow(id, dto.title, dto.description, dto.completed, dto.priority)]
  }

  /** The rows after the update of `toggle`: the row with key `id` has its
      completion negated. */
  function Toggled(rows: seq<TodoRow>, id: int): seq<TodoRow> {
    match TodoIndex(rows, id)
    case None => rows
    case Some(i) => rows[i := rows[i].(completed := !rows[i].completed)]
  }

  /** The rows after `todo.delete()` on the row with key `id`. */
  function WithoutTodo(rows: seq<TodoRow>, id: int): seq<TodoRow> {
    Filter(rows, (row: TodoRow) => row.id != id)
  }

  /** `put` on a key: that row carries exactly the request's four fields
      and keeps its key; every other row and the order are as before. */
  lemma OverwrittenRows(rows: seq<TodoRow>, id: int, dto: TodoDTO)
    ensures |Overwritten(rows, id, dto)| == |rows|
    ensures forall k :: 0 <= k < |rows| ==>
              Overwritten(rows, id, dto)[k] ==
                if rows[k].id == id && TodoIndex(rows, id) == Some(k)
                then TodoRow(id, dto.title, dto.description, dto.completed, dto.priority)
                else rows[k]
    ensures forall k :: 0 <= k < |rows| ==> Overwritten(rows, id, dto)[k].id == rows[k].id
  {
    TodoIndexFinds(rows, id);
  }

  /** `toggle` on a key negates that row's completion and changes nothing
      else. */
  lemma ToggledRows(rows: seq<TodoRow>, id: int)
    ensures |Toggled(rows, id)| == |rows|
    ensures forall k :: 0 <= k < |rows| ==>
              Toggled(rows, id)[k] ==
                if TodoIndex(rows, id) == Some(k) then rows[k].(completed := !rows[k].completed) else rows[k]
    ensures forall k :: 0 <= k < |rows| ==>
              (TodoIndex(rows, id) == Some(k) <==> (rows[k].id == id && forall j :: 0 <= j < k ==> rows[j].id != id))
  {
    TodoIndexFinds(rows, id);
    forall k | 0 <= k < |rows| && rows[k].id == id && (forall j :: 0 <= j < k ==> rows[j].id != id)
      ensures TodoIndex(rows, id) == Some(k)
    {
      TodoIndexAt(rows, id, k);
    }
  }

  /** Toggling twice restores the table. */
  lemma {:induction false} ToggleTwice(rows: seq<TodoRow>, id: int)
    ensures Toggled(Toggled(rows, id), id) == rows
  {
    TodoIndexFinds(rows, id);
    var once := Toggled(rows, id);
    if TodoIndex(rows, id).Some? {
      var i := TodoIndex(rows, id).value;
      assert forall j :: 0 <= j < i ==> once[j] == rows[j];
      TodoIndexAt(once, id, i);
    } else {
      assert once == rows;
    }
  }

  /** Updates in place keep the table's constraints. */
  lemma UpdatesKeepTableOk(rows: seq<TodoRow>, nextId: int, id: int, dto: TodoDTO)
    requires TableOk(rows, nextId)
    ensures TableOk(Toggled(rows, id), nextId)
    ensures |dto.title| <= TitleMaxLength ==> TableOk(Overwritten(rows, id, dto), nextId)
  {
    TodoIndexFinds(rows, id);
  }

  /** Deleting a key removes exactly the rows with that key. */
  lemma WithoutTodoMembers(rows: seq<TodoRow>, id: int)
    ensures forall row :: row in WithoutTodo(rows, id) <==> row in rows && row.id != id
  {
    var keep := (row: TodoRow) => row.id != id;
    var r := WithoutTodo(rows, id);
    forall row | row in rows && row.id != id ensures row in r {
      var k :| 0 <= k < |rows| && rows[k] == row;
      assert keep(rows[k]);
    }
    forall row | row in r ensures row in rows && row.id != id {
      var k :| 0 <= k < |r| && r[k] == row;
    }
  }

  /** Deleting keeps the keys ascending, so it keeps the order of the rest. */
  lemma {:induction false} WithoutTodoAscending(rows: seq<TodoRow>, id: int)
    requires Ascending(rows)
    ensures Ascending(WithoutTodo(rows, id))
    decreases |rows|
  {
    if rows != [] {
      var tail := rows[1..];
      assert Ascending(tail) by {
        forall i, j | 0 <= i < j < |tail| ensures tail[i].id < tail[j].id {
          assert tail[i] == rows[i + 1] && tail[j] == rows[j + 1];
        }
      }
      WithoutTodoAscending(tail, id);
      var rt := WithoutTodo(tail, id);
      if rows[0].id != id {
        assert WithoutTodo(rows, id) == [rows[0]] + rt;
        forall j | 0 <= j < |rt| ensures rows[0].id < rt[j].id {
          assert rt[j] in tail;
          var m :| 0 <= m < |tail| && tail[m] == rt[j];
          assert rows[m + 1] == rt[j];
        }
      } else {
        assert WithoutTodo(rows, id) == rt;
      }
    }
  }

  predicate HasTodo(rows: seq<TodoRow>, id: int) {
    exists i :: 0 <= i < |rows| && rows[i].id == id
  }

  /** With distinct keys, deleting a key shrinks the table by one iff the
      key was there. */
  lemma {:induction false} WithoutTodoLength(rows: seq<TodoRow>, id: int)
    requires Ascending(rows)
    ensures |WithoutTodo(rows, id)| == |rows| - if HasTodo(rows, id) then 1 else 0
    decreases |rows|
  {
    if rows != [] {
      var tail := rows[1..];
      assert Ascending(tail) by {
        forall i, j | 0 <= i < j < |tail| ensures tail[i].id < tail[j].id {
          assert tail[i] == rows[i + 1] && tail[j] == rows[j + 1];
        }
      }
      WithoutTodoLength(tail, id);
      if rows[0].id != id {
        assert WithoutTodo(rows, id) == [rows[0]] + WithoutTodo(tail, id);
        assert HasTodo(rows, id) ==> HasTodo(tail, id) by {
          if HasTodo(rows, id) {
            var i :| 0 <= i < |rows| && rows[i].id == id;
            assert tail[i - 1].id == id;
          }
        }
        assert HasTodo(tail, id) ==> HasTodo(rows, id) by {
          if HasTodo(tail, id) {
            var i :| 0 <= i < |tail| && tail[i].id == id;
            assert rows[i + 1].id == id;
          }
        }
      } else {
        assert WithoutTodo(rows, id) == WithoutTodo(tail, id);
        assert HasTodo(rows, id);
        forall i | 0 <= i < |tail| ensures tail[i].id != id {
          assert rows[0].id < rows[i + 1].id;
        }
      }
    }
  }

  /** Deleting a key keeps the table's constraints, removes exactly the row
      with that key, and shrinks the table by one iff the key was there. */
  lemma WithoutTodoRows(rows: seq<TodoRow>, nextId: int, id: int)
    requires TableOk(rows, nextId)
    ensures TableOk(WithoutTodo(rows, id), nextId)
    ensures forall row :: row in WithoutTodo(rows, id) <==> row in rows && row.id != id
    ensures |WithoutTodo(rows, id)| == |rows| - if FindTodo(rows, id).Some? then 1 else 0
  {
    WithoutTodoMembers(rows, id);
    WithoutTodoAscending(rows, id);
    WithoutTodoLength(rows, id);
    var r := WithoutTodo(rows, id);
    forall i | 0 <= i < |r| ensures FirstId <= r[i].id < nextId && |r[i].title| <= TitleMaxLength {
      assert r[i] in rows;
    }
  }

  /** A new row with the next key keeps the keys ascending. */
  lemma AppendKeepsTableOk(rows: seq<TodoRow>, nextId: int, row: TodoRow)
    requires TableOk(rows, nextId) && row.id == nextId && |row.title| <= TitleMaxLength
    ensures TableOk(rows + [row], nextId + 1)
    ensures FindTodo(rows + [row], nextId) == Some(row)
  {
    var r := rows + [row];
    assert r[|rows|] == row;
    assert forall j :: 0 <= j < |rows| ==> r[j] == rows[j];
    TodoIndexAt(r, nextId, |rows|);
  }

  /** A request body that leaves out `completed` and `priority` gets the
      column defaults. */
  lemma RequestDefaults(title: string)
    ensures TodoDTO(title := title).completed == DefaultCompleted
    ensures TodoDTO(title := title).priority == DefaultPriority
    ensures TodoDTO(title := title).id == None && TodoDTO(title := title).description == None
  {
  }

  // ---------------------------------------------------------------------
  // The store and its handlers
  // ---------------------------------------------------------------------

  class TodoTable {
    var todos: seq<TodoRow>
    var nextId: int

    ghost predicate Valid()
      reads this
    {
      TableOk(todos, nextId)
    }

    /** The empty table `SchemaUtils.create(Todos)` makes. */
    constructor ()
      ensures Valid() && todos == [] && nextId == FirstId
    {
      todos := [];
      nextId := FirstId;
    }

    /** `GET /todos`: every todo, in ascending key order. */
    function ListTodos(): (r: seq<TodoDTO>)
      reads this
      requires Valid()
      ensures |r| == |todos|
      ensures forall k :: 0 <= k < |r| ==> r[k] == ToDTO(todos[k])
      ensures forall i, j :: 0 <= i < j < |r| ==> r[i].id.Some? && r[j].id.Some? && r[i].id.value < r[j].id.value
    {
      seq(|todos|, k reads this requires 0 <= k < |todos| => ToDTO(todos[k]))
    }

    /** `GET /todos/{id}`. */
    function GetTodo(idText: string): (r: Result<TodoDTO, TodoError>)
      reads this
      ensures ToIntOrNull(idText).None? ==> r == Failure(BadRequest)
      ensures ToIntOrNull(idText).Some? ==>
                var id := ToIntOrNull(idText).value;
                (r.Success? <==> exists i :: 0 <= i < |todos| && todos[i].id == id) &&
                (r.Failure? ==> r.error == NotFound) &&
                (r.Success? ==> exists i :: 0 <= i < |todos| && todos[i].id == id && r.value == ToDTO(todos[i]))
    {
      match ToIntOrNull(idText)
      case None => Failure(BadRequest)
      case Some(id) =>
        match FindTodo(todos, id)
        case None => Failure(NotFound)
        case Some(row) => Success(ToDTO(row))
    }

    /** `POST /todos`: stores the request's fields under the next key and
        answers with the stored todo read back. */
    method CreateTodo(dto: TodoDTO) returns (r: Result<TodoDTO, TodoError>)
      requires Valid()
      modifies this
      ensures Valid()
      ensures |dto.title| > TitleMaxLength ==> r == Failure(ValueTooLong) && todos == old(todos) && nextId == old(nextId)
      ensures |dto.title| <= TitleMaxLength ==>
                var row := TodoRow(old(nextId), dto.title, dto.description, dto.completed, dto.priority);
                todos == old(todos) + [row] && nextId == old(nextId) + 1 && r == Success(ToDTO(row))
      ensures r.Success? && r.value.id.value <= IntMax ==> GetTodo(IntToDecimal(r.value.id.value)) == r
    {
      if |dto.title| > TitleMaxLength {
        return Failure(ValueTooLong);
      }
      var row := TodoRow(nextId, dto.title, dto.description, dto.completed, dto.priority);
      AppendKeepsTableOk(todos, nextId, row);
      todos := todos + [row];
      nextId := nextId + 1;
      r := Success(ToDTO(row));
      if row.id <= IntMax {
        ToIntOrNullOfDecimal(row.id);
      }
    }

    /** `PUT /todos/{id}`: overwrites the four fields of an existing todo. */
    method PutTodo(idText: string, dto: TodoDTO) returns (r: Result<(), TodoError>)
      requires Valid()
      modifies this
      ensures Valid() && nextId == old(nextId)
      ensures ToIntOrNull(idText).None? ==> r == Failure(BadRequest)
      ensures ToIntOrNull(idText).Some? ==>
                var id := ToIntOrNull(idText).value;
                if FindTodo(old(todos), id).None? then r == Failure(NotFound)
                else if |dto.title| > TitleMaxLength then r == Failure(ValueTooLong)
                else r == Success(()) && todos == Overwritten(old(todos), id, dto)
      ensures r.Failure? ==> todos == old(todos)
    {
      var parsed := ToIntOrNull(idText);
      if parsed.None? {
        return Failure(BadRequest);
      }
      var id := parsed.value;
      if FindTodo(todos, id).None? {
        return Failure(NotFound);
      }
      if |dto.title| > TitleMaxLength {
        return Failure(ValueTooLong);
      }
      UpdatesKeepTableOk(todos, nextId, id, dto);
      todos := Overwritten(todos, id, dto);
      r := Success(());
    }

    /** `DELETE /todos/{id}`. */
    method DeleteTodo(idText: string) returns (r: Result<(), TodoError>)
      requires Valid()
      modifies this
      ensures Valid() && nextId == old(nextId)
      ensures ToIntOrNull(idText).None? ==> r == Failure(BadRequest)
      ensures ToIntOrNull(idText).Some? ==>
                var id := ToIntOrNull(idText).value;
                if FindTodo(old(todos), id).None? then r == Failure(NotFound)
                else r == Success(()) && todos == WithoutTodo(old(todos), id) && |todos| == |old(todos)| - 1
      ensures r.Failure? ==> todos == old(todos)
    {
      var parsed := ToIntOrNull(idText);
      if parsed.None? {
        return Failure(BadRequest);
      }
      var id := parsed.value;
      if FindTodo(todos, id).None? {
        return Failure(NotFound);
      }
      WithoutTodoRows(todos, nextId, id);
      todos := WithoutTodo(todos, id);
      r := Success(());
    }

    /** `PATCH /todos/{id}/toggle`. */
    method ToggleTodo(idText: string) returns (r: Result<(), TodoError>)
      requires Valid()
      modifies this
      ensures Valid() && nextId == old(nextId)
      ensures ToIntOrNull(idText).None? ==> r == Failure(BadRequest)
      ensures ToIntOrNull(idText).Some? ==>
                var id := ToIntOrNull(idText).value;
                if FindTodo(old(todos), id).None? then r == Failure(NotFound)
                else r == Success(()) && todos == Toggled(old(todos), id)
      ensures r.Failure? ==> todos == old(todos)
    {
      var parsed := ToIntOrNull(idText);
      if parsed.None? {
        return Failure(BadRequest);
      }
      var id := parsed.value;
      if FindTodo(todos, id).None? {
        return Failure(NotFound);
      }
      UpdatesKeepTableOk(todos, nextId, id, TodoDTO(title := ""));
      todos := Toggled(todos, id);
      r := Success(());
    }
  }
}
