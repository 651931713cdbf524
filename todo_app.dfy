/** The todo page's list edits once the server has answered: add, toggle
    and delete. The server's answer to the toggle is the body of the
    update request's response, which the page puts into its list as it is. */
module TodoApp {
  import opened Common

  /** A todo as the page holds it. */
  datatype Todo = Todo(id: int, title: string, description: Option<string>, completed: bool)

  /** A response body as the page receives it: a todo, or plain text that
      is not JSON and is handed on unparsed. */
  datatype Body = TodoBody(todo: Todo) | TextBody(text: string)

  /** The text the update handler answers with when it succeeds. */
  const UpdatedText := "Todo updated"

  /** `addTodo`: the created todo goes last. */
  function AddTodo(todos: seq<Todo>, created: Todo): (r: seq<Todo>)
    ensures |r| == |todos| + 1 && r[|todos|] == created && r[..|todos|] == todos
  {
    todos + [created]
  }

  function TodoIndex(todos: seq<Todo>, id: int): Option<nat> {
    FindIndex(todos, (t: Todo) => t.id == id)
  }

  /** The todo `toggleTodo` sends: the first with that id, with `completed`
      set to the negation of the argument; none (and no request) when no
      todo has the id. */
  function ToggleRequest(todos: seq<Todo>, id: int, completed: bool): (r: Option<Todo>)
    ensures r.None? <==> forall k :: 0 <= k < |todos| ==> todos[k].id != id
    ensures r.Some? ==> exists k :: 0 <= k < |todos| && todos[k].id == id &&
                                    r.value == todos[k].(completed := !completed)
  {
    match TodoIndex(todos, id)
    case None => None
    case Some(i) => Some(todos[i].(completed := !completed))
  }

  /** `toggleTodo`'s update as written: every todo with the id is replaced
      by the response body, the others are kept. */
  function ReplaceWithReply(todos: seq<Todo>, id: int, reply: Body): (r: seq<Body>)
    ensures |r| == |todos|
    ensures forall k :: 0 <= k < |r| ==> r[k] == if todos[k].id == id then reply else TodoBody(todos[k])
  {
    seq(|todos|, k requires 0 <= k < |todos| => if todos[k].id == id then reply else TodoBody(todos[k]))
  }

  /** A successful update answers with text, so the toggled todo's place
      in the list holds that text instead of a todo. */
  lemma ToggleStoresText(todos: seq<Todo>, id: int, completed: bool)
    requires ToggleRequest(todos, id, completed).Some?
    ensures exists k :: 0 <= k < |todos| && ReplaceWithReply(todos, id, TextBody(UpdatedText))[k] == TextBody(UpdatedText)
    ensures forall k :: 0 <= k < |todos| ==>
              (ReplaceWithReply(todos, id, TextBody(UpdatedText))[k].TodoBody? <==> todos[k].id != id)
  {
    var k :| 0 <= k < |todos| && todos[k].id == id;
    assert ReplaceWithReply(todos, id, TextBody(UpdatedText))[k] == TextBody(UpdatedText);
  }

  /** `toggleTodo`'s update as intended: the todos with the id are replaced
      by the todo that was sent, the others are kept; on an unknown id
      nothing changes. */
  function ToggleTodo(todos: seq<Todo>, id: int, completed: bool): (r: seq<Todo>)
    ensures |r| == |todos|
    ensures ToggleRequest(todos, id, completed).None? ==> r == todos
    ensures forall k :: 0 <= k < |r| ==>
              if todos[k].id == id then r[k] == ToggleRequest(todos, id, completed).value
              else r[k] == todos[k]
  {
    match ToggleRequest(todos, id, completed)
    case None => todos
    case Some(sent) => seq(|todos|, k requires 0 <= k < |todos| => if todos[k].id == id then sent else todos[k])
  }

  /** With distinct ids, toggling changes exactly one todo, and only its
      completion; toggling back with the new value restores the list. */
  lemma ToggleFlipsOne(todos: seq<Todo>, id: int, k: nat)
    requires k < |todos| && todos[k].id == id
    requires forall i, j :: 0 <= i < j < |todos| ==> todos[i].id != todos[j].id
    ensures ToggleTodo(todos, id, todos[k].completed)[k] == todos[k].(completed := !todos[k].completed)
    ensures var once := ToggleTodo(todos, id, todos[k].completed);
            ToggleTodo(once, id, once[k].completed) == todos
  {
    assert forall m :: 0 <= m < |todos| && todos[m].id == id ==> m == k;
    var once := ToggleTodo(todos, id, todos[k].completed);
    assert forall m :: 0 <= m < |once| ==> once[m].id == todos[m].id;
    var twice := ToggleTodo(once, id, once[k].completed);
    assert forall m :: 0 <= m < |todos| ==> twice[m] == todos[m];
  }

  /** The `filter` test of `deleteTodo`. */
  function OtherThan(id: int): Todo -> bool {
    (t: Todo) => t.id != id
  }

  /** `deleteTodo`'s list update: it removes exactly the todos with that
      id. */
  function DeleteTodo(todos: seq<Todo>, id: int): (r: seq<Todo>)
    ensures forall t :: t in r <==> t in todos && t.id != id
  {
    FilterMembers(todos, OtherThan(id));
    Filter(todos, OtherThan(id))
  }

  /** Deleting keeps the remaining todos in their order. */
  lemma DeleteTodoKeepsOrder(todos: seq<Todo>, id: int)
    ensures forall i, j :: 0 <= i < j < |todos| && todos[i].id != id && todos[j].id != id ==>
              exists a, b :: 0 <= a < b < |DeleteTodo(todos, id)| &&
                             DeleteTodo(todos, id)[a] == todos[i] && DeleteTodo(todos, id)[b] == todos[j]
  {
    var keep := OtherThan(id);
    var r := DeleteTodo(todos, id);
    forall i, j | 0 <= i < j < |todos| && todos[i].id != id && todos[j].id != id
      ensures exists a, b :: 0 <= a < b < |r| && r[a] == todos[i] && r[b] == todos[j]
    {
      assert keep(todos[i]) && keep(todos[j]);
      FilterPreservesOrder(todos, keep, i, j);
    }
  }

  /** Deleting a todo just added, whose id the list did not hold, gives the
      list back. */
  lemma DeleteUndoesAdd(todos: seq<Todo>, created: Todo)
    requires forall k :: 0 <= k < |todos| ==> todos[k].id != created.id
    ensures DeleteTodo(AddTodo(todos, created), created.id) == todos
  {
    var keep := OtherThan(created.id);
    FilterAll(todos, keep);
    FilterAppend(todos, keep, created);
  }
}
