/** The client-side to-do collection of the home page: the record it
    holds and the three handlers that replace it with a new sequence. */
module Page {
  import opened Wrappers
  import opened JsString
  import AddTodoForm

  /** A to-do item as the page keeps it; `createdAt` is the creation time
      in milliseconds, supplied by the caller. */
  datatype Todo = Todo(id: string, text: string, completed: bool, createdAt: int)

  /** `t` with its completion flag negated and every other field kept. */
  function Flip(t: Todo): (r: Todo)
    ensures r.id == t.id && r.text == t.text && r.createdAt == t.createdAt
    ensures r.completed != t.completed
  {
    t.(completed := !t.completed)
  }

  // ---------------------------------------------------------------------
  // Reference notions the handlers are measured against
  // ---------------------------------------------------------------------

  predicate HasId(todos: seq<Todo>, id: string) {
    exists i :: 0 <= i < |todos| && todos[i].id == id
  }

  /** No two items share an id. */
  predicate UniqueIds(todos: seq<Todo>) {
    forall i, j :: 0 <= i < j < |todos| ==> todos[i].id != todos[j].id
  }

  /** `a` can be obtained from `b` by dropping items, keeping the order of the rest. */
  predicate IsSubsequence(a: seq<Todo>, b: seq<Todo>)
    decreases |b|
  {
    || |a| == 0
    || (|b| > 0 && ((a[0] == b[0] && IsSubsequence(a[1..], b[1..])) || IsSubsequence(a, b[1..])))
  }

  /** Number of items carrying `id`. */
  function CountId(todos: seq<Todo>, id: string): (n: nat)
    ensures n <= |todos|
    ensures n == 0 <==> !HasId(todos, id)
  {
    if |todos| == 0 then 0
    else (if todos[0].id == id then 1 else 0) + CountId(todos[1..], id)
  }

  // ---------------------------------------------------------------------
  // The handlers
  // ---------------------------------------------------------------------

  /** `addTodo`: a fresh, not yet completed item holding exactly `text` goes
      in front of the list. The id and the timestamp, which the page draws
      from the clock and a random source, are parameters. */
  function AddTodo(todos: seq<Todo>, id: string, text: string, createdAt: int): (r: seq<Todo>)
    ensures |r| == |todos| + 1
    ensures r[0].id == id && r[0].text == text && !r[0].completed && r[0].createdAt == createdAt
    ensures r[1..] == todos
  {
    [Todo(id, text, false, createdAt)] + todos
  }

  /** `toggleTodo`: every item carrying `id` has its flag negated, nothing else moves. */
  function ToggleTodo(todos: seq<Todo>, id: string): (r: seq<Todo>)
    ensures |r| == |todos|
    ensures forall i :: 0 <= i < |todos| ==>
      && r[i].id == todos[i].id
      && r[i].text == todos[i].text
      && r[i].createdAt == todos[i].createdAt
      && (r[i].completed <==> (todos[i].completed != (todos[i].id == id)))
  {
    if |todos| == 0 then []
    else [if todos[0].id == id then Flip(todos[0]) else todos[0]] + ToggleTodo(todos[1..], id)
  }

  /** `deleteTodo`: drops every item carrying `id` and keeps the others in order. */
  function DeleteTodo(todos: seq<Todo>, id: string): (r: seq<Todo>)
    ensures !HasId(r, id)
    ensures forall t :: t in r <==> t in todos && t.id != id
    ensures IsSubsequence(r, todos)
    ensures |r| == |todos| - CountId(todos, id)
  {
    if |todos| == 0 then []
    else if todos[0].id == id then DeleteTodo(todos[1..], id)
    else [todos[0]] + DeleteTodo(todos[1..], id)
  }

  /** `completedCount`: the length of the completed items. */
  function CompletedCount(todos: seq<Todo>): (n: nat)
    ensures n <= |todos|
    ensures n == 0 <==> forall i :: 0 <= i < |todos| ==> !todos[i].completed
    ensures n == |todos| <==> forall i :: 0 <= i < |todos| ==> todos[i].completed
  {
    if |todos| == 0 then 0
    else (if todos[0].completed then 1 else 0) + CompletedCount(todos[1..])
  }

  /** The progress line of the header: shown, as `(completedCount, totalCount)`,
      only when the list is not empty. */
  function Counter(todos: seq<Todo>): (r: Option<(nat, nat)>)
    ensures r.Some? <==> |todos| > 0
    ensures r.Some? ==> r.value.1 == |todos| && r.value.0 <= r.value.1
    ensures r.Some? ==> r.value.0 == CompletedCount(todos)
  {
    var totalCount := |todos|;
    if totalCount > 0 then Some((CompletedCount(todos), totalCount)) else None
  }

  // ---------------------------------------------------------------------
  // Properties relating the handlers
  // ---------------------------------------------------------------------

  /** Toggling the same id twice gives back the original list. */
  lemma ToggleTwiceRestores(todos: seq<Todo>, id: string)
    ensures ToggleTodo(ToggleTodo(todos, id), id) == todos
  {
  }

  /** Toggling an id that no item carries changes nothing. */
  lemma ToggleAbsentId(todos: seq<Todo>, id: string)
    requires !HasId(todos, id)
    ensures ToggleTodo(todos, id) == todos
  {
  }

  /** Deleting an id that no item carries changes nothing. */
  lemma {:induction false} DeleteAbsentId(todos: seq<Todo>, id: string)
    requires !HasId(todos, id)
    ensures DeleteTodo(todos, id) == todos
  {
    if |todos| > 0 {
      assert todos[0].id != id;
      assert !HasId(todos[1..], id) by {
        forall i | 0 <= i < |todos[1..]| ensures todos[1..][i].id != id {
          assert todos[1..][i] == todos[i + 1];
        }
      }
      DeleteAbsentId(todos[1..], id);
      assert todos == [todos[0]] + todos[1..];
    }
  }

  /** Deleting twice is deleting once. */
  lemma DeleteIdempotent(todos: seq<Todo>, id: string)
    ensures DeleteTodo(DeleteTodo(todos, id), id) == DeleteTodo(todos, id)
  {
  }

  /** Adding an item under a fresh id and then deleting that id restores the list. */
  lemma AddThenDeleteRestores(todos: seq<Todo>, id: string, text: string, createdAt: int)
    requires !HasId(todos, id)
    ensures DeleteTodo(AddTodo(todos, id, text, createdAt), id) == todos
  {
    var added := AddTodo(todos, id, text, createdAt);
    assert added[1..] == todos;
    DeleteAbsentId(todos, id);
  }

  /** The indices of the completed items. */
  function CompletedIndices(todos: seq<Todo>): set<int> {
    set i | 0 <= i < |todos| && todos[i].completed
  }

  lemma {:induction false} CompletedCountAppend(a: seq<Todo>, b: seq<Todo>)
    ensures CompletedCount(a + b) == CompletedCount(a) + CompletedCount(b)
  {
    if |a| > 0 {
      assert (a + b)[1..] == a[1..] + b;
      CompletedCountAppend(a[1..], b);
    } else {
      assert a + b == b;
    }
  }

  /** `completedCount` is the number of positions holding a completed item. */
  lemma {:induction false} CompletedCountIsIndexCount(todos: seq<Todo>)
    ensures CompletedCount(todos) == |CompletedIndices(todos)|
  {
    if |todos| > 0 {
      var n := |todos| - 1;
      var prefix := todos[..n];
      assert todos == prefix + [todos[n]];
      CompletedCountAppend(prefix, [todos[n]]);
      assert CompletedCount([todos[n]]) == (if todos[n].completed then 1 else 0);
      CompletedCountIsIndexCount(prefix);
      if todos[n].completed {
        assert CompletedIndices(todos) == CompletedIndices(prefix) + {n};
      } else {
        assert CompletedIndices(todos) == CompletedIndices(prefix);
      }
    } else {
      assert CompletedIndices(todos) == {};
    }
  }

  /** A newly added item is not completed, so the completed count stays. */
  lemma AddKeepsCompletedCount(todos: seq<Todo>, id: string, text: string, createdAt: int)
    ensures CompletedCount(AddTodo(todos, id, text, createdAt)) == CompletedCount(todos)
  {
  }

  /** Toggling the item that alone carries `id` moves the completed count by
      one: down if it was completed, up otherwise. */
  lemma {:induction false} ToggleMovesCompletedCount(todos: seq<Todo>, id: string, i: int)
    requires UniqueIds(todos)
    requires 0 <= i < |todos| && todos[i].id == id
    ensures CompletedCount(ToggleTodo(todos, id))
         == CompletedCount(todos) + (if todos[i].completed then -1 else 1)
  {
    var r := ToggleTodo(todos, id);
    assert r[1..] == ToggleTodo(todos[1..], id);
    if i == 0 {
      assert !HasId(todos[1..], id) by {
        forall k | 0 <= k < |todos[1..]| ensures todos[1..][k].id != id {
          assert todos[1..][k] == todos[k + 1];
        }
      }
      ToggleAbsentId(todos[1..], id);
    } else {
      assert todos[1..][i - 1] == todos[i];
      ToggleMovesCompletedCount(todos[1..], id, i - 1);
    }
  }

  // ---------------------------------------------------------------------
  // The page as a whole: handlers as actions on one state
  // ---------------------------------------------------------------------

  /** The user actions the page wires to its handlers: a submit of the add
      form (whose `onAdd` is `addTodo`), a checkbox click, a delete click.
      A submit carries the id and timestamp `addTodo` would draw. */
  datatype Action =
    | Submit(input: string, id: string, createdAt: int)
    | Toggle(id: string)
    | Delete(id: string)

  function Apply(todos: seq<Todo>, a: Action): (r: seq<Todo>)
    ensures a.Submit? && AllWhitespace(a.input) ==> r == todos
    ensures a.Submit? && !AllWhitespace(a.input) ==> r == AddTodo(todos, a.id, Trim(a.input), a.createdAt)
    ensures a.Toggle? ==> r == ToggleTodo(todos, a.id)
    ensures a.Delete? ==> r == DeleteTodo(todos, a.id)
  {
    match a
    case Submit(input, id, createdAt) =>
      (match AddTodoForm.HandleSubmit(input).added
       case Some(text) => AddTodo(todos, id, text, createdAt)
       case None => todos)
    case Toggle(id) => ToggleTodo(todos, id)
    case Delete(id) => DeleteTodo(todos, id)
  }

  /** What the page keeps true when items only come from the add form and
      ids are fresh: ids are unique and every text is non-empty and trimmed. */
  predicate Wellformed(todos: seq<Todo>) {
    && UniqueIds(todos)
    && forall i :: 0 <= i < |todos| ==> todos[i].text != [] && IsTrimmed(todos[i].text)
  }

  /** The one assumption on the environment: a submit draws an id no item carries. */
  predicate Admissible(todos: seq<Todo>, a: Action) {
    a.Submit? ==> !HasId(todos, a.id)
  }

  lemma UniqueIdsTail(todos: seq<Todo>)
    requires |todos| > 0 && UniqueIds(todos)
    ensures UniqueIds(todos[1..])
  {
  }

  /** Deleting keeps ids unique. */
  lemma {:induction false} DeleteKeepsUniqueIds(todos: seq<Todo>, id: string)
    requires UniqueIds(todos)
    ensures UniqueIds(DeleteTodo(todos, id))
  {
    if |todos| > 0 {
      var rest := todos[1..];
      UniqueIdsTail(todos);
      DeleteKeepsUniqueIds(rest, id);
      if todos[0].id != id {
        var tail := DeleteTodo(rest, id);
        var r := [todos[0]] + tail;
        forall j | 0 <= j < |tail| ensures todos[0].id != tail[j].id {
          assert tail[j] in rest;
          var k :| 0 <= k < |rest| && rest[k] == tail[j];
          assert todos[k + 1] == tail[j];
        }
        forall i, j | 0 <= i < j < |r| ensures r[i].id != r[j].id {
          assert r[j] == tail[j - 1];
          if i > 0 {
            assert r[i] == tail[i - 1];
          }
        }
      }
    }
  }

  lemma DeleteKeepsWellformed(todos: seq<Todo>, id: string)
    requires Wellformed(todos)
    ensures Wellformed(DeleteTodo(todos, id))
  {
    DeleteKeepsUniqueIds(todos, id);
    var r := DeleteTodo(todos, id);
    forall i | 0 <= i < |r| ensures r[i].text != [] && IsTrimmed(r[i].text) {
      assert r[i] in todos;
    }
  }

  /** Adding a non-empty trimmed text under a fresh id keeps the page well formed. */
  lemma AddKeepsWellformed(todos: seq<Todo>, id: string, text: string, createdAt: int)
    requires Wellformed(todos) && !HasId(todos, id)
    requires text != [] && IsTrimmed(text)
    ensures Wellformed(AddTodo(todos, id, text, createdAt))
  {
  }

  /** Every admissible action keeps the page well formed. */
  lemma ApplyKeepsWellformed(todos: seq<Todo>, a: Action)
    requires Wellformed(todos) && Admissible(todos, a)
    ensures Wellformed(Apply(todos, a))
  {
    match a
    case Submit(input, id, createdAt) =>
      var added := AddTodoForm.HandleSubmit(input).added;
      if added.Some? {
        AddKeepsWellformed(todos, id, added.value, createdAt);
      }
    case Toggle(id) =>
    case Delete(id) =>
      DeleteKeepsWellformed(todos, id);
  }
}
