/**
 * The client-side list of src/components/TodoList.tsx. Its two pieces of
 * React state, the list and the text typed in the input, form one
 * ListState value. Each handler maps the state it sees to the state it
 * hands to `setTodos` and `setInputText`. Ids and timestamps from the clock
 * are parameters.
 */
module TodoList {
  import opened EcmaText
  import opened TodoRecords

  datatype ListState = ListState(todos: seq<Todo>, inputText: string)

  /** `disabled={inputText.trim() === ''}`: the add button is enabled when the input is not blank. */
  predicate AddEnabled(inputText: string)
    ensures AddEnabled(inputText) <==> !IsBlank(inputText)
  {
    Trim(inputText) != []
  }

  /**
   * `handleAddTodo`: a blank input changes nothing; otherwise a new, not
   * completed record holding the untrimmed text is put in front of the
   * unchanged list and the input is cleared.
   */
  function HandleAddTodo(st: ListState, id: int, now: int): (r: ListState)
    ensures IsBlank(st.inputText) ==> r == st
    ensures !IsBlank(st.inputText) ==>
      |r.todos| == |st.todos| + 1 && r.todos[1..] == st.todos && r.inputText == []
    ensures !IsBlank(st.inputText) ==>
      r.todos[0].text == st.inputText && !r.todos[0].completed
      && r.todos[0].id == id && r.todos[0].createdAt == now
  {
    if Trim(st.inputText) != [] then
      ListState([NewTodo(id, st.inputText, now)] + st.todos, "")
    else
      st
  }

  /** The button is enabled exactly when pressing it would add a record. */
  lemma AddEnabledIffAdds(st: ListState, id: int, now: int)
    ensures AddEnabled(st.inputText) <==> HandleAddTodo(st, id, now) != st
  {
  }

  /** `todos.map(todo => todo.id === id ? { ...todo, completed: !todo.completed } : todo)`. */
  function ToggleAll(s: seq<Todo>, id: int): (r: seq<Todo>)
    ensures SameButCompletion(r, s)
  {
    if s == [] then []
    else [if s[0].id == id then Flipped(s[0]) else s[0]] + ToggleAll(s[1..], id)
  }

  /**
   * The client toggle keeps length and order, keeps every record's id, text
   * and creation time, and flips `completed` exactly on the records carrying `id`.
   */
  lemma {:induction false} ToggleAllAt(s: seq<Todo>, id: int)
    ensures |ToggleAll(s, id)| == |s|
    ensures forall i :: 0 <= i < |s| ==>
      var r := ToggleAll(s, id)[i];
      r.id == s[i].id && r.text == s[i].text && r.createdAt == s[i].createdAt
      && (r.completed <==> (if s[i].id == id then !s[i].completed else s[i].completed))
  {
    if s != [] {
      ToggleAllAt(s[1..], id);
      assert forall i :: 1 <= i < |s| ==> ToggleAll(s, id)[i] == ToggleAll(s[1..], id)[i - 1];
    }
  }

  /** Toggling the same id twice gives back the original list. */
  lemma {:induction false} ToggleAllTwice(s: seq<Todo>, id: int)
    ensures ToggleAll(ToggleAll(s, id), id) == s
  {
    if s != [] {
      ToggleAllTwice(s[1..], id);
      assert ToggleAll(s, id)[1..] == ToggleAll(s[1..], id);
    }
  }

  /** Toggling an id no record carries changes nothing. */
  lemma {:induction false} ToggleAllAbsent(s: seq<Todo>, id: int)
    requires !HasId(s, id)
    ensures ToggleAll(s, id) == s
  {
    if s != [] {
      assert s[0].id != id;
      ToggleAllAbsent(s[1..], id);
    }
  }

  /** `handleToggleTodo`: toggles every record with `id`; the input text is untouched. */
  function HandleToggleTodo(st: ListState, id: int): (r: ListState)
    ensures r.inputText == st.inputText && SameButCompletion(r.todos, st.todos)
    ensures forall i :: 0 <= i < |st.todos| ==>
      (r.todos[i].completed <==> (st.todos[i].completed != (st.todos[i].id == id)))
  {
    ToggleAllAt(st.todos, id);
    st.(todos := ToggleAll(st.todos, id))
  }

  lemma HandleToggleTodoTwice(st: ListState, id: int)
    ensures HandleToggleTodo(HandleToggleTodo(st, id), id) == st
  {
    ToggleAllTwice(st.todos, id);
  }

  /** `handleRemoveTodo`: keeps the records whose id differs; the input text is untouched. */
  function HandleRemoveTodo(st: ListState, id: int): (r: ListState)
    ensures r.inputText == st.inputText && IsSubsequence(r.todos, st.todos)
    ensures forall t :: multiset(r.todos)[t] == if t.id == id then 0 else multiset(st.todos)[t]
  {
    WithoutIsSubsequence(st.todos, id);
    st.(todos := Without(st.todos, id))
  }

  /**
   * After removal no record carries `id`, the rest keep their relative order,
   * and the list is unchanged exactly when `id` was absent.
   */
  lemma HandleRemoveTodoEffect(st: ListState, id: int)
    ensures !HasId(HandleRemoveTodo(st, id).todos, id)
    ensures IsSubsequence(HandleRemoveTodo(st, id).todos, st.todos)
    ensures HandleRemoveTodo(st, id) == st <==> !HasId(st.todos, id)
  {
    var r := HandleRemoveTodo(st, id).todos;
    WithoutIsSubsequence(st.todos, id);
    WithoutUnchangedIffAbsent(st.todos, id);
    assert HandleRemoveTodo(st, id) == st <==> r == st.todos;
  }

  /** Removing the same id twice is the same as removing it once. */
  lemma HandleRemoveTodoIdempotent(st: ListState, id: int)
    ensures HandleRemoveTodo(HandleRemoveTodo(st, id), id) == HandleRemoveTodo(st, id)
  {
    WithoutIdempotent(st.todos, id);
  }

  /** `todos.filter(t => t.completed).length`: the counter's completed figure, at most the total. */
  function CompletedCount(s: seq<Todo>): (n: nat)
    ensures n <= |s|
    ensures n == 0 <==> forall i :: 0 <= i < |s| ==> !s[i].completed
    ensures n == |s| <==> forall i :: 0 <= i < |s| ==> s[i].completed
  {
    if s == [] then 0
    else (if s[0].completed then 1 else 0) + CompletedCount(s[1..])
  }

  /** Adding never changes the completed figure: the new record starts not completed. */
  lemma AddKeepsCompletedCount(st: ListState, id: int, now: int)
    ensures CompletedCount(HandleAddTodo(st, id, now).todos) == CompletedCount(st.todos)
  {
  }
}
