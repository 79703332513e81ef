/**
 * How the client list and the server store, which implement the same three
 * mutations separately, relate to each other.
 */
module Consistency {
  import opened Wrappers
  import opened EcmaText
  import opened TodoRecords
  import opened Actions
  import opened TodoList

  /** At most one record carries `id`. */
  predicate UniqueId(s: seq<Todo>, id: int) {
    forall i, j :: 0 <= i < j < |s| && s[i].id == id ==> s[j].id != id
  }

  /** When at most one record carries the id, the server's `find` toggle and the client's `map` toggle agree. */
  lemma {:induction false} TogglesAgreeOnUniqueId(s: seq<Todo>, id: int)
    requires UniqueId(s, id)
    ensures ToggleFirst(s, id) == ToggleAll(s, id)
  {
    if s != [] {
      if s[0].id == id {
        assert !HasId(s[1..], id) by {
          forall i | 0 <= i < |s[1..]| ensures s[1..][i].id != id {
            assert s[i + 1] == s[1..][i];
          }
        }
        ToggleAllAbsent(s[1..], id);
      } else {
        assert UniqueId(s[1..], id) by {
          forall i, j | 0 <= i < j < |s[1..]| && s[1..][i].id == id ensures s[1..][j].id != id {
            assert s[1..][i] == s[i + 1] && s[1..][j] == s[j + 1];
          }
        }
        TogglesAgreeOnUniqueId(s[1..], id);
      }
    }
  }

  /** With a repeated id (two items added in the same millisecond) the two toggles differ. */
  lemma TogglesDifferOnRepeatedId()
    ensures var s := [Todo(7, "a", false, 7), Todo(7, "b", false, 7)];
      ToggleFirst(s, 7) == [Todo(7, "a", true, 7), Todo(7, "b", false, 7)]
      && ToggleAll(s, 7) == [Todo(7, "a", true, 7), Todo(7, "b", true, 7)]
  {
  }

  /**
   * For a text the user typed, the server accepts it exactly when the client's
   * add button is enabled, and both prepend the same record.
   */
  lemma AddsAgree(todos: seq<Todo>, text: string, id: int, now: int)
    ensures Accepts(Some(text)) <==> AddEnabled(text)
    ensures HandleAddTodo(ListState(todos, text), id, now).todos
      == if Accepts(Some(text)) then [NewTodo(id, text, now)] + todos else todos
  {
  }
}
