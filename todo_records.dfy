/**
 * The to-do record shared by the server store and the client list, and the
 * `filter(t => t.id !== id)` that both use to delete records.
 */
module TodoRecords {

  /**
   * One to-do item. The ids of added items are clock readings in
   * milliseconds, so two items may share one; `createdAt` is the creation
   * time in milliseconds since the epoch.
   */
  datatype Todo = Todo(id: int, text: string, completed: bool, createdAt: int)

  /** The record both add operations build: not completed, text kept as typed. */
  function NewTodo(id: int, text: string, now: int): Todo {
    Todo(id, text, false, now)
  }

  /** The record with its completion flag negated (`{ ...todo, completed: !todo.completed }`). */
  function Flipped(t: Todo): Todo {
    t.(completed := !t.completed)
  }

  /** `r` lists the same records as `s`, position by position, except possibly for their completion flags. */
  predicate SameButCompletion(r: seq<Todo>, s: seq<Todo>) {
    |r| == |s|
    && forall i :: 0 <= i < |s| ==>
         r[i].id == s[i].id && r[i].text == s[i].text && r[i].createdAt == s[i].createdAt
  }

  /** Some record in `s` carries `id`. */
  predicate HasId(s: seq<Todo>, id: int) {
    exists i :: 0 <= i < |s| && s[i].id == id
  }

  /** `r` is obtained from `s` by dropping some records and keeping the others in order. */
  predicate IsSubsequence(r: seq<Todo>, s: seq<Todo>)
    decreases |s|
  {
    if s == [] then r == []
    else (r != [] && r[0] == s[0] && IsSubsequence(r[1..], s[1..])) || IsSubsequence(r, s[1..])
  }

  /**
   * `s.filter(t => t.id !== id)`: keeps every copy of each record whose id
   * differs and no copy of a record carrying `id`, so it never grows the list.
   */
  function Without(s: seq<Todo>, id: int): (r: seq<Todo>)
    ensures forall t :: multiset(r)[t] == if t.id == id then 0 else multiset(s)[t]
    ensures |r| <= |s|
    ensures forall t :: t in r ==> t in s && t.id != id
    ensures forall t :: t in s && t.id != id ==> t in r
    ensures multiset(r) <= multiset(s)
  {
    if s == [] then []
    else
      assert s == [s[0]] + s[1..];
      if s[0].id == id then Without(s[1..], id)
      else [s[0]] + Without(s[1..], id)
  }

  /** Deleting keeps the surviving records in their original relative order. */
  lemma {:induction false} WithoutIsSubsequence(s: seq<Todo>, id: int)
    ensures IsSubsequence(Without(s, id), s)
  {
    if s != [] {
      WithoutIsSubsequence(s[1..], id);
      if s[0].id != id {
        assert Without(s, id)[1..] == Without(s[1..], id);
      }
    }
  }

  /** Deleting an id leaves the list unchanged exactly when no record carries that id. */
  lemma {:induction false} WithoutUnchangedIffAbsent(s: seq<Todo>, id: int)
    ensures Without(s, id) == s <==> !HasId(s, id)
  {
    if s != [] {
      WithoutUnchangedIffAbsent(s[1..], id);
      if s[0].id == id {
        assert |Without(s, id)| < |s|;
      } else {
        assert HasId(s, id) <==> HasId(s[1..], id) by {
          if HasId(s, id) {
            var i :| 0 <= i < |s| && s[i].id == id;
            assert s[1..][i - 1].id == id;
          }
          if HasId(s[1..], id) {
            var i :| 0 <= i < |s[1..]| && s[1..][i].id == id;
            assert s[i + 1].id == id;
          }
        }
      }
    }
  }

  /** A second delete of the same id changes nothing. */
  lemma WithoutIdempotent(s: seq<Todo>, id: int)
    ensures Without(Without(s, id), id) == Without(s, id)
  {
    WithoutUnchangedIffAbsent(Without(s, id), id);
  }
}
