/**
 * The server-side store of src/app/actions.ts: a module-level array of
 * to-do records that the server actions change in place. The array is the
 * `todos` field of one TodoStore object. Clock readings (`Date.now()`) are
 * parameters, and `revalidatePath('/')` is counted in `revalidations`.
 */
module Actions {
  import opened Wrappers
  import opened EcmaText
  import opened TodoRecords

  const DayMillis: int := 24 * 60 * 60 * 1000

  /**
   * The two records the store starts with. The module reads the clock twice:
   * `firstRead` for the record dated one day back, `secondRead` for the other.
   */
  function SeedTodos(firstRead: int, secondRead: int): (r: seq<Todo>)
    ensures |r| == 2 && r[0].id == 1 && r[1].id == 2
    ensures r[0].completed && !r[1].completed
    ensures firstRead <= secondRead ==> r[0].createdAt < r[1].createdAt
  {
    [ Todo(1, "Learn about Server Actions", true, firstRead - DayMillis),
      Todo(2, "Build the new server component", false, secondRead) ]
  }

  /** `!text || text.trim() === ''` fails: the form field is present, non-empty and not blank. */
  predicate Accepts(text: Option<string>)
    ensures Accepts(text) <==> text.Some? && !IsBlank(text.value)
  {
    !(text.None? || text.value == [] || Trim(text.value) == [])
  }

  /** `find` then `todo.completed = !todo.completed`: flips the first record carrying `id`, if any. */
  function ToggleFirst(s: seq<Todo>, id: int): (r: seq<Todo>)
    ensures SameButCompletion(r, s)
  {
    if s == [] then []
    else if s[0].id == id then [Flipped(s[0])] + s[1..]
    else [s[0]] + ToggleFirst(s[1..], id)
  }

  /** With `k` the first index carrying `id`, the toggle replaces record `k` by its flip and nothing else. */
  lemma {:induction false} ToggleFirstAt(s: seq<Todo>, id: int, k: nat)
    requires k < |s| && s[k].id == id
    requires forall j :: 0 <= j < k ==> s[j].id != id
    ensures ToggleFirst(s, id) == s[k := Flipped(s[k])]
  {
    if k > 0 {
      ToggleFirstAt(s[1..], id, k - 1);
      assert [s[0]] + s[1..][k - 1 := Flipped(s[k])] == s[k := Flipped(s[k])];
    }
  }

  /** Toggling an id no record carries leaves the store unchanged. */
  lemma {:induction false} ToggleFirstAbsent(s: seq<Todo>, id: int)
    requires !HasId(s, id)
    ensures ToggleFirst(s, id) == s
  {
    if s != [] {
      assert s[0].id != id;
      ToggleFirstAbsent(s[1..], id);
    }
  }

  /** Toggling the same id twice restores the store: the second call finds the same first record. */
  lemma {:induction false} ToggleFirstTwice(s: seq<Todo>, id: int)
    ensures ToggleFirst(ToggleFirst(s, id), id) == s
  {
    if s != [] {
      if s[0].id != id {
        ToggleFirstTwice(s[1..], id);
        assert ToggleFirst(s, id)[1..] == ToggleFirst(s[1..], id);
      } else {
        assert ToggleFirst(s, id)[1..] == s[1..];
      }
    }
  }

  /** `b.createdAt.getTime() - a.createdAt.getTime()` sorting order: non-increasing creation time. */
  predicate NewestFirst(s: seq<Todo>) {
    forall i, j :: 0 <= i < j < |s| ==> s[i].createdAt >= s[j].createdAt
  }

  /** The records of `s` created at time `at`, in their order in `s`. */
  function CreatedAt(s: seq<Todo>, at: int): (r: seq<Todo>)
    ensures forall t :: t in r ==> t in s && t.createdAt == at
    ensures forall i :: 0 <= i < |s| && s[i].createdAt == at ==> r != []
  {
    if s == [] then []
    else if s[0].createdAt == at then [s[0]] + CreatedAt(s[1..], at)
    else CreatedAt(s[1..], at)
  }

  /** Places `x` before the first record of `r` that is not newer than it. */
  function Insert(x: Todo, r: seq<Todo>): seq<Todo> {
    if r == [] || x.createdAt >= r[0].createdAt then [x] + r
    else [r[0]] + Insert(x, r[1..])
  }

  /**
   * `todos.sort((a, b) => b.createdAt.getTime() - a.createdAt.getTime())`.
   * `Array.prototype.sort` is stable (ECMA-262, since the 2019 edition), so
   * the result is the stable sort by descending creation time.
   */
  function SortNewestFirst(s: seq<Todo>): (r: seq<Todo>)
    ensures multiset(r) == multiset(s)
    ensures NewestFirst(r)
  {
    if s == [] then []
    else
      var rest := SortNewestFirst(s[1..]);
      InsertPermutes(s[0], rest);
      InsertKeepsOrder(s[0], rest);
      assert s == [s[0]] + s[1..];
      Insert(s[0], rest)
  }

  lemma {:induction false} InsertPermutes(x: Todo, r: seq<Todo>)
    ensures multiset(Insert(x, r)) == multiset(r) + multiset{x}
  {
    if r != [] && x.createdAt < r[0].createdAt {
      InsertPermutes(x, r[1..]);
      assert r == [r[0]] + r[1..];
    }
  }

  lemma {:induction false} InsertKeepsOrder(x: Todo, r: seq<Todo>)
    requires NewestFirst(r)
    ensures NewestFirst(Insert(x, r))
  {
    if r != [] && x.createdAt < r[0].createdAt {
      InsertKeepsOrder(x, r[1..]);
      InsertPermutes(x, r[1..]);
      var rest := Insert(x, r[1..]);
      forall j | 0 <= j < |rest| ensures r[0].createdAt >= rest[j].createdAt {
        assert rest[j] in multiset(r[1..]) + multiset{x};
        if rest[j] != x {
          var m :| 0 <= m < |r[1..]| && r[1..][m] == rest[j];
          assert r[m + 1] == rest[j];
        }
      }
    }
  }

  lemma {:induction false} InsertCreatedAt(x: Todo, r: seq<Todo>, at: int)
    ensures CreatedAt(Insert(x, r), at) == (if x.createdAt == at then [x] else []) + CreatedAt(r, at)
  {
    if r != [] && x.createdAt < r[0].createdAt {
      InsertCreatedAt(x, r[1..], at);
      assert Insert(x, r)[1..] == Insert(x, r[1..]);
    }
  }

  /** Stability: the records sharing any one creation time keep their prior relative order. */
  lemma {:induction false} SortIsStable(s: seq<Todo>, at: int)
    ensures CreatedAt(SortNewestFirst(s), at) == CreatedAt(s, at)
  {
    if s != [] {
      SortIsStable(s[1..], at);
      InsertCreatedAt(s[0], SortNewestFirst(s[1..]), at);
    }
  }

  lemma NotNewerThanHead(s: seq<Todo>, t: Todo)
    requires NewestFirst(s) && t in s
    ensures t.createdAt <= s[0].createdAt
  {
  }

  /** A nonempty newest-first list starts with a record of the newest creation time. */
  lemma {:induction false} HeadTimesAgree(a: seq<Todo>, b: seq<Todo>)
    requires NewestFirst(a) && NewestFirst(b) && a != [] && b != []
    requires forall at :: CreatedAt(a, at) == CreatedAt(b, at)
    ensures a[0].createdAt == b[0].createdAt
  {
    var ga, gb := CreatedAt(b, a[0].createdAt), CreatedAt(a, b[0].createdAt);
    assert CreatedAt(a, a[0].createdAt) != [] && CreatedAt(b, b[0].createdAt) != [];
    NotNewerThanHead(b, ga[0]);
    NotNewerThanHead(a, gb[0]);
  }

  lemma {:induction false} TailGroupsAgree(a: seq<Todo>, b: seq<Todo>)
    requires a != [] && b != [] && a[0].createdAt == b[0].createdAt
    requires forall at :: CreatedAt(a, at) == CreatedAt(b, at)
    ensures a[0] == b[0]
    ensures forall at :: CreatedAt(a[1..], at) == CreatedAt(b[1..], at)
  {
    var ta := a[0].createdAt;
    assert CreatedAt(a, ta) == [a[0]] + CreatedAt(a[1..], ta);
    assert CreatedAt(b, ta) == [b[0]] + CreatedAt(b[1..], ta);
    assert CreatedAt(a, ta)[0] == a[0] && CreatedAt(b, ta)[0] == b[0];
    forall at ensures CreatedAt(a[1..], at) == CreatedAt(b[1..], at) {
      if at != ta {
        assert CreatedAt(a, at) == CreatedAt(a[1..], at);
        assert CreatedAt(b, at) == CreatedAt(b[1..], at);
      } else {
        assert CreatedAt(a[1..], at) == CreatedAt(a, ta)[1..];
        assert CreatedAt(b[1..], at) == CreatedAt(b, ta)[1..];
      }
    }
  }

  lemma EmptyTogether(a: seq<Todo>, b: seq<Todo>)
    requires forall at :: CreatedAt(a, at) == CreatedAt(b, at)
    ensures a == [] <==> b == []
  {
    if a != [] {
      assert CreatedAt(b, a[0].createdAt) != [];
    }
    if b != [] {
      assert CreatedAt(a, b[0].createdAt) != [];
    }
  }

  /**
   * Two newest-first lists that agree, for every creation time, on the records
   * created then and their order, are equal.
   */
  lemma {:induction false} NewestFirstDeterminedByGroups(a: seq<Todo>, b: seq<Todo>)
    requires NewestFirst(a) && NewestFirst(b)
    requires forall at :: CreatedAt(a, at) == CreatedAt(b, at)
    ensures a == b
  {
    EmptyTogether(a, b);
    if a != [] {
      HeadTimesAgree(a, b);
      TailGroupsAgree(a, b);
      NewestFirstDeterminedByGroups(a[1..], b[1..]);
      assert a == [a[0]] + a[1..] && b == [b[0]] + b[1..];
    }
  }

  /**
   * Independent characterisation of the sort: any newest-first arrangement
   * that keeps each same-time group in its prior order is the one `getTodos` produces.
   */
  lemma SortIsTheStableSort(s: seq<Todo>, r: seq<Todo>)
    requires NewestFirst(r)
    requires forall at :: CreatedAt(r, at) == CreatedAt(s, at)
    ensures r == SortNewestFirst(s)
  {
    forall at ensures CreatedAt(r, at) == CreatedAt(SortNewestFirst(s), at) {
      SortIsStable(s, at);
    }
    NewestFirstDeterminedByGroups(r, SortNewestFirst(s));
  }

  /** A list already newest-first is left as it is, so a second `getTodos` does not reorder. */
  lemma {:induction false} SortKeepsSorted(s: seq<Todo>)
    requires NewestFirst(s)
    ensures SortNewestFirst(s) == s
  {
    if s != [] {
      assert NewestFirst(s[1..]);
      SortKeepsSorted(s[1..]);
    }
  }

  lemma SortIdempotent(s: seq<Todo>)
    ensures SortNewestFirst(SortNewestFirst(s)) == SortNewestFirst(s)
  {
    SortKeepsSorted(SortNewestFirst(s));
  }

  /** A record no older than every stored one is listed first after the sort. */
  lemma SortNewestRecordFirst(x: Todo, s: seq<Todo>)
    requires forall i :: 0 <= i < |s| ==> s[i].createdAt <= x.createdAt
    ensures SortNewestFirst([x] + s) == [x] + SortNewestFirst(s)
  {
    var xs := [x] + s;
    assert xs[0] == x && xs[1..] == s;
    var r := SortNewestFirst(s);
    assert SortNewestFirst(xs) == Insert(x, r);
    if r != [] {
      assert r[0] in multiset(s);
      var m :| 0 <= m < |s| && s[m] == r[0];
      assert x.createdAt >= r[0].createdAt;
    }
  }

  class TodoStore {
    /** The module-level `todos` array, in array order. */
    var todos: seq<Todo>
    /** How many times a server action has called `revalidatePath('/')`. */
    var revalidations: nat

    /**
     * The store as the module initialises it, from its two clock reads: ids 1
     * then 2, only id 1 completed, id 1 dated one day before the first read.
     */
    constructor (firstRead: int, secondRead: int)
      ensures todos == SeedTodos(firstRead, secondRead) && revalidations == 0
      ensures |todos| == 2 && todos[0].id == 1 && todos[1].id == 2
      ensures todos[0].completed && !todos[1].completed
      ensures todos[0].createdAt == firstRead - DayMillis && todos[1].createdAt == secondRead
    {
      todos := SeedTodos(firstRead, secondRead);
      revalidations := 0;
    }

    /** `todos.find(t => t.id === id)`, as the index of the record found. */
    method Find(id: int) returns (k: Option<nat>)
      ensures k.Some? ==> k.value < |todos| && todos[k.value].id == id
      ensures k.Some? ==> forall j :: 0 <= j < k.value ==> todos[j].id != id
      ensures k.None? <==> !HasId(todos, id)
    {
      var i := 0;
      while i < |todos|
        invariant 0 <= i <= |todos|
        invariant forall j :: 0 <= j < i ==> todos[j].id != id
      {
        if todos[i].id == id {
          return Some(i);
        }
        i := i + 1;
      }
      return None;
    }

    /** `getTodos`: sorts the store in place, newest first, and returns it. */
    method GetTodos() returns (r: seq<Todo>)
      modifies this
      ensures todos == SortNewestFirst(old(todos)) && r == todos
      ensures NewestFirst(r) && multiset(r) == multiset(old(todos))
      ensures revalidations == old(revalidations)
    {
      todos := SortNewestFirst(todos);
      r := todos;
    }

    /** `addTodoAction`: a present, non-blank text is prepended as a new, not completed record, untrimmed. */
    method AddTodoAction(text: Option<string>, id: int, now: int)
      modifies this
      ensures Accepts(text) ==> todos == [NewTodo(id, text.value, now)] + old(todos)
      ensures Accepts(text) ==> revalidations == old(revalidations) + 1
      ensures !Accepts(text) ==> todos == old(todos) && revalidations == old(revalidations)
    {
      if text.None? || text.value == [] || Trim(text.value) == [] {
        return;
      }
      todos := [NewTodo(id, text.value, now)] + todos;
      revalidations := revalidations + 1;
    }

    /** `toggleTodoAction`: flips the first record carrying `id`; revalidates only when one was found. */
    method ToggleTodoAction(id: int)
      modifies this
      ensures todos == ToggleFirst(old(todos), id)
      ensures revalidations == old(revalidations) + (if HasId(old(todos), id) then 1 else 0)
    {
      var k := Find(id);
      if k.Some? {
        ToggleFirstAt(todos, id, k.value);
        todos := todos[k.value := Flipped(todos[k.value])];
        revalidations := revalidations + 1;
      } else {
        ToggleFirstAbsent(todos, id);
      }
    }

    /** `deleteTodoAction`: replaces the store by its records whose id differs; always revalidates. */
    method DeleteTodoAction(id: int)
      modifies this
      ensures todos == Without(old(todos), id)
      ensures revalidations == old(revalidations) + 1
    {
      todos := Without(todos, id);
      revalidations := revalidations + 1;
    }
  }
}
