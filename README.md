# To-do list store: a Dafny model

This project models the behavioural core of a small Next.js to-do app: the
list of to-do records and its three mutations (add, toggle, delete). The app
implements them twice.

- **Server store** (`src/app/actions.ts`): a module-level mutable array of
  `{id, text, completed, createdAt}` records, seeded with two items. It is
  changed in place by `addTodoAction` (`unshift`), `toggleTodoAction`
  (`find`, then flip the found record) and `deleteTodoAction` (reassign
  to a `filter`ed copy). `getTodos` sorts the array in place, newest first,
  and returns it.
  Modelled in `actions.dfy` as the class `Actions.TodoStore`, whose
  `todos: seq<Todo>` field the methods reassign. A counter, `revalidations`,
  records each `revalidatePath('/')` call.
- **Client list** (`src/components/TodoList.tsx`): the same mutations as
  pure array transforms handed to React's `setTodos`. There is also the
  add-button enable rule and the completed/total counter. Modelled in
  `todo_list.dfy` as functions on a `ListState(todos, inputText)` value.

Shared pieces:
- `todo_records.dfy` holds the record type and `Without`, the
  `filter(t => t.id !== id)` used by both deletes.
- `ecma_text.dfy` holds `String.prototype.trim`, per sections 12.2 and 12.3
  of ECMA-262.
- `consistency.dfy` relates the two implementations.

Clock readings (`Date.now()`, `new Date()`) are parameters: `id` and `now`,
as integer milliseconds. `formData.get('text')` is an `Option<string>`.
Ids are NOT assumed unique, because the code never enforces it.

Three behaviours of the code are worth stating up front:
- Ids of added items come from `Date.now()`, and nothing checks them for
  uniqueness.
- The actions return nothing. A blank text is dropped silently.
- With a repeated id, the server toggle flips only the first matching record,
  while the client toggle flips every match
  (`Consistency.TogglesDifferOnRepeatedId`).

## Model

| member | source | states |
|---|---|---|
| `EcmaText.Trim` | src/app/actions.ts:51 | `trim()` yields the empty string exactly when every character is ECMAScript white space or a line terminator; otherwise the result starts and ends with a kept character |
| `TodoRecords.Without` | src/app/actions.ts:83 | the filter keeps every copy of each record whose id differs and no copy of a record with the id (counted per record), so it never grows the list |
| `TodoRecords.WithoutIsSubsequence` | src/components/TodoList.tsx:39 | the records that survive a delete keep their relative order |
| `TodoRecords.WithoutUnchangedIffAbsent` | src/app/actions.ts:82-84 | deleting an id is a no-op exactly when no record carries it (both directions) |
| `TodoRecords.WithoutIdempotent` | src/app/actions.ts:83 | deleting the same id a second time changes nothing |
| `Actions.Accepts` | src/app/actions.ts:49-54 | the guard `!text \|\| text.trim() === ''` rejects exactly a missing field or a blank text |
| `Actions.SeedTodos` | src/app/actions.ts:17-30 | the seed holds two records, ids 1 then 2, only id 1 completed; id 1 is older whenever the first clock read is not after the second |
| `Actions.TodoStore.constructor` | src/app/actions.ts:17-30 | the store starts as the seed: ids 1 then 2, only id 1 completed, id 1 dated one day before the first clock read and id 2 at the second |
| `Actions.TodoStore.AddTodoAction` | src/app/actions.ts:48-66 | a rejected text leaves the store and the revalidation count unchanged; an accepted one prepends one record (not completed, untrimmed text, given id and time) before the unchanged old records, and revalidates once |
| `Actions.TodoStore.Find` | src/app/actions.ts:72 | `find` returns the first index whose id matches, and none exactly when no record has the id |
| `Actions.TodoStore.ToggleTodoAction` | src/app/actions.ts:71-77 | the new store is `ToggleFirst` of the old one; it revalidates only when a record was found |
| `Actions.ToggleFirst` | src/app/actions.ts:72-74 | the server toggle changes only completion flags: length, order, ids, texts and times are kept; `Actions.ToggleFirstAt` pins which flag |
| `Actions.ToggleFirstAt` | src/app/actions.ts:72-74 | the toggle replaces only the first record with the id by its flip: every other record, field, the length and the order are unchanged |
| `Actions.ToggleFirstAbsent` | src/app/actions.ts:72-73 | toggling an absent id leaves the store unchanged |
| `Actions.ToggleFirstTwice` | src/app/actions.ts:74 | toggling the same id twice restores the original store |
| `Actions.TodoStore.DeleteTodoAction` | src/app/actions.ts:82-85 | the store becomes `Without(old store, id)`; it always revalidates, even for an absent id |
| `Actions.TodoStore.GetTodos` | src/app/actions.ts:39-43 | the store is replaced by its newest-first sort (a permutation of the old contents), and that same list is returned |
| `Actions.SortNewestFirst` | src/app/actions.ts:42 | the sort is a permutation of the store, and after it no record precedes a newer one; `Actions.SortIsStable` and `Actions.SortIsTheStableSort` pin the order of ties |
| `Actions.SortIsStable` | src/app/actions.ts:42 | records with equal `createdAt` keep their prior relative order |
| `Actions.NewestFirstDeterminedByGroups` | src/app/actions.ts:42 | two newest-first lists with the same ordered group of records for each creation time are equal |
| `Actions.SortIsTheStableSort` | src/app/actions.ts:42 | any newest-first list that keeps each same-time group in order IS the model's sort, so the model is the unique result of a stable descending sort |
| `Actions.SortKeepsSorted` | src/app/actions.ts:42 | sorting a list that is already newest-first leaves it unchanged |
| `Actions.SortIdempotent` | src/app/actions.ts:39-43 | a second `getTodos` does not reorder the store |
| `Actions.SortNewestRecordFirst` | src/app/actions.ts:62 | a record prepended with a time no older than any stored one is still first after the sort |
| `TodoList.HandleAddTodo` | src/components/TodoList.tsx:17-28 | a blank input leaves list and input unchanged; otherwise the list gains exactly one record in front (not completed, untrimmed text, given id and time), the old list follows intact, and the input is cleared |
| `TodoList.AddEnabled` | src/components/TodoList.tsx:69 | the button's enable rule `inputText.trim() !== ''` holds exactly when the input is not blank |
| `TodoList.AddEnabledIffAdds` | src/components/TodoList.tsx:69 | the add button is enabled exactly when `handleAddTodo` would change the state |
| `TodoList.ToggleAll` | src/components/TodoList.tsx:32-34 | the `map` toggle changes only completion flags: length, order, ids, texts and times are kept; `TodoList.ToggleAllAt` pins which flags |
| `TodoList.ToggleAllAt` | src/components/TodoList.tsx:30-36 | the client toggle keeps length and order, keeps every id, text and creation time, and flips `completed` on exactly the records with the id |
| `TodoList.ToggleAllTwice` | src/components/TodoList.tsx:33 | the client toggle is its own inverse |
| `TodoList.ToggleAllAbsent` | src/components/TodoList.tsx:32-34 | toggling an absent id changes nothing |
| `TodoList.HandleToggleTodo` | src/components/TodoList.tsx:30-36 | the handler leaves the input alone, keeps every record's id, text and time in place, and flips `completed` exactly on the records with the id |
| `TodoList.HandleToggleTodoTwice` | src/components/TodoList.tsx:30-36 | toggling the same id twice restores the whole state |
| `TodoList.HandleRemoveTodo` | src/components/TodoList.tsx:38-40 | the handler leaves the input alone; the new list is an order-preserving sub-sequence of the old one holding every copy of each record whose id differs and none with the id |
| `TodoList.HandleRemoveTodoEffect` | src/components/TodoList.tsx:38-40 | after removal no record has the id, the rest keep their order, and the state is unchanged exactly when the id was absent |
| `TodoList.HandleRemoveTodoIdempotent` | src/components/TodoList.tsx:39 | removing the same id twice equals removing it once |
| `TodoList.CompletedCount` | src/components/TodoList.tsx:134 | the completed figure lies between 0 and the total; it is 0 exactly when none is completed, and the total exactly when all are |
| `TodoList.AddKeepsCompletedCount` | src/components/TodoList.tsx:19-25 | adding a record never changes the completed figure |
| `Consistency.TogglesAgreeOnUniqueId` | src/app/actions.ts:72-74 | when at most one record has the id, the server toggle equals the client's toggle (TodoList.tsx:32-34) |
| `Consistency.TogglesDifferOnRepeatedId` | src/app/actions.ts:72 | with two records sharing an id, the server flips only the first and the client flips both |
| `Consistency.AddsAgree` | src/app/actions.ts:51-62 | for typed text, the server accepts exactly when the client's add button is enabled (TodoList.tsx:18, 69), and both prepend the same record |

## Left out

- JSX rendering, CSS classes, icons, the empty state and the counter markup.
  This covers `src/app/page.tsx`, `src/app/not-found.tsx` and
  `src/components/TodoListServer.tsx`. That file only renders and forwards
  clicks to the server actions, and its counter repeats `CompletedCount`.
- `formatDate`: locale formatting through `Intl.DateTimeFormat`, a library
  outside the repository.
- `revalidatePath('/')` is Next.js cache invalidation. Only the number of
  calls is modelled (`revalidations`), not what it does.
- The 1.5-second `setTimeout` in `getTodos` and the async/Promise wrapping.
  These are timing and interleaving. Each action is modelled as one atomic
  step.
- `Date.now()` / `new Date()`: clock reads, taken as the `id` and `now`
  parameters. JavaScript numbers are modelled as unbounded integers. Millisecond
  timestamps are exact well below 2^53, so the comparator's subtraction is
  exact.
- `formData.get('text')` can also return a `File`, which the code casts to
  `string`. Only "absent" and "a string" are modelled.
- Records are JavaScript objects shared by reference. The model treats them
  as values, so two effects are not captured:
  - `getTodos` returns the store array itself, and later in-place mutations
    stay visible through that reference. `GetTodos` returns a copy.
  - A toggle changes a record object in place. The model replaces the
    record in the sequence instead.
- The algorithm inside `Array.prototype.sort` belongs to the engine, not to
  the repository. `SortNewestFirst` is a stable insertion sort, and
  `Actions.SortIsTheStableSort` proves it is the only stable
  newest-first result.
- React plumbing: `useState`, the `onChange` input binding, and the Enter key
  that calls the same `handleAddTodo`.
