# To-do list engine: a Dafny model

This project models the task-list engine of a single-page to-do application
(the `TodoApp` component in `app/page.tsx`) and proves properties of it.
The engine holds an ordered list of tasks, newest first, and a filter mode.
It offers four handlers that replace the list with a new one:

- add: trim the input, ignore it if nothing is left, otherwise prepend a new task;
- toggle: negate `completed` on the tasks with a given id;
- delete: drop the tasks with a given id;
- clear completed: drop every completed task.

From the list and the filter it derives the visible tasks (all, active or
completed) and two counts, completed and active, always taken over the whole
list.

Layout:

- `text.dfy`, module `Text`: JavaScript's `String.prototype.trim`. It strips the
  ECMAScript WhiteSpace and LineTerminator code points from both ends.
- `seqs.dfy`, module `Seqs`: `Array.prototype.filter` as `Filter`. It comes with
  a complete characterisation: the result is a subsequence of the input that
  keeps every occurrence of each passing value and nothing else.
- `todo_list.dfy`, module `TodoList`: the `Todo` record and the filter mode. The
  four transformations, the view and the counts are functions on values, with
  their lemmas.
- `todo_app.dfy`, module `App`: the component as the class `TodoApp`. Its fields
  `todos` and `filter` are the two pieces of state. Each handler is a method that
  reassigns `todos`, as `setTodos` does, and is proved equal to the matching
  function of `TodoList`.

The clock is not modelled. `Date.now()` gives the new id and `new Date()` gives
the creation time (app/page.tsx:41 and :44). They are two separate readings, so
both are parameters of the add operation. `createdAt` is held as milliseconds.

Ids are distinct only if the clock never repeats, and the code does not ensure
that: two adds in the same millisecond get the same id. So distinctness is not
assumed anywhere. The operations are defined for any list, duplicates
included, and a toggle or delete then affects every task carrying the id.

The invariant `WellFormed` says that ids are distinct and every text is
non-empty and trimmed. It is proved to be kept by toggle, delete and clear
completed, and by add when the new id is fresh. "Delete removes exactly one
task" and "toggle moves exactly one task between the counts" hold under
distinct ids, and are proved under that hypothesis.

`JSON.parse` at app/page.tsx:25 is unguarded, so malformed saved data makes
loading throw. Loading is left out, and the model claims nothing about it.

## Model

| member | source | states |
|---|---|---|
| `Text.TrimStart` | app/page.tsx:39 | the result is the suffix of the input left after its leading white space; it is empty iff the input is all white space |
| `Text.TrimEnd` | app/page.tsx:39 | the result is the prefix of the input left before its trailing white space; it is empty iff the input is all white space |
| `Text.Trim` | app/page.tsx:39-42 | `trim()` gives "" exactly when the input is all white space (the falsy case of the guard); otherwise the result neither starts nor ends with white space |
| `Text.TrimRemovesOnlyWhitespace` | app/page.tsx:42 | the stored text is a contiguous slice of the input, and everything trimmed off before and after it is white space |
| `Text.TrimIdempotent` | app/page.tsx:42 | trimming twice equals trimming once; text equals its own trim iff it has no white space at either end |
| `Seqs.Filter` | app/page.tsx:55-69 | `filter` returns a subsequence of its input (order kept) whose members are exactly the input members that pass the test |
| `Seqs.FilterMultiset` | app/page.tsx:55-69 | `filter` keeps every occurrence of a passing value and no occurrence of a failing one |
| `Seqs.FilterUnique` | app/page.tsx:55-69 | conversely, any subsequence with those multiplicities equals `Filter`, so the two facts above characterise it completely |
| `Seqs.FilterIdempotent` | app/page.tsx:56 | filtering twice with the same test is filtering once |
| `Seqs.FilterKeepsAll` | app/page.tsx:66 | `filter` returns its input unchanged iff every element passes |
| `Seqs.FilterAgree` | app/page.tsx:63-69 | two tests that agree on the elements select the same result |
| `Seqs.FilterSplit` | app/page.tsx:69-70 | filtering by a test and by its negation splits the input: the multisets add up to the input's, so the lengths add up too |
| `TodoList.AddTodo` | app/page.tsx:38-49 | all-white-space input leaves the list unchanged; otherwise the list grows by one, the first task has the given id and time, the trimmed text and `completed` false, and the old list follows unchanged |
| `TodoList.AddTodoKeepsWellFormed` | app/page.tsx:38-46 | with a fresh id, adding keeps ids distinct and every text non-empty and trimmed |
| `TodoList.AddTodoNewestFirst` | app/page.tsx:46 | adding a, then b, yields b's task, then a's task, then the older tasks |
| `TodoList.AddTodoPretrimmed` | app/page.tsx:39-42 | adding an already-trimmed input gives the same list as adding the raw input |
| `TodoList.Toggle` | app/page.tsx:51-53 | length and order are kept; tasks with another id are unchanged; tasks with the id differ only in a negated `completed` |
| `TodoList.ToggleTwice` | app/page.tsx:52 | toggling the same id twice restores the list |
| `TodoList.ToggleAbsent` | app/page.tsx:52 | toggling an id no task carries changes nothing |
| `TodoList.ToggleKeepsWellFormed` | app/page.tsx:52 | toggling keeps a well-formed list well formed |
| `TodoList.ToggleMovesOne` | app/page.tsx:52 | with distinct ids, toggling a present id changes the completed count by exactly one: down if that task was completed, up if it was not |
| `TodoList.ToggleMovesOneActive` | app/page.tsx:52 | the same toggle changes the active count by exactly one in the opposite direction |
| `TodoList.Delete` | app/page.tsx:55-57 | the result keeps, in order, every occurrence of each task whose id differs, and nothing else; the id no longer occurs |
| `TodoList.DeleteAbsent` | app/page.tsx:56 | deleting an id no task carries changes nothing |
| `TodoList.DeleteTwice` | app/page.tsx:56 | deleting the same id twice equals deleting it once |
| `TodoList.DeleteRemovesOne` | app/page.tsx:56 | with distinct ids, deleting a present id shortens the list by exactly one |
| `TodoList.DeleteKeepsWellFormed` | app/page.tsx:56 | deleting keeps a well-formed list well formed |
| `TodoList.ClearCompleted` | app/page.tsx:59-61 | the result keeps, in order, every occurrence of each active task and nothing else; no completed task is left |
| `TodoList.ClearCompletedLeavesActive` | app/page.tsx:59-70 | the cleared list equals the active view; its length is the old active count; its completed count is 0 |
| `TodoList.ClearCompletedTwice` | app/page.tsx:60 | clearing twice equals clearing once |
| `TodoList.ClearCompletedKeepsWellFormed` | app/page.tsx:60 | clearing keeps a well-formed list well formed |
| `TodoList.Visible` | app/page.tsx:63-67 | the view is a subsequence of the list; `all` returns the list; `active` returns exactly the tasks not completed; `completed` returns exactly the completed ones |
| `TodoList.ViewsPartition` | app/page.tsx:63-67 | the active and completed views partition the list: their multisets add up to the list's, no task is in both, their lengths sum to the list's, and their ids together are the list's ids (disjoint when ids are distinct) |
| `TodoList.CompletedCount` | app/page.tsx:69 | the completed count is the length of the completed view |
| `TodoList.ActiveCount` | app/page.tsx:70 | the active count, computed as total minus completed, is the length of the active view and of the cleared list |
| `TodoList.CountsAddUp` | app/page.tsx:69-70 | completed count plus active count is the list length (by definition of the active count); so are the lengths of the two views, and the cleared list's length plus the completed count |
| `TodoList.OneTaskSession` | app/page.tsx:38-70 | from an empty list, add a valid text, toggle, then clear completed: the list goes to one active task, then to one completed task (counts 1/0/1), then to empty (counts 0/0/0) |
| `App.TodoApp.constructor` | app/page.tsx:17-19 | the component starts with no tasks and the filter `all`, which is well formed |
| `App.TodoApp.FilteredTodos` | app/page.tsx:63-67 | the shown tasks are the view of the current filter: a subsequence of the list holding every occurrence of each task the filter admits and nothing else, and the whole list under `all` |
| `App.TodoApp.CompletedCount` | app/page.tsx:69 | the count is the length of the completed view of the whole list, whatever the filter |
| `App.TodoApp.ActiveCount` | app/page.tsx:70 | the count is the length of the active view of the whole list, and adds up with the completed count to the list length |
| `App.TodoApp.AddTodo` | app/page.tsx:38-49 | the new list is `TodoList.AddTodo` of the old one; the length grows by one unless the input is all white space; the filter is unchanged; well-formedness is kept when the id is fresh |
| `App.TodoApp.ToggleTodo` | app/page.tsx:51-53 | the new list is `TodoList.Toggle` of the old one; the filter is unchanged; well-formedness is kept |
| `App.TodoApp.DeleteTodo` | app/page.tsx:55-57 | the new list is `TodoList.Delete` of the old one; the filter is unchanged; well-formedness is kept |
| `App.TodoApp.ClearCompleted` | app/page.tsx:59-61 | the new list is `TodoList.ClearCompleted` of the old one; its length is the old active count and its completed count is 0 |
| `App.TodoApp.SetFilter` | app/page.tsx:99-122 | switching the filter changes only the filter: the list and both counts stay as they were |
| `App.FilterScenario` | __tests__/todo.test.tsx:92-122 | add a, add b, toggle the first task listed (b): the active view is exactly [a] and the completed view is exactly [b] |
| `App.FilterScenarioSameId` | __tests__/todo.test.tsx:99-113 | if both adds read the same `Date.now()` (app/page.tsx:41), the toggle at app/page.tsx:52 completes both tasks: the active view is empty and the completed view holds both, so the test relies on the two readings differing |

## Left out

- Loading from `localStorage` (app/page.tsx:22-31) and saving to it (app/page.tsx:34-36) are left out. They are browser storage I/O plus `JSON.parse`, `JSON.stringify` and `new Date(...)`. No serialisation round trip is claimed. The unguarded parse that would throw on malformed data is not modelled either.
- The clock reads `Date.now()` and `new Date()` (app/page.tsx:41, 44) are parameters, not modelled time.
- Ids are not guaranteed fresh, because the clock can repeat within a millisecond. Every lemma that needs distinct ids states that as a hypothesis.
- The input field's state and its reset after an add (app/page.tsx:18, 47) are left out. The text being added is a parameter of the add operation instead.
- React's hooks, re-rendering and effect scheduling are left out. So is the fact that a handler reads the `todos` of the render it was created in. Each method acts on the current state.
- All rendering (app/page.tsx:72-191) is left out: the empty-state messages, the "item"/"items" wording, the styling and `toLocaleDateString`.
- A JavaScript string is a sequence of UTF-16 code units. Here it is a sequence of `char`. Every code point that `trim` removes is a single code unit, so trimming is unaffected.
