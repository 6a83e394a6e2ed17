/** The task list of the to-do application as values: the `Todo` record, the
    four transformations the handlers apply to the list (add, toggle, delete,
    clear completed), the filtered view and the two counts shown on the
    filter buttons, with the properties they keep. */
module TodoList {
  import opened Text
  import opened Seqs

  /** One task. `id` is the reading of the millisecond clock (`Date.now()`)
      taken when the task was added; `createdAt` is the creation `Date`, kept
      as milliseconds since the epoch. */
  datatype Todo = Todo(id: int, text: string, completed: bool, createdAt: int)

  /** Which tasks the list shows. */
  datatype FilterMode = All | Active | Completed

  /** The test of "Clear Completed": the task is still to be done. */
  function IsActive(t: Todo): bool {
    !t.completed
  }

  /** The test behind the completed count. */
  function IsCompleted(t: Todo): bool {
    t.completed
  }

  /** The test of "delete": the task does not carry `id`. */
  function IdDiffers(id: int): Todo -> bool {
    (t: Todo) => t.id != id
  }

  /** The test of the filtered view, in the order the view checks it. */
  function Shown(filter: FilterMode): Todo -> bool {
    (t: Todo) =>
      if filter == Active then !t.completed
      else if filter == Completed then t.completed
      else true
  }

  /** The ids that occur in the list. */
  function Ids(todos: seq<Todo>): set<int> {
    set t | t in todos :: t.id
  }

  /** No two tasks share an id. */
  predicate DistinctIds(todos: seq<Todo>) {
    forall i, j :: 0 <= i < j < |todos| ==> todos[i].id != todos[j].id
  }

  /** A task text as the add operation produces it: not empty, and with no
      white space at either end. */
  predicate ValidText(text: string) {
    text != [] && IsTrimmed(text)
  }

  /** The invariant the operations keep when every new task gets a fresh id:
      ids are distinct and every text is a valid task text. */
  predicate WellFormed(todos: seq<Todo>) {
    DistinctIds(todos) && forall t :: t in todos ==> ValidText(t.text)
  }

  // ----- Operations -----

  /** Adding a task. Input that is empty or all white space leaves the list
      as it was. Otherwise the list grows by one: a new task with the trimmed
      text, not completed, stamped with `id` and `now`, comes first, and the
      old list follows it unchanged. */
  function AddTodo(todos: seq<Todo>, input: string, id: int, now: int): (r: seq<Todo>)
    ensures AllWhitespace(input) ==> r == todos
    ensures !AllWhitespace(input) ==>
      |r| == |todos| + 1 && r[1..] == todos &&
      r[0].id == id && r[0].text == Trim(input) && !r[0].completed && r[0].createdAt == now
  {
    var text := Trim(input);
    if text != [] then [Todo(id, text, false, now)] + todos else todos
  }

  /** One task after a toggle of `id`. */
  function Flip(t: Todo, id: int): Todo {
    if t.id == id then t.(completed := !t.completed) else t
  }

  /** Toggling `id`: every task carrying `id` has its `completed` flag negated
      and nothing else; every other task stays as it is, in place. */
  function Toggle(todos: seq<Todo>, id: int): (r: seq<Todo>)
    ensures |r| == |todos|
    ensures forall i :: 0 <= i < |todos| && todos[i].id != id ==> r[i] == todos[i]
    ensures forall i :: 0 <= i < |todos| && todos[i].id == id ==>
      r[i].completed == !todos[i].completed && r[i] == todos[i].(completed := r[i].completed)
  {
    seq(|todos|, i requires 0 <= i < |todos| => Flip(todos[i], id))
  }

  /** Deleting `id`: the result keeps, in their order, exactly the tasks
      whose id differs from `id`, each occurrence of each. */
  function Delete(todos: seq<Todo>, id: int): (r: seq<Todo>)
    ensures IsSubsequence(r, todos)
    ensures forall t :: multiset(r)[t] == if t.id != id then multiset(todos)[t] else 0
    ensures id !in Ids(r)
  {
    FilterMultiset(todos, IdDiffers(id));
    Filter(todos, IdDiffers(id))
  }

  /** Clearing the completed tasks: the result keeps, in their order, exactly
      the active tasks, and no completed task is left. */
  function ClearCompleted(todos: seq<Todo>): (r: seq<Todo>)
    ensures IsSubsequence(r, todos)
    ensures forall t :: multiset(r)[t] == if !t.completed then multiset(todos)[t] else 0
    ensures forall t :: t in r ==> !t.completed
  {
    FilterMultiset(todos, IsActive);
    Filter(todos, IsActive)
  }

  /** The filtered view: all tasks, the active ones or the completed ones, in
      list order. */
  function Visible(todos: seq<Todo>, filter: FilterMode): (r: seq<Todo>)
    ensures IsSubsequence(r, todos)
    ensures filter == All ==> r == todos
    ensures filter == Active ==> forall t :: t in r <==> t in todos && !t.completed
    ensures filter == Completed ==> forall t :: t in r <==> t in todos && t.completed
  {
    FilterKeepsAll(todos, Shown(filter));
    Filter(todos, Shown(filter))
  }

  /** How many tasks are completed: the length of the completed view. */
  function CompletedCount(todos: seq<Todo>): (n: nat)
    ensures n <= |todos|
    ensures n == |Visible(todos, Completed)|
  {
    FilterAgree(todos, IsCompleted, Shown(Completed));
    |Filter(todos, IsCompleted)|
  }

  /** How many tasks are still to be done: the length of the active view,
      though it is computed as what the completed count leaves over. */
  function ActiveCount(todos: seq<Todo>): (n: nat)
    ensures n == |Visible(todos, Active)|
    ensures n == |ClearCompleted(todos)|
  {
    FilterSplit(todos, IsActive, IsCompleted);
    FilterAgree(todos, IsActive, Shown(Active));
    |todos| - CompletedCount(todos)
  }

  // ----- Helpers -----

  /** Helper: distinct ids, split at the head of the list. */
  lemma DistinctIdsCons(todos: seq<Todo>)
    requires todos != []
    ensures DistinctIds(todos) <==> todos[0].id !in Ids(todos[1..]) && DistinctIds(todos[1..])
  {
    var t := todos[1..];
    if DistinctIds(todos) {
      forall u | u in t ensures u.id != todos[0].id {
        var j :| 0 <= j < |t| && t[j] == u;
        assert todos[j + 1] == u;
      }
    }
    if todos[0].id !in Ids(t) && DistinctIds(t) {
      forall i, j | 0 <= i < j < |todos| ensures todos[i].id != todos[j].id {
        if i == 0 {
          assert todos[j] in t;
        } else {
          assert todos[i] == t[i - 1] && todos[j] == t[j - 1];
        }
      }
    }
  }

  /** Helper: toggling a list is toggling its head and then its tail. */
  lemma ToggleCons(todos: seq<Todo>, id: int)
    requires todos != []
    ensures Toggle(todos, id) == [Flip(todos[0], id)] + Toggle(todos[1..], id)
  {
  }

  /** Helper: a subsequence of a well-formed list is well formed. */
  lemma {:induction false} SubsequenceKeepsWellFormed(r: seq<Todo>, s: seq<Todo>)
    requires IsSubsequence(r, s)
    requires WellFormed(s)
    ensures WellFormed(r)
  {
    SubsequenceMultiset(r, s);
    assert forall t :: t in r ==> t in multiset(r);
    if r != [] {
      DistinctIdsCons(s);
      DistinctIdsCons(r);
      if r[0] == s[0] && IsSubsequence(r[1..], s[1..]) {
        SubsequenceKeepsWellFormed(r[1..], s[1..]);
        SubsequenceMultiset(r[1..], s[1..]);
        forall u | u in r[1..] ensures u.id != r[0].id {
          assert u in multiset(r[1..]);
          assert u in s[1..];
        }
      } else {
        SubsequenceKeepsWellFormed(r, s[1..]);
      }
    }
  }

  // ----- Add -----

  /** Adding a task with a fresh id keeps the list well formed. */
  lemma AddTodoKeepsWellFormed(todos: seq<Todo>, input: string, id: int, now: int)
    requires WellFormed(todos)
    requires id !in Ids(todos)
    ensures WellFormed(AddTodo(todos, input, id, now))
  {
    var r := AddTodo(todos, input, id, now);
    if r != todos {
      DistinctIdsCons(r);
    }
  }

  /** Tasks come newest first: adding `a` and then `b` puts `b`'s task ahead
      of `a`'s, both ahead of the older tasks. */
  lemma AddTodoNewestFirst(todos: seq<Todo>, a: string, i: int, ta: int, b: string, j: int, tb: int)
    requires !AllWhitespace(a) && !AllWhitespace(b)
    ensures AddTodo(AddTodo(todos, a, i, ta), b, j, tb) ==
      [Todo(j, Trim(b), false, tb)] + ([Todo(i, Trim(a), false, ta)] + todos)
  {
    var first := AddTodo(todos, a, i, ta);
    assert first == [Todo(i, Trim(a), false, ta)] + todos;
  }

  /** Trimming the input before adding changes nothing: the stored text is
      already trimmed. */
  lemma AddTodoPretrimmed(todos: seq<Todo>, input: string, id: int, now: int)
    ensures AddTodo(todos, Trim(input), id, now) == AddTodo(todos, input, id, now)
  {
    TrimIdempotent(input);
  }

  // ----- Toggle -----

  /** Toggling the same id twice restores the list. */
  lemma ToggleTwice(todos: seq<Todo>, id: int)
    ensures Toggle(Toggle(todos, id), id) == todos
  {
  }

  /** Toggling an id that no task carries changes nothing. */
  lemma ToggleAbsent(todos: seq<Todo>, id: int)
    requires id !in Ids(todos)
    ensures Toggle(todos, id) == todos
  {
    forall i | 0 <= i < |todos| ensures todos[i].id != id {
      assert todos[i] in todos;
    }
  }

  /** Toggle keeps the ids, so it keeps a well-formed list well formed. */
  lemma ToggleKeepsWellFormed(todos: seq<Todo>, id: int)
    requires WellFormed(todos)
    ensures WellFormed(Toggle(todos, id))
  {
    var r := Toggle(todos, id);
    forall t | t in r ensures ValidText(t.text) {
      var i :| 0 <= i < |r| && r[i] == t;
      assert todos[i] in todos;
    }
  }

  /** When ids are distinct, toggling the task with `id` moves exactly one
      task between the completed and the active count. */
  lemma {:induction false} ToggleMovesOne(todos: seq<Todo>, id: int, k: nat)
    requires DistinctIds(todos)
    requires k < |todos| && todos[k].id == id
    ensures CompletedCount(Toggle(todos, id)) ==
      if todos[k].completed then CompletedCount(todos) - 1 else CompletedCount(todos) + 1
  {
    if k == 0 {
      ToggleHeadMovesOne(todos, id);
    } else {
      var rest := todos[1..];
      assert DistinctIds(rest) && todos[0].id != id by {
        DistinctIdsCons(todos);
        assert todos[0].id != todos[k].id;
      }
      assert rest[k - 1] == todos[k];
      ToggleMovesOne(rest, id, k - 1);
      ToggleCountCons(todos, id);
      CompletedCountCons(todos);
    }
  }

  /** Helper: the base case of `ToggleMovesOne`, the task at the head. */
  lemma ToggleHeadMovesOne(todos: seq<Todo>, id: int)
    requires DistinctIds(todos)
    requires todos != [] && todos[0].id == id
    ensures CompletedCount(Toggle(todos, id)) ==
      if todos[0].completed then CompletedCount(todos) - 1 else CompletedCount(todos) + 1
  {
    var rest := todos[1..];
    assert Toggle(rest, id) == rest by {
      DistinctIdsCons(todos);
      ToggleAbsent(rest, id);
    }
    ToggleCountCons(todos, id);
    CompletedCountCons(todos);
  }

  /** Helper: the completed count after a toggle, split at the head. */
  lemma ToggleCountCons(todos: seq<Todo>, id: int)
    requires todos != []
    ensures CompletedCount(Toggle(todos, id)) ==
      (if Flip(todos[0], id).completed then 1 else 0) + CompletedCount(Toggle(todos[1..], id))
  {
    var r := Toggle(todos, id);
    ToggleCons(todos, id);
    CompletedCountCons(r);
    assert r[1..] == Toggle(todos[1..], id);
  }

  /** The same move seen from the active count: it goes up by one when a
      completed task is toggled, and down by one otherwise. */
  lemma ToggleMovesOneActive(todos: seq<Todo>, id: int, k: nat)
    requires DistinctIds(todos)
    requires k < |todos| && todos[k].id == id
    ensures ActiveCount(Toggle(todos, id)) ==
      if todos[k].completed then ActiveCount(todos) + 1 else ActiveCount(todos) - 1
  {
    ToggleMovesOne(todos, id, k);
  }

  /** Helper: the completed count, split at the head of the list. */
  lemma CompletedCountCons(todos: seq<Todo>)
    requires todos != []
    ensures CompletedCount(todos) == (if todos[0].completed then 1 else 0) + CompletedCount(todos[1..])
  {
  }

  // ----- Delete -----

  /** Deleting an id that no task carries changes nothing. */
  lemma DeleteAbsent(todos: seq<Todo>, id: int)
    requires id !in Ids(todos)
    ensures Delete(todos, id) == todos
  {
    FilterKeepsAll(todos, IdDiffers(id));
  }

  /** Deleting the same id twice is deleting it once. */
  lemma DeleteTwice(todos: seq<Todo>, id: int)
    ensures Delete(Delete(todos, id), id) == Delete(todos, id)
  {
    FilterIdempotent(todos, IdDiffers(id));
  }

  /** When ids are distinct, deleting an id that occurs removes exactly one
      task. */
  lemma {:induction false} DeleteRemovesOne(todos: seq<Todo>, id: int)
    requires DistinctIds(todos)
    requires id in Ids(todos)
    ensures |Delete(todos, id)| == |todos| - 1
  {
    DistinctIdsCons(todos);
    assert todos == [todos[0]] + todos[1..];
    if todos[0].id == id {
      DeleteAbsent(todos[1..], id);
    } else {
      DeleteRemovesOne(todos[1..], id);
    }
  }

  /** Delete keeps a well-formed list well formed. */
  lemma DeleteKeepsWellFormed(todos: seq<Todo>, id: int)
    requires WellFormed(todos)
    ensures WellFormed(Delete(todos, id))
  {
    SubsequenceKeepsWellFormed(Delete(todos, id), todos);
  }

  // ----- Clear completed -----

  /** After clearing, the list is the active view of the old list: it holds
      as many tasks as the old active count, none of them completed. */
  lemma ClearCompletedLeavesActive(todos: seq<Todo>)
    ensures ClearCompleted(todos) == Visible(todos, Active)
    ensures |ClearCompleted(todos)| == ActiveCount(todos)
    ensures CompletedCount(ClearCompleted(todos)) == 0
  {
    FilterAgree(todos, IsActive, Shown(Active));
    var r := ClearCompleted(todos);
    var done := Filter(r, IsCompleted);
    assert forall t :: t in done ==> t in r && t.completed;
    assert done == [];
  }

  /** Clearing twice is clearing once. */
  lemma ClearCompletedTwice(todos: seq<Todo>)
    ensures ClearCompleted(ClearCompleted(todos)) == ClearCompleted(todos)
  {
    FilterIdempotent(todos, IsActive);
  }

  /** Clearing keeps a well-formed list well formed. */
  lemma ClearCompletedKeepsWellFormed(todos: seq<Todo>)
    requires WellFormed(todos)
    ensures WellFormed(ClearCompleted(todos))
  {
    SubsequenceKeepsWellFormed(ClearCompleted(todos), todos);
  }

  // ----- Views and counts -----

  /** The active and completed views split the list: every occurrence of
      every task lands in exactly one of them, so no task is in both, their
      lengths add up to the length of the list, and together they carry all
      its ids; with distinct ids, no id is in both. */
  lemma ViewsPartition(todos: seq<Todo>)
    ensures multiset(Visible(todos, Active)) + multiset(Visible(todos, Completed)) == multiset(todos)
    ensures |Visible(todos, Active)| + |Visible(todos, Completed)| == |todos|
    ensures forall t :: t in Visible(todos, Active) ==> t !in Visible(todos, Completed)
    ensures Ids(Visible(todos, Active)) + Ids(Visible(todos, Completed)) == Ids(todos)
    ensures DistinctIds(todos) ==> Ids(Visible(todos, Active)) !! Ids(Visible(todos, Completed))
  {
    FilterSplit(todos, Shown(Active), Shown(Completed));
    var a, c := Visible(todos, Active), Visible(todos, Completed);
    forall id | id in Ids(todos) ensures id in Ids(a) + Ids(c) {
      var t :| t in todos && t.id == id;
      assert t in a || t in c;
    }
    if DistinctIds(todos) {
      forall t, u | t in a && u in c ensures t.id != u.id {
        var i :| 0 <= i < |todos| && todos[i] == t;
        var j :| 0 <= j < |todos| && todos[j] == u;
        assert i != j;
      }
    }
  }

  /** The counts add up to the length of the list. For the two counts this
      holds by definition, since the active count is computed as what the
      completed count leaves over; the point is that the two views, and
      the cleared list with the completed count, add up as well. */
  lemma CountsAddUp(todos: seq<Todo>)
    ensures CompletedCount(todos) + ActiveCount(todos) == |todos|
    ensures |Visible(todos, Completed)| + |Visible(todos, Active)| == |todos|
    ensures |ClearCompleted(todos)| + CompletedCount(todos) == |todos|
  {
  }

  /** A full session with one task: starting empty, adding a valid text (one
      with nothing to trim, such as "Buy milk") gives one active task with
      that text; toggling it makes it completed (counts 1 / 0 / 1); clearing
      the completed tasks leaves an empty list (counts 0 / 0 / 0). */
  lemma OneTaskSession(text: string, id: int, now: int)
    requires ValidText(text)
    ensures AddTodo([], text, id, now) == [Todo(id, text, false, now)]
    ensures Toggle([Todo(id, text, false, now)], id) == [Todo(id, text, true, now)]
    ensures ActiveCount([Todo(id, text, true, now)]) == 0
    ensures CompletedCount([Todo(id, text, true, now)]) == 1
    ensures ClearCompleted([Todo(id, text, true, now)]) == []
    ensures ActiveCount([]) == 0 && CompletedCount([]) == 0
  {
    TrimIdempotent(text);
    var done := [Todo(id, text, true, now)];
    assert Filter(done, IsCompleted) == done;
  }
}
