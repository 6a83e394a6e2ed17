/** The state of the `TodoApp` component and its handlers. The component
    keeps the task list and the filter mode as state; each handler replaces
    the whole list with a new one (`setTodos`), and the filtered view and the
    counts are recomputed from the state. The clock readings the handlers
    take are parameters here. */
module App {
  import opened Text
  import opened Seqs
  import opened TodoList

  class TodoApp {
    /** The task list, newest first. */
    var todos: seq<Todo>
    /** Which tasks the list shows. */
    var filter: FilterMode

    /** A fresh component: no tasks, showing all. */
    constructor ()
      ensures todos == [] && filter == All
      ensures WellFormed(todos)
    {
      todos := [];
      filter := All;
    }

    /** The tasks the list shows under the current filter, in list order. */
    function FilteredTodos(): (r: seq<Todo>)
      reads this
      ensures r == Visible(todos, filter)
      ensures IsSubsequence(r, todos)
      ensures filter == All ==> r == todos
      ensures forall t :: multiset(r)[t] == if Shown(filter)(t) then multiset(todos)[t] else 0
    {
      FilterMultiset(todos, Shown(filter));
      Visible(todos, filter)
    }

    /** The number of completed tasks, over the whole list. */
    function CompletedCount(): (n: nat)
      reads this
      ensures n == |Visible(todos, Completed)|
    {
      TodoList.CompletedCount(todos)
    }

    /** The number of tasks still to do, over the whole list. */
    function ActiveCount(): (n: nat)
      reads this
      ensures n == |Visible(todos, Active)|
      ensures n + CompletedCount() == |todos|
    {
      TodoList.ActiveCount(todos)
    }

    /** The add handler: trims `input` and, unless nothing is left, puts a new
        task first. `id` and `now` are the two clock readings the handler
        takes. With a fresh `id`, the list stays well formed. */
    method AddTodo(input: string, id: int, now: int)
      modifies this
      ensures todos == TodoList.AddTodo(old(todos), input, id, now)
      ensures |todos| == |old(todos)| + (if AllWhitespace(input) then 0 else 1)
      ensures filter == old(filter)
      ensures old(WellFormed(todos)) && id !in old(Ids(todos)) ==> WellFormed(todos)
    {
      if WellFormed(todos) && id !in Ids(todos) {
        AddTodoKeepsWellFormed(todos, input, id, now);
      }
      var text := Trim(input);
      if text != [] {
        var todo := Todo(id, text, false, now);
        todos := [todo] + todos;
      }
    }

    /** The toggle handler: negates `completed` on the tasks carrying `id`. */
    method ToggleTodo(id: int)
      modifies this
      ensures todos == Toggle(old(todos), id)
      ensures filter == old(filter)
      ensures old(WellFormed(todos)) ==> WellFormed(todos)
    {
      if WellFormed(todos) {
        ToggleKeepsWellFormed(todos, id);
      }
      todos := Toggle(todos, id);
    }

    /** The delete handler: drops the tasks carrying `id`. */
    method DeleteTodo(id: int)
      modifies this
      ensures todos == Delete(old(todos), id)
      ensures filter == old(filter)
      ensures old(WellFormed(todos)) ==> WellFormed(todos)
    {
      if WellFormed(todos) {
        DeleteKeepsWellFormed(todos, id);
      }
      todos := Delete(todos, id);
    }

    /** The "Clear Completed" handler: keeps only the active tasks, so the
        completed count drops to zero and the list is as long as the active
        count was. */
    method ClearCompleted()
      modifies this
      ensures todos == TodoList.ClearCompleted(old(todos))
      ensures |todos| == old(ActiveCount()) && CompletedCount() == 0
      ensures filter == old(filter)
      ensures old(WellFormed(todos)) ==> WellFormed(todos)
    {
      ClearCompletedLeavesActive(todos);
      if WellFormed(todos) {
        ClearCompletedKeepsWellFormed(todos);
      }
      todos := TodoList.ClearCompleted(todos);
    }

    /** The filter buttons: change what is shown, and nothing else; in
        particular the counts stay as they were. */
    method SetFilter(f: FilterMode)
      modifies this
      ensures filter == f && todos == old(todos)
      ensures CompletedCount() == old(CompletedCount()) && ActiveCount() == old(ActiveCount())
    {
      filter := f;
    }
  }

  /** The filter scenario of the component's tests: add a task, add a
      second, complete the second (which is listed first), then look at the
      active and at the completed view. Each view holds exactly one of the
      two tasks. */
  method FilterScenario(a: string, b: string, i: int, j: int, ta: int, tb: int)
    returns (active: seq<Todo>, completed: seq<Todo>)
    requires ValidText(a) && ValidText(b) && i != j
    ensures active == [Todo(i, a, false, ta)]
    ensures completed == [Todo(j, b, true, tb)]
  {
    TrimIdempotent(a);
    TrimIdempotent(b);
    var app := new TodoApp();
    app.AddTodo(a, i, ta);
    app.AddTodo(b, j, tb);
    assert app.todos == [Todo(j, b, false, tb), Todo(i, a, false, ta)];
    app.ToggleTodo(app.todos[0].id);
    var done := Todo(j, b, true, tb);
    var open := Todo(i, a, false, ta);
    assert app.todos == [done, open];
    app.SetFilter(Active);
    active := app.FilteredTodos();
    assert active == [open] by {
      assert Filter([done, open], Shown(Active)) == Filter([open], Shown(Active));
    }
    app.SetFilter(Completed);
    completed := app.FilteredTodos();
    assert completed == [done] by {
      assert Filter([done, open], Shown(Completed)) == [done] + Filter([open], Shown(Completed));
    }
  }

  /** The same scenario when both adds read the same `Date.now()`: the two
      tasks share their id, so the toggle completes both of them, and the
      active view is empty while the completed view holds both tasks. The
      test's expectation therefore rests on the two clock readings
      differing. */
  method FilterScenarioSameId(a: string, b: string, i: int, ta: int, tb: int)
    returns (active: seq<Todo>, completed: seq<Todo>)
    requires ValidText(a) && ValidText(b)
    ensures active == []
    ensures completed == [Todo(i, b, true, tb), Todo(i, a, true, ta)]
  {
    TrimIdempotent(a);
    TrimIdempotent(b);
    var app := new TodoApp();
    app.AddTodo(a, i, ta);
    app.AddTodo(b, i, tb);
    assert app.todos == [Todo(i, b, false, tb), Todo(i, a, false, ta)];
    app.ToggleTodo(app.todos[0].id);
    var second := Todo(i, b, true, tb);
    var first := Todo(i, a, true, ta);
    assert app.todos == [second, first];
    BothCompletedViews(second, first);
    app.SetFilter(Active);
    active := app.FilteredTodos();
    app.SetFilter(Completed);
    completed := app.FilteredTodos();
  }

  /** Helper: the views of a list of two completed tasks. */
  lemma BothCompletedViews(x: Todo, y: Todo)
    requires x.completed && y.completed
    ensures Visible([x, y], Active) == []
    ensures Visible([x, y], Completed) == [x, y]
  {
    assert Filter([x, y], Shown(Active)) == Filter([y], Shown(Active));
    assert Filter([x, y], Shown(Completed)) == [x] + Filter([y], Shown(Completed));
    assert Filter([y], Shown(Completed)) == [y] + Filter([], Shown(Completed));
  }
}
