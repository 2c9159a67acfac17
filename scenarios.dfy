/** A short session of the todo application, dispatched through `TodoApp`
    from the initial state, with the list view computed at the end. */
module Scenarios {
  import opened TodoState
  import opened Reducers
  import opened Visibility

  /** Start empty, add task 0, toggle it, switch to the active view: the
      view is empty, and toggling an id that no task has changes nothing. */
  lemma LearnReduxSession()
    ensures var s0 := TodoApp(None, Other);
      var s1 := TodoApp(Some(s0), Add(0, "Learn Redux"));
      var s2 := TodoApp(Some(s1), Toggle(0));
      var s3 := TodoApp(Some(s2), SetFilter(ShowActive));
      && s0 == AppState([], ShowAll)
      && s1 == AppState([Task(0, "Learn Redux", false)], ShowAll)
      && s2 == AppState([Task(0, "Learn Redux", true)], ShowAll)
      && s3 == AppState([Task(0, "Learn Redux", true)], ShowActive)
      && GetVisibleTodos(s3.todos, s3.visibilityFilter) == []
      && GetVisibleTodos(s3.todos, ShowCompleted) == s3.todos
      && TodoApp(Some(s2), Toggle(999)) == s2
  {
    var s1 := TodoApp(Some(AppState([], ShowAll)), Add(0, "Learn Redux"));
    assert s1.todos == [Task(0, "Learn Redux", false)];
    var s2 := TodoApp(Some(s1), Toggle(0));
    TodosToggleElementwise(s1.todos, 0);
    assert s2.todos == [Task(0, "Learn Redux", true)];
    TodosToggleAbsent(s2.todos, 999);
  }
}
