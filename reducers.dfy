/** The three reducers of the todo application and their combination into
    the application reducer `todoApp`. Every reducer is a total function of
    the prior state and the action; an absent prior state (`None`) selects
    the slice's default. */
module Reducers {
  import opened TodoState

  /** The per-task reducer `todo`. On `ADD_TODO` it builds a fresh, not yet
      completed task from the action; on `TOGGLE_TODO` it flips `completed`
      of the task whose id matches and passes every other task through; any
      other action passes the task through. Toggling reads `state.id`, which
      fails on an absent task, so callers must supply one there. */
  function Todo(state: Option<Task>, action: Action): (r: Option<Task>)
    requires action.Toggle? ==> state.Some?
    ensures action.Add? || state.Some? ==> r.Some?
  {
    match action
    case Add(id, text) => Some(Task(id, text, false))
    case Toggle(id) =>
      if state.value.id != id then state
      else Some(state.value.(completed := !state.value.completed))
    case _ => state
  }

  /** The task-list reducer `todos`: `ADD_TODO` appends the task built by
      `Todo(None, action)`, `TOGGLE_TODO` maps `Todo` over every task, and
      any other action returns the list. An absent list is the empty list. */
  function Todos(state: Option<seq<Task>>, action: Action): (r: seq<Task>)
    // the list only grows, by one task on `ADD_TODO`
    ensures |r| == |state.GetOr([])| + (if action.Add? then 1 else 0)
    // tasks keep their place, id and text; only `completed` may change
    ensures forall i :: 0 <= i < |state.GetOr([])| ==>
      r[i].id == state.GetOr([])[i].id && r[i].text == state.GetOr([])[i].text
    // only `TOGGLE_TODO` touches the tasks already in the list
    ensures !action.Toggle? ==> r[..|state.GetOr([])|] == state.GetOr([])
  {
    var s := state.GetOr([]);
    match action
    case Add(_, _) => s + [Todo(None, action).value]
    case Toggle(_) => seq(|s|, i requires 0 <= i < |s| => Todo(Some(s[i]), action).value)
    case _ => s
  }

  /** The filter reducer `visibilityFilter`: `SET_VISIBILITY_FILTER` yields
      the action's filter, any other action the prior filter, which defaults
      to `ShowAll`. */
  function VisibilityFilter(state: Option<Filter>, action: Action): (r: Filter)
    // only `SET_VISIBILITY_FILTER` moves the filter off its prior value
    ensures !action.SetFilter? ==> r == state.GetOr(ShowAll)
    // a filter that changed is the one the action carries
    ensures r != state.GetOr(ShowAll) ==> action.SetFilter? && r == action.filter
  {
    match action
    case SetFilter(f) => f
    case _ => state.GetOr(ShowAll)
  }

  /** `todoApp`: every action goes to both slice reducers, each with its own
      slice of the prior state (absent when the whole state is absent), and
      the two results are paired. */
  function TodoApp(state: Option<AppState>, action: Action): (r: AppState)
    // task actions leave the filter slice alone
    ensures !action.SetFilter? ==>
      r.visibilityFilter == (if state.Some? then state.value.visibilityFilter else ShowAll)
    // filter and unrecognised actions leave the task slice alone
    ensures action.SetFilter? || action.Other? ==>
      r.todos == (if state.Some? then state.value.todos else [])
    // the task slice grows by one task per `ADD_TODO` and never shrinks
    ensures |r.todos| == (if state.Some? then |state.value.todos| else 0) + (if action.Add? then 1 else 0)
  {
    match state
    case None => AppState(Todos(None, action), VisibilityFilter(None, action))
    case Some(s) =>
      AppState(Todos(Some(s.todos), action), VisibilityFilter(Some(s.visibilityFilter), action))
  }

  // ---------------------------------------------------------------------
  // The per-task reducer

  /** `ADD_TODO` creates an uncompleted task from the action's id and text,
      whatever the prior task was. */
  lemma TodoAddCreates(state: Option<Task>, id: int, text: string)
    ensures Todo(state, Add(id, text)) == Some(Task(id, text, false))
  {
  }

  /** `TOGGLE_TODO` flips `completed` exactly when the ids match and keeps
      `id` and `text`; otherwise the task comes back as it was. */
  lemma TodoToggle(t: Task, id: int)
    ensures Todo(Some(t), Toggle(id))
         == if t.id == id then Some(Task(t.id, t.text, !t.completed)) else Some(t)
  {
  }

  /** Actions that are neither `ADD_TODO` nor `TOGGLE_TODO` leave the task alone. */
  lemma TodoIgnoresOtherActions(state: Option<Task>, action: Action)
    requires !action.Add? && !action.Toggle?
    ensures Todo(state, action) == state
  {
  }

  /** Toggling a task twice with the same id restores it. */
  lemma TodoToggleInvolution(t: Task, id: int)
    ensures Todo(Todo(Some(t), Toggle(id)), Toggle(id)) == Some(t)
  {
  }

  // ---------------------------------------------------------------------
  // The task-list reducer

  /** An absent list reduces like the empty list. */
  lemma TodosDefault(action: Action)
    ensures Todos(None, action) == Todos(Some([]), action)
    ensures !action.Add? ==> Todos(None, action) == []
  {
  }

  /** `ADD_TODO` appends exactly one task: the prior list is a prefix of the
      result and the new last task is the uncompleted task of the action. */
  lemma TodosAddAppends(s: seq<Task>, id: int, text: string)
    ensures |Todos(Some(s), Add(id, text))| == |s| + 1
    ensures Todos(Some(s), Add(id, text))[..|s|] == s
    ensures Todos(Some(s), Add(id, text))[|s|] == Task(id, text, false)
  {
  }

  /** `TOGGLE_TODO` works task by task: same length, and task `i` of the
      result is `Todo` applied to task `i`; ids and texts never change, and a
      task changes exactly when its id is the toggled one. */
  lemma TodosToggleElementwise(s: seq<Task>, id: int)
    ensures |Todos(Some(s), Toggle(id))| == |s|
    ensures forall i :: 0 <= i < |s| ==>
      Some(Todos(Some(s), Toggle(id))[i]) == Todo(Some(s[i]), Toggle(id))
    ensures forall i :: 0 <= i < |s| ==>
      Todos(Some(s), Toggle(id))[i].id == s[i].id
      && Todos(Some(s), Toggle(id))[i].text == s[i].text
      && (Todos(Some(s), Toggle(id))[i] != s[i] <==> s[i].id == id)
  {
  }

  /** Toggling the same id twice restores the list. */
  lemma {:induction false} TodosToggleInvolution(s: seq<Task>, id: int)
    ensures Todos(Some(Todos(Some(s), Toggle(id))), Toggle(id)) == s
  {
    var once := Todos(Some(s), Toggle(id));
    var twice := Todos(Some(once), Toggle(id));
    forall i | 0 <= i < |s|
      ensures twice[i] == s[i]
    {
      TodoToggleInvolution(s[i], id);
    }
  }

  /** Toggling an id no task has returns the list unchanged. */
  lemma TodosToggleAbsent(s: seq<Task>, id: int)
    requires !HasId(s, id)
    ensures Todos(Some(s), Toggle(id)) == s
  {
    var r := Todos(Some(s), Toggle(id));
    forall i | 0 <= i < |s|
      ensures r[i] == s[i]
    {
      assert s[i].id != id;
      assert Some(r[i]) == Todo(Some(s[i]), Toggle(id));
    }
  }

  /** Actions other than `ADD_TODO` and `TOGGLE_TODO` return the list. */
  lemma TodosIgnoresOtherActions(s: seq<Task>, action: Action)
    requires !action.Add? && !action.Toggle?
    ensures Todos(Some(s), action) == s
  {
  }

  /** Adding a task whose id is not in the list keeps the ids distinct. */
  lemma TodosAddFreshKeepsIdsDistinct(s: seq<Task>, id: int, text: string)
    requires DistinctIds(s) && !HasId(s, id)
    ensures DistinctIds(Todos(Some(s), Add(id, text)))
  {
  }

  /** Toggling keeps the ids distinct, and with distinct ids it changes at
      most one task. */
  lemma TodosToggleChangesAtMostOne(s: seq<Task>, id: int)
    requires DistinctIds(s)
    ensures DistinctIds(Todos(Some(s), Toggle(id)))
    ensures forall i, j :: 0 <= i < |s| && 0 <= j < |s| && i != j ==>
      (Todos(Some(s), Toggle(id))[i] != s[i] ==> Todos(Some(s), Toggle(id))[j] == s[j])
  {
    TodosToggleElementwise(s, id);
  }

  // ---------------------------------------------------------------------
  // The filter reducer

  /** `SET_VISIBILITY_FILTER` yields the action's filter verbatim, so setting
      the same filter twice is the same as setting it once. */
  lemma VisibilityFilterSet(state: Option<Filter>, f: Filter)
    ensures VisibilityFilter(state, SetFilter(f)) == f
    ensures VisibilityFilter(Some(VisibilityFilter(state, SetFilter(f))), SetFilter(f))
         == VisibilityFilter(state, SetFilter(f))
  {
  }

  /** Any other action keeps the prior filter, `ShowAll` when there is none. */
  lemma VisibilityFilterIgnoresOtherActions(state: Option<Filter>, action: Action)
    requires !action.SetFilter?
    ensures VisibilityFilter(state, action) == if state.Some? then state.value else ShowAll
  {
  }

  // ---------------------------------------------------------------------
  // The combined reducer

  /** The initial state: an absent state and an unrecognised action give the
      empty list and `ShowAll`. */
  lemma TodoAppInitialState()
    ensures TodoApp(None, Other) == AppState([], ShowAll)
  {
  }

  /** The two slices are independent: setting the filter leaves the tasks
      alone, adding or toggling a task leaves the filter alone, and each
      slice is its own reducer applied to its own slice. */
  lemma TodoAppSlicesIndependent(s: AppState, action: Action)
    ensures TodoApp(Some(s), action).todos == Todos(Some(s.todos), action)
    ensures TodoApp(Some(s), action).visibilityFilter
         == VisibilityFilter(Some(s.visibilityFilter), action)
    ensures action.SetFilter? ==> TodoApp(Some(s), action) == s.(visibilityFilter := action.filter)
    ensures action.Add? || action.Toggle? ==>
      TodoApp(Some(s), action).visibilityFilter == s.visibilityFilter
    ensures action.Other? ==> TodoApp(Some(s), action) == s
  {
  }

  /** Dispatching the same filter twice is the same as dispatching it once. */
  lemma TodoAppSetFilterIdempotent(s: Option<AppState>, f: Filter)
    ensures TodoApp(Some(TodoApp(s, SetFilter(f))), SetFilter(f)) == TodoApp(s, SetFilter(f))
  {
  }

  /** All ids of the list are below `next`. */
  predicate IdsBelow(s: seq<Task>, next: int) {
    forall i :: 0 <= i < |s| ==> s[i].id < next
  }

  /** The id counter protocol: when every added task takes the counter's
      current value as its id and the counter then moves on, the ids in the
      state stay distinct and below the counter. */
  lemma {:induction false} TodoAppCounterKeepsIdsDistinct(s: AppState, next: int, action: Action)
    requires DistinctIds(s.todos) && IdsBelow(s.todos, next)
    requires action.Add? ==> action.id == next
    ensures DistinctIds(TodoApp(Some(s), action).todos)
    ensures IdsBelow(TodoApp(Some(s), action).todos, if action.Add? then next + 1 else next)
  {
    var r := TodoApp(Some(s), action).todos;
    match action
    case Add(id, text) =>
      assert !HasId(s.todos, id);
      TodosAddFreshKeepsIdsDistinct(s.todos, id, text);
    case Toggle(id) =>
      TodosToggleElementwise(s.todos, id);
      TodosToggleChangesAtMostOne(s.todos, id);
    case _ =>
      TodosIgnoresOtherActions(s.todos, action);
  }
}
