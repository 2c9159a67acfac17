# Todo reducers of the Redux "getting started" application

This project models the state-reduction core of a small todo application
built on Redux: the per-task reducer `todo`, the task-list reducer `todos`,
the filter reducer `visibilityFilter`, their combination `todoApp`, and the
view projection `getVisibleTodos`. The source is pure (every reducer builds
a fresh value from the prior state and the action), so the model is pure
too: datatypes for tasks, actions, filters and the application state, one
function per reducer, and lemmas for what the reducers promise.

- `state.dfy` (module `TodoState`): `Task {id, text, completed}`, the
  `Action` variant `Add | Toggle | SetFilter | Other` (the `type` tags
  `ADD_TODO`, `TOGGLE_TODO`, `SET_VISIBILITY_FILTER`, anything else), the
  three-valued `Filter`, `AppState {todos, visibilityFilter}` and `Option`
  for a prior state that JavaScript passes as `undefined`.
- `reducers.dfy` (module `Reducers`): `Todo`, `Todos`, `VisibilityFilter`,
  `TodoApp` and their lemmas. Object spread becomes a datatype update, array
  spread plus one element becomes `s + [t]`, `state.map` becomes a sequence
  comprehension. `combineReducers` is written out as what it does here:
  hand the action to both slice reducers, each with its own slice of the
  prior state, and pair the results.
- `visibility.dfy` (module `Visibility`): `GetVisibleTodos`, with
  `Array.prototype.filter` written as the recursive `Select`, and the
  induction lemmas that characterise it.
- `scenarios.dfy` (module `Scenarios`): one session dispatched from the
  initial state.

Ids are inputs of the `Add` action. The application draws them from a
counter that it increments after each add; the model states that protocol
as a precondition and proves that it keeps ids distinct.

## Model

| member | source | states |
|---|---|---|
| Reducers.Todo | getting_started_with_redux/index.js:15-34 | toggling needs a prior task (the source reads `state.id`); adding, or having a prior task, always yields a task |
| Reducers.TodoAddCreates | getting_started_with_redux/index.js:17-22 | `ADD_TODO` yields the task with the action's id and text and `completed == false`, whatever the prior task |
| Reducers.TodoToggle | getting_started_with_redux/index.js:23-30 | `TOGGLE_TODO` negates `completed` and keeps id and text when the ids match, and returns the task unchanged when they differ |
| Reducers.TodoIgnoresOtherActions | getting_started_with_redux/index.js:31-32 | any action other than add or toggle returns the prior task |
| Reducers.TodoToggleInvolution | getting_started_with_redux/index.js:23-30 | toggling a task twice with the same id restores it |
| Reducers.Todos | getting_started_with_redux/index.js:36-50 | the list only grows, by exactly one task on `ADD_TODO`; every prior task keeps its place, id and text; only `TOGGLE_TODO` changes a prior task (its `completed`); the per-action behaviour is given by the TodosDefault, TodosAddAppends, TodosToggleElementwise and TodosIgnoresOtherActions rows |
| Reducers.TodosDefault | getting_started_with_redux/index.js:36-37 | an absent list reduces exactly like the empty list |
| Reducers.TodosAddAppends | getting_started_with_redux/index.js:41-42 | `ADD_TODO` grows the list by one: the prior list is the prefix and the last task is the action's uncompleted task |
| Reducers.TodosToggleElementwise | getting_started_with_redux/index.js:43-46 | `TOGGLE_TODO` keeps the length, task `i` becomes `todo(state[i], action)`, ids and texts stay, and a task changes exactly when its id is the toggled id |
| Reducers.TodosToggleInvolution | getting_started_with_redux/index.js:43-46 | toggling the same id twice restores the list |
| Reducers.TodosToggleAbsent | getting_started_with_redux/index.js:43-46 | toggling an id that no task has returns a list equal to the input |
| Reducers.TodosIgnoresOtherActions | getting_started_with_redux/index.js:47-48 | any action other than add or toggle returns the prior list |
| Reducers.TodosAddFreshKeepsIdsDistinct | getting_started_with_redux/index.js:42 | adding an id not in a list of distinct ids keeps the ids distinct |
| Reducers.TodosToggleChangesAtMostOne | getting_started_with_redux/index.js:43-46 | with distinct ids, a toggle keeps the ids distinct and changes at most one task |
| Reducers.VisibilityFilter | getting_started_with_redux/index.js:52-62 | only `SET_VISIBILITY_FILTER` moves the filter off its prior value (`SHOW_ALL` when absent), and a changed filter is the action's filter; the VisibilityFilterSet and VisibilityFilterIgnoresOtherActions rows give each case and idempotence |
| Reducers.VisibilityFilterSet | getting_started_with_redux/index.js:56-58 | `SET_VISIBILITY_FILTER` yields the action's filter verbatim, so setting it twice equals setting it once |
| Reducers.VisibilityFilterIgnoresOtherActions | getting_started_with_redux/index.js:52-61 | any other action keeps the prior filter, `SHOW_ALL` when there is none |
| Reducers.TodoApp | getting_started_with_redux/index.js:69-72 | task actions leave the filter slice alone, filter and unrecognised actions leave the task slice alone, and the task slice grows by one per `ADD_TODO`; the TodoAppSlicesIndependent row states that each slice is its own reducer on its own slice |
| Reducers.TodoAppInitialState | getting_started_with_redux/index.js:69-72 | an absent state and an unrecognised action give the empty list and `SHOW_ALL` |
| Reducers.TodoAppSlicesIndependent | getting_started_with_redux/index.js:69-72 | each slice is its reducer on its own slice; setting the filter leaves the tasks alone, add and toggle leave the filter alone, other actions change nothing |
| Reducers.TodoAppSetFilterIdempotent | getting_started_with_redux/index.js:69-72 | dispatching the same filter twice equals dispatching it once |
| Reducers.TodoAppCounterKeepsIdsDistinct | getting_started_with_redux/index.js:233-237 | when each add takes the counter's value as id and the counter then increments, ids stay distinct and below the counter |
| Visibility.Select | getting_started_with_redux/index.js:250-257 | the filtered list is no longer than the list and holds only tasks with the wanted `completed` flag |
| Visibility.SelectIsSubsequence | getting_started_with_redux/index.js:250-257 | filtering keeps list order (an order-preserving subsequence) |
| Visibility.SelectMembers | getting_started_with_redux/index.js:250-257 | a task is kept exactly when it is in the list with the wanted flag |
| Visibility.SelectMultiset | getting_started_with_redux/index.js:250-257 | every task with the wanted flag is kept as often as the list holds it, and no other task |
| Visibility.SelectPartition | getting_started_with_redux/index.js:250-257 | completed and active tasks together are the whole list, by length and by contents |
| Visibility.SelectUnique | getting_started_with_redux/index.js:250-257 | the filtered list is the only order-preserving subsequence holding exactly the tasks with the wanted flag |
| Visibility.GetVisibleTodos | getting_started_with_redux/index.js:246-259 | the view keeps list order and holds exactly the tasks the filter shows |
| Visibility.VisibleTodosExact | getting_started_with_redux/index.js:246-258 | a sequence is the view if and only if it keeps list order, holds only shown tasks and holds each shown task as often as the list |
| Visibility.VisibleTodosShowAll | getting_started_with_redux/index.js:248-249 | `SHOW_ALL` shows the list as it is |
| Visibility.VisibleTodosPartition | getting_started_with_redux/index.js:250-257 | the completed view and the active view have lengths summing to the list's and together hold its contents |
| Scenarios.LearnReduxSession | getting_started_with_redux/index.js:15-72 | from the initial state: add task 0, toggle it, show active gives an empty view; toggling id 999 changes nothing |

## Left out

- The React components `Link`, `FilterLink`, `Footer`, `Todo`, `TodoList`, `AddTodo`, `TodoApp` (index.js:78-244, 278-286): rendering and DOM event handling, not state reduction.
- The Babel helpers (index.js:3-13): compiler output; object spread is a datatype update and array spread a sequence concatenation.
- `createStore`, `connect`, `Provider`, the store subscription and `ReactDOM.render` (index.js:64-67, 118-127, 261-298): library plumbing; only what `combineReducers` does with these two reducers is modelled, as `TodoApp`.
- `combineReducers` also returns the previous state object when no slice changed and checks that no slice reducer returns `undefined`: the first is reference identity, the second never fires for these reducers.
- The global `nextTodoId` counter (index.js:218, 235): ids are inputs of `Add`; the counter's protocol appears only as the precondition of `Reducers.TodoAppCounterKeepsIdsDistinct`.
- Reference identity (`===` on objects, "the same array is returned"): datatypes are values, so every such property is stated as value equality.
- Reducers.Todo: `todo(undefined, TOGGLE_TODO)` throws a TypeError in the source (index.js:24 reads `state.id` of `undefined`); the model requires a prior task for a toggle instead of modelling the exception. No caller reaches that case: `todos` toggles only tasks already in the list (index.js:44-46).
- Reducers.TodoAppCounterKeepsIdsDistinct: ids are JavaScript numbers, so `nextTodoId++` (index.js:235) advances exactly only below 2^53; from there on it stays at 2^53 and every later id repeats. The model's `int` has no such bound, so the lemma holds for every counter value, whereas in the source it holds only while the counter is below 2^53.
- Reducers.VisibilityFilter: the filter is one of `SHOW_ALL`, `SHOW_ACTIVE`, `SHOW_COMPLETED`; the source stores any value it is given (index.js:58), which the model does not admit.
- Visibility.GetVisibleTodos: defined for the three filters only; for any other value the source returns `undefined` (falls off the end of the `switch` at index.js:258), and no result is invented for it.
- Task fields are typed (`int`, `string`, `bool`): actions with missing or ill-typed fields, which the source would copy into the state unchecked, are not modelled.
