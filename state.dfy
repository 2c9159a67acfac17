/** The values the todo application's reducers work on: tasks, actions,
    visibility filters and the combined application state. A JavaScript
    `undefined` prior state is `None`. */
module TodoState {

  datatype Option<+T> = None | Some(value: T) {
    /** The value, or `default` when it is absent (a JavaScript default parameter). */
    function GetOr(default: T): T {
      match this
      case Some(v) => v
      case None => default
    }
  }

  /** One todo item: `{id, text, completed}`. */
  datatype Task = Task(id: int, text: string, completed: bool)

  /** The three visibility filters the application dispatches. */
  datatype Filter = ShowAll | ShowActive | ShowCompleted

  /** The dispatched actions, by their `type` tag:
      `ADD_TODO`, `TOGGLE_TODO`, `SET_VISIBILITY_FILTER`, and any other tag. */
  datatype Action =
    | Add(id: int, text: string)
    | Toggle(id: int)
    | SetFilter(filter: Filter)
    | Other

  /** The store's state, as built by combining the two slice reducers. */
  datatype AppState = AppState(todos: seq<Task>, visibilityFilter: Filter)

  /** No two tasks of the list share an id. */
  predicate DistinctIds(s: seq<Task>) {
    forall i, j :: 0 <= i < j < |s| ==> s[i].id != s[j].id
  }

  /** Some task of the list has the given id. */
  predicate HasId(s: seq<Task>, id: int) {
    exists i :: 0 <= i < |s| && s[i].id == id
  }
}
