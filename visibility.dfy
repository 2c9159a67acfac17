/** `getVisibleTodos`: the read-only projection of the task list that the
    list view shows under the current visibility filter. */
module Visibility {
  import opened TodoState

  /** Whether a filter lets a task through. */
  predicate Shows(filter: Filter, t: Task) {
    match filter
    case ShowAll => true
    case ShowCompleted => t.completed
    case ShowActive => !t.completed
  }

  /** `r` is `s` with some tasks left out and the rest in their order
      (matched greedily from the front). */
  predicate IsSubsequence(r: seq<Task>, s: seq<Task>)
    decreases |s|
  {
    if r == [] then true
    else if s == [] then false
    else if r[0] == s[0] then IsSubsequence(r[1..], s[1..])
    else IsSubsequence(r, s[1..])
  }

  /** The array `filter` of the source: the tasks whose `completed` flag
      equals `completed`, in list order. */
  function Select(todos: seq<Task>, completed: bool): (r: seq<Task>)
    ensures |r| <= |todos|
    ensures forall i :: 0 <= i < |r| ==> r[i].completed == completed
  {
    if todos == [] then []
    else if todos[0].completed == completed then [todos[0]] + Select(todos[1..], completed)
    else Select(todos[1..], completed)
  }

  /** `getVisibleTodos`: all tasks under `ShowAll`, the completed ones under
      `ShowCompleted`, the active ones under `ShowActive`. The result keeps
      list order and holds exactly the tasks the filter shows. */
  function GetVisibleTodos(todos: seq<Task>, filter: Filter): (r: seq<Task>)
    ensures IsSubsequence(r, todos)
    ensures forall t :: t in r <==> t in todos && Shows(filter, t)
  {
    match filter
    case ShowAll =>
      SubsequenceReflexive(todos);
      todos
    case ShowCompleted =>
      SelectIsSubsequence(todos, true);
      SelectMembers(todos, true);
      Select(todos, true)
    case ShowActive =>
      SelectIsSubsequence(todos, false);
      SelectMembers(todos, false);
      Select(todos, false)
  }

  // ---------------------------------------------------------------------
  // Subsequences

  lemma {:induction false} SubsequenceReflexive(s: seq<Task>)
    ensures IsSubsequence(s, s)
    decreases |s|
  {
    if s != [] {
      SubsequenceReflexive(s[1..]);
    }
  }

  /** A subsequence is no longer than its sequence, and one as long as it
      is the sequence itself. */
  lemma {:induction false} SubsequenceLength(r: seq<Task>, s: seq<Task>)
    requires IsSubsequence(r, s)
    ensures |r| <= |s|
    ensures |r| == |s| ==> r == s
    decreases |s|
  {
    if r != [] {
      if r[0] == s[0] {
        SubsequenceLength(r[1..], s[1..]);
        if |r| == |s| {
          assert r == [r[0]] + r[1..];
          assert s == [s[0]] + s[1..];
        }
      } else {
        SubsequenceLength(r, s[1..]);
      }
    }
  }

  // ---------------------------------------------------------------------
  // Select

  /** `Select` keeps list order. */
  lemma {:induction false} SelectIsSubsequence(s: seq<Task>, completed: bool)
    ensures IsSubsequence(Select(s, completed), s)
    decreases |s|
  {
    if s != [] {
      SelectIsSubsequence(s[1..], completed);
      if s[0].completed == completed {
        assert ([s[0]] + Select(s[1..], completed))[1..] == Select(s[1..], completed);
      }
    }
  }

  /** A task is selected exactly when it is in the list with the wanted flag. */
  lemma {:induction false} SelectMembers(s: seq<Task>, completed: bool)
    ensures forall t: Task :: t in Select(s, completed) <==> t in s && t.completed == completed
    decreases |s|
  {
    if s != [] {
      SelectMembers(s[1..], completed);
      assert s == [s[0]] + s[1..];
    }
  }

  /** `Select` keeps every task with the wanted flag as often as the list
      holds it, and no other task. */
  lemma {:induction false} SelectMultiset(s: seq<Task>, completed: bool)
    ensures forall t: Task :: multiset(Select(s, completed))[t]
                     == if t.completed == completed then multiset(s)[t] else 0
    decreases |s|
  {
    if s != [] {
      SelectMultiset(s[1..], completed);
      assert s == [s[0]] + s[1..];
    }
  }

  /** The completed and the active tasks together are the whole list. */
  lemma {:induction false} SelectPartition(s: seq<Task>)
    ensures |Select(s, true)| + |Select(s, false)| == |s|
    ensures multiset(Select(s, true)) + multiset(Select(s, false)) == multiset(s)
    decreases |s|
  {
    if s != [] {
      SelectPartition(s[1..]);
      assert s == [s[0]] + s[1..];
    }
  }

  /** A subsequence of the list made only of tasks with the wanted flag is
      a subsequence of what `Select` keeps. */
  lemma {:induction false} SubsequenceOfSelect(r: seq<Task>, s: seq<Task>, completed: bool)
    requires IsSubsequence(r, s)
    requires forall i :: 0 <= i < |r| ==> r[i].completed == completed
    ensures IsSubsequence(r, Select(s, completed))
    decreases |s|
  {
    if r != [] {
      if r[0] == s[0] {
        SubsequenceOfSelect(r[1..], s[1..], completed);
        assert ([s[0]] + Select(s[1..], completed))[1..] == Select(s[1..], completed);
      } else {
        SubsequenceOfSelect(r, s[1..], completed);
      }
    }
  }

  /** `Select` is the only order-preserving subsequence of the list that
      holds every task with the wanted flag, as often as the list does, and
      no other task. */
  lemma SelectUnique(r: seq<Task>, s: seq<Task>, completed: bool)
    requires IsSubsequence(r, s)
    requires forall i :: 0 <= i < |r| ==> r[i].completed == completed
    requires forall t: Task :: t.completed == completed ==> multiset(r)[t] == multiset(s)[t]
    ensures r == Select(s, completed)
  {
    SelectMultiset(s, completed);
    assert multiset(r) == multiset(Select(s, completed));
    assert |r| == |multiset(r)| == |Select(s, completed)|;
    SubsequenceOfSelect(r, s, completed);
    SubsequenceLength(r, Select(s, completed));
  }

  // ---------------------------------------------------------------------
  // getVisibleTodos

  /** The visible tasks are characterised without reference to how they are
      computed: a sequence is the visible list exactly when it keeps list
      order, holds only tasks the filter shows, and holds each shown task as
      often as the list does. */
  lemma VisibleTodosExact(todos: seq<Task>, filter: Filter, r: seq<Task>)
    ensures r == GetVisibleTodos(todos, filter) <==>
      && IsSubsequence(r, todos)
      && (forall i :: 0 <= i < |r| ==> Shows(filter, r[i]))
      && (forall t: Task :: Shows(filter, t) ==> multiset(r)[t] == multiset(todos)[t])
  {
    if r == GetVisibleTodos(todos, filter) {
      if filter.ShowCompleted? {
        SelectMultiset(todos, true);
      } else if filter.ShowActive? {
        SelectMultiset(todos, false);
      }
    } else if IsSubsequence(r, todos)
      && (forall i :: 0 <= i < |r| ==> Shows(filter, r[i]))
      && (forall t: Task :: Shows(filter, t) ==> multiset(r)[t] == multiset(todos)[t])
    {
      match filter
      case ShowAll =>
        assert multiset(r) == multiset(todos);
        assert |r| == |multiset(r)| == |todos|;
        SubsequenceLength(r, todos);
      case ShowCompleted =>
        SelectUnique(r, todos, true);
      case ShowActive =>
        SelectUnique(r, todos, false);
    }
  }

  /** `ShowAll` shows the list as it is. */
  lemma VisibleTodosShowAll(todos: seq<Task>)
    ensures GetVisibleTodos(todos, ShowAll) == todos
  {
  }

  /** Between them, the completed view and the active view show every task
      once: their lengths add up to the list's, and so do their contents. */
  lemma VisibleTodosPartition(todos: seq<Task>)
    ensures |GetVisibleTodos(todos, ShowCompleted)| + |GetVisibleTodos(todos, ShowActive)| == |todos|
    ensures multiset(GetVisibleTodos(todos, ShowCompleted)) + multiset(GetVisibleTodos(todos, ShowActive))
         == multiset(todos)
  {
    SelectPartition(todos);
  }
}
