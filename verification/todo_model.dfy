/** The todo record shared by the backend, the assistant and the list views. */
module TodoModel {
  import opened Wrappers
  import opened Sorting

  datatype Priority = Low | Medium | High

  /** A stored todo. `dueDate` and `createdAt` are epoch milliseconds;
      `userId` is absent on todos created without an owner. */
  datatype Todo = Todo(
    id: string,
    title: string,
    description: Option<string>,
    completed: bool,
    priority: Priority,
    dueDate: Option<int>,
    createdAt: int,
    userId: Option<string>)

  function PriorityName(p: Priority): string {
    match p
    case Low => "low"
    case Medium => "medium"
    case High => "high"
  }

  function StatusName(completed: bool): string {
    if completed then "completed" else "pending"
  }

  /** `t.description ?? ''`. */
  function DescriptionOrEmpty(t: Todo): string {
    t.description.GetOr("")
  }

  /** JavaScript truthiness of `t.description`: present and non-empty. */
  predicate HasDescription(t: Todo) {
    t.description.Some? && |t.description.value| > 0
  }

  /** JavaScript truthiness of `t.dueDate`: present and non-zero. */
  predicate HasDueDate(t: Todo) {
    t.dueDate.Some? && t.dueDate.value != 0
  }

  predicate IsPending(t: Todo) {
    !t.completed
  }

  predicate IsCompleted(t: Todo) {
    t.completed
  }

  /** `todos.filter((t) => !t.completed)`. */
  function Pending(todos: seq<Todo>): seq<Todo> {
    Filter(todos, IsPending)
  }

  /** `todos.filter((t) => t.completed)`. */
  function Completed(todos: seq<Todo>): seq<Todo> {
    Filter(todos, IsCompleted)
  }

  /** Pending and completed split a list: every todo lands in exactly one of
      them, once per occurrence, and each keeps the list's order (both are
      filters). */
  lemma {:induction false} PendingCompletedPartition(todos: seq<Todo>)
    ensures multiset(Pending(todos)) + multiset(Completed(todos)) == multiset(todos)
    ensures |Pending(todos)| + |Completed(todos)| == |todos|
    ensures forall t :: t in Pending(todos) ==> t in todos && !t.completed
    ensures forall t :: t in Completed(todos) ==> t in todos && t.completed
  {
    FilterMembers(todos, IsPending);
    FilterMembers(todos, IsCompleted);
    PartitionMultiset(todos);
    assert |multiset(Pending(todos))| + |multiset(Completed(todos))| == |multiset(todos)|;
  }

  lemma {:induction false} PartitionMultiset(todos: seq<Todo>)
    ensures multiset(Pending(todos)) + multiset(Completed(todos)) == multiset(todos)
  {
    if |todos| > 0 {
      PartitionMultiset(todos[1..]);
      var t, rest := todos[0], todos[1..];
      assert todos == [t] + rest;
      assert multiset(todos) == multiset{t} + multiset(rest);
      if t.completed {
        assert Pending(todos) == Pending(rest);
        assert Completed(todos) == [t] + Completed(rest);
      } else {
        assert Pending(todos) == [t] + Pending(rest);
        assert Completed(todos) == Completed(rest);
      }
    }
  }
}
