/** The two list screens: the paginated list with optimistic updates
    (features/homo/components/TodoList.tsx) and the plain list
    (features/homo/components/List.tsx). What they show is modelled as
    functions of the fetched todos and the query state; rendering is not. */
module TodoViews {
  import opened Wrappers
  import opened Text
  import opened TodoModel
  import opened Sorting
  import Pagination
  import TodoStore

  const DefaultPageSize: nat := 10

  // ---------------------------------------------------------------------
  // Optimistic updates (TodoList.tsx)

  /** Flips `completed` on the entries with the given id. The optimistic
      toggle and its rollback both apply this. */
  function FlipId(todos: seq<Todo>, id: string): (r: seq<Todo>)
    ensures |r| == |todos|
    ensures forall i :: 0 <= i < |r| ==>
      r[i] == if todos[i].id == id then todos[i].(completed := !todos[i].completed) else todos[i]
  {
    seq(|todos|, i requires 0 <= i < |todos| =>
      if todos[i].id == id then todos[i].(completed := !todos[i].completed) else todos[i])
  }

  /** A failed toggle is rolled back by flipping again, which restores the
      list exactly. */
  lemma ToggleRollback(todos: seq<Todo>, id: string)
    ensures FlipId(FlipId(todos, id), id) == todos
  {
    var twice := FlipId(FlipId(todos, id), id);
    assert forall i :: 0 <= i < |todos| ==> twice[i] == todos[i];
  }

  /** The optimistic toggle changes only the completion of the matching
      entries: ids, order, every other field and every other entry stay. */
  lemma ToggleOnlyMatching(todos: seq<Todo>, id: string)
    ensures var r := FlipId(todos, id);
      forall i :: 0 <= i < |r| ==>
        && r[i].id == todos[i].id && r[i].title == todos[i].title
        && r[i].description == todos[i].description && r[i].priority == todos[i].priority
        && r[i].dueDate == todos[i].dueDate && r[i].createdAt == todos[i].createdAt
        && (r[i].completed != todos[i].completed <==> todos[i].id == id)
  {
  }

  /** The optimistic updates predict the stored table: on the full table,
      the flip equals the server's toggle, and the optimistic delete (the
      list without the entries of that id) equals the server's removal. */
  lemma {:induction false} OptimisticMatchesServer(table: seq<Todo>, id: string)
    requires TodoStore.HasId(table, id)
    ensures TodoStore.ToggleComplete(table, id) == Success(FlipId(table, id))
    ensures TodoStore.Remove(table, id) == Success(TodoStore.Without(table, id))
  {
    assert TodoStore.Modify(table, id, TodoStore.Flip) == FlipId(table, id);
  }

  // ---------------------------------------------------------------------
  // Search, partition and stats (both screens)

  /** The search test on an already lower-cased search text: the lower-cased
      title or the lower-cased description contains it. */
  predicate MatchesSearch(t: Todo, search: string) {
    Contains(Lower(t.title), search)
    || (t.description.Some? && Contains(Lower(t.description.value), search))
  }

  function SearchFilter(todos: seq<Todo>, search: string): (r: seq<Todo>)
    ensures |r| <= |todos|
    ensures forall t :: t in r ==> t in todos && MatchesSearch(t, search)
  {
    if |todos| == 0 then []
    else (if MatchesSearch(todos[0], search) then [todos[0]] else []) + SearchFilter(todos[1..], search)
  }

  /** The filter keeps every todo that matches. */
  lemma {:induction false} SearchFilterKeeps(todos: seq<Todo>, search: string)
    ensures forall t :: t in todos && MatchesSearch(t, search) ==> t in SearchFilter(todos, search)
  {
    if |todos| > 0 {
      SearchFilterKeeps(todos[1..], search);
      forall t | t in todos && MatchesSearch(t, search) ensures t in SearchFilter(todos, search) {
        if t != todos[0] {
          assert t in todos[1..];
        }
      }
    }
  }

  /** The filter works entry by entry: filtering a concatenation filters
      each part, keeping order, and one todo is kept exactly when it matches. */
  lemma {:induction false} SearchFilterConcat(a: seq<Todo>, b: seq<Todo>, search: string)
    ensures SearchFilter(a + b, search) == SearchFilter(a, search) + SearchFilter(b, search)
    ensures |a| == 1 ==> SearchFilter(a, search) == if MatchesSearch(a[0], search) then a else []
  {
    if |a| > 0 {
      assert (a + b)[0] == a[0];
      assert (a + b)[1..] == a[1..] + b;
      SearchFilterConcat(a[1..], b, search);
    } else {
      assert a + b == b;
    }
    if |a| == 1 {
      assert a == [a[0]];
      SearchFilterOne(a[0], search);
    }
  }

  lemma SearchFilterOne(t: Todo, search: string)
    ensures SearchFilter([t], search) == if MatchesSearch(t, search) then [t] else []
  {
    assert [t][1..] == [];
  }

  /** When every todo matches, the filter returns the list unchanged. */
  lemma {:induction false} SearchFilterAll(todos: seq<Todo>, search: string)
    requires forall i :: 0 <= i < |todos| ==> MatchesSearch(todos[i], search)
    ensures SearchFilter(todos, search) == todos
  {
    if |todos| > 0 {
      assert MatchesSearch(todos[0], search);
      assert forall i :: 0 <= i < |todos[1..]| ==> todos[1..][i] == todos[i + 1];
      SearchFilterAll(todos[1..], search);
      assert todos == [todos[0]] + todos[1..];
    }
  }

  /** An empty search keeps every todo. */
  lemma EmptySearchKeepsAll(todos: seq<Todo>)
    ensures SearchFilter(todos, "") == todos
  {
    forall i | 0 <= i < |todos| ensures MatchesSearch(todos[i], "") {
      assert OccursAt(Lower(todos[i].title), "", 0);
    }
    SearchFilterAll(todos, "");
  }

  /** What a list screen shows for a list and a lower-cased search: the
      matching pending todos, the matching completed todos, and their
      counts. */
  datatype Sections = Sections(pending: seq<Todo>, completed: seq<Todo>, pendingCount: nat, completedCount: nat)

  function SectionsOf(todos: seq<Todo>, search: string): (r: Sections)
    ensures r.pendingCount == |r.pending| && r.completedCount == |r.completed|
    ensures r.pendingCount + r.completedCount == |SearchFilter(todos, search)|
    ensures forall t :: t in r.pending ==> t in todos && MatchesSearch(t, search) && !t.completed
    ensures forall t :: t in r.completed ==> t in todos && MatchesSearch(t, search) && t.completed
    ensures multiset(r.pending) + multiset(r.completed) == multiset(SearchFilter(todos, search))
  {
    var filtered := SearchFilter(todos, search);
    PendingCompletedPartition(filtered);
    Sections(Pending(filtered), Completed(filtered), |Pending(filtered)|, |Completed(filtered)|)
  }

  // ---------------------------------------------------------------------
  // The plain list (List.tsx)

  /** `q?.toLowerCase() ?? ""`. */
  function SearchOf(q: Option<string>): string {
    if q.Some? then Lower(q.value) else ""
  }

  /** The plain list screen: the query result (`None` while loading counts
      as an empty list) filtered by the search from the URL. */
  function ListScreen(result: Option<seq<Todo>>, q: Option<string>): (r: Sections)
    ensures result.None? ==> r == Sections([], [], 0, 0)
    ensures q.None? && result.Some? ==> r.pendingCount + r.completedCount == |result.value|
  {
    var todos := if result.Some? then result.value else [];
    EmptySearchKeepsAll(todos);
    SectionsOf(todos, SearchOf(q))
  }

  /** A card is overdue when the todo is pending and has a (truthy) due
      date earlier than now. */
  predicate IsOverdue(t: Todo, now: int) {
    !t.completed && HasDueDate(t) && t.dueDate.value < now
  }

  /** Overdue is a one-way state while the todo stays pending: it never
      reverts as time passes, every pending todo with a due date becomes
      overdue right after it, a zero (falsy) due date never does, and
      completing the todo clears it. */
  lemma OverdueFacts(t: Todo, now: int, later: int)
    ensures IsOverdue(t, now) && now <= later ==> IsOverdue(t, later)
    ensures !t.completed && HasDueDate(t) ==> IsOverdue(t, t.dueDate.value + 1)
    ensures t.dueDate == Some(0) || t.dueDate.None? ==> !IsOverdue(t, now)
    ensures !IsOverdue(t.(completed := true), now)
  {
  }

  // ---------------------------------------------------------------------
  // The paginated list (TodoList.tsx)

  /** The list query's answer: todos, total and page size, each optional. */
  datatype ListResult = ListResult(todos: Option<seq<Todo>>, total: Option<nat>, pageSize: Option<nat>)

  /** The list shown: the local copy after an optimistic update, otherwise
      the latest result (its todos or none), otherwise the local copy. */
  function DisplayTodos(optimistic: bool, result: Option<ListResult>, local: seq<Todo>): seq<Todo> {
    if optimistic then local
    else if result.Some? then result.value.todos.GetOr([])
    else local
  }

  /** The pager is shown exactly when there is more than one page. */
  function PagerShown(total: nat, pageSize: nat): (r: bool)
    requires pageSize > 0
    ensures r <==> total > pageSize
  {
    Pagination.MoreThanOnePage(total, pageSize);
    Pagination.TotalPages(total, pageSize) > 1
  }

  /** The screen's `goToPage`: the page written to the URL, if any. */
  function GoToPage(p: int, total: nat, pageSize: nat): (r: Option<int>)
    requires pageSize > 0
    ensures r == Pagination.GoToPage(p, Pagination.TotalPages(total, pageSize))
  {
    var totalPages := Pagination.Max(1, (total + pageSize - 1) / pageSize);
    if p < 1 || p > totalPages then None else Some(p)
  }

  /** A toggle's optimistic copy is what is displayed until the next result
      arrives, and rolling it back shows the original list again. */
  lemma OptimisticDisplay(result: Option<ListResult>, local: seq<Todo>, id: string)
    ensures DisplayTodos(true, result, FlipId(local, id)) == FlipId(local, id)
    ensures DisplayTodos(true, result, FlipId(FlipId(local, id), id)) == local
  {
    ToggleRollback(local, id);
  }
}
