/** The todo table of the backend (convex/todos.ts): the `list` and `get`
    queries and the `create`, `update`, `toggleComplete` and `remove`
    mutations as pure transitions over the table. The table is a sequence
    of todos in insertion order with distinct ids; the database's id
    generator and clock are parameters. */
module TodoStore {
  import opened Wrappers
  import opened TodoModel

  /** The table in insertion (creation) order. */
  type Table = seq<Todo>

  const TodoNotFound: string := "Todo not found"
  /** Stands for the database's own error on a write to a missing document. */
  const MissingDocument: string := "Document not found"

  predicate UniqueIds(table: Table) {
    forall i, j :: 0 <= i < j < |table| ==> table[i].id != table[j].id
  }

  predicate HasId(table: Table, id: string) {
    exists i :: 0 <= i < |table| && table[i].id == id
  }

  /** Creation times never decrease along the table: the clock does not run
      backwards between inserts. */
  predicate CreatedInOrder(table: Table) {
    forall i, j :: 0 <= i < j < |table| ==> table[i].createdAt <= table[j].createdAt
  }

  // ---------------------------------------------------------------------
  // Queries

  /** `get`: the todo with that id, or none. */
  function Get(table: Table, id: string): (r: Option<Todo>)
    ensures r.Some? ==> r.value in table && r.value.id == id
    ensures r.None? <==> !HasId(table, id)
  {
    if |table| == 0 then None
    else if table[0].id == id then Some(table[0])
    else
      var r := Get(table[1..], id);
      assert HasId(table, id) ==> HasId(table[1..], id) by {
        if HasId(table, id) {
          var i :| 0 <= i < |table| && table[i].id == id;
          assert table[1..][i - 1] == table[i];
        }
      }
      r
  }

  /** Whether `list` with the optional `completed` argument keeps `t`. */
  predicate Selected(completed: Option<bool>, t: Todo) {
    completed.None? || t.completed == completed.value
  }

  /** `list`: the todos with the requested completion state (all of them
      without an argument), newest first. */
  function List(table: Table, completed: Option<bool>): (r: seq<Todo>)
    ensures |r| <= |table|
    ensures forall t :: t in r ==> t in table && Selected(completed, t)
  {
    if |table| == 0 then []
    else List(table[1..], completed) + (if Selected(completed, table[0]) then [table[0]] else [])
  }

  // ---------------------------------------------------------------------
  // Mutations

  /** The arguments of `create`. */
  datatype NewTodo = NewTodo(title: string, description: Option<string>, priority: Priority, dueDate: Option<int>)

  /** `create`: inserts the arguments as a pending todo created `now`, under
      the id the database generates (`id`, not yet in use), and returns
      that id. The mutation sets no owner. */
  function Create(table: Table, args: NewTodo, id: string, now: int): (r: (Table, string))
    requires !HasId(table, id)
    ensures r.1 == id
    ensures |r.0| == |table| + 1 && r.0[..|table|] == table
  {
    (table + [Todo(id, args.title, args.description, false, args.priority, args.dueDate, now, None)], id)
  }

  /** The optional fields of `update`; `None` leaves a field as it is. */
  datatype Patch = Patch(title: Option<string>, description: Option<string>, priority: Option<Priority>, dueDate: Option<int>)

  function ApplyPatch(t: Todo, p: Patch): (r: Todo)
    ensures r.id == t.id && r.completed == t.completed && r.createdAt == t.createdAt && r.userId == t.userId
  {
    Todo(t.id,
      p.title.GetOr(t.title),
      if p.description.Some? then p.description else t.description,
      t.completed,
      p.priority.GetOr(t.priority),
      if p.dueDate.Some? then p.dueDate else t.dueDate,
      t.createdAt,
      t.userId)
  }

  /** Replaces the todo with id `id` by `f` of it. */
  function Modify(table: Table, id: string, f: Todo -> Todo): (r: Table)
    ensures |r| == |table|
    ensures forall i :: 0 <= i < |r| ==> r[i] == if table[i].id == id then f(table[i]) else table[i]
  {
    seq(|table|, i requires 0 <= i < |table| => if table[i].id == id then f(table[i]) else table[i])
  }

  /** `update`: patches the supplied fields of an existing todo; patching a
      missing document fails. */
  function Update(table: Table, id: string, p: Patch): (r: Result<Table, string>)
    ensures r.Failure? <==> !HasId(table, id)
    ensures r.Failure? ==> r.error == MissingDocument
  {
    if Get(table, id).None? then Failure(MissingDocument)
    else Success(Modify(table, id, t => ApplyPatch(t, p)))
  }

  function Flip(t: Todo): (r: Todo)
    ensures r.completed == !t.completed
  {
    t.(completed := !t.completed)
  }

  /** `toggleComplete`: flips the completion of an existing todo. */
  function ToggleComplete(table: Table, id: string): (r: Result<Table, string>)
    ensures r.Failure? <==> !HasId(table, id)
    ensures r.Failure? ==> r.error == TodoNotFound
  {
    if Get(table, id).None? then Failure(TodoNotFound)
    else Success(Modify(table, id, Flip))
  }

  /** `remove`: deletes an existing todo; deleting a missing document
      fails. */
  function Remove(table: Table, id: string): (r: Result<Table, string>)
    ensures r.Failure? <==> !HasId(table, id)
    ensures r.Failure? ==> r.error == MissingDocument
  {
    if Get(table, id).None? then Failure(MissingDocument)
    else Success(Without(table, id))
  }

  function Without(table: Table, id: string): (r: Table)
    ensures |r| <= |table|
    ensures forall t :: t in r ==> t in table && t.id != id
  {
    if |table| == 0 then []
    else (if table[0].id == id then [] else [table[0]]) + Without(table[1..], id)
  }

  // ---------------------------------------------------------------------
  // Properties

  /** `get` finds every todo of a table with distinct ids by its id. */
  lemma {:induction false} GetFinds(table: Table, i: nat)
    requires UniqueIds(table) && i < |table|
    ensures Get(table, table[i].id) == Some(table[i])
  {
    if i > 0 {
      assert table[0].id != table[i].id;
      assert table[1..][i - 1] == table[i];
      GetFinds(table[1..], i - 1);
    }
  }

  /** `list` keeps exactly the todos with the requested state. */
  lemma {:induction false} ListMembers(table: Table, completed: Option<bool>)
    ensures forall t :: t in table && Selected(completed, t) ==> t in List(table, completed)
  {
    if |table| > 0 {
      ListMembers(table[1..], completed);
      forall t | t in table && Selected(completed, t) ensures t in List(table, completed) {
        if t != table[0] {
          assert t in table[1..];
        }
      }
    }
  }

  predicate NewestFirst(r: seq<Todo>) {
    forall i, j :: 0 <= i < j < |r| ==> r[i].createdAt >= r[j].createdAt
  }

  /** `list` returns the selected todos latest-inserted first: with
      creation times in insertion order, by decreasing creation time. */
  lemma {:induction false} ListNewestFirst(table: Table, completed: Option<bool>)
    requires CreatedInOrder(table)
    ensures NewestFirst(List(table, completed))
  {
    if |table| > 0 {
      var rest := List(table[1..], completed);
      assert CreatedInOrder(table[1..]) by {
        forall i, j | 0 <= i < j < |table[1..]| ensures table[1..][i].createdAt <= table[1..][j].createdAt {
          assert table[1..][i] == table[i + 1] && table[1..][j] == table[j + 1];
        }
      }
      ListNewestFirst(table[1..], completed);
      var r := List(table, completed);
      var tail := if Selected(completed, table[0]) then [table[0]] else [];
      assert r == rest + tail;
      forall i, j | 0 <= i < j < |r| ensures r[i].createdAt >= r[j].createdAt {
        if j >= |rest| {
          assert r[j] == table[0];
          assert r[i] == rest[i];
          assert rest[i] in rest;
          assert rest[i] in table[1..];
          var k :| 0 <= k < |table[1..]| && table[1..][k] == rest[i];
          assert table[k + 1] == rest[i];
          assert table[0].createdAt <= table[k + 1].createdAt;
          assert r[i].createdAt >= r[j].createdAt;
        } else {
          assert r[i] == rest[i] && r[j] == rest[j];
          assert NewestFirst(rest);
        }
      }
    }
  }

  /** Listing completed and pending todos splits the full listing, which
      holds every todo of the table once. */
  lemma ListPartition(table: Table)
    ensures multiset(List(table, Some(true))) + multiset(List(table, Some(false))) == multiset(List(table, None))
    ensures multiset(List(table, None)) == multiset(table)
  {
    ListSplit(table);
    ListAll(table);
  }

  lemma {:induction false} ListSplit(table: Table)
    ensures multiset(List(table, Some(true))) + multiset(List(table, Some(false))) == multiset(List(table, None))
  {
    if |table| > 0 {
      var t := table[0];
      var done := List(table[1..], Some(true));
      var open := List(table[1..], Some(false));
      var all := List(table[1..], None);
      ListSplit(table[1..]);
      assert List(table, None) == all + [t];
      if t.completed {
        assert List(table, Some(true)) == done + [t];
        assert List(table, Some(false)) == open + [];
        assert open + [] == open;
      } else {
        assert List(table, Some(true)) == done + [];
        assert done + [] == done;
        assert List(table, Some(false)) == open + [t];
      }
    }
  }

  lemma {:induction false} ListAll(table: Table)
    ensures multiset(List(table, None)) == multiset(table)
  {
    if |table| > 0 {
      ListAll(table[1..]);
      assert List(table, None) == List(table[1..], None) + [table[0]];
      assert table == [table[0]] + table[1..];
    }
  }

  /** `create` adds one todo, findable by the new id, pending, created
      `now`, with the given fields and no owner; it keeps ids distinct, and
      keeps creation times in order when `now` is no earlier than the
      table's latest. Every other todo is unchanged. */
  lemma CreateFacts(table: Table, args: NewTodo, id: string, now: int)
    requires !HasId(table, id)
    ensures var (t2, _) := Create(table, args, id, now);
      var created := Get(t2, id);
      && created.Some?
      && created.value.title == args.title && created.value.description == args.description
      && created.value.priority == args.priority && created.value.dueDate == args.dueDate
      && !created.value.completed && created.value.createdAt == now && created.value.userId.None?
      && (forall other :: other != id ==> Get(t2, other) == Get(table, other))
      && (UniqueIds(table) ==> UniqueIds(t2))
      && (CreatedInOrder(table) && (forall t :: t in table ==> t.createdAt <= now) ==> CreatedInOrder(t2))
  {
    var t2 := Create(table, args, id, now).0;
    GetAppend(table, t2[|table|], id);
    forall other | other != id ensures Get(t2, other) == Get(table, other) {
      GetAppend(table, t2[|table|], other);
    }
    if CreatedInOrder(table) && (forall t :: t in table ==> t.createdAt <= now) {
      forall i, j | 0 <= i < j < |t2| ensures t2[i].createdAt <= t2[j].createdAt {
        if j == |table| {
          assert t2[i] == table[i];
          assert table[i] in table;
        }
      }
    }
  }

  lemma {:induction false} GetAppend(table: Table, t: Todo, id: string)
    ensures Get(table + [t], id) == if HasId(table, id) then Get(table, id) else if t.id == id then Some(t) else None
  {
    if |table| > 0 {
      assert (table + [t])[1..] == table[1..] + [t];
      GetAppend(table[1..], t, id);
      if table[0].id != id && HasId(table, id) {
        var i :| 0 <= i < |table| && table[i].id == id;
        assert table[1..][i - 1] == table[i];
      }
    } else {
      assert table + [t] == [t];
    }
  }

  /** `get` after replacing one todo through `f` (which keeps ids). */
  lemma {:induction false} GetModify(table: Table, id: string, f: Todo -> Todo, other: string)
    requires forall t :: f(t).id == t.id
    ensures Get(Modify(table, id, f), other) ==
      if other == id && Get(table, other).Some? then Some(f(Get(table, other).value)) else Get(table, other)
  {
    if |table| > 0 {
      var m := Modify(table, id, f);
      assert m[1..] == Modify(table[1..], id, f);
      GetModify(table[1..], id, f, other);
    }
  }

  /** `update` on an existing todo changes only the supplied fields of that
      todo; completion, creation time, owner and every other todo stay. */
  lemma UpdateFacts(table: Table, id: string, p: Patch)
    requires HasId(table, id)
    ensures var r := Update(table, id, p);
      var before := Get(table, id).value;
      && r.Success?
      && Get(r.value, id) == Some(ApplyPatch(before, p))
      && (p.title.Some? ==> Get(r.value, id).value.title == p.title.value)
      && (p.title.None? ==> Get(r.value, id).value.title == before.title)
      && (p.description.Some? ==> Get(r.value, id).value.description == p.description)
      && (p.description.None? ==> Get(r.value, id).value.description == before.description)
      && (p.priority.Some? ==> Get(r.value, id).value.priority == p.priority.value)
      && (p.priority.None? ==> Get(r.value, id).value.priority == before.priority)
      && (p.dueDate.Some? ==> Get(r.value, id).value.dueDate == p.dueDate)
      && (p.dueDate.None? ==> Get(r.value, id).value.dueDate == before.dueDate)
      && (forall other :: other != id ==> Get(r.value, other) == Get(table, other))
  {
    var f := t => ApplyPatch(t, p);
    GetModify(table, id, f, id);
    forall other | other != id ensures Get(Update(table, id, p).value, other) == Get(table, other) {
      GetModify(table, id, f, other);
    }
  }

  /** An empty patch changes nothing; applying the same patch twice is the
      same as applying it once. */
  lemma UpdateIdempotent(table: Table, id: string, p: Patch)
    requires HasId(table, id)
    ensures Update(table, id, Patch(None, None, None, None)) == Success(table)
    ensures Update(Update(table, id, p).value, id, p) == Update(table, id, p)
  {
    EmptyPatchNoOp(table, id);
    var once := Modify(table, id, t => ApplyPatch(t, p));
    assert Update(table, id, p) == Success(once);
    var i :| 0 <= i < |table| && table[i].id == id;
    assert once[i].id == id;
    assert HasId(once, id);
    forall k | 0 <= k < |once| && once[k].id == id ensures ApplyPatch(once[k], p) == once[k] {
      assert once[k] == ApplyPatch(table[k], p);
    }
    PatchTwice(once, id, p);
    assert Update(once, id, p) == Success(Modify(once, id, t => ApplyPatch(t, p)));
  }

  lemma EmptyPatchNoOp(table: Table, id: string)
    requires HasId(table, id)
    ensures Update(table, id, Patch(None, None, None, None)) == Success(table)
  {
    var r := Modify(table, id, t => ApplyPatch(t, Patch(None, None, None, None)));
    assert forall k :: 0 <= k < |table| ==> r[k] == table[k];
    assert r == table;
  }

  /** Applying a patch to a table it was already applied to changes
      nothing. */
  lemma PatchTwice(table: Table, id: string, p: Patch)
    requires forall k :: 0 <= k < |table| && table[k].id == id ==> ApplyPatch(table[k], p) == table[k]
    ensures Modify(table, id, t => ApplyPatch(t, p)) == table
  {
    var r := Modify(table, id, t => ApplyPatch(t, p));
    assert forall k :: 0 <= k < |table| ==> r[k] == table[k];
  }

  /** `toggleComplete` flips exactly the one todo's completion. */
  lemma ToggleFacts(table: Table, id: string)
    requires HasId(table, id)
    ensures var r := ToggleComplete(table, id);
      && r.Success?
      && Get(r.value, id) == Some(Get(table, id).value.(completed := !Get(table, id).value.completed))
      && (forall other :: other != id ==> Get(r.value, other) == Get(table, other))
  {
    GetModify(table, id, Flip, id);
    forall other | other != id ensures Get(ToggleComplete(table, id).value, other) == Get(table, other) {
      GetModify(table, id, Flip, other);
    }
  }

  /** Toggling the same todo twice restores the table. */
  lemma ToggleTwice(table: Table, id: string)
    requires HasId(table, id)
    ensures ToggleComplete(ToggleComplete(table, id).value, id) == Success(table)
  {
    var once := Modify(table, id, Flip);
    var i :| 0 <= i < |table| && table[i].id == id;
    assert once[i].id == id;
    FlipTwice(table, id);
  }

  lemma FlipTwice(table: Table, id: string)
    ensures Modify(Modify(table, id, Flip), id, Flip) == table
  {
    var twice := Modify(Modify(table, id, Flip), id, Flip);
    assert forall k :: 0 <= k < |table| ==> twice[k] == table[k];
  }

  /** `remove` deletes exactly the todo with that id: it is gone, every
      other todo is found as before, and with distinct ids the table
      shrinks by one. */
  lemma {:induction false} RemoveFacts(table: Table, id: string)
    requires HasId(table, id)
    ensures var r := Remove(table, id);
      && r.Success?
      && Get(r.value, id).None?
      && (forall other :: other != id ==> Get(r.value, other) == Get(table, other))
      && (UniqueIds(table) ==> |r.value| == |table| - 1)
  {
    WithoutFacts(table, id);
  }

  lemma WithoutFacts(table: Table, id: string)
    ensures Get(Without(table, id), id).None?
    ensures forall other :: other != id ==> Get(Without(table, id), other) == Get(table, other)
    ensures UniqueIds(table) && HasId(table, id) ==> |Without(table, id)| == |table| - 1
    ensures !HasId(table, id) ==> Without(table, id) == table
  {
    forall other | other != id ensures Get(Without(table, id), other) == Get(table, other) {
      WithoutKeepsOthers(table, id, other);
    }
    if UniqueIds(table) && HasId(table, id) {
      WithoutShrinks(table, id);
    }
    if !HasId(table, id) {
      WithoutMissing(table, id);
    }
  }

  /** The tail of a table has no id the whole table lacks, and keeps
      distinct ids. */
  lemma TailFacts(table: Table, id: string)
    requires |table| > 0
    ensures !HasId(table, id) ==> !HasId(table[1..], id)
    ensures UniqueIds(table) ==> UniqueIds(table[1..])
    ensures UniqueIds(table) && table[0].id == id ==> !HasId(table[1..], id)
    ensures HasId(table, id) && table[0].id != id ==> HasId(table[1..], id)
  {
    assert forall k :: 0 <= k < |table[1..]| ==> table[1..][k] == table[k + 1];
    if HasId(table, id) && table[0].id != id {
      var i :| 0 <= i < |table| && table[i].id == id;
      assert table[1..][i - 1] == table[i];
    }
  }

  lemma {:induction false} WithoutKeepsOthers(table: Table, id: string, other: string)
    requires other != id
    ensures Get(Without(table, id), other) == Get(table, other)
  {
    if |table| > 0 {
      WithoutKeepsOthers(table[1..], id, other);
      var rest := Without(table[1..], id);
      var w := Without(table, id);
      if table[0].id == id {
        assert w == rest;
        assert Get(table, other) == Get(table[1..], other);
      } else {
        assert w == [table[0]] + rest;
        assert w[0] == table[0] && w[1..] == rest;
        if table[0].id != other {
          assert Get(w, other) == Get(rest, other);
          assert Get(table, other) == Get(table[1..], other);
        }
      }
    }
  }

  lemma {:induction false} WithoutMissing(table: Table, id: string)
    requires !HasId(table, id)
    ensures Without(table, id) == table
  {
    if |table| > 0 {
      TailFacts(table, id);
      WithoutMissing(table[1..], id);
      assert table == [table[0]] + table[1..];
    }
  }

  lemma {:induction false} WithoutShrinks(table: Table, id: string)
    requires UniqueIds(table) && HasId(table, id)
    ensures |Without(table, id)| == |table| - 1
  {
    TailFacts(table, id);
    if table[0].id == id {
      WithoutMissing(table[1..], id);
    } else {
      WithoutShrinks(table[1..], id);
    }
  }
}
