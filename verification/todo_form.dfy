/** The create/edit form (features/homo/components/TodoForm.tsx): its
    validation rules, the values it starts from, and the mutation call a
    valid submission turns into. The mutations themselves are those of
    `TodoStore`. A date picked in the calendar is represented by its
    timestamp. */
module TodoForm {
  import opened Wrappers
  import opened TodoModel
  import TodoStore

  const MaxTitle: nat := 100
  const MaxDescription: nat := 500

  const TitleRequired := "Title is required"
  const TitleTooLong := "Maximum 100 characters"
  const DescriptionTooLong := "Maximum 500 characters"

  const NoUserToast := "User ID not found. Please log in again."
  const CreatedToast := "Todo added successfully! ✓"
  const UpdatedToast := "Todo updated!"
  const FailedToast := "Something went wrong. Please try again."

  /** The form's values. The description field holds a text (empty when
      cleared) or nothing; the date is a picked day or nothing. */
  datatype Values = Values(title: string, description: Option<string>, priority: Priority, dueDate: Option<int>)

  datatype FormField = Title | Description

  datatype Issue = Issue(field: FormField, message: string)

  /** The form schema's issues. */
  function Issues(v: Values): (r: seq<Issue>)
    ensures r == [] <==>
      1 <= |v.title| <= 100 && (v.description.Some? ==> |v.description.value| <= 500)
    ensures Issue(Title, TitleRequired) in r <==> v.title == []
    ensures Issue(Title, TitleTooLong) in r <==> |v.title| > 100
    ensures Issue(Description, DescriptionTooLong) in r <==>
      v.description.Some? && |v.description.value| > 500
  {
    (if |v.title| < 1 then [Issue(Title, TitleRequired)] else [])
    + (if |v.title| > MaxTitle then [Issue(Title, TitleTooLong)] else [])
    + (if v.description.Some? && |v.description.value| > MaxDescription
       then [Issue(Description, DescriptionTooLong)] else [])
  }

  /** What the edit page passes in: the stored todo's fields. */
  datatype InitialData = InitialData(title: string, description: Option<string>, priority: Priority, dueDate: Option<int>)

  function InitialOf(t: Todo): (r: InitialData)
    ensures r.title == t.title && r.description == t.description
    ensures r.priority == t.priority && r.dueDate == t.dueDate
  {
    InitialData(t.title, t.description, t.priority, t.dueDate)
  }

  /** The starting values: an empty title and description, medium
      priority and no date when there is no initial data; otherwise its
      fields, with a missing description shown empty and a zero date shown
      as no date. */
  function Defaults(initial: Option<InitialData>): (r: Values)
    ensures initial.None? ==> r == Values("", Some(""), Medium, None)
    ensures initial.Some? ==> r.title == initial.value.title && r.priority == initial.value.priority
    ensures r.description.Some?
    ensures initial.Some? ==> r.description == Some(initial.value.description.GetOr(""))
    ensures r.dueDate.Some? <==> initial.Some? && initial.value.dueDate.Some? && initial.value.dueDate.value != 0
    ensures r.dueDate.Some? ==> r.dueDate == initial.value.dueDate
  {
    if initial.None? then Values("", Some(""), Medium, None)
    else
      var d := initial.value;
      Values(d.title,
        Some(if d.description.Some? then d.description.value else ""),
        d.priority,
        if d.dueDate.Some? && d.dueDate.value != 0 then d.dueDate else None)
  }

  /** `values.description || undefined`: an empty description is sent as
      absent. */
  function SentDescription(d: Option<string>): (r: Option<string>)
    ensures r.Some? <==> d.Some? && d.value != ""
    ensures r.Some? ==> r == d
  {
    if d.Some? && d.value != "" then d else None
  }

  datatype Mode = CreateMode | EditMode

  /** The mutation a submission calls, if any. The create call also carries
      the signed-in user's id. */
  datatype Call =
    | CreateCall(args: TodoStore.NewTodo, userId: string)
    | UpdateCall(id: string, patch: TodoStore.Patch)

  /** What a submission does: the call made, whether the form is reset and
      `onSuccess` runs, and the toast shown. */
  datatype Outcome = Outcome(call: Option<Call>, resets: bool, toast: Option<string>)

  /** `onSubmit`, reached only with values that pass the schema. `userId`
      comes from local storage and `todoId` from the page; an empty text
      counts as missing. `fails` says whether the awaited mutation throws. */
  function OnSubmit(mode: Mode, userId: Option<string>, todoId: Option<string>, v: Values, fails: bool): (r: Outcome)
    ensures mode == CreateMode && (userId.None? || userId == Some("")) ==>
      r == Outcome(None, false, Some(NoUserToast))
    ensures mode == EditMode && (todoId.None? || todoId == Some("")) ==>
      r == Outcome(None, true, None)
    ensures r.call.Some? && r.call.value.CreateCall? ==>
      mode == CreateMode && Some(r.call.value.userId) == userId && r.call.value.userId != ""
    ensures r.call.Some? && r.call.value.UpdateCall? ==>
      mode == EditMode && Some(r.call.value.id) == todoId && r.call.value.id != ""
    ensures r.resets ==> r.toast != Some(FailedToast)
    ensures mode == CreateMode && userId.Some? && userId.value != "" ==> r.call.Some?
    ensures mode == EditMode && todoId.Some? && todoId.value != "" ==> r.call.Some?
    ensures r.call.Some? ==> (r.resets <==> !fails)
    ensures r.call.Some? ==>
      r.toast == Some(if fails then FailedToast else if mode == CreateMode then CreatedToast else UpdatedToast)
    ensures r.call.Some? && r.call.value.CreateCall? ==>
      r.call.value.args == TodoStore.NewTodo(v.title, SentDescription(v.description), v.priority, v.dueDate)
    ensures r.call.Some? && r.call.value.UpdateCall? ==>
      r.call.value.patch == TodoStore.Patch(Some(v.title), SentDescription(v.description), Some(v.priority), v.dueDate)
  {
    match mode
    case CreateMode =>
      if userId.None? || userId.value == "" then Outcome(None, false, Some(NoUserToast))
      else
        var call := CreateCall(TodoStore.NewTodo(v.title, SentDescription(v.description), v.priority, v.dueDate), userId.value);
        if fails then Outcome(Some(call), false, Some(FailedToast))
        else Outcome(Some(call), true, Some(CreatedToast))
    case EditMode =>
      if todoId.None? || todoId.value == "" then Outcome(None, true, None)
      else
        var patch := TodoStore.Patch(Some(v.title), SentDescription(v.description), Some(v.priority), v.dueDate);
        var call := UpdateCall(todoId.value, patch);
        if fails then Outcome(Some(call), false, Some(FailedToast))
        else Outcome(Some(call), true, Some(UpdatedToast))
  }

  /** The form as submitted: invalid values stop before `onSubmit`. */
  function Submit(mode: Mode, userId: Option<string>, todoId: Option<string>, v: Values, fails: bool): (r: Outcome)
    ensures Issues(v) != [] ==> r == Outcome(None, false, None)
    ensures r.call.Some? ==> Issues(v) == []
  {
    if Issues(v) != [] then Outcome(None, false, None)
    else OnSubmit(mode, userId, todoId, v, fails)
  }

  // ---------------------------------------------------------------------
  // Properties

  /** A successful create stores a pending todo with the submitted title,
      priority and date, and with the description unless it was empty. */
  lemma CreateStoresValues(table: TodoStore.Table, userId: string, v: Values, id: string, now: int)
    requires userId != "" && Issues(v) == []
    requires !TodoStore.HasId(table, id)
    ensures var r := Submit(CreateMode, Some(userId), None, v, false);
      r.call.Some? && r.call.value.CreateCall? && r.resets && r.toast == Some(CreatedToast)
    ensures var args := Submit(CreateMode, Some(userId), None, v, false).call.value.args;
      var stored := TodoStore.Get(TodoStore.Create(table, args, id, now).0, id);
      && stored.Some?
      && stored.value.title == v.title && stored.value.priority == v.priority
      && stored.value.dueDate == v.dueDate && !stored.value.completed
      && stored.value.description == SentDescription(v.description)
      && 1 <= |stored.value.title| <= 100
  {
    var args := Submit(CreateMode, Some(userId), None, v, false).call.value.args;
    TodoStore.CreateFacts(table, args, id, now);
  }

  /** A successful edit stores the submitted title and priority, the
      description unless it was cleared, and the date unless it was
      unpicked; completion and creation time stay as they were. */
  lemma EditStoresValues(table: TodoStore.Table, id: string, v: Values)
    requires id != "" && Issues(v) == []
    requires TodoStore.HasId(table, id)
    ensures var r := Submit(EditMode, None, Some(id), v, false);
      r.call.Some? && r.call.value.UpdateCall? && r.resets && r.toast == Some(UpdatedToast)
    ensures var patch := Submit(EditMode, None, Some(id), v, false).call.value.patch;
      var before := TodoStore.Get(table, id).value;
      var stored := TodoStore.Get(TodoStore.Update(table, id, patch).value, id);
      && stored.Some?
      && stored.value.title == v.title && stored.value.priority == v.priority
      && stored.value.description
           == (if v.description.Some? && v.description.value != "" then v.description else before.description)
      && stored.value.dueDate == (if v.dueDate.Some? then v.dueDate else before.dueDate)
      && stored.value.completed == before.completed && stored.value.createdAt == before.createdAt
  {
    var patch := Submit(EditMode, None, Some(id), v, false).call.value.patch;
    TodoStore.UpdateFacts(table, id, patch);
  }

  /** Saving the edit form without touching it leaves the todo exactly as
      it was, including an empty description and a zero due date. */
  lemma UntouchedEditIsNoOp(t: Todo)
    ensures var v := Defaults(Some(InitialOf(t)));
      var call := OnSubmit(EditMode, None, Some(t.id), v, false).call;
      t.id != "" ==> call.Some? && TodoStore.ApplyPatch(t, call.value.patch) == t
  {
  }

  /** Clearing the description of a todo in the edit form and saving does
      not remove it: the empty text is sent as absent, which the update
      reads as "leave as it is". Unpicking the date behaves the same way. */
  lemma ClearingKeepsOldValues(t: Todo, v: Values)
    requires t.id != ""
    requires v.description == Some("") && v.dueDate.None?
    ensures var call := OnSubmit(EditMode, None, Some(t.id), v, false).call;
      && call.Some?
      && TodoStore.ApplyPatch(t, call.value.patch).description == t.description
      && TodoStore.ApplyPatch(t, call.value.patch).dueDate == t.dueDate
  {
  }

  /** The create form starts invalid (its title is empty), and an edit form
      starts valid whenever the stored todo satisfies the schema. */
  lemma DefaultsValidity(t: Todo)
    ensures Issues(Defaults(None)) == [Issue(Title, TitleRequired)]
    ensures 1 <= |t.title| <= 100 && (t.description.Some? ==> |t.description.value| <= 500) ==>
      Issues(Defaults(Some(InitialOf(t)))) == []
  {
  }
}
