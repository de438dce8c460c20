/** The rule-based answer engine of the assistant (convex/ai.ts):
    `buildRuleBasedAnswer` and the pure part of the `askAssistant` action.
    The todos the action would fetch for a user are a parameter. */
module Assistant {
  import opened Wrappers
  import opened Text
  import opened TodoModel
  import opened Sorting
  import opened Ranker

  // The not-found reply and the two headers are written in pieces so that
  // the verifier sees their first characters (it does not look inside long
  // literals).
  const OnboardingReply: string :=
    "You don't have any todos yet. Click 'New Todo' and add your first task, then ask me: 'What should I do first?'."
  const NotFoundReply: string :=
    "I couldn't find a specific todo " +
    "related to your question. Try different words or be more specific about the title/description."
  const PlanHeader: string := "Based on your tasks, " + "here's how I'd prioritize:"
  const LookupHeader: string := "Here's what I found from your todos " + "related to this question:"
  const HighReason: string := "\U{2014} High priority."
  const DueReason: string := "\U{2014} Has a due date, should be done soon."
  const WaitingReason: string := "\U{2014} Has been in your list for a while."
  const MaxPlanItems: nat := 3
  const MaxMatches: nat := 5

  /** high = 0, medium = 1, low = 2. */
  function PriorityRank(p: Priority): int {
    match p
    case High => 0
    case Medium => 1
    case Low => 2
  }

  function RankOf(t: Todo): int {
    PriorityRank(t.priority)
  }

  /** The comparator of `importantPending`: priority rank, then due date when
      both todos have one and they differ, then creation time, oldest first. */
  function ByImportance(a: Todo, b: Todo): int {
    var pa := RankOf(a);
    var pb := RankOf(b);
    if pa != pb then pa - pb
    else if HasDueDate(a) && HasDueDate(b) && a.dueDate.value != b.dueDate.value then
      a.dueDate.value - b.dueDate.value
    else a.createdAt - b.createdAt
  }

  /** The first three pending todos after sorting by importance. */
  function Top3(todos: seq<Todo>): seq<Todo> {
    Take(SortBy(Pending(todos), ByImportance), MaxPlanItems)
  }

  /** The fixed phrase list that marks a "what should I do next" question,
      matched against the lower-cased question. */
  predicate IsNextActionQuestion(lowerQ: string) {
    (Contains(lowerQ, "რა") && Contains(lowerQ, "ვქნა"))
    || Contains(lowerQ, "რა გავაკეთო")
    || Contains(lowerQ, "what should i do")
    || Contains(lowerQ, "what next")
    || Contains(lowerQ, "priorit")
  }

  /** The one reason given for a plan item, by precedence. */
  function Reason(t: Todo): string {
    if t.priority == High then HighReason
    else if HasDueDate(t) then DueReason
    else WaitingReason
  }

  /** `${i + 1}. ${t.title} ${why}`. */
  function PlanLine(index: nat, t: Todo): string {
    NatToString(index + 1) + ". " + t.title + " " + Reason(t)
  }

  function PlanLines(ts: seq<Todo>): (r: seq<string>)
    ensures |r| == |ts|
    ensures forall i :: 0 <= i < |r| ==> r[i] == PlanLine(i, ts[i])
  {
    seq(|ts|, i requires 0 <= i < |ts| => PlanLine(i, ts[i]))
  }

  /** A plan line ends in exactly one of the three reasons, chosen by
      precedence: high priority, then a due date, then age. */
  lemma PlanLineReason(index: nat, t: Todo)
    ensures EndsWith(PlanLine(index, t), HighReason) <==> t.priority == High
    ensures EndsWith(PlanLine(index, t), DueReason) <==> t.priority != High && HasDueDate(t)
    ensures EndsWith(PlanLine(index, t), WaitingReason) <==> t.priority != High && !HasDueDate(t)
  {
    var head := NatToString(index + 1) + ". " + t.title + " ";
    var r := Reason(t);
    assert PlanLine(index, t) == head + r;
    assert EndsWith(head + r, r);
    assert HighReason[14] == 'y' && DueReason[36] == 'n' && WaitingReason[34] == 'e';
    if EndsWith(head + r, HighReason) { EndsWithLastTwo(head, r, HighReason); }
    if EndsWith(head + r, DueReason) { EndsWithLastTwo(head, r, DueReason); }
    if EndsWith(head + r, WaitingReason) { EndsWithLastTwo(head, r, WaitingReason); }
  }

  function PlanSummary(pending: nat, completed: nat): string {
    "You have " + NatToString(pending) + " pending and " + NatToString(completed) + " completed todos."
  }

  function LookupSummary(pending: nat, completed: nat): string {
    "You have " + NatToString(pending) + " active and " + NatToString(completed) + " completed tasks."
  }

  /** The shape of a reply before it is rendered to text. */
  datatype RuleAnswer =
    | Onboarding
    | Plan(items: seq<Todo>, pending: nat, completed: nat)
    | NotFound
    | Lookup(items: seq<Todo>, pending: nat, completed: nat)

  /** `buildRuleBasedAnswer`, before rendering. */
  function RuleBasedAnswer(question: string, todos: seq<Todo>): RuleAnswer {
    if |todos| == 0 then Onboarding
    else
      var pending := Pending(todos);
      var completed := Completed(todos);
      var top3 := Top3(todos);
      if IsNextActionQuestion(Lower(question)) && |top3| > 0 then
        Plan(top3, |pending|, |completed|)
      else
        var topTodos := BuildTodoContext(todos, question).topTodos;
        if |topTodos| == 0 then NotFound
        else Lookup(Take(topTodos, MaxMatches), |pending|, |completed|)
  }

  function Render(a: RuleAnswer): string {
    match a
    case Onboarding => OnboardingReply
    case NotFound => NotFoundReply
    case Plan(items, p, c) =>
      Join([PlanHeader, ""] + PlanLines(items) + ["", PlanSummary(p, c)], "\n")
    case Lookup(items, p, c) =>
      Join([LookupHeader, ""] + ContextLines(items) + ["", LookupSummary(p, c)], "\n")
  }

  function BuildRuleBasedAnswer(question: string, todos: seq<Todo>): string {
    Render(RuleBasedAnswer(question, todos))
  }

  datatype Match = Match(id: string, title: string)

  datatype Answer = Answer(reply: string, matches: seq<Match>)

  function MatchesOf(ts: seq<Todo>): (r: seq<Match>)
    ensures |r| == |ts|
    ensures forall i :: 0 <= i < |r| ==> r[i] == Match(ts[i].id, ts[i].title)
  {
    seq(|ts|, i requires 0 <= i < |ts| => Match(ts[i].id, ts[i].title))
  }

  /** The todos the action works on: the user's list when a (non-empty)
      user id is given, none otherwise. */
  function TodosFor(userId: Option<string>, stored: seq<Todo>): seq<Todo> {
    if userId.Some? && |userId.value| > 0 then stored else []
  }

  /** The `askAssistant` handler with the fetched todos passed in. */
  function AskAssistant(userId: Option<string>, stored: seq<Todo>, question: string): Answer {
    var todos := TodosFor(userId, stored);
    var topTodos := BuildTodoContext(todos, question).topTodos;
    var matches := MatchesOf(Take(topTodos, MaxMatches));
    var reply := BuildRuleBasedAnswer(question, if |topTodos| > 0 then topTodos else todos);
    Answer(reply, matches)
  }

  // ---------------------------------------------------------------------
  // The rule-based answer

  /** With no todos the reply is the fixed onboarding text, whatever the
      question. */
  lemma OnboardingWhenEmpty(question: string)
    ensures BuildRuleBasedAnswer(question, []) == OnboardingReply
  {
  }

  /** The plan items are at most three pending todos of the list, ordered
      by priority rank, and no pending todo left out outranks one kept. */
  lemma Top3Facts(todos: seq<Todo>)
    ensures var top3 := Top3(todos);
      && |top3| == (if |Pending(todos)| <= MaxPlanItems then |Pending(todos)| else MaxPlanItems)
      && (forall t :: t in top3 ==> t in todos && !t.completed)
      && SortedByKey(top3, RankOf)
      && (forall x, y :: x in top3 && y in multiset(Pending(todos)) - multiset(top3) ==> RankOf(x) <= RankOf(y))
  {
    Top3Sorted(todos);
    Top3Best(todos);
    Top3Members(todos);
  }

  lemma Top3Sorted(todos: seq<Todo>)
    ensures SortedByKey(SortBy(Pending(todos), ByImportance), RankOf)
    ensures SortedByKey(Top3(todos), RankOf)
  {
    assert RefinesKey(ByImportance, RankOf);
    SortBySortedByKey(Pending(todos), ByImportance, RankOf);
  }

  lemma Top3Best(todos: seq<Todo>)
    ensures forall x, y :: x in Top3(todos) && y in multiset(Pending(todos)) - multiset(Top3(todos)) ==>
      RankOf(x) <= RankOf(y)
  {
    var sorted := SortBy(Pending(todos), ByImportance);
    Top3Sorted(todos);
    TakeKeepsBestByKey(sorted, MaxPlanItems, RankOf);
    assert multiset(sorted) == multiset(Pending(todos));
  }

  lemma Top3Members(todos: seq<Todo>)
    ensures forall t :: t in Top3(todos) ==> t in todos && !t.completed
  {
    var pending := Pending(todos);
    var sorted := SortBy(pending, ByImportance);
    FilterMembers(todos, IsPending);
    forall t | t in Top3(todos) ensures t in todos && !t.completed {
      assert t in sorted;
      assert t in multiset(sorted);
      assert t in multiset(pending);
      assert IsPending(t);
    }
  }

  /** The planning reply is given exactly when the lower-cased question
      holds a next-action phrase and at least one todo is pending. */
  lemma PlanIff(question: string, todos: seq<Todo>)
    ensures RuleBasedAnswer(question, todos).Plan? <==>
      IsNextActionQuestion(Lower(question)) && exists i :: 0 <= i < |todos| && !todos[i].completed
  {
    Top3Facts(todos);
    FilterNone(todos, IsPending);
  }

  /** A planning reply lists the first (at most three) pending todos by
      priority rank, high first; no pending todo left out has a higher
      priority than one listed; the counts cover every todo passed in. */
  lemma PlanContents(question: string, todos: seq<Todo>)
    requires RuleBasedAnswer(question, todos).Plan?
    ensures var a := RuleBasedAnswer(question, todos);
      && a.items == Top3(todos)
      && 0 < |a.items| <= MaxPlanItems
      && a.pending == |Pending(todos)| && a.completed == |Completed(todos)|
      && a.pending + a.completed == |todos|
  {
    PendingCompletedPartition(todos);
  }

  /** The "couldn't find a specific todo" reply is never produced: it needs
      an empty ranking of a non-empty list, and the ranking of a non-empty
      list is never empty. */
  lemma NotFoundUnreachable(question: string, todos: seq<Todo>)
    ensures RuleBasedAnswer(question, todos) != NotFound
  {
    if |todos| > 0 {
      assert |BuildTodoContext(todos, question).topTodos| > 0;
    }
  }

  /** A lookup reply lists the first (at most five) ranked todos. */
  lemma LookupContents(question: string, todos: seq<Todo>)
    requires RuleBasedAnswer(question, todos).Lookup?
    ensures var a := RuleBasedAnswer(question, todos);
      && a.items == Take(BuildTodoContext(todos, question).topTodos, MaxMatches)
      && 0 < |a.items| <= MaxMatches
      && !(IsNextActionQuestion(Lower(question)) && exists i :: 0 <= i < |todos| && !todos[i].completed)
      && a.pending + a.completed == |todos|
  {
    PlanIff(question, todos);
    PendingCompletedPartition(todos);
  }

  /** Two todos of one priority compared by due date when both have one and
      by creation time otherwise. */
  predicate ImportanceCycle(a: Todo, b: Todo, c: Todo) {
    ByImportance(a, b) < 0 && ByImportance(b, c) < 0 && ByImportance(c, a) < 0
  }

  /** The importance comparator is not transitive: among todos of one
      priority, some with and some without a due date, it can order
      a before b, b before c and c before a. */
  lemma ImportanceNotTransitive()
    ensures exists a, b, c :: ImportanceCycle(a, b, c)
  {
    var a := Todo("a", "a", None, false, Medium, Some(10), 5, None);
    var b := Todo("b", "b", None, false, Medium, None, 6, None);
    var c := Todo("c", "c", None, false, Medium, Some(5), 7, None);
    assert ImportanceCycle(a, b, c);
  }

  /** Where all pending todos have a due date, or none has, the importance
      comparator is consistent and the sorted pending list is fully ordered
      by priority, then due date, then creation time. */
  lemma ImportanceSortedWhenDueDatesUniform(todos: seq<Todo>)
    requires (forall t :: t in Pending(todos) ==> HasDueDate(t))
          || (forall t :: t in Pending(todos) ==> !HasDueDate(t))
    ensures SortedBy(SortBy(Pending(todos), ByImportance), ByImportance)
  {
    assert ConsistentOn(Pending(todos), ByImportance);
    SortBySorted(Pending(todos), ByImportance);
  }

  lemma {:induction false} PlanLinesSingle(items: seq<Todo>)
    requires forall i :: 0 <= i < |items| ==> '\n' !in items[i].title
    ensures forall i :: 0 <= i < |PlanLines(items)| ==> '\n' !in PlanLines(items)[i]
  {
    forall i | 0 <= i < |items| ensures '\n' !in PlanLine(i, items[i]) {
      PlanLineSingle(i, items[i]);
    }
  }

  lemma PlanLineSingle(index: nat, t: Todo)
    requires '\n' !in t.title
    ensures '\n' !in PlanLine(index, t)
  {
    var n := NatToString(index + 1);
    assert '\n' !in n by {
      forall k | 0 <= k < |n| ensures n[k] != '\n' {}
    }
    var why := Reason(t);
    assert '\n' !in why by {
      if t.priority == High {
        assert why == HighReason;
      } else if HasDueDate(t) {
        assert why == DueReason;
      } else {
        assert why == WaitingReason;
      }
    }
    assert PlanLine(index, t) == n + ". " + t.title + " " + why;
  }

  lemma SummarySingle(pending: nat, completed: nat)
    ensures '\n' !in PlanSummary(pending, completed)
    ensures '\n' !in LookupSummary(pending, completed)
  {
    var p := NatToString(pending);
    var c := NatToString(completed);
    assert '\n' !in p by { forall k | 0 <= k < |p| ensures p[k] != '\n' {} }
    assert '\n' !in c by { forall k | 0 <= k < |c| ensures c[k] != '\n' {} }
  }

  /** A planning reply is: header, blank line, one line per item, blank
      line, count line. */
  lemma PlanReplyLines(items: seq<Todo>, pending: nat, completed: nat)
    requires forall i :: 0 <= i < |items| ==> '\n' !in items[i].title
    ensures Split(Render(Plan(items, pending, completed)), '\n')
         == [PlanHeader, ""] + PlanLines(items) + ["", PlanSummary(pending, completed)]
  {
    PlanLinesSingle(items);
    SummarySingle(pending, completed);
    assert '\n' !in PlanHeader;
    SplitFramed(PlanHeader, PlanLines(items), PlanSummary(pending, completed), '\n');
  }

  /** A lookup reply is: header, blank line, one context line per item,
      blank line, count line. */
  lemma LookupReplyLines(items: seq<Todo>, pending: nat, completed: nat)
    requires forall i :: 0 <= i < |items| ==> SingleLine(items[i])
    ensures Split(Render(Lookup(items, pending, completed)), '\n')
         == [LookupHeader, ""] + ContextLines(items) + ["", LookupSummary(pending, completed)]
  {
    SummarySingle(pending, completed);
    assert '\n' !in LookupHeader;
    var body := ContextLines(items);
    forall i | 0 <= i < |body| ensures '\n' !in body[i] {
      ContextLineSingle(i, items[i]);
    }
    SplitFramed(LookupHeader, body, LookupSummary(pending, completed), '\n');
  }

  // ---------------------------------------------------------------------
  // The action

  /** Without a user id, or with a user who has no todos, the action
      answers with the onboarding text and no matches. */
  lemma AskAssistantNoTodos(userId: Option<string>, stored: seq<Todo>, question: string)
    requires TodosFor(userId, stored) == []
    ensures AskAssistant(userId, stored, question) == Answer(OnboardingReply, [])
  {
  }

  /** The matches are the first (at most five) ranked todos as (id, title),
      whichever reply is given: a planning reply carries them too. */
  lemma MatchesAreRanked(userId: Option<string>, stored: seq<Todo>, question: string)
    ensures var todos := TodosFor(userId, stored);
      var r := AskAssistant(userId, stored, question);
      var top := BuildTodoContext(todos, question).topTodos;
      && |r.matches| == (if |top| <= MaxMatches then |top| else MaxMatches)
      && (forall i :: 0 <= i < |r.matches| ==> r.matches[i] == Match(top[i].id, top[i].title))
      && (|todos| > 0 ==> |r.matches| > 0)
  {
  }

  /** Only the not-found shape renders to the not-found text. */
  lemma RenderNotFoundOnly(a: RuleAnswer)
    ensures Render(a) == NotFoundReply <==> a == NotFound
  {
    match a
    case Onboarding =>
      assert |OnboardingReply| != |NotFoundReply|;
    case NotFound =>
    case Plan(items, p, c) =>
      JoinFirst([PlanHeader, ""] + PlanLines(items) + ["", PlanSummary(p, c)], "\n");
      assert Render(a)[0] == 'B';
    case Lookup(items, p, c) =>
      JoinFirst([LookupHeader, ""] + ContextLines(items) + ["", LookupSummary(p, c)], "\n");
      assert Render(a)[0] == 'H';
  }

  /** The action never answers "couldn't find a specific todo". */
  lemma AskAssistantNeverNotFound(userId: Option<string>, stored: seq<Todo>, question: string)
    ensures AskAssistant(userId, stored, question).reply != NotFoundReply
  {
    var todos := TodosFor(userId, stored);
    var top := BuildTodoContext(todos, question).topTodos;
    var given := if |top| > 0 then top else todos;
    NotFoundUnreachable(question, given);
    RenderNotFoundOnly(RuleBasedAnswer(question, given));
  }

  /** The reply is composed from the ranked subset (at most twelve todos),
      not from all of the user's todos: a planning or lookup reply counts
      exactly the ranked todos, so with more than twelve todos the counts
      fall short of the total. */
  lemma RepliesCountRankedSubset(userId: Option<string>, stored: seq<Todo>, question: string)
    requires |TodosFor(userId, stored)| > 0
    ensures var todos := TodosFor(userId, stored);
      var top := BuildTodoContext(todos, question).topTodos;
      var a := RuleBasedAnswer(question, top);
      && AskAssistant(userId, stored, question).reply == Render(a)
      && (a.Plan? || a.Lookup?)
      && a.pending + a.completed == |top| <= MaxContextTodos
      && (|todos| > MaxContextTodos ==> a.pending + a.completed < |todos|)
  {
    var todos := TodosFor(userId, stored);
    var top := BuildTodoContext(todos, question).topTodos;
    NotFoundUnreachable(question, top);
    PendingCompletedPartition(top);
  }

  /** When the action gives a lookup reply, the todos it lists are exactly
      the todos behind the matches, in the same order: re-ranking the ranked
      subset returns it unchanged. */
  lemma LookupListsMatches(userId: Option<string>, stored: seq<Todo>, question: string)
    ensures var todos := TodosFor(userId, stored);
      var top := BuildTodoContext(todos, question).topTodos;
      var a := RuleBasedAnswer(question, if |top| > 0 then top else todos);
      a.Lookup? ==> MatchesOf(a.items) == AskAssistant(userId, stored, question).matches
  {
    var todos := TodosFor(userId, stored);
    RankIdempotent(todos, question);
  }
}
