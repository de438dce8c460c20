/** The keyword ranker `buildTodoContext` (convex/ai.ts; an identical copy
    serves the HTTP route). It scores every todo against the question's
    keywords, keeps the best twelve, falls back to the twelve newest when
    nothing scores, and renders one context line per kept todo. */
module Ranker {
  import opened Wrappers
  import opened Text
  import opened TodoModel
  import opened Sorting

  const MaxContextTodos: nat := 12
  const NoTodosContext: string := "User has no todos yet."
  /** The separator placed before a description: space, em dash, space. */
  const DescriptionSeparator: string := " \U{2014} "

  /** How many entries a cut at twelve keeps of `n`. */
  function Capped(n: nat): nat {
    if n <= MaxContextTodos then n else MaxContextTodos
  }

  /** Question words shorter than three characters are noise. */
  predicate IsKeyword(w: string) {
    |w| > 2
  }

  /** The lower-cased whitespace-separated words of the question longer
      than two characters, in order and with repetitions. */
  function Keywords(question: string): (r: seq<string>)
    ensures forall i :: 0 <= i < |r| ==> IsKeyword(r[i]) && NoSpace(r[i])
    ensures forall w :: w in r <==> w in Words(Lower(question)) && IsKeyword(w)
  {
    var ws := Words(Lower(question));
    FilterMembers(ws, IsKeyword);
    var r := Filter(ws, IsKeyword);
    assert forall i :: 0 <= i < |r| ==> r[i] in ws;
    r
  }

  /** The text keywords are searched in: lower(title + " " + description). */
  function Haystack(t: Todo): string {
    Lower(t.title + " " + DescriptionOrEmpty(t))
  }

  /** How many entries of `kws` occur in `hay`; a repeated keyword counts
      once per repetition. */
  function MatchCount(hay: string, kws: seq<string>): (n: nat)
    ensures n <= |kws|
  {
    if |kws| == 0 then 0
    else (if Contains(hay, kws[0]) then 1 else 0) + MatchCount(hay, kws[1..])
  }

  lemma {:induction false} MatchCountAppend(hay: string, a: seq<string>, b: seq<string>)
    ensures MatchCount(hay, a + b) == MatchCount(hay, a) + MatchCount(hay, b)
  {
    if |a| > 0 {
      assert (a + b)[0] == a[0];
      assert (a + b)[1..] == a[1..] + b;
      MatchCountAppend(hay, a[1..], b);
    } else {
      assert a + b == b;
    }
  }

  /** Keywords are counted with repetition: a keyword list given twice
      doubles the match count. */
  lemma RepeatedKeywordsCountTwice(hay: string, kws: seq<string>)
    ensures MatchCount(hay, kws + kws) == 2 * MatchCount(hay, kws)
  {
    MatchCountAppend(hay, kws, kws);
  }

  /** The keywords of two questions joined by a space are those of the
      first followed by those of the second. */
  lemma KeywordsConcat(a: string, b: string)
    ensures Keywords(a + " " + b) == Keywords(a) + Keywords(b)
  {
    LowerConcat(a + " ", b);
    LowerConcat(a, " ");
    assert Lower(" ") == " ";
    WordsConcat(Lower(a), Lower(b));
    FilterConcat(Words(Lower(a)), Words(Lower(b)), IsKeyword);
  }

  /** Asking the same question twice over, separated by a space, doubles
      every todo's match count. */
  lemma RepeatedQuestionCountsTwice(hay: string, q: string)
    ensures MatchCount(hay, Keywords(q + " " + q)) == 2 * MatchCount(hay, Keywords(q))
  {
    KeywordsConcat(q, q);
    MatchCountAppend(hay, Keywords(q), Keywords(q));
  }

  lemma {:induction false} MatchCountZero(hay: string, kws: seq<string>)
    ensures MatchCount(hay, kws) == 0 <==> forall i :: 0 <= i < |kws| ==> !Contains(hay, kws[i])
  {
    if |kws| > 0 {
      MatchCountZero(hay, kws[1..]);
      assert forall i :: 0 < i < |kws| ==> kws[i] == kws[1..][i - 1];
    }
  }

  /** Two points per keyword occurring in the haystack, plus one if pending. */
  function Score(t: Todo, kws: seq<string>): nat {
    2 * MatchCount(Haystack(t), kws) + (if t.completed then 0 else 1)
  }

  /** `b.score - a.score || b.todo.createdAt - a.todo.createdAt`, the
      comparator of the scored pairs; a pair is represented by its todo,
      whose score is a function of it. */
  function ByScoreThenRecency(kws: seq<string>, a: Todo, b: Todo): int {
    var d := Score(b, kws) - Score(a, kws);
    if d != 0 then d else b.createdAt - a.createdAt
  }

  function RankOrder(kws: seq<string>): (Todo, Todo) -> int {
    (a: Todo, b: Todo) => ByScoreThenRecency(kws, a, b)
  }

  function PositiveFor(kws: seq<string>): Todo -> bool {
    (t: Todo) => Score(t, kws) > 0
  }

  /** `b.createdAt - a.createdAt`. */
  function ByRecency(a: Todo, b: Todo): int {
    b.createdAt - a.createdAt
  }

  /** All todos sorted, best score first. */
  function SortedByScore(todos: seq<Todo>, question: string): seq<Todo> {
    SortBy(todos, RankOrder(Keywords(question)))
  }

  /** `topTodos` before the fallback: at most twelve positively scored todos
      in sorted order. */
  function RankedByScore(todos: seq<Todo>, question: string): seq<Todo> {
    var kws := Keywords(question);
    Take(Filter(SortedByScore(todos, question), PositiveFor(kws)), MaxContextTodos)
  }

  /** The fallback: the twelve most recently created todos. */
  function Newest(todos: seq<Todo>): seq<Todo> {
    Take(SortBy(todos, ByRecency), MaxContextTodos)
  }

  function EffectiveTodos(todos: seq<Todo>, question: string): seq<Todo> {
    var ranked := RankedByScore(todos, question);
    if |ranked| > 0 then ranked else Newest(todos)
  }

  function DescriptionSuffix(t: Todo): string {
    if HasDescription(t) then DescriptionSeparator + t.description.value else ""
  }

  /** `${index + 1}. [${status} | ${priority}] ${t.title}${desc}`. */
  function ContextLine(index: nat, t: Todo): string {
    NatToString(index + 1) + ". [" + StatusName(t.completed) + " | "
      + PriorityName(t.priority) + "] " + t.title + DescriptionSuffix(t)
  }

  function ContextLines(ts: seq<Todo>): (r: seq<string>)
    ensures |r| == |ts|
    ensures forall i :: 0 <= i < |r| ==> r[i] == ContextLine(i, ts[i])
  {
    seq(|ts|, i requires 0 <= i < |ts| => ContextLine(i, ts[i]))
  }

  datatype TodoContext = TodoContext(contextText: string, topTodos: seq<Todo>)

  function BuildTodoContext(todos: seq<Todo>, question: string): (r: TodoContext)
    ensures |todos| == 0 ==> r == TodoContext(NoTodosContext, [])
    ensures |todos| > 0 ==> 0 < |r.topTodos| <= MaxContextTodos
    ensures |r.topTodos|
      == Capped(if |Filter(todos, PositiveFor(Keywords(question)))| > 0
                then |Filter(todos, PositiveFor(Keywords(question)))| else |todos|)
    ensures multiset(r.topTodos) <= multiset(todos)
    ensures |r.contextText| > 0
  {
    if |todos| == 0 then
      assert Filter(todos, PositiveFor(Keywords(question))) == [];
      TodoContext(NoTodosContext, [])
    else
      EffectiveTodosWithin(todos, question);
      EffectiveCount(todos, question);
      var eff := EffectiveTodos(todos, question);
      var lines := ContextLines(eff);
      assert |lines[0]| > 0;
      JoinNonEmpty(lines, "\n");
      TodoContext(Join(lines, "\n"), eff)
  }

  lemma {:induction false} JoinNonEmpty(xs: seq<string>, sep: string)
    requires |xs| > 0 && |xs[0]| > 0
    ensures |Join(xs, sep)| > 0
  {
  }

  // ---------------------------------------------------------------------
  // Facts about the comparators

  lemma RankOrderConsistent(dom: seq<Todo>, kws: seq<string>)
    ensures ConsistentOn(dom, RankOrder(kws))
  {
  }

  lemma ByRecencyConsistent(dom: seq<Todo>)
    ensures ConsistentOn(dom, ByRecency)
  {
  }

  // ---------------------------------------------------------------------
  // Subsequence facts

  lemma {:induction false} FilterSorted<T>(s: seq<T>, p: T -> bool, cmp: (T, T) -> int)
    requires SortedBy(s, cmp)
    ensures SortedBy(Filter(s, p), cmp)
  {
    if |s| > 0 {
      FilterSorted(s[1..], p, cmp);
      FilterMembers(s[1..], p);
      var rest := Filter(s[1..], p);
      forall j | 0 <= j < |rest| ensures cmp(s[0], rest[j]) <= 0 {
        assert rest[j] in rest;
        assert rest[j] in s[1..];
        var k :| 0 <= k < |s[1..]| && s[1..][k] == rest[j];
        assert s[k + 1] == rest[j];
      }
    }
  }

  lemma SortedMembers<T>(s: seq<T>, cmp: (T, T) -> int)
    ensures forall x :: x in SortBy(s, cmp) <==> x in s
  {
    var r := SortBy(s, cmp);
    forall x ensures x in r <==> x in s {
      assert x in r <==> x in multiset(r);
      assert x in s <==> x in multiset(s);
    }
  }

  lemma TakeSub<T>(s: seq<T>, n: nat)
    ensures multiset(Take(s, n)) <= multiset(s)
    ensures forall x :: x in Take(s, n) ==> x in s
  {
    var k := |Take(s, n)|;
    assert s == s[..k] + s[k..];
  }

  /** The ranked todos are todos of the input, sorted, positively scored. */
  lemma RankedFacts(todos: seq<Todo>, question: string)
    ensures multiset(RankedByScore(todos, question)) <= multiset(todos)
    ensures forall t :: t in RankedByScore(todos, question) ==>
      t in todos && Score(t, Keywords(question)) > 0
    ensures SortedBy(RankedByScore(todos, question), RankOrder(Keywords(question)))
  {
    var kws := Keywords(question);
    var sorted := SortedByScore(todos, question);
    var f := Filter(sorted, PositiveFor(kws));
    SortedMembers(todos, RankOrder(kws));
    FilterMembers(sorted, PositiveFor(kws));
    RankOrderConsistent(todos, kws);
    SortBySorted(todos, RankOrder(kws));
    FilterSorted(sorted, PositiveFor(kws), RankOrder(kws));
    TakeSub(f, MaxContextTodos);
  }

  lemma EffectiveTodosWithin(todos: seq<Todo>, question: string)
    ensures |todos| > 0 ==> 0 < |EffectiveTodos(todos, question)| <= MaxContextTodos
    ensures multiset(EffectiveTodos(todos, question)) <= multiset(todos)
  {
    RankedFacts(todos, question);
    TakeSub(SortBy(todos, ByRecency), MaxContextTodos);
  }

  lemma {:induction false} FilterCount<T>(s: seq<T>, p: T -> bool, x: T)
    ensures multiset(Filter(s, p))[x] == if p(x) then multiset(s)[x] else 0
  {
    if |s| > 0 {
      FilterCount(s[1..], p, x);
      assert s == [s[0]] + s[1..];
    }
  }

  /** Filtering two orderings of the same entries keeps the same entries,
      so as many of them. */
  lemma FilterPermutation<T>(a: seq<T>, b: seq<T>, p: T -> bool)
    requires multiset(a) == multiset(b)
    ensures multiset(Filter(a, p)) == multiset(Filter(b, p))
    ensures |Filter(a, p)| == |Filter(b, p)|
  {
    var ma := multiset(Filter(a, p));
    var mb := multiset(Filter(b, p));
    forall x ensures ma[x] == mb[x] {
      FilterCount(a, p, x);
      FilterCount(b, p, x);
    }
    MultisetExt(ma, mb);
    assert |Filter(a, p)| == |multiset(Filter(a, p))|;
    assert |Filter(b, p)| == |multiset(Filter(b, p))|;
  }

  lemma MultisetExt<T>(ma: multiset<T>, mb: multiset<T>)
    requires forall x :: ma[x] == mb[x]
    ensures ma == mb
  {
  }

  /** The ranked list holds every positively scored todo up to twelve. */
  lemma RankedCount(todos: seq<Todo>, question: string)
    ensures |RankedByScore(todos, question)| == Capped(|Filter(todos, PositiveFor(Keywords(question)))|)
  {
    var kws := Keywords(question);
    FilterPermutation(SortedByScore(todos, question), todos, PositiveFor(kws));
  }

  /** The context lists the ranked todos when any todo scores, otherwise
      the newest ones; either way as many as there are, up to twelve. */
  lemma EffectiveCount(todos: seq<Todo>, question: string)
    ensures |EffectiveTodos(todos, question)|
      == Capped(if |Filter(todos, PositiveFor(Keywords(question)))| > 0
                then |Filter(todos, PositiveFor(Keywords(question)))| else |todos|)
  {
    RankedCount(todos, question);
  }

  // ---------------------------------------------------------------------
  // Properties of the ranking

  /** The ranked todos are ordered by score, highest first, and by creation
      time, newest first, among equal scores; each has a positive score;
      there are at most twelve; none occurs more often than in the input. */
  lemma RankedOrder(todos: seq<Todo>, question: string)
    ensures var kws := Keywords(question);
      var r := RankedByScore(todos, question);
      && |r| <= MaxContextTodos
      && |r| == Capped(|Filter(todos, PositiveFor(kws))|)
      && multiset(r) <= multiset(todos)
      && (forall i :: 0 <= i < |r| ==> Score(r[i], kws) > 0)
      && (forall i, j :: 0 <= i < j < |r| ==>
            Score(r[i], kws) > Score(r[j], kws)
            || (Score(r[i], kws) == Score(r[j], kws) && r[i].createdAt >= r[j].createdAt))
  {
    var kws := Keywords(question);
    var r := RankedByScore(todos, question);
    RankedFacts(todos, question);
    RankedCount(todos, question);
    forall i, j | 0 <= i < j < |r|
      ensures Score(r[i], kws) > Score(r[j], kws)
        || (Score(r[i], kws) == Score(r[j], kws) && r[i].createdAt >= r[j].createdAt)
    {
      assert RankOrder(kws)(r[i], r[j]) <= 0;
      assert ByScoreThenRecency(kws, r[i], r[j]) <= 0;
    }
    forall i | 0 <= i < |r| ensures Score(r[i], kws) > 0 {
      assert r[i] in r;
    }
  }

  /** The sort is stable: todos with the same score and creation time as
      `e` stay in their input order. */
  lemma RankingStable(todos: seq<Todo>, question: string, e: Todo)
    requires e in todos
    ensures var cmp := RankOrder(Keywords(question));
      Equivalents(SortedByScore(todos, question), cmp, e) == Equivalents(todos, cmp, e)
  {
    RankOrderConsistent(todos, Keywords(question));
    SortByStable(todos, RankOrder(Keywords(question)), e);
  }

  /** Keeping twelve keeps the best: a positively scored todo that was left
      out ranks no higher than any todo kept. */
  lemma RankedKeepsBest(todos: seq<Todo>, question: string)
    ensures var kws := Keywords(question);
      var r := RankedByScore(todos, question);
      forall x, y :: x in r && y in multiset(todos) - multiset(r) && Score(y, kws) > 0 ==>
        ByScoreThenRecency(kws, x, y) <= 0
  {
    var kws := Keywords(question);
    var sorted := SortedByScore(todos, question);
    var f := Filter(sorted, PositiveFor(kws));
    var r := RankedByScore(todos, question);
    RankedFacts(todos, question);
    RankOrderConsistent(todos, kws);
    SortBySorted(todos, RankOrder(kws));
    FilterSorted(sorted, PositiveFor(kws), RankOrder(kws));
    TakeKeepsBest(f, MaxContextTodos, RankOrder(kws));
    forall x, y | x in r && y in multiset(todos) - multiset(r) && Score(y, kws) > 0
      ensures ByScoreThenRecency(kws, x, y) <= 0
    {
      FilterCount(sorted, PositiveFor(kws), y);
      assert PositiveFor(kws)(y);
      assert multiset(f)[y] == multiset(todos)[y];
      assert y in multiset(f) - multiset(r);
      assert RankOrder(kws)(x, y) <= 0;
    }
  }

  /** No todo scores exactly when every todo is completed and contains no
      keyword: the only case in which the recency fallback is taken. */
  lemma FallbackIffNothingScores(todos: seq<Todo>, question: string)
    ensures var kws := Keywords(question);
      RankedByScore(todos, question) == [] <==>
        forall i :: 0 <= i < |todos| ==>
          todos[i].completed && forall k :: 0 <= k < |kws| ==> !Contains(Haystack(todos[i]), kws[k])
  {
    var kws := Keywords(question);
    var sorted := SortedByScore(todos, question);
    var f := Filter(sorted, PositiveFor(kws));
    FilterNone(sorted, PositiveFor(kws));
    SortedMembers(todos, RankOrder(kws));
    forall t | t in todos
      ensures Score(t, kws) == 0 <==> t.completed && forall k :: 0 <= k < |kws| ==> !Contains(Haystack(t), kws[k])
    {
      MatchCountZero(Haystack(t), kws);
    }
    if f == [] {
      forall i | 0 <= i < |todos| ensures Score(todos[i], kws) == 0 {
        assert todos[i] in sorted;
        var k :| 0 <= k < |sorted| && sorted[k] == todos[i];
        assert !PositiveFor(kws)(sorted[k]);
      }
    } else {
      FilterMembers(sorted, PositiveFor(kws));
      assert f[0] in f;
      assert PositiveFor(kws)(f[0]);
      assert f[0] in sorted && Score(f[0], kws) > 0;
      var k :| 0 <= k < |todos| && todos[k] == f[0];
      assert Score(todos[k], kws) != 0;
    }
  }

  lemma NewestSorted(todos: seq<Todo>)
    ensures SortedBy(Newest(todos), ByRecency)
  {
    var sorted := SortBy(todos, ByRecency);
    ByRecencyConsistent(todos);
    SortBySorted(todos, ByRecency);
    assert Newest(todos) == sorted[..|Newest(todos)|];
  }

  /** The fallback holds the twelve newest todos (all of them when there are
      fewer), newest first. */
  lemma NewestFacts(todos: seq<Todo>)
    ensures var n := Newest(todos);
      && |n| == (if |todos| <= MaxContextTodos then |todos| else MaxContextTodos)
      && multiset(n) <= multiset(todos)
      && (forall i, j :: 0 <= i < j < |n| ==> n[i].createdAt >= n[j].createdAt)
      && (forall x, y :: x in n && y in multiset(todos) - multiset(n) ==> x.createdAt >= y.createdAt)
  {
    var sorted := SortBy(todos, ByRecency);
    var n := Newest(todos);
    NewestSorted(todos);
    assert forall i, j :: 0 <= i < j < |n| ==> ByRecency(n[i], n[j]) <= 0;
    ByRecencyConsistent(todos);
    SortBySorted(todos, ByRecency);
    TakeKeepsBest(sorted, MaxContextTodos, ByRecency);
    TakeSub(sorted, MaxContextTodos);
    assert multiset(sorted) == multiset(todos);
    forall x, y | x in n && y in multiset(todos) - multiset(n) ensures x.createdAt >= y.createdAt {
      assert ByRecency(x, y) <= 0;
    }
  }

  /** A todo whose title and description hold no line break. */
  predicate SingleLine(t: Todo) {
    '\n' !in t.title && '\n' !in DescriptionOrEmpty(t)
  }

  lemma ContextLineSingle(index: nat, t: Todo)
    requires SingleLine(t)
    ensures '\n' !in ContextLine(index, t)
  {
    var n := NatToString(index + 1);
    assert '\n' !in n by {
      forall i | 0 <= i < |n| ensures n[i] != '\n' {}
    }
    var status := StatusName(t.completed);
    var priority := PriorityName(t.priority);
    var suffix := DescriptionSuffix(t);
    assert '\n' !in status by {
      if t.completed { assert status == "completed"; } else { assert status == "pending"; }
    }
    assert '\n' !in priority by {
      match t.priority
      case Low => assert priority == "low";
      case Medium => assert priority == "medium";
      case High => assert priority == "high";
    }
    assert '\n' !in suffix by {
      if HasDescription(t) {
        assert '\n' !in DescriptionSeparator;
        assert suffix == DescriptionSeparator + t.description.value;
      }
    }
    var line := n + ". [" + status + " | " + priority + "] " + t.title + suffix;
    assert ContextLine(index, t) == line;
  }

  /** For non-empty input whose texts hold no line break, the context text
      has exactly one line per kept todo, numbered from one, in order. */
  lemma ContextTextLines(todos: seq<Todo>, question: string)
    requires |todos| > 0
    requires forall i :: 0 <= i < |todos| ==> SingleLine(todos[i])
    ensures var r := BuildTodoContext(todos, question);
      Split(r.contextText, '\n') == ContextLines(r.topTodos)
  {
    var r := BuildTodoContext(todos, question);
    var lines := ContextLines(r.topTodos);
    forall i | 0 <= i < |lines| ensures '\n' !in lines[i] {
      assert r.topTodos[i] in multiset(todos);
      ContextLineSingle(i, r.topTodos[i]);
    }
    SplitJoin(lines, '\n');
  }

  lemma RankIdempotentRanked(todos: seq<Todo>, question: string)
    requires |RankedByScore(todos, question)| > 0
    ensures var ranked := RankedByScore(todos, question);
      RankedByScore(ranked, question) == ranked
  {
    var kws := Keywords(question);
    var ranked := RankedByScore(todos, question);
    RankedFacts(todos, question);
    SortBySortedIsIdentity(ranked, RankOrder(kws));
    assert SortedByScore(ranked, question) == ranked;
    assert forall i :: 0 <= i < |ranked| ==> PositiveFor(kws)(ranked[i]) by {
      forall i | 0 <= i < |ranked| ensures PositiveFor(kws)(ranked[i]) {
        assert ranked[i] in ranked;
      }
    }
    FilterAll(ranked, PositiveFor(kws));
  }

  lemma RankIdempotentNewest(todos: seq<Todo>, question: string)
    requires |todos| > 0 && RankedByScore(todos, question) == []
    ensures var n := Newest(todos);
      RankedByScore(n, question) == [] && Newest(n) == n
  {
    var kws := Keywords(question);
    FallbackIffNothingScores(todos, question);
    var n := Newest(todos);
    TakeSub(SortBy(todos, ByRecency), MaxContextTodos);
    SortedMembers(todos, ByRecency);
    assert forall i :: 0 <= i < |n| ==> n[i] in todos by {
      forall i | 0 <= i < |n| ensures n[i] in todos {
        assert n[i] in n;
      }
    }
    FallbackIffNothingScores(n, question);
    NewestSorted(todos);
    SortBySortedIsIdentity(n, ByRecency);
  }

  /** Ranking the ranked todos again with the same question returns them
      unchanged. */
  lemma RankIdempotent(todos: seq<Todo>, question: string)
    ensures var top := BuildTodoContext(todos, question).topTodos;
      BuildTodoContext(top, question).topTodos == top
  {
    if |todos| > 0 {
      if |RankedByScore(todos, question)| > 0 {
        RankIdempotentRanked(todos, question);
      } else {
        RankIdempotentNewest(todos, question);
      }
    }
  }
}
