/** Sequence helpers and the stable sort that stands for JavaScript's
    `Array.prototype.sort`. A comparator is JavaScript-shaped: it returns a
    number, and a positive `cmp(a, b)` means `b` belongs before `a`. Since
    ECMAScript 2019 the built-in sort is stable; for a consistent comparator
    every stable sort yields the same sequence, so the insertion sort below
    stands for it. For an inconsistent comparator the built-in order is
    implementation-defined, and only what holds for any sort is claimed. */
module Sorting {

  /** `s.filter(p)`. */
  function Filter<T>(s: seq<T>, p: T -> bool): (r: seq<T>)
    ensures |r| <= |s|
    ensures forall i :: 0 <= i < |r| ==> p(r[i])
  {
    if |s| == 0 then [] else (if p(s[0]) then [s[0]] else []) + Filter(s[1..], p)
  }

  lemma {:induction false} FilterMembers<T>(s: seq<T>, p: T -> bool)
    ensures multiset(Filter(s, p)) <= multiset(s)
    ensures forall x :: x in Filter(s, p) ==> x in s
    ensures forall x :: x in Filter(s, p) ==> p(x)
    ensures forall x :: x in s && p(x) ==> x in Filter(s, p)
  {
    if |s| > 0 {
      FilterMembers(s[1..], p);
      assert s == [s[0]] + s[1..];
    }
  }

  lemma {:induction false} FilterConcat<T>(a: seq<T>, b: seq<T>, p: T -> bool)
    ensures Filter(a + b, p) == Filter(a, p) + Filter(b, p)
  {
    if |a| > 0 {
      assert (a + b)[0] == a[0];
      assert (a + b)[1..] == a[1..] + b;
      FilterConcat(a[1..], b, p);
      var h := if p(a[0]) then [a[0]] else [];
      assert Filter(a + b, p) == h + Filter(a[1..] + b, p);
      assert Filter(a, p) == h + Filter(a[1..], p);
    } else {
      assert a + b == b;
    }
  }

  lemma {:induction false} FilterAll<T>(s: seq<T>, p: T -> bool)
    requires forall i :: 0 <= i < |s| ==> p(s[i])
    ensures Filter(s, p) == s
  {
    if |s| > 0 {
      FilterAll(s[1..], p);
    }
  }

  lemma {:induction false} FilterNone<T>(s: seq<T>, p: T -> bool)
    ensures Filter(s, p) == [] <==> forall i :: 0 <= i < |s| ==> !p(s[i])
  {
    if |s| > 0 {
      FilterNone(s[1..], p);
      if !p(s[0]) {
        forall i | 0 < i < |s| ensures s[i] == s[1..][i - 1] {}
      }
    }
  }

  /** The elements of `s` that `Filter` drops satisfy the complement. */
  lemma {:induction false} FilterComplement<T>(s: seq<T>, p: T -> bool)
    ensures multiset(Filter(s, p)) + multiset(Filter(s, x => !p(x))) == multiset(s)
  {
    if |s| > 0 {
      FilterComplement(s[1..], p);
      var x, rest := s[0], s[1..];
      assert s == [x] + rest;
      assert multiset(s) == multiset{x} + multiset(rest);
      if p(x) {
        assert Filter(s, p) == [x] + Filter(rest, p);
        assert Filter(s, y => !p(y)) == Filter(rest, y => !p(y));
      } else {
        assert Filter(s, p) == Filter(rest, p);
        assert Filter(s, y => !p(y)) == [x] + Filter(rest, y => !p(y));
      }
    }
  }

  /** `s.slice(0, n)`. */
  function Take<T>(s: seq<T>, n: nat): (r: seq<T>)
    ensures |r| == if |s| <= n then |s| else n
    ensures r == s[..|r|]
  {
    if |s| <= n then s else s[..n]
  }

  /** Inserts `x` after every leading element the comparator puts before it. */
  function Insert<T>(x: T, ys: seq<T>, cmp: (T, T) -> int): (r: seq<T>)
    ensures |r| == |ys| + 1
    ensures multiset(r) == multiset(ys) + multiset{x}
  {
    if |ys| == 0 then [x]
    else if cmp(x, ys[0]) > 0 then
      assert ys == [ys[0]] + ys[1..];
      [ys[0]] + Insert(x, ys[1..], cmp)
    else [x] + ys
  }

  /** Stable insertion sort: `[...s].sort(cmp)`. */
  function SortBy<T>(s: seq<T>, cmp: (T, T) -> int): (r: seq<T>)
    ensures |r| == |s|
    ensures multiset(r) == multiset(s)
  {
    if |s| == 0 then []
    else
      assert s == [s[0]] + s[1..];
      Insert(s[0], SortBy(s[1..], cmp), cmp)
  }

  function Sign(n: int): int {
    if n < 0 then -1 else if n > 0 then 1 else 0
  }

  /** The comparator is antisymmetric and its "not after" relation is
      transitive on the elements of `dom`: a total preorder there. */
  ghost predicate ConsistentOn<T>(dom: seq<T>, cmp: (T, T) -> int) {
    && (forall a, b :: a in dom && b in dom ==> Sign(cmp(a, b)) == -Sign(cmp(b, a)))
    && (forall a, b, c :: a in dom && b in dom && c in dom ==>
          cmp(a, b) <= 0 && cmp(b, c) <= 0 ==> cmp(a, c) <= 0)
  }

  ghost predicate SortedBy<T>(s: seq<T>, cmp: (T, T) -> int) {
    forall i, j :: 0 <= i < j < |s| ==> cmp(s[i], s[j]) <= 0
  }

  ghost predicate Within<T>(s: seq<T>, dom: seq<T>) {
    forall i :: 0 <= i < |s| ==> s[i] in dom
  }

  /** A head that precedes every element of a sorted tail gives a sorted
      sequence. */
  lemma SortedCons<T>(h: T, rest: seq<T>, cmp: (T, T) -> int)
    requires SortedBy(rest, cmp)
    requires forall j :: 0 <= j < |rest| ==> cmp(h, rest[j]) <= 0
    ensures SortedBy([h] + rest, cmp)
  {
    var r := [h] + rest;
    forall i, j | 0 <= i < j < |r| ensures cmp(r[i], r[j]) <= 0 {
      assert r[j] == rest[j - 1];
      if i > 0 {
        assert r[i] == rest[i - 1];
      }
    }
  }

  /** An element that does not pass the head of a sorted sequence precedes
      all of it. */
  lemma HeadBeforeAll<T>(x: T, ys: seq<T>, cmp: (T, T) -> int, dom: seq<T>)
    requires ConsistentOn(dom, cmp) && x in dom && Within(ys, dom)
    requires SortedBy(ys, cmp) && |ys| > 0 && cmp(x, ys[0]) <= 0
    ensures forall j :: 0 <= j < |ys| ==> cmp(x, ys[j]) <= 0
  {
    forall j | 0 < j < |ys| ensures cmp(x, ys[j]) <= 0 {
      assert ys[0] in dom && ys[j] in dom;
      assert cmp(ys[0], ys[j]) <= 0;
    }
  }

  /** The head `x` passed precedes everything after it once `x` is
      inserted into the tail. */
  lemma HeadBeforeInserted<T>(x: T, ys: seq<T>, cmp: (T, T) -> int, dom: seq<T>)
    requires ConsistentOn(dom, cmp) && x in dom && Within(ys, dom)
    requires SortedBy(ys, cmp) && |ys| > 0 && cmp(x, ys[0]) > 0
    ensures forall j :: 0 <= j < |Insert(x, ys[1..], cmp)| ==> cmp(ys[0], Insert(x, ys[1..], cmp)[j]) <= 0
  {
    var rest := Insert(x, ys[1..], cmp);
    forall j | 0 <= j < |rest| ensures cmp(ys[0], rest[j]) <= 0 {
      assert rest[j] in multiset(rest);
      if rest[j] == x {
        assert ys[0] in dom;
        assert Sign(cmp(x, ys[0])) == -Sign(cmp(ys[0], x));
      } else {
        assert rest[j] in ys[1..];
        var k :| 0 <= k < |ys[1..]| && ys[1..][k] == rest[j];
        assert ys[k + 1] == rest[j];
      }
    }
  }

  lemma {:induction false} InsertSorted<T>(x: T, ys: seq<T>, cmp: (T, T) -> int, dom: seq<T>)
    requires ConsistentOn(dom, cmp) && x in dom && Within(ys, dom)
    requires SortedBy(ys, cmp)
    ensures SortedBy(Insert(x, ys, cmp), cmp)
  {
    if |ys| > 0 {
      if cmp(x, ys[0]) > 0 {
        assert Within(ys[1..], dom);
        assert SortedBy(ys[1..], cmp);
        InsertSorted(x, ys[1..], cmp, dom);
        HeadBeforeInserted(x, ys, cmp, dom);
        SortedCons(ys[0], Insert(x, ys[1..], cmp), cmp);
      } else {
        HeadBeforeAll(x, ys, cmp, dom);
        SortedCons(x, ys, cmp);
      }
    }
  }

  lemma {:induction false} SortBySortedIn<T>(s: seq<T>, cmp: (T, T) -> int, dom: seq<T>)
    requires ConsistentOn(dom, cmp) && Within(s, dom)
    ensures SortedBy(SortBy(s, cmp), cmp)
    ensures Within(SortBy(s, cmp), dom)
  {
    if |s| > 0 {
      SortBySortedIn(s[1..], cmp, dom);
      var rest := SortBy(s[1..], cmp);
      InsertSorted(s[0], rest, cmp, dom);
      var r := SortBy(s, cmp);
      forall i | 0 <= i < |r| ensures r[i] in dom {
        assert r[i] in multiset(s);
        assert r[i] in s;
      }
    }
  }

  /** With a consistent comparator the sort's output is ordered by it. */
  lemma SortBySorted<T>(s: seq<T>, cmp: (T, T) -> int)
    requires ConsistentOn(s, cmp)
    ensures SortedBy(SortBy(s, cmp), cmp)
  {
    SortBySortedIn(s, cmp, s);
  }

  /** Sorting an already ordered sequence changes nothing. */
  lemma {:induction false} SortBySortedIsIdentity<T>(s: seq<T>, cmp: (T, T) -> int)
    requires SortedBy(s, cmp)
    ensures SortBy(s, cmp) == s
  {
    if |s| > 0 {
      SortBySortedIsIdentity(s[1..], cmp);
      if |s| > 1 {
        assert cmp(s[0], s[1]) <= 0;
        assert [s[0]] + s[1..] == s;
      }
    }
  }

  /** `cmp` ranks by an integer key first: elements with a smaller key always
      come first, whatever `cmp` does on equal keys. */
  ghost predicate RefinesKey<T(!new)>(cmp: (T, T) -> int, key: T -> int) {
    forall a, b :: (key(a) < key(b) ==> cmp(a, b) < 0) && (key(a) > key(b) ==> cmp(a, b) > 0)
  }

  ghost predicate SortedByKey<T>(s: seq<T>, key: T -> int) {
    forall i, j :: 0 <= i < j < |s| ==> key(s[i]) <= key(s[j])
  }

  lemma {:induction false} InsertSortedByKey<T(!new)>(x: T, ys: seq<T>, cmp: (T, T) -> int, key: T -> int)
    requires RefinesKey(cmp, key) && SortedByKey(ys, key)
    ensures SortedByKey(Insert(x, ys, cmp), key)
  {
    if |ys| > 0 {
      if cmp(x, ys[0]) > 0 {
        InsertSortedByKey(x, ys[1..], cmp, key);
        var r := Insert(x, ys, cmp);
        var rest := Insert(x, ys[1..], cmp);
        assert r == [ys[0]] + rest;
        forall j | 0 < j < |r| ensures key(ys[0]) <= key(r[j]) {
          assert r[j] in multiset(rest);
          if r[j] != x {
            assert r[j] in ys[1..];
            var k :| 0 <= k < |ys[1..]| && ys[1..][k] == r[j];
            assert ys[k + 1] == r[j];
          }
        }
      }
    }
  }

  /** Even when `cmp` is inconsistent on equal keys, the sorted output is
      ordered by the key `cmp` refines. */
  lemma {:induction false} SortBySortedByKey<T(!new)>(s: seq<T>, cmp: (T, T) -> int, key: T -> int)
    requires RefinesKey(cmp, key)
    ensures SortedByKey(SortBy(s, cmp), key)
  {
    if |s| > 0 {
      SortBySortedByKey(s[1..], cmp, key);
      InsertSortedByKey(s[0], SortBy(s[1..], cmp), cmp, key);
    }
  }

  /** An element the comparator moves ahead of `x` is not equivalent to
      anything `x` is equivalent to. */
  lemma PassedNotEquivalent<T>(x: T, y: T, e: T, cmp: (T, T) -> int, dom: seq<T>)
    requires ConsistentOn(dom, cmp) && x in dom && y in dom && e in dom
    requires cmp(x, y) > 0 && cmp(x, e) == 0
    ensures cmp(y, e) != 0
  {
    assert cmp(e, y) > 0;
    assert Sign(cmp(y, e)) == -Sign(cmp(e, y));
  }

  /** The elements of `s` the comparator ties with `e`, in order. */
  function Equivalents<T>(s: seq<T>, cmp: (T, T) -> int, e: T): (r: seq<T>)
    ensures |r| <= |s|
    ensures forall i :: 0 <= i < |r| ==> cmp(r[i], e) == 0
  {
    if |s| == 0 then []
    else (if cmp(s[0], e) == 0 then [s[0]] else []) + Equivalents(s[1..], cmp, e)
  }

  lemma {:induction false} EquivalentsConcat<T>(a: seq<T>, b: seq<T>, cmp: (T, T) -> int, e: T)
    ensures Equivalents(a + b, cmp, e) == Equivalents(a, cmp, e) + Equivalents(b, cmp, e)
  {
    if |a| > 0 {
      assert (a + b)[0] == a[0];
      assert (a + b)[1..] == a[1..] + b;
      EquivalentsConcat(a[1..], b, cmp, e);
    } else {
      assert a + b == b;
    }
  }

  /** One step of an insertion: moving `x` past `y` does not reorder the
      elements tied with `e`, because `x` and `y` are not both tied with it. */
  lemma PassStep<T>(x: T, y: T, tail: seq<T>, rest: seq<T>, cmp: (T, T) -> int, e: T)
    requires Equivalents(rest, cmp, e) == Equivalents([x] + tail, cmp, e)
    requires cmp(x, e) != 0 || cmp(y, e) != 0
    ensures Equivalents([y] + rest, cmp, e) == Equivalents([x] + ([y] + tail), cmp, e)
  {
    EquivalentsConcat([y], rest, cmp, e);
    EquivalentsConcat([x], tail, cmp, e);
    EquivalentsConcat([y], tail, cmp, e);
    EquivalentsConcat([x], [y] + tail, cmp, e);
  }

  /** Stability, part one: inserting `x` keeps it ahead of every element
      tied with `e`, as it was in `[x] + ys`. */
  lemma {:induction false} InsertStable<T>(x: T, ys: seq<T>, cmp: (T, T) -> int, e: T, dom: seq<T>)
    requires ConsistentOn(dom, cmp) && x in dom && e in dom && Within(ys, dom)
    ensures Equivalents(Insert(x, ys, cmp), cmp, e) == Equivalents([x] + ys, cmp, e)
  {
    if |ys| > 0 && cmp(x, ys[0]) > 0 {
      assert Within(ys[1..], dom);
      InsertStable(x, ys[1..], cmp, e, dom);
      if cmp(x, e) == 0 {
        assert ys[0] in dom;
        PassedNotEquivalent(x, ys[0], e, cmp, dom);
      }
      PassStep(x, ys[0], ys[1..], Insert(x, ys[1..], cmp), cmp, e);
      assert ys == [ys[0]] + ys[1..];
    }
  }

  /** Stability: the elements tied with any `e` keep their relative order. */
  lemma {:induction false} SortByStableIn<T>(s: seq<T>, cmp: (T, T) -> int, e: T, dom: seq<T>)
    requires ConsistentOn(dom, cmp) && e in dom && Within(s, dom)
    ensures Equivalents(SortBy(s, cmp), cmp, e) == Equivalents(s, cmp, e)
  {
    if |s| > 0 {
      SortBySortedIn(s[1..], cmp, dom);
      SortByStableIn(s[1..], cmp, e, dom);
      var rest := SortBy(s[1..], cmp);
      InsertStable(s[0], rest, cmp, e, dom);
      EquivalentsConcat([s[0]], rest, cmp, e);
      EquivalentsConcat([s[0]], s[1..], cmp, e);
      assert s == [s[0]] + s[1..];
    }
  }

  lemma SortByStable<T>(s: seq<T>, cmp: (T, T) -> int, e: T)
    requires ConsistentOn(s, cmp) && e in s
    ensures Equivalents(SortBy(s, cmp), cmp, e) == Equivalents(s, cmp, e)
  {
    SortByStableIn(s, cmp, e, s);
  }

  /** Keeping a prefix of an ordered sequence keeps its best elements: every
      element left out comes no earlier than any element kept. */
  lemma TakeKeepsBest<T>(r: seq<T>, n: nat, cmp: (T, T) -> int)
    requires SortedBy(r, cmp)
    ensures forall x, y :: x in Take(r, n) && y in multiset(r) - multiset(Take(r, n)) ==> cmp(x, y) <= 0
  {
    var k := |Take(r, n)|;
    assert r == r[..k] + r[k..];
    assert multiset(r) - multiset(r[..k]) == multiset(r[k..]);
    forall x, y | x in Take(r, n) && y in multiset(r) - multiset(Take(r, n))
      ensures cmp(x, y) <= 0
    {
      var i :| 0 <= i < k && r[i] == x;
      assert y in r[k..];
      var j :| 0 <= j < |r[k..]| && r[k..][j] == y;
      assert r[k + j] == y;
    }
  }

  /** The key-ordered version of `TakeKeepsBest`. */
  lemma TakeKeepsBestByKey<T>(r: seq<T>, n: nat, key: T -> int)
    requires SortedByKey(r, key)
    ensures forall x, y :: x in Take(r, n) && y in multiset(r) - multiset(Take(r, n)) ==> key(x) <= key(y)
  {
    var k := |Take(r, n)|;
    assert r == r[..k] + r[k..];
    assert multiset(r) - multiset(r[..k]) == multiset(r[k..]);
    forall x, y | x in Take(r, n) && y in multiset(r) - multiset(Take(r, n))
      ensures key(x) <= key(y)
    {
      var i :| 0 <= i < k && r[i] == x;
      assert y in r[k..];
      var j :| 0 <= j < |r[k..]| && r[k..][j] == y;
      assert r[k + j] == y;
    }
  }
}
