/** The page selector (components/shared/Pagination.tsx): the list of page
    buttons with ellipses, the page count, when the selector is shown, and
    which targets it accepts. */
module Pagination {
  import opened Wrappers

  /** A button: a page number or an ellipsis. */
  datatype PageItem = Num(n: int) | Dots

  /** Pages shown on each side of the current page. */
  const Delta: int := 2

  function Max(a: int, b: int): int { if a >= b then a else b }
  function Min(a: int, b: int): int { if a <= b then a else b }

  /** The integers `lo..hi`, empty when `lo > hi`. */
  function Range(lo: int, hi: int): (r: seq<int>)
    ensures |r| == if lo <= hi then hi - lo + 1 else 0
    ensures forall k :: 0 <= k < |r| ==> r[k] == lo + k
    decreases hi - lo
  {
    if lo > hi then [] else [lo] + Range(lo + 1, hi)
  }

  /** The window of page buttons around the current page. */
  function Window(lo: int, hi: int): (r: seq<PageItem>)
    ensures |r| == if lo <= hi then hi - lo + 1 else 0
    ensures forall k :: 0 <= k < |r| ==> r[k] == Num(lo + k)
    decreases hi - lo
  {
    if lo > hi then [] else [Num(lo)] + Window(lo + 1, hi)
  }

  function WindowStart(page: int): int { Max(2, page - Delta) }
  function WindowEnd(page: int, totalPages: int): int { Min(totalPages - 1, page + Delta) }
  predicate DotsAfterFirst(page: int) { page - Delta > 2 }
  predicate DotsBeforeLast(page: int, totalPages: int) { page + Delta < totalPages - 1 }

  /** The buttons for `page` of `totalPages`: 1, an ellipsis when the window
      starts past 3, the window, an ellipsis when it ends before the
      second-to-last page, and the last page. */
  function PageNumbers(page: int, totalPages: int): seq<PageItem> {
    if totalPages <= 1 then [Num(1)]
    else Head(page) + Window(WindowStart(page), WindowEnd(page, totalPages)) + Tail(page, totalPages)
  }

  function Head(page: int): seq<PageItem> {
    if DotsAfterFirst(page) then [Num(1), Dots] else [Num(1)]
  }

  function Tail(page: int, totalPages: int): seq<PageItem> {
    if DotsBeforeLast(page, totalPages) then [Dots, Num(totalPages)] else [Num(totalPages)]
  }

  /** `getPageNumbers`, building the window with a loop. */
  method GetPageNumbers(page: int, totalPages: int) returns (r: seq<PageItem>)
    ensures r == PageNumbers(page, totalPages)
  {
    if totalPages <= 1 {
      return [Num(1)];
    }
    var lo := Max(2, page - Delta);
    var hi := Min(totalPages - 1, page + Delta);
    var range: seq<PageItem> := [];
    var i := lo;
    while i <= hi
      invariant lo <= i <= Max(lo, hi + 1)
      invariant range == Window(lo, i - 1)
      decreases hi - i
    {
      WindowExtend(lo, i);
      range := range + [Num(i)];
      i := i + 1;
    }
    assert range == Window(WindowStart(page), WindowEnd(page, totalPages));
    if page - Delta > 2 {
      r := [Num(1), Dots];
    } else {
      r := [Num(1)];
    }
    assert r == Head(page);
    r := r + range;
    if page + Delta < totalPages - 1 {
      r := r + [Dots, Num(totalPages)];
    } else {
      if totalPages > 1 {
        r := r + [Num(totalPages)];
      }
    }
  }

  lemma WindowExtend(lo: int, i: int)
    requires lo <= i
    ensures Window(lo, i) == Window(lo, i - 1) + [Num(i)]
  {
    var a := Window(lo, i);
    var b := Window(lo, i - 1) + [Num(i)];
    assert |a| == |b|;
    forall k | 0 <= k < |a| ensures a[k] == b[k] {}
  }

  /** The page numbers among the buttons, in order. */
  function Numbers(items: seq<PageItem>): (r: seq<int>)
    ensures |r| <= |items|
  {
    if |items| == 0 then []
    else (if items[0].Num? then [items[0].n] else []) + Numbers(items[1..])
  }

  lemma {:induction false} NumbersConcat(a: seq<PageItem>, b: seq<PageItem>)
    ensures Numbers(a + b) == Numbers(a) + Numbers(b)
  {
    if |a| > 0 {
      assert (a + b)[1..] == a[1..] + b;
      NumbersConcat(a[1..], b);
    } else {
      assert a + b == b;
    }
  }

  lemma {:induction false} NumbersOfWindow(lo: int, hi: int)
    ensures Numbers(Window(lo, hi)) == Range(lo, hi)
    decreases hi - lo
  {
    if lo <= hi {
      NumbersOfWindow(lo + 1, hi);
      assert Window(lo, hi) == [Num(lo)] + Window(lo + 1, hi);
      assert Window(lo, hi)[1..] == Window(lo + 1, hi);
    }
  }

  predicate StrictlyIncreasing(xs: seq<int>) {
    forall i, j :: 0 <= i < j < |xs| ==> xs[i] < xs[j]
  }

  lemma NumbersOfParts(page: int, totalPages: int)
    requires totalPages > 1
    ensures Numbers(PageNumbers(page, totalPages))
         == [1] + Range(WindowStart(page), WindowEnd(page, totalPages)) + [totalPages]
  {
    var head := Head(page);
    var w := Window(WindowStart(page), WindowEnd(page, totalPages));
    var tail := Tail(page, totalPages);
    NumbersConcat(head + w, tail);
    NumbersConcat(head, w);
    NumbersOfWindow(WindowStart(page), WindowEnd(page, totalPages));
    assert Numbers(head) == [1] by {
      if DotsAfterFirst(page) {
        assert head[1..] == [Dots];
        assert head[1..][1..] == [];
      } else {
        assert head[1..] == [];
      }
    }
    assert Numbers(tail) == [totalPages] by {
      if DotsBeforeLast(page, totalPages) {
        assert tail[1..] == [Num(totalPages)];
        assert tail[1..][1..] == [];
      } else {
        assert tail[1..] == [];
      }
    }
  }

  /** With more than one page the page numbers are exactly 1, the window
      `max(2, page - 2) .. min(totalPages - 1, page + 2)` and `totalPages`;
      they strictly increase, so none repeats, and all lie in
      `1..totalPages`. With at most one page the result is `[1]`. */
  lemma PageNumbersShape(page: int, totalPages: int)
    ensures totalPages <= 1 ==> PageNumbers(page, totalPages) == [Num(1)]
    ensures totalPages > 1 ==>
      Numbers(PageNumbers(page, totalPages))
        == [1] + Range(WindowStart(page), WindowEnd(page, totalPages)) + [totalPages]
    ensures totalPages > 1 ==> StrictlyIncreasing(Numbers(PageNumbers(page, totalPages)))
    ensures totalPages > 1 ==> forall k :: 0 <= k < |Numbers(PageNumbers(page, totalPages))| ==>
      1 <= Numbers(PageNumbers(page, totalPages))[k] <= totalPages
  {
    if totalPages > 1 {
      NumbersOfParts(page, totalPages);
      BoundedRangeIncreasing(WindowStart(page), WindowEnd(page, totalPages), totalPages);
    }
  }

  /** `[1] + (lo..hi) + [top]` with `2 <= lo` and `hi < top` strictly
      increases within `1..top`. */
  lemma BoundedRangeIncreasing(lo: int, hi: int, top: int)
    requires 2 <= lo && hi < top && 1 < top
    ensures StrictlyIncreasing([1] + Range(lo, hi) + [top])
    ensures forall k :: 0 <= k < |[1] + Range(lo, hi) + [top]| ==> 1 <= ([1] + Range(lo, hi) + [top])[k] <= top
  {
    var ns := [1] + Range(lo, hi) + [top];
    var m := |Range(lo, hi)|;
    assert forall k :: 0 < k <= m ==> ns[k] == lo + k - 1;
    assert ns[0] == 1 && ns[m + 1] == top;
    forall i, j | 0 <= i < j < |ns| ensures ns[i] < ns[j] {
      if i == 0 {
        if j <= m {
          assert ns[j] == lo + j - 1;
        }
      } else if j < m + 1 {
        assert ns[i] == lo + i - 1 && ns[j] == lo + j - 1;
      } else {
        assert ns[i] == lo + i - 1;
      }
    }
  }

  /** With more than one page the first button is 1 and the last is
      `totalPages`, and there are never more than nine buttons. For a page
      within `1..totalPages` an ellipsis follows 1 exactly when
      `page - 2 > 2`, and one precedes `totalPages` exactly when
      `page + 2 < totalPages - 1`. */
  lemma PageNumbersEnds(page: int, totalPages: int)
    requires totalPages > 1
    ensures var r := PageNumbers(page, totalPages);
      && |r| >= 2 && r[0] == Num(1) && r[|r| - 1] == Num(totalPages)
      && (DotsAfterFirst(page) ==> r[1] == Dots)
      && (DotsBeforeLast(page, totalPages) ==> r[|r| - 2] == Dots)
      && (1 <= page <= totalPages ==> (r[1] == Dots <==> DotsAfterFirst(page)))
      && (1 <= page <= totalPages ==> (r[|r| - 2] == Dots <==> DotsBeforeLast(page, totalPages)))
      && |r| <= 9
  {
    var r := PageNumbers(page, totalPages);
    var w := Window(WindowStart(page), WindowEnd(page, totalPages));
    assert r == Head(page) + w + Tail(page, totalPages);
    if 1 <= page <= totalPages {
      if !DotsAfterFirst(page) {
        if |w| > 0 {
          assert r[1] == w[0];
        } else {
          assert r[1] == Tail(page, totalPages)[0];
        }
      }
      if !DotsBeforeLast(page, totalPages) {
        if |w| > 0 {
          assert r[|r| - 2] == w[|w| - 1];
        } else {
          assert r[|r| - 2] == Head(page)[|Head(page)| - 1];
        }
      }
    }
  }

  /** For a page within `1..totalPages`, the current page has a button. */
  lemma CurrentPageShown(page: int, totalPages: int)
    requires 1 <= page <= totalPages
    ensures Num(page) in PageNumbers(page, totalPages)
  {
    if totalPages > 1 {
      var r := PageNumbers(page, totalPages);
      var lo := WindowStart(page);
      var w := Window(lo, WindowEnd(page, totalPages));
      assert r == Head(page) + w + Tail(page, totalPages);
      if page == 1 {
        assert r[0] == Num(1);
      } else if page == totalPages {
        assert r[|r| - 1] == Num(totalPages);
      } else {
        assert w[page - lo] == Num(page);
        assert r[|Head(page)| + page - lo] == w[page - lo];
      }
    }
  }

  /** For a page within `1..totalPages`, every ellipsis stands for at least
      one hidden page. */
  lemma DotsHidePages(page: int, totalPages: int)
    requires 1 <= page <= totalPages
    ensures var r := PageNumbers(page, totalPages);
      forall i :: 0 < i < |r| - 1 && r[i] == Dots ==>
        r[i - 1].Num? && r[i + 1].Num? && r[i + 1].n - r[i - 1].n >= 2
  {
    if totalPages > 1 {
      var r := PageNumbers(page, totalPages);
      var lo := WindowStart(page);
      var hi := WindowEnd(page, totalPages);
      var w := Window(lo, hi);
      assert r == Head(page) + w + Tail(page, totalPages);
      forall i | 0 < i < |r| - 1 && r[i] == Dots
        ensures r[i - 1].Num? && r[i + 1].Num? && r[i + 1].n - r[i - 1].n >= 2
      {
        if i == 1 && DotsAfterFirst(page) {
          assert r[2] == w[0];
        } else {
          assert r[i - 1] == w[|w| - 1];
        }
      }
    }
  }

  /** For a page within `1..totalPages`, two page buttons next to each
      other show consecutive pages. */
  lemma AdjacentPagesConsecutive(page: int, totalPages: int)
    requires 1 <= page <= totalPages
    ensures var r := PageNumbers(page, totalPages);
      forall i :: 0 <= i < |r| - 1 && r[i].Num? && r[i + 1].Num? ==> r[i + 1].n == r[i].n + 1
  {
    if totalPages > 1 {
      var r := PageNumbers(page, totalPages);
      var lo := WindowStart(page);
      var hi := WindowEnd(page, totalPages);
      var w := Window(lo, hi);
      var h := |Head(page)|;
      assert r == Head(page) + w + Tail(page, totalPages);
      forall i | 0 <= i < |r| - 1 && r[i].Num? && r[i + 1].Num?
        ensures r[i + 1].n == r[i].n + 1
      {
        if i < h {
          if |w| > 0 {
            assert r[1] == w[0];
          } else {
            assert r[1] == Tail(page, totalPages)[0];
          }
        } else if i < h + |w| - 1 {
          assert r[i] == w[i - h] && r[i + 1] == w[i + 1 - h];
        } else {
          assert r[i] == w[|w| - 1];
        }
      }
    }
  }

  /** With a page outside `1..totalPages` an ellipsis can stand between
      two adjacent pages: page 9 of 2 shows 1, an ellipsis, 2. */
  lemma OutOfRangeDotsHideNothing()
    ensures PageNumbers(9, 2) == [Num(1), Dots, Num(2)]
  {
    assert Window(7, 1) == [];
  }

  /** `Math.max(1, Math.ceil(total / pageSize))`. */
  function TotalPages(total: nat, pageSize: nat): (r: nat)
    requires pageSize > 0
    ensures r >= 1
    ensures (r - 1) * pageSize < total || r == 1
    ensures total <= r * pageSize
  {
    Max(1, (total + pageSize - 1) / pageSize)
  }

  /** There is more than one page exactly when the items do not fit on
      one. */
  lemma MoreThanOnePage(total: nat, pageSize: nat)
    requires pageSize > 0
    ensures TotalPages(total, pageSize) > 1 <==> total > pageSize
  {
    var r := TotalPages(total, pageSize);
    if r > 1 {
      MulAtLeast(r - 1, pageSize);
    } else {
      assert r == 1;
    }
  }

  lemma {:induction false} MulAtLeast(k: int, n: int)
    requires k >= 1 && n > 0
    ensures k * n >= n
    decreases k
  {
    if k > 1 {
      MulAtLeast(k - 1, n);
      assert k * n == (k - 1) * n + n;
    }
  }

  /** The selector is shown only with more than one page. */
  function Render(page: int, total: nat, pageSize: nat): (r: Option<seq<PageItem>>)
    requires pageSize > 0
    ensures r.Some? <==> TotalPages(total, pageSize) > 1
    ensures r.Some? ==> r.value == PageNumbers(page, TotalPages(total, pageSize))
    ensures r.Some? <==> total > pageSize
  {
    MoreThanOnePage(total, pageSize);
    var tp := TotalPages(total, pageSize);
    if tp <= 1 then None else Some(PageNumbers(page, tp))
  }

  /** The selector's `goToPage`: the page reported to the parent, if any. */
  function GoToPage(p: int, totalPages: int): (r: Option<int>)
    ensures r.Some? <==> 1 <= p <= totalPages
    ensures r.Some? ==> r.value == p
  {
    if p < 1 || p > totalPages then None else Some(p)
  }

  /** The previous/next arrows move one page and are disabled on the first
      and last page; from a page within range an enabled arrow's target is
      always accepted, and a disabled arrow's target never is. */
  lemma ArrowsStayInRange(page: int, totalPages: int)
    requires 1 <= page <= totalPages
    ensures page != 1 ==> GoToPage(page - 1, totalPages) == Some(page - 1)
    ensures page != totalPages ==> GoToPage(page + 1, totalPages) == Some(page + 1)
    ensures page == 1 ==> GoToPage(page - 1, totalPages).None?
    ensures page == totalPages ==> GoToPage(page + 1, totalPages).None?
  {
  }

  /** Every page number the selector renders names a page in range, so
      clicking any numbered button is accepted by `GoToPage`. */
  lemma PageButtonsAccepted(page: int, totalPages: int)
    requires totalPages > 1
    ensures forall it :: it in PageNumbers(page, totalPages) && it.Num? ==>
      GoToPage(it.n, totalPages) == Some(it.n)
  {
    PageNumbersShape(page, totalPages);
    NumbersMembers(PageNumbers(page, totalPages));
  }

  /** Every numbered item's page appears in `Numbers`. */
  lemma {:induction false} NumbersMembers(items: seq<PageItem>)
    ensures forall it :: it in items && it.Num? ==> it.n in Numbers(items)
  {
    if |items| > 0 {
      NumbersMembers(items[1..]);
      assert forall it :: it in items ==> it == items[0] || it in items[1..];
    }
  }
}
