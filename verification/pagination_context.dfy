/** The shared page/search state (context/PaginationContext.tsx), kept in
    the URL query: `goToPage` and `setSearch` as transitions. */
module PaginationContext {
  import Pagination
  import opened Wrappers

  /** The query state; the defaults are page 1 and an empty search. */
  datatype State = State(page: int, search: string)

  const Initial: State := State(1, "")

  /** `goToPage(p, total, pageSize)`: moves to `p` when it is a page of the
      list, otherwise keeps the state. */
  function GoToPage(s: State, p: int, total: nat, pageSize: nat): (r: State)
    requires pageSize > 0
    ensures r.search == s.search
    ensures 1 <= p <= Pagination.TotalPages(total, pageSize) ==> r.page == p
    ensures !(1 <= p <= Pagination.TotalPages(total, pageSize)) ==> r == s
  {
    var totalPages := Pagination.Max(1, (total + pageSize - 1) / pageSize);
    if p < 1 || p > totalPages then s else s.(page := p)
  }

  /** `setSearch(v)`: replaces the search and goes back to page 1. */
  function SetSearch(s: State, v: string): (r: State)
    ensures r.search == v && r.page == 1
  {
    State(1, v)
  }

  /** Page 1 is always a valid target, even for an empty list. */
  lemma FirstPageAlwaysAccepted(s: State, total: nat, pageSize: nat)
    requires pageSize > 0
    ensures GoToPage(s, 1, total, pageSize) == s.(page := 1)
  {
  }

  /** The context accepts exactly the targets the page selector accepts. */
  lemma AgreesWithSelector(s: State, p: int, total: nat, pageSize: nat)
    requires pageSize > 0
    ensures GoToPage(s, p, total, pageSize).page == p
        <==> Pagination.GoToPage(p, Pagination.TotalPages(total, pageSize)).Some? || s.page == p
  {
  }

  /** A new search lands on a page the selector accepts whatever the list
      size, so re-selecting the current page leaves the state unchanged. */
  lemma SearchLandsOnValidPage(s: State, v: string, total: nat, pageSize: nat)
    requires pageSize > 0
    ensures Pagination.GoToPage(SetSearch(s, v).page, Pagination.TotalPages(total, pageSize)) == Some(1)
    ensures GoToPage(SetSearch(s, v), SetSearch(s, v).page, total, pageSize) == SetSearch(s, v)
  {
  }
}
