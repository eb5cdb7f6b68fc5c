/**
 * The Previous / Next pagination control: hidden when there is at most one
 * page, otherwise two buttons that request the neighbouring page and are
 * disabled at the first and at the last page.
 */
module PaginationControl {
  import opened Wrappers

  datatype Button = Previous | Next

  /** What the control renders. */
  datatype Control = Hidden | Shown(currentPage: int, totalPages: int)

  function Render(currentPage: int, totalPages: int): (c: Control)
    ensures c.Hidden? <==> totalPages <= 1
    ensures c.Shown? ==> c.currentPage == currentPage && c.totalPages == totalPages
  {
    if totalPages <= 1 then Hidden else Shown(currentPage, totalPages)
  }

  /** `disabled={currentPage === 1}` and `disabled={currentPage === totalPages}`. */
  function Disabled(c: Control, b: Button): bool
    requires c.Shown?
  {
    match b
    case Previous => c.currentPage == 1
    case Next => c.currentPage == c.totalPages
  }

  /** The page a click passes to `onPageChange`, or `None` when nothing is requested. */
  function Click(c: Control, b: Button): Option<int>
  {
    if c.Hidden? || Disabled(c, b) then None
    else match b
      case Previous => Some(c.currentPage - 1)
      case Next => Some(c.currentPage + 1)
  }

  /** With at most one page nothing is rendered, so no page can be requested. */
  lemma HiddenRequestsNothing(currentPage: int, totalPages: int, b: Button)
    requires totalPages <= 1
    ensures Click(Render(currentPage, totalPages), b) == None
  {
  }

  /** Previous requests the page before, and is disabled exactly on page 1. */
  lemma PreviousRequest(currentPage: int, totalPages: int)
    requires totalPages > 1
    ensures Click(Render(currentPage, totalPages), Previous) ==
      (if currentPage == 1 then None else Some(currentPage - 1))
  {
  }

  /** Next requests the page after, and is disabled exactly on the last page. */
  lemma NextRequest(currentPage: int, totalPages: int)
    requires totalPages > 1
    ensures Click(Render(currentPage, totalPages), Next) ==
      (if currentPage == totalPages then None else Some(currentPage + 1))
  {
  }

  /** From a page in range, every request the control makes is in range. */
  lemma RequestsStayInRange(currentPage: int, totalPages: int, b: Button)
    requires 1 <= currentPage <= totalPages
    ensures Click(Render(currentPage, totalPages), b).Some? ==>
      1 <= Click(Render(currentPage, totalPages), b).value <= totalPages
  {
  }

  /** Past the last page Next stays enabled, since only equality disables it. */
  lemma NextEnabledPastLastPage(currentPage: int, totalPages: int)
    requires 1 < totalPages < currentPage
    ensures Click(Render(currentPage, totalPages), Next) == Some(currentPage + 1)
  {
  }

  /** The page reached by clicking Next `k` times, or `None` once a click requests nothing. */
  function ClickNext(currentPage: int, totalPages: int, k: nat): Option<int>
    decreases k
  {
    if k == 0 then Some(currentPage)
    else match Click(Render(currentPage, totalPages), Next)
      case None => None
      case Some(p) => ClickNext(p, totalPages, k - 1)
  }

  /** Starting from page 1, Next reaches every page up to the last one. */
  lemma {:induction false} NextReachesEveryPage(currentPage: int, totalPages: int, k: nat)
    requires totalPages > 1 && 1 <= currentPage && currentPage + k <= totalPages
    ensures ClickNext(currentPage, totalPages, k) == Some(currentPage + k)
    decreases k
  {
    if k > 0 {
      NextRequest(currentPage, totalPages);
      NextReachesEveryPage(currentPage + 1, totalPages, k - 1);
    }
  }
}
