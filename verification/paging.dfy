/**
 * Page arithmetic of the view: `Math.ceil(n / ITEMS_PER_PAGE)` pages, and
 * the visible page `filteredProducts.slice(startIndex, endIndex)`.
 */
module Paging {

  const ItemsPerPage: nat := 10

  function Min(a: int, b: int): int
  {
    if a <= b then a else b
  }

  /** `Math.ceil(n / ITEMS_PER_PAGE)` for a list length `n`. */
  function PageCount(n: nat): (r: nat)
    ensures r * ItemsPerPage >= n
    ensures (r - 1) * ItemsPerPage < n
  {
    (n + ItemsPerPage - 1) / ItemsPerPage
  }

  /** A longer list never has fewer pages. */
  lemma PageCountMonotonic(m: nat, n: nat)
    requires m <= n
    ensures PageCount(m) <= PageCount(n)
  {
  }

  /**
   * How `Array.prototype.slice` reads an index: a negative one counts back
   * from the end (stopping at 0), a positive one stops at the length.
   */
  function ClampIndex(rel: int, len: nat): (r: nat)
    ensures r <= len
    ensures 0 <= rel <= len ==> r == rel
  {
    if rel < 0 then (if len + rel < 0 then 0 else len + rel)
    else if rel > len then len
    else rel
  }

  /** `s.slice(start, end)`. */
  function JsSlice<T>(s: seq<T>, start: int, end: int): seq<T>
  {
    var from, to := ClampIndex(start, |s|), ClampIndex(end, |s|);
    if from < to then s[from..to] else []
  }

  /** The records shown on `page`: `slice((page - 1) * 10, (page - 1) * 10 + 10)`. */
  function PageItems<T>(items: seq<T>, page: int): seq<T>
  {
    var start := (page - 1) * ItemsPerPage;
    JsSlice(items, start, start + ItemsPerPage)
  }

  /** Anything shown on a page is in the list. */
  lemma PageItemsFromList<T>(items: seq<T>, page: int)
    ensures forall x :: x in PageItems(items, page) ==> x in items
  {
  }

  /**
   * For a page from 1 on, the visible records are the window
   * `items[(page - 1) * 10 .. min(page * 10, |items|)]`: at most ten, and
   * some exactly when the window starts inside the list.
   */
  lemma PageItemsWindow<T>(items: seq<T>, page: int)
    requires page >= 1
    ensures var start := (page - 1) * ItemsPerPage;
      PageItems(items, page) == (if start < |items| then items[start..Min(start + ItemsPerPage, |items|)] else [])
    ensures |PageItems(items, page)| <= ItemsPerPage
    ensures |PageItems(items, page)| > 0 <==> (page - 1) * ItemsPerPage < |items|
  {
  }

  /** The record at index `i` is shown on page `i / 10 + 1`, at row `i % 10`, and that page exists. */
  lemma RecordOnItsPage<T>(items: seq<T>, i: nat)
    requires i < |items|
    ensures 1 <= i / ItemsPerPage + 1 <= PageCount(|items|)
    ensures i % ItemsPerPage < |PageItems(items, i / ItemsPerPage + 1)|
    ensures PageItems(items, i / ItemsPerPage + 1)[i % ItemsPerPage] == items[i]
  {
    PageItemsWindow(items, i / ItemsPerPage + 1);
  }

  /** Pages 1 to `k`, one after the other. */
  function Pages<T>(items: seq<T>, k: nat): seq<T>
  {
    if k == 0 then [] else Pages(items, k - 1) + PageItems(items, k)
  }

  /** The first `k` pages are the first `10 * k` records. */
  lemma {:induction false} PagesArePrefix<T>(items: seq<T>, k: nat)
    ensures Pages(items, k) == items[..Min(k * ItemsPerPage, |items|)]
  {
    if k > 0 {
      PagesArePrefix(items, k - 1);
      PageItemsWindow(items, k);
      var a := Min((k - 1) * ItemsPerPage, |items|);
      var b := Min(k * ItemsPerPage, |items|);
      if (k - 1) * ItemsPerPage < |items| {
        assert items[..a] + items[a..b] == items[..b];
      }
    }
  }

  /** Read in order, the pages `1..PageCount(n)` show every record exactly once. */
  lemma PagesCoverList<T>(items: seq<T>)
    ensures Pages(items, PageCount(|items|)) == items
  {
    PagesArePrefix(items, PageCount(|items|));
  }
}
