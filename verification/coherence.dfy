/**
 * The agreement the view keeps with the store: the record list is the
 * store's listing, the filtered list is a subsequence of it (all of it
 * under the empty query), and the page count covers the filtered list.
 *
 * The corrected handlers keep this agreement across any session; the
 * add handler, the clearing of the query and the edit handler as written
 * each break it.
 */
module Coherence {
  import opened Wrappers
  import opened Products
  import opened ProductStore
  import opened Search
  import opened Paging
  import opened PaginationControl
  import opened ViewState
  import Sequences

  ghost predicate Coherent(v: View, s: Store)
  {
    && Valid(s)
    && v.products == ListDescending(s)
    && Sequences.IsSubsequence(v.filtered, v.products)
    && (v.query == "" ==> v.filtered == v.products)
    && PageCount(|v.filtered|) <= v.totalPages
  }

  lemma InitialCoherent()
    ensures Coherent(Initial, Empty)
  {
  }

  lemma FetchKeepsCoherent(v: View, s: Store)
    requires Valid(s)
    ensures Coherent(FetchProducts(v, s), s)
  {
    Sequences.SubsequenceReflexive(ListDescending(s));
  }

  lemma SetPageKeepsCoherent(v: View, s: Store, page: int)
    requires Coherent(v, s)
    ensures Coherent(SetPage(v, page), s)
  {
  }

  lemma SetSearchQueryFixedKeepsCoherent(v: View, s: Store, q: string)
    requires Coherent(v, s)
    ensures Coherent(SetSearchQueryFixed(v, q), s)
  {
    FilterSpec(v.products, q);
    Sequences.SubsequenceReflexive(v.products);
  }

  lemma AddProductFixedKeepsCoherent(v: View, s: Store, payload: Product)
    requires Coherent(v, s) && payload.id.None?
    ensures var r := AddProductFixed(v, s, payload); Coherent(r.view, r.store)
  {
    ListingAfterInsert(s, payload);
    Sequences.SubsequenceReflexive(AddProductFixed(v, s, payload).view.products);
  }

  lemma DeleteKeepsCoherent(v: View, s: Store, id: nat)
    requires Coherent(v, s)
    ensures var r := DeleteProduct(v, s, id); Coherent(r.view, r.store)
  {
    var r := DeleteProduct(v, s, id);
    ListingAfterDelete(s, id);
    Sequences.WherePreservesSubsequence(v.filtered, v.products, (p: Product) => p.id != Some(id));
    PageCountMonotonic(|r.view.filtered|, |v.filtered|);
  }

  lemma EditProductFixedKeepsCoherent(v: View, s: Store, selected: Product, payload: Product)
    requires Coherent(v, s) && selected in v.filtered
    ensures var r := EditProductFixed(v, s, selected, payload); Coherent(r.view, r.store)
  {
    Sequences.SubsequenceMembers(v.filtered, v.products);
    ListingSpec(s);
    var saved := payload.(id := selected.id);
    assert saved.(id := Some(Put(s, saved).key)) == saved;
    ListingAfterReplace(s, saved);
    ReplacePreservesSubsequence(v.filtered, v.products, selected.id, saved);
  }

  /**
   * The agreement asks only that the filtered list be a subsequence of the
   * records, not that it be the records matching the query: the edit
   * branch never filters again, so an edited record that no longer matches
   * the query stays in the filtered list, even with the corrected edit.
   */
  lemma EditCanLeaveNonMatchingRecord(v: View, s: Store, selected: Product, payload: Product)
    requires Coherent(v, s) && selected in v.filtered
    requires !Matches(payload.(id := selected.id), v.query)
    ensures var r := EditProductFixed(v, s, selected, payload);
      && Coherent(r.view, r.store)
      && payload.(id := selected.id) in r.view.filtered
      && r.view.filtered != Filter(r.view.products, r.view.query)
  {
    EditProductFixedKeepsCoherent(v, s, selected, payload);
    Sequences.SubsequenceMembers(v.filtered, v.products);
    ListingSpec(s);
    var r := EditProductFixed(v, s, selected, payload);
    var j :| 0 <= j < |v.filtered| && v.filtered[j] == selected;
    assert r.view.filtered[j] == payload.(id := selected.id);
    FilterSpec(r.view.products, r.view.query);
  }

  /**
   * Finding: the add handler counts the pages of the list before the add.
   * From ten records, the eleventh lands on page 2 while the page count
   * stays 1, so the control is hidden and page 2 cannot be requested.
   */
  lemma AddProductLeavesRecordUnreachable(v: View, s: Store, payload: Product)
    requires Coherent(v, s) && payload.id.None? && |v.products| == 10
    ensures var r := AddProduct(v, s, payload);
      && |r.view.filtered| == 11
      && r.view.totalPages == 1
      && PageItems(r.view.filtered, 1) == r.view.filtered[..10]
      && Click(Render(r.view.currentPage, r.view.totalPages), Next) == None
      && !Coherent(r.view, r.store)
  {
    PageItemsWindow(AddProduct(v, s, payload).view.filtered, 1);
  }

  /**
   * Finding: clearing the query keeps the page count of the last search.
   * After a search that matches nothing, clearing it shows more than ten
   * records with a page count of 0, and the control stays hidden.
   */
  lemma ClearingQueryLeavesRecordsUnreachable(v: View, s: Store, q: string)
    requires Coherent(v, s) && v.query == "" && q != "" && |v.products| > 10
    requires Filter(v.products, q) == []
    ensures var w := SetSearchQuery(SetSearchQuery(v, q), "");
      && w.filtered == v.products
      && w.totalPages == 0
      && Click(Render(w.currentPage, w.totalPages), Next) == None
      && !Coherent(w, s)
  {
  }

  /**
   * Finding: the edit form submits a record without an id, and `put` of
   * an id-less record inserts a new row. The store grows by one, the
   * selected record's row survives, and no listed record carries its id.
   */
  lemma EditProductDuplicatesRecord(v: View, s: Store, selected: Product, payload: Product)
    requires Coherent(v, s) && selected in v.filtered && payload.id.None?
    ensures var r := EditProduct(v, s, selected, payload);
      && selected.id.Some?
      && selected.id.value in r.store.rows
      && Count(r.store) == Count(s) + 1
      && (forall p :: p in r.view.products ==> p.id != selected.id)
      && !Coherent(r.view, r.store)
  {
    Sequences.SubsequenceMembers(v.filtered, v.products);
    ListingSpec(s);
    var r := EditProduct(v, s, selected, payload);
    var k := selected.id.value;
    assert k in r.store.rows;
    forall p | p in r.view.products
      ensures p.id != selected.id
    {
      var i :| 0 <= i < |r.view.products| && r.view.products[i] == p;
    }
    ListingSpec(r.store);
    assert r.store.rows[k] in ListDescending(r.store);
  }

  /**
   * Every filtered record can be brought on screen: from page 1, clicking
   * Next reaches the page that shows it.
   */
  lemma EveryRecordReachable(v: View, s: Store, i: nat)
    requires Coherent(v, s) && i < |v.filtered|
    ensures var page := i / ItemsPerPage + 1;
      && (page == 1 || ClickNext(1, v.totalPages, page - 1) == Some(page))
      && PageItems(v.filtered, page)[i % ItemsPerPage] == v.filtered[i]
  {
    RecordOnItsPage(v.filtered, i);
    var page := i / ItemsPerPage + 1;
    if page > 1 {
      NextReachesEveryPage(1, v.totalPages, page - 1);
    }
  }

  /** What the user does: type a query, click a pagination button, submit or delete. */
  datatype Event =
    | Type(query: string)
    | Paginate(button: Button)
    | AddSubmit(name: string, price: string, quantity: int)
    | EditSubmit(row: nat, name: string, price: string, quantity: int)
    | Remove(id: nat)

  /**
   * One event through the corrected handlers. Edit applies to a row of the
   * visible page; the form's payload carries no id.
   */
  function Apply(st: Step, e: Event): Step
  {
    var v := st.view;
    match e
    case Type(q) => Step(SetSearchQueryFixed(v, q), st.store)
    case Paginate(b) =>
      (match Click(Render(v.currentPage, v.totalPages), b)
       case None => st
       case Some(page) => Step(SetPage(v, page), st.store))
    case AddSubmit(name, price, quantity) =>
      SubmitFixed(v, st.store, None, Product(None, name, price, quantity))
    case EditSubmit(row, name, price, quantity) =>
      var visible := CurrentProducts(v);
      if row < |visible| then
        SubmitFixed(v, st.store, Some(visible[row]), Product(None, name, price, quantity))
      else st
    case Remove(id) => DeleteProduct(v, st.store, id)
  }

  function Run(st: Step, events: seq<Event>): Step
    decreases |events|
  {
    if |events| == 0 then st else Run(Apply(st, events[0]), events[1..])
  }

  lemma ApplyKeepsCoherent(st: Step, e: Event)
    requires Coherent(st.view, st.store)
    ensures Coherent(Apply(st, e).view, Apply(st, e).store)
  {
    var v := st.view;
    match e
    case Type(q) => SetSearchQueryFixedKeepsCoherent(v, st.store, q);
    case Paginate(b) =>
    case AddSubmit(name, price, quantity) =>
      AddProductFixedKeepsCoherent(v, st.store, Product(None, name, price, quantity));
    case EditSubmit(row, name, price, quantity) =>
      var visible := CurrentProducts(v);
      if row < |visible| {
        assert visible[row] in visible;
        EditProductFixedKeepsCoherent(v, st.store, visible[row], Product(None, name, price, quantity));
      }
    case Remove(id) => DeleteKeepsCoherent(v, st.store, id);
  }

  /** Any session of user events through the corrected handlers keeps the view coherent. */
  lemma {:induction false} RunKeepsCoherent(st: Step, events: seq<Event>)
    requires Coherent(st.view, st.store)
    ensures Coherent(Run(st, events).view, Run(st, events).store)
    decreases |events|
  {
    if |events| > 0 {
      ApplyKeepsCoherent(st, events[0]);
      RunKeepsCoherent(Apply(st, events[0]), events[1..]);
    }
  }
}
