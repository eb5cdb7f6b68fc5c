/**
 * The view state the application component keeps in memory: every record
 * (`products`), the records passing the search (`filteredProducts`), the
 * query, the current page and the page count. Each handler is one atomic
 * transition of this state together with the store.
 *
 * The handlers are modelled as written. Three of them have a corrected
 * counterpart (`...Fixed`) that the coherence invariant is proved for.
 */
module ViewState {
  import opened Wrappers
  import opened Products
  import opened ProductStore
  import opened Search
  import opened Paging
  import Sequences

  datatype View = View(
    products: seq<Product>,
    filtered: seq<Product>,
    query: string,
    currentPage: int,
    totalPages: int)

  /** The initial hook state: empty lists, page 1 of 1, empty query. */
  const Initial: View := View([], [], "", 1, 1)

  /** The view and the store after a handler. */
  datatype Step = Step(view: View, store: Store)

  /** `fetchProducts`: reload both lists from the store, newest first, and count the pages. */
  function FetchProducts(v: View, s: Store): (r: View)
    ensures r.filtered == r.products
    ensures r.query == v.query && r.currentPage == v.currentPage
  {
    var ps := ListDescending(s);
    v.(products := ps, filtered := ps, totalPages := PageCount(|ps|))
  }

  /**
   * After a load the list holds every stored record exactly once, newest id
   * first, and there are `ceil(n / 10)` pages.
   */
  lemma FetchProductsSpec(v: View, s: Store)
    requires Valid(s)
    ensures var r := FetchProducts(v, s);
      && Descending(r.products)
      && |r.products| == Count(s)
      && (forall k :: k in s.rows ==> s.rows[k] in r.products)
      && (forall p :: p in r.products ==> p.id.Some? && p.id.value in s.rows && s.rows[p.id.value] == p)
      && r.totalPages * ItemsPerPage >= Count(s)
      && (r.totalPages - 1) * ItemsPerPage < Count(s)
  {
    ListingSpec(s);
  }

  /**
   * The search effect, run when the query changes: an empty query shows
   * every record and leaves the page count alone; any other query filters
   * and recounts the pages. The current page is never reset.
   */
  function SetSearchQuery(v: View, q: string): (r: View)
    ensures r.query == q && r.products == v.products && r.currentPage == v.currentPage
    ensures q == v.query ==> r == v
  {
    if q == v.query then v
    else if q == "" then v.(query := q, filtered := v.products)
    else
      var f := Filter(v.products, q);
      v.(query := q, filtered := f, totalPages := PageCount(|f|))
  }

  lemma SetSearchQuerySpec(v: View, q: string)
    requires q != v.query
    ensures var r := SetSearchQuery(v, q);
      && r.filtered == Filter(v.products, q)
      && Sequences.IsSubsequence(r.filtered, v.products)
      && (forall p :: p in r.filtered ==> p in v.products && Matches(p, q))
      && (forall p :: p in v.products && Matches(p, q) ==> p in r.filtered)
      && (q == "" ==> r.filtered == v.products && r.totalPages == v.totalPages)
      && (q != "" ==> r.totalPages == PageCount(|r.filtered|))
  {
    FilterSpec(v.products, q);
    EmptyQueryKeepsAll(v.products);
  }

  /** `handlePageChange`: the requested page is taken as is. */
  function SetPage(v: View, page: int): (r: View)
    ensures r.currentPage == page
    ensures r.products == v.products && r.filtered == v.filtered && r.totalPages == v.totalPages
  {
    v.(currentPage := page)
  }

  /** The records on the table: `filteredProducts.slice(startIndex, endIndex)`. */
  function CurrentProducts(v: View): (r: seq<Product>)
    ensures |r| <= ItemsPerPage
    ensures forall p :: p in r ==> p in v.filtered
  {
    var r := PageItems(v.filtered, v.currentPage);
    assert |r| <= ItemsPerPage by {
      if v.currentPage >= 1 {
        PageItemsWindow(v.filtered, v.currentPage);
      }
    }
    PageItemsFromList(v.filtered, v.currentPage);
    r
  }

  /**
   * `handleAddProduct`: store the record, put it (with the key the store
   * wrote back) in front of the old list, show every record from page 1
   * with an empty query. The page count is taken from the list BEFORE the
   * record was added. If the store rejects the record nothing changes.
   */
  function AddProduct(v: View, s: Store, payload: Product): (r: Step)
    ensures ProductStore.Add(s, payload).Failure? ==> r == Step(v, s)
    ensures Valid(s) && payload.id.None? ==>
      && s.nextId !in s.rows
      && r.view.products == [payload.(id := Some(s.nextId))] + v.products
      && r.store.rows == s.rows[s.nextId := r.view.products[0]]
      && Count(r.store) == Count(s) + 1
      && r.view.filtered == r.view.products
      && r.view.query == "" && r.view.currentPage == 1
      && r.view.totalPages == PageCount(|v.products|)
  {
    match ProductStore.Add(s, payload)
    case Failure(_) => Step(v, s)
    case Success(w) =>
      var ps := [payload.(id := Some(w.key))] + v.products;
      Step(View(ps, ps, "", 1, PageCount(|v.products|)), w.store)
  }

  /** The add handler with the page count taken from the new list. */
  function AddProductFixed(v: View, s: Store, payload: Product): (r: Step)
    ensures ProductStore.Add(s, payload).Failure? ==> r == Step(v, s)
    ensures ProductStore.Add(s, payload).Success? ==> r.view.totalPages == PageCount(|r.view.filtered|)
    ensures Valid(s) && payload.id.None? ==>
      && r.view.products == [payload.(id := Some(s.nextId))] + v.products
      && r.view.filtered == r.view.products
      && r.view.query == "" && r.view.currentPage == 1
      && Count(r.store) == Count(s) + 1
      && r.view.totalPages == PageCount(|v.products| + 1)
  {
    match ProductStore.Add(s, payload)
    case Failure(_) => Step(v, s)
    case Success(w) =>
      var ps := [payload.(id := Some(w.key))] + v.products;
      Step(View(ps, ps, "", 1, PageCount(|ps|)), w.store)
  }

  /**
   * `handleDeleteProduct`: delete the key from the store and every record
   * with that id from both lists. Query, page and page count are kept.
   */
  function DeleteProduct(v: View, s: Store, id: nat): (r: Step)
    ensures r.view.query == v.query && r.view.currentPage == v.currentPage
    ensures r.view.totalPages == v.totalPages
  {
    Step(v.(products := RemoveById(v.products, id), filtered := RemoveById(v.filtered, id)), ProductStore.Delete(s, id))
  }

  lemma DeleteProductSpec(v: View, s: Store, id: nat)
    ensures var r := DeleteProduct(v, s, id);
      && (forall p :: p in r.view.products <==> p in v.products && p.id != Some(id))
      && (forall p :: p in r.view.filtered <==> p in v.filtered && p.id != Some(id))
      && Sequences.IsSubsequence(r.view.products, v.products)
      && Sequences.IsSubsequence(r.view.filtered, v.filtered)
      && (forall p :: multiset(r.view.products)[p] == if p.id == Some(id) then 0 else multiset(v.products)[p])
      && (forall p :: multiset(r.view.filtered)[p] == if p.id == Some(id) then 0 else multiset(v.filtered)[p])
      && id !in r.store.rows
  {
    RemoveByIdSpec(v.products, id);
    RemoveByIdSpec(v.filtered, id);
  }

  /** Deleting an id no record carries leaves both lists as they were. */
  lemma DeleteAbsentIdKeepsLists(v: View, s: Store, id: nat)
    requires forall i :: 0 <= i < |v.products| ==> v.products[i].id != Some(id)
    requires forall i :: 0 <= i < |v.filtered| ==> v.filtered[i].id != Some(id)
    ensures DeleteProduct(v, s, id).view == v
  {
    RemoveByIdSpec(v.products, id);
    RemoveByIdSpec(v.filtered, id);
  }

  /**
   * The edit branch of `handleSubmit`: `put` the submitted record, then
   * replace every listed record whose id is the SELECTED record's id by the
   * submitted one (carrying the key `put` wrote back); every other record
   * stays where it was. A submitted record without an id is stored under a
   * NEW key, so the store grows by one.
   */
  function EditProduct(v: View, s: Store, selected: Product, payload: Product): (r: Step)
    ensures var saved := payload.(id := Some(Put(s, payload).key));
      && |r.view.products| == |v.products| && |r.view.filtered| == |v.filtered|
      && (forall i :: 0 <= i < |v.products| ==>
            r.view.products[i] == if v.products[i].id == selected.id then saved else v.products[i])
      && (forall i :: 0 <= i < |v.filtered| ==>
            r.view.filtered[i] == if v.filtered[i].id == selected.id then saved else v.filtered[i])
      && (Valid(s) && payload.id.None? ==> Count(r.store) == Count(s) + 1 && saved.id == Some(s.nextId))
    ensures r.view.query == v.query && r.view.currentPage == v.currentPage
    ensures r.view.totalPages == v.totalPages
  {
    var w := Put(s, payload);
    var saved := payload.(id := Some(w.key));
    Step(v.(products := ReplaceById(v.products, selected.id, saved),
            filtered := ReplaceById(v.filtered, selected.id, saved)),
         w.store)
  }

  /**
   * The edit branch with the submitted record stored under the selected
   * record's id: that row is overwritten, no row is added, and the listed
   * records carrying the id become the submitted fields in place.
   */
  function EditProductFixed(v: View, s: Store, selected: Product, payload: Product): (r: Step)
    ensures var stored := payload.(id := Some(Put(s, payload.(id := selected.id)).key));
      && |r.view.products| == |v.products| && |r.view.filtered| == |v.filtered|
      && (forall i :: 0 <= i < |v.products| ==>
            r.view.products[i] == if v.products[i].id == selected.id then stored else v.products[i])
      && (forall i :: 0 <= i < |v.filtered| ==>
            r.view.filtered[i] == if v.filtered[i].id == selected.id then stored else v.filtered[i])
    ensures r.view.query == v.query && r.view.currentPage == v.currentPage
    ensures r.view.totalPages == v.totalPages
    ensures Valid(s) && selected.id.Some? && selected.id.value in s.rows ==>
      && Valid(r.store)
      && r.store.rows.Keys == s.rows.Keys && Count(r.store) == Count(s)
      && r.store.rows[selected.id.value] == payload.(id := selected.id)
      && (forall k :: k in s.rows && k != selected.id.value ==> r.store.rows[k] == s.rows[k])
  {
    var saved := payload.(id := selected.id);
    var w := Put(s, saved);
    var stored := saved.(id := Some(w.key));
    Step(v.(products := ReplaceById(v.products, selected.id, stored),
            filtered := ReplaceById(v.filtered, selected.id, stored)),
         w.store)
  }

  /** The search effect with the page count recomputed when the query is cleared. */
  function SetSearchQueryFixed(v: View, q: string): (r: View)
    ensures r.query == q && r.products == v.products && r.currentPage == v.currentPage
    ensures q != v.query ==> r.filtered == Filter(v.products, q) && r.totalPages == PageCount(|r.filtered|)
  {
    EmptyQueryKeepsAll(v.products);
    if q == v.query then v
    else if q == "" then v.(query := q, filtered := v.products, totalPages := PageCount(|v.products|))
    else
      var f := Filter(v.products, q);
      v.(query := q, filtered := f, totalPages := PageCount(|f|))
  }

  /**
   * `handleSubmit`: edit when a record is selected, add otherwise. The form
   * submits a record without an id, so either branch adds one row.
   */
  function Submit(v: View, s: Store, selected: Option<Product>, payload: Product): (r: Step)
    ensures Valid(s) && payload.id.None? ==> Valid(r.store) && Count(r.store) == Count(s) + 1
    ensures selected.Some? ==>
      && |r.view.products| == |v.products| && |r.view.filtered| == |v.filtered|
      && r.view.query == v.query && r.view.currentPage == v.currentPage
      && r.view.totalPages == v.totalPages
    ensures selected.None? && Valid(s) && payload.id.None? ==>
      && r.view.products == [payload.(id := Some(s.nextId))] + v.products
      && r.view.filtered == r.view.products
      && r.view.query == "" && r.view.currentPage == 1
  {
    if selected.Some? then EditProduct(v, s, selected.value, payload) else AddProduct(v, s, payload)
  }

  /**
   * `handleSubmit` built on the corrected add and edit: editing a stored
   * record keeps the count and overwrites that row, adding grows the count
   * by one and counts the pages of the new list.
   */
  function SubmitFixed(v: View, s: Store, selected: Option<Product>, payload: Product): (r: Step)
    ensures selected.Some? && Valid(s) && selected.value.id.Some? && selected.value.id.value in s.rows ==>
      && Count(r.store) == Count(s)
      && selected.value.id.value in r.store.rows
      && r.store.rows[selected.value.id.value] == payload.(id := selected.value.id)
      && |r.view.products| == |v.products| && |r.view.filtered| == |v.filtered|
    ensures selected.None? && Valid(s) && payload.id.None? ==>
      && Count(r.store) == Count(s) + 1
      && r.view.products == [payload.(id := Some(s.nextId))] + v.products
      && r.view.totalPages == PageCount(|r.view.products|)
  {
    if selected.Some? then EditProductFixed(v, s, selected.value, payload) else AddProductFixed(v, s, payload)
  }
}
