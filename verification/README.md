# Product manager: view-state and store model

A Dafny model of the bookkeeping in a single-user product inventory app.
The app keeps products in a local browser object store (`products`, schema
`++id, name, price, quantity`). Its main component holds two in-memory
lists, all records (`products`) and the records passing the search
(`filteredProducts`), together with the search query, the current page and
the page count.

The model is functional. Each handler is a pure transition over a `View`
record and a `Store` value:

- `ProductStore` (src/db/dexieDB.js): an auto-incremented table. It has a
  `map<nat, Product>` and the key generator's next value, and supports
  `add`, `put`, `delete`, `bulkPut`, `count` and the listing newest-first.
- `Search`, `Paging` and `ViewState` (src/App.jsx): the search predicate and
  filter, the page count `ceil(n / 10)`, the visible slice, and the load,
  search, page-change, add, delete and edit handlers.
- `PaginationControl` (src/components/Pagination.jsx): the Previous/Next
  control and the page it requests.
- `Seeder` (src/data/seed.js): the 1000-record batch and its in-flight
  flag. `Startup` models the mount effect that seeds an empty store and
  then loads.
- `Coherence`: the agreement between view and store. The view's list is
  the store's listing. The filtered list is a subsequence of it, and is all
  of it under the empty query. The page count covers the filtered list. The
  corrected handlers keep this agreement over any session of user events.
  The agreement does not require the filtered list to be exactly the
  records matching the query: the edit handler never filters again, so an
  edited record that no longer matches stays in the filtered list.
- `Text`, `Sequences`, `Products` and `Wrappers` hold the string
  primitives, `filter`, the id-keyed list edits and `Option`/`Result`.

The handlers are modelled as the code behaves, quirks included:

- The add handler counts pages from the list before the add.
- Clearing the query does not recount pages.
- Delete and edit never recount pages.
- The search does not reset the current page.
- The edit form submits a record without an id.

Behaviour a reader might not expect, modelled as written:

- The add handler shows every record with an empty query. It does not
  prepend the new record to the filtered list only when it matches.
- Loading sets the filtered list to all records. It does not reapply the
  current query.
- The edit handler `put`s the form's id-less record rather than updating the
  selected row.
- The seeding flag is cleared only after a successful insert.

The store writes the key it generates back onto an id-less record it
stores. So the record prepended on add, and the record mapped in on edit,
both carry their key.

## Model

| member | source | states |
|---|---|---|
| ProductStore.Put | src/db/dexieDB.js:6 | `put` stores the record under its own id, or under the generator's next key when it has none; that key is fresh in a valid store, no other row changes, the store stays valid, and an id-less put adds exactly one row |
| ProductStore.Add | src/App.jsx:69 | `add` rejects exactly a record whose id is already stored; otherwise it behaves as `put` with a fresh key |
| ProductStore.Delete | src/App.jsx:86 | `delete` removes the key and nothing else; an absent key leaves the store unchanged; a present one lowers the count by one |
| ProductStore.BulkPutCount | src/data/seed.js:16 | a bulk put of id-less records keeps the store valid, advances the generator by the batch size and adds that many rows |
| ProductStore.BulkPutKeepsRows | src/data/seed.js:16 | a bulk put keeps every existing row unchanged |
| ProductStore.BulkPutOnlyFresh | src/data/seed.js:16 | a bulk put adds no key below the generator's previous value |
| ProductStore.BulkPutRowAt | src/data/seed.js:16 | the i-th record of the batch is stored under key `nextId + i`, carrying that id |
| ProductStore.ListingSpec | src/App.jsx:21 | `orderBy('id').reverse().toArray()` lists every stored row exactly once, each as stored under its id, strictly descending by id |
| ProductStore.ListingAfterInsert | src/App.jsx:69-70 | after an id-less insert the listing is the new record followed by the old listing, which is what the add handler builds in memory |
| ProductStore.ListingAfterDelete | src/App.jsx:86-87 | after deleting a key the listing is the old listing with that id filtered out, which is what the delete handler builds in memory |
| ProductStore.ListingAfterReplace | src/App.jsx:95-96 | overwriting a stored row replaces it in place in the listing, positions kept |
| Products.RemoveByIdSpec | src/App.jsx:87-88 | removing by id keeps exactly the records with another id, as a subsequence, each as many times as it occurred, drops every record with the id, and changes nothing exactly when no record has that id |
| Products.ReplaceById | src/App.jsx:96-97 | replace-by-id keeps the length; each position holds the new record when its id matches and the old record otherwise |
| Products.ReplacePreservesSubsequence | src/App.jsx:96-97 | replacing by id in both lists keeps the filtered list a subsequence of all records |
| Text.Lower | src/App.jsx:45 | lower-casing keeps the length, leaves no upper-case letter, keeps every other character, and maps each upper-case letter to its lower-case letter |
| Text.LowerIdempotent | src/App.jsx:45 | lower-casing an already lower-cased text changes nothing |
| Text.IncludesIffOccurs | src/App.jsx:45-47 | `includes` holds exactly when the needle occurs at some index of the text |
| Text.IntToTextRoundTrip | src/App.jsx:47 | the text `toString` gives an integer quantity reads back as that integer |
| Search.MatchesIffOccurs | src/App.jsx:45-47 | a record matches exactly when the lower-cased query occurs in its lower-cased name, or the query occurs in its price text or in its quantity text |
| Search.FilterSpec | src/App.jsx:44-48 | the filtered list is an order-preserving subsequence of the records, holding a record exactly when it is listed and matches, as many times as it is listed |
| Search.FilterAppend | src/App.jsx:44-48 | filtering distributes over concatenation, so survivors keep their relative order |
| Search.FilterIdempotent | src/App.jsx:44-49 | filtering an already filtered list by the same query changes nothing |
| Search.EmptyQueryKeepsAll | src/App.jsx:40-48 | the empty query matches every record, so the empty-query branch agrees with filtering |
| Search.RecordFoundByOwnFields | src/App.jsx:45-47 | a record is found by its name in any letter case, by its price text and by its quantity text |
| Paging.PageCount | src/App.jsx:24 | the page count is the least `r` with `10 * r >= n`, that is `ceil(n / 10)` |
| Paging.PageCountMonotonic | src/App.jsx:50 | a shorter list never has more pages |
| Paging.ClampIndex | src/App.jsx:108 | `slice` reads an index into `0..length`, and an index already in that range is taken as is |
| Paging.PageItemsWindow | src/App.jsx:106-108 | for page `p >= 1` the visible records are `filtered[(p-1)*10 .. min(p*10, n)]`, at most ten, and some exactly when `(p-1)*10 < n` |
| Paging.RecordOnItsPage | src/App.jsx:106-108 | the record at index `i` is on page `i / 10 + 1` at row `i % 10`, and that page is within the page count |
| Paging.PagesArePrefix | src/App.jsx:106-108 | pages 1 to `k` read in order are the first `10 * k` records |
| Paging.PagesCoverList | src/App.jsx:106-108 | pages 1 to `ceil(n / 10)` read in order are exactly the filtered list |
| ViewState.FetchProducts | src/App.jsx:20-25 | a load sets both lists to the same listing and keeps the query and the current page |
| ViewState.FetchProductsSpec | src/App.jsx:20-25 | after a load both lists are every stored record once, newest id first, and the page count is `ceil(count / 10)` |
| ViewState.SetSearchQuery | src/App.jsx:39-52 | the search effect sets the query, never touches the record list or the current page, and does nothing when the query is unchanged |
| ViewState.SetSearchQuerySpec | src/App.jsx:40-50 | on a changed query the filtered list is the matching subsequence; the empty query shows all records and keeps the page count; any other query recounts the pages from the filtered list |
| ViewState.SetPage | src/App.jsx:54-56 | a page change sets the current page as requested and leaves the lists and page count alone |
| ViewState.CurrentProducts | src/App.jsx:106-108 | the visible records are at most ten, all from the filtered list |
| ViewState.AddProduct | src/App.jsx:68-78 | add leaves everything unchanged when the store rejects; otherwise the stored record, with its fresh key, is at index 0 with the old list as tail; the filtered list is the same list; query `''`, page 1; page count `ceil(old length / 10)` |
| ViewState.AddProductFixed | src/App.jsx:68-77 | the corrected add puts the new record with its key in front, shows all records from page 1 with an empty query, grows the count by one, counts the pages of the new list, and changes nothing when the store rejects the record |
| ViewState.DeleteProduct | src/App.jsx:85-91 | delete keeps query, current page and page count |
| ViewState.DeleteProductSpec | src/App.jsx:86-88 | delete removes every record with the id from both lists, keeps the rest in order as subsequences with their multiplicities, and removes the key from the store |
| ViewState.DeleteAbsentIdKeepsLists | src/App.jsx:86-88 | deleting an id no record carries leaves both lists unchanged |
| ViewState.EditProduct | src/App.jsx:93-99 | edit keeps lengths and positions: records with the selected record's id become the submitted record, others are unchanged; an id-less submission adds a row to the store; query, page and page count are kept |
| ViewState.EditProductFixed | src/App.jsx:95-97 | the corrected edit overwrites the selected record's row with the submitted fields under that id, leaves every other row and the count unchanged, replaces the listed records with that id in place, and keeps query, page and page count |
| ViewState.SetSearchQueryFixed | src/App.jsx:40-42 | the corrected search effect makes the filtered list the filter of all records and recounts the pages, also when the query is cleared |
| ViewState.Submit | src/App.jsx:93-104 | an id-less submitted record adds one row in either branch; with a record selected the list lengths, query, page and page count are kept; with none the new record leads the list shown from page 1 with an empty query |
| ViewState.SubmitFixed | src/App.jsx:93-104 | with a stored record selected the corrected submit keeps the count and overwrites that row; with none it adds one row, puts the record in front and counts the pages of the new list |
| PaginationControl.Render | src/components/Pagination.jsx:3 | the control is hidden exactly when there is at most one page |
| PaginationControl.HiddenRequestsNothing | src/components/Pagination.jsx:3 | with at most one page no button requests a page |
| PaginationControl.PreviousRequest | src/components/Pagination.jsx:9-10 | Previous requests `currentPage - 1` and is disabled exactly on page 1 |
| PaginationControl.NextRequest | src/components/Pagination.jsx:19-20 | Next requests `currentPage + 1` and is disabled exactly on the last page |
| PaginationControl.RequestsStayInRange | src/components/Pagination.jsx:9-20 | from a page in `1..totalPages` every request is in `1..totalPages` |
| PaginationControl.NextEnabledPastLastPage | src/components/Pagination.jsx:20 | past the last page Next stays enabled, because only equality disables it |
| PaginationControl.NextReachesEveryPage | src/components/Pagination.jsx:19-20 | clicking Next `k` times from a page reaches the page `k` further on, up to the last page |
| Seeder.FromSample | src/data/seed.js:11-13 | a generated record has no id, a non-empty name and a quantity in `[1, 100]` |
| Seeder.GenerateBatch | src/data/seed.js:10-14 | the batch has exactly 1000 records, none with an id, each with a non-empty name, a quantity in `[1, 100]`, and the fields of the i-th draw |
| Seeder.BeginSeed | src/data/seed.js:7-14 | a call returns at once exactly when the flag is up; otherwise it raises the flag before the batch is inserted |
| Seeder.FinishSeed | src/data/seed.js:16-18 | the flag is lowered only when the bulk insert resolves; a rejection leaves flag and store as they were |
| Seeder.SeedProducts | src/data/seed.js:6-19 | with the flag up the call touches nothing |
| Seeder.ReentrantSeedIsNoOp | src/data/seed.js:7-8 | a second call that starts while the first awaits its insert touches nothing |
| Seeder.SeedStoredSpec | src/data/seed.js:16-18 | a completed seed adds exactly 1000 rows under fresh keys, keeps existing rows, lowers the flag, and never consults the count |
| Seeder.SeedStoredRow | src/data/seed.js:10-16 | the i-th generated record is stored under key `nextId + i` with its quantity in `[1, 100]` |
| Seeder.SeedTwiceAddsTwoBatches | src/data/seed.js:6-19 | the seeder itself does not prevent double seeding: two completed calls in a row add 2000 records |
| Seeder.RejectedSeedBlocksLaterSeeds | src/data/seed.js:16-18 | after a rejected insert the flag stays up and every later call is a no-op |
| Startup.CheckAndSeedDatabase | src/App.jsx:28-35 | a non-empty store is neither seeded nor changed; while a seed is in flight the store is not changed |
| Startup.FirstStartupSeeds | src/App.jsx:28-35 | the first start on an empty store seeds 1000 records and shows them on 100 pages, coherently with the store |
| Startup.StartupTwiceSeedsOnce | src/App.jsx:29-33 | a second start-up check after a successful seed does not seed again; the count stays 1000 |
| Startup.AddThenDeleteRestoresCount | src/App.jsx:68-88 | after seeding, an added record appears at index 0 under a key no row had, and deleting that key brings the count back to 1000 |
| Coherence.InitialCoherent | src/App.jsx:12-18 | the initial hook state agrees with the empty store |
| Coherence.FetchKeepsCoherent | src/App.jsx:20-25 | a load makes the view agree with any valid store |
| Coherence.SetPageKeepsCoherent | src/App.jsx:54-56 | a page change keeps the agreement |
| Coherence.SetSearchQueryFixedKeepsCoherent | src/App.jsx:39-52 | the corrected search effect keeps the agreement |
| Coherence.AddProductFixedKeepsCoherent | src/App.jsx:68-77 | the corrected add of an id-less record keeps the agreement |
| Coherence.DeleteKeepsCoherent | src/App.jsx:85-91 | delete keeps the agreement, even though it never recounts the pages |
| Coherence.EditProductFixedKeepsCoherent | src/App.jsx:93-99 | the corrected edit of a displayed record keeps the agreement |
| Coherence.EditCanLeaveNonMatchingRecord | src/App.jsx:95-97 | the edit branch does not filter again: an edited record that no longer matches the query stays in the filtered list, which then differs from filtering the records, while the agreement holds |
| Coherence.AddProductLeavesRecordUnreachable | src/App.jsx:76 | from ten records, adding one leaves eleven records with a page count of 1, the control hidden and the agreement broken |
| Coherence.ClearingQueryLeavesRecordsUnreachable | src/App.jsx:40-42 | searching for text no record has and then clearing the search leaves over ten records with a page count of 0 and the control hidden |
| Coherence.EditProductDuplicatesRecord | src/App.jsx:95-97 | editing a displayed record adds a row to the store, keeps the selected record's row, and leaves no listed record with its id |
| Coherence.EveryRecordReachable | src/App.jsx:106-108 | in an agreeing view every filtered record is on a page that Next reaches from page 1 |
| Coherence.ApplyKeepsCoherent | src/App.jsx:39-104 | each user event through the corrected handlers keeps the agreement |
| Coherence.RunKeepsCoherent | src/App.jsx:39-104 | any sequence of user events through the corrected handlers keeps the agreement |

## Left out

- Markup, styling, toast notifications, the `ToastContainer` and the modal open/close flags: presentation only.
- React scheduling and stale closures. Each handler is one atomic transition. The search effect runs only when the query value changes.
- Dexie internals and `await`: the store is a map with a key generator. Storage I/O errors are not modelled. Two failures are kept: `add` of an already stored id, and a rejected bulk insert.
- Seeder.FinishSeed: a rejected bulk insert commits nothing in the model, although `bulkPut` may have committed part of the batch before rejecting.
- The fake-data generator: its draws are a parameter `sample`. The types carry what the generator guarantees: non-empty names and quantities from 1 to 100.
- Floating-point prices and `Number(...)` parsing in the form: a price is kept only as the text `price.toString()` yields. A quantity is an unbounded integer.
- Text.IntToText: renders every integer in plain decimal, whereas JavaScript's `toString` rounds the digits of a number above 2^53 and uses exponent form from 1e21 on, so the quantity search can differ from the app for such quantities; the two agree up to 2^53.
- Text.Lower: maps only the ASCII letters, whereas `toLowerCase` maps all of Unicode.
- The form's own state (src/components/ProductModal.jsx). Only its submit shape is modelled: name, price and quantity, without an id.
- src/components/ProductTable.jsx is not part of this model. The session model assumes the table offers edit on the visible rows and passes a record's id to delete.
- `handleModalOpen`, `handleModalClose` and `handleEditProduct` only set the selection and modal flags. The selection is a parameter of the edit handler.
- `console.log`.

## Findings

| source | as written | input that shows it | evidently intended | confidence | as-written member | corrected member |
|---|---|---|---|---|---|---|
| src/App.jsx:76 | the add handler sets the page count from `products.length`, the length before the add | ten records, then add one: eleven records, page count 1, the control hidden, the eleventh record unreachable | page count from the new list, `ceil(11 / 10) = 2` | not executed; high | Coherence.AddProductLeavesRecordUnreachable | ViewState.AddProductFixed |
| src/App.jsx:40-42 | clearing the query shows all records but keeps the page count of the last search | eleven records, search for text none contains (page count 0), clear the search: eleven records, page count 0, the control hidden | page count recomputed from all records | not executed; high | Coherence.ClearingQueryLeavesRecordsUnreachable | ViewState.SetSearchQueryFixed |
| src/App.jsx:95 | the edit handler `put`s the form's record, which has no id (src/components/ProductModal.jsx:20-24), so the store inserts a new row | one stored record with id 1, edit it: the store holds rows 1 and 2, and the list holds only the record with id 2; a reload shows both | the submitted fields stored under the selected record's id | not executed; high (relies on `put` of an id-less record inserting under a new key) | Coherence.EditProductDuplicatesRecord | ViewState.EditProductFixed |
