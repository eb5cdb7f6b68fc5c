/**
 * The mount effect `checkAndSeedDatabase`: seed when the store is empty,
 * then load the view from the store.
 */
module Startup {
  import opened Wrappers
  import opened Products
  import opened ProductStore
  import opened ViewState
  import opened Seeder
  import opened Coherence

  /** The application's whole state: view, store and the seeder's flag. */
  datatype App = App(view: View, store: Store, seeder: Seeder)

  /** First render: initial view, empty store, no seed in flight. */
  const Boot: App := App(Initial, Empty, Idle)

  /**
   * Seed when `count()` is 0, then fetch. A seed call that returns early
   * (another is in flight) still lets the fetch run; a rejected bulk insert
   * makes the awaited call throw, so the fetch is skipped.
   */
  function CheckAndSeedDatabase(a: App, sample: nat -> Sample, outcome: BulkOutcome): (r: App)
    ensures Count(a.store) > 0 ==> r.store == a.store && r.seeder == a.seeder
    ensures Count(a.store) == 0 && a.seeder.isSeeding ==> r.store == a.store
  {
    if Count(a.store) == 0 then
      var run := SeedProducts(a.seeder, a.store, sample, outcome);
      if !a.seeder.isSeeding && outcome.Rejected? then App(a.view, run.store, run.seeder)
      else App(FetchProducts(a.view, run.store), run.store, run.seeder)
    else App(FetchProducts(a.view, a.store), a.store, a.seeder)
  }

  /** The first start on an empty store seeds 1000 records and shows them on 100 pages. */
  lemma FirstStartupSeeds(sample: nat -> Sample)
    ensures var r := CheckAndSeedDatabase(Boot, sample, Stored);
      && Count(r.store) == SeedCount
      && |r.view.products| == SeedCount
      && r.view.totalPages == 100
      && !r.seeder.isSeeding
      && Coherent(r.view, r.store)
  {
    SeedStoredSpec(Idle, Empty, sample);
    var r := CheckAndSeedDatabase(Boot, sample, Stored);
    FetchProductsSpec(Boot.view, r.store);
    FetchKeepsCoherent(Boot.view, r.store);
  }

  /**
   * Running the start-up check again once the store holds the batch does
   * not seed a second batch: the count stays at 1000.
   */
  lemma StartupTwiceSeedsOnce(a: App, first: nat -> Sample, second: nat -> Sample, outcome: BulkOutcome)
    requires Valid(a.store) && Count(a.store) == 0 && !a.seeder.isSeeding
    ensures var once := CheckAndSeedDatabase(a, first, Stored);
      && Count(once.store) == SeedCount
      && CheckAndSeedDatabase(once, second, outcome).store == once.store
  {
    SeedStoredSpec(a.seeder, a.store, first);
  }

  /**
   * The scenario of an add followed by the delete of the added record: the
   * record appears at the head with a key no row had, and the count
   * returns to 1000.
   */
  lemma AddThenDeleteRestoresCount(sample: nat -> Sample, payload: Product)
    requires payload.id.None?
    ensures var started := CheckAndSeedDatabase(Boot, sample, Stored);
      var added := AddProduct(started.view, started.store, payload);
      var key := started.store.nextId;
      && key !in started.store.rows
      && added.view.products[0] == payload.(id := Some(key))
      && Count(added.store) == SeedCount + 1
      && Count(DeleteProduct(added.view, added.store, key).store) == SeedCount
  {
    SeedStoredSpec(Idle, Empty, sample);
  }
}
