/**
 * The seeder: on an empty store it inserts one batch of 1000 generated
 * records. A module-level in-flight flag makes a call that arrives while a
 * batch is being inserted return at once.
 */
module Seeder {
  import opened Wrappers
  import opened Products
  import opened ProductStore

  /** The size of the generated batch. */
  const SeedCount: nat := 1000

  /** Quantities the generator draws: integers from 1 to 100. */
  type Quantity = q: int | 1 <= q <= 100 witness 1

  /** Generated product names are never empty. */
  type Name = s: string | |s| > 0 witness "x"

  /** One draw of the fake-data generator; its randomness is not modelled. */
  datatype Sample = Sample(name: Name, price: string, quantity: Quantity)

  /** The module-level `isSeeding` flag. */
  datatype Seeder = Seeder(isSeeding: bool)

  const Idle: Seeder := Seeder(false)

  /** Whether the bulk insert resolves or rejects. */
  datatype BulkOutcome = Stored | Rejected

  /** The flag and the store after a call. */
  datatype SeedRun = SeedRun(seeder: Seeder, store: Store)

  /** `{ name, price, quantity }` from one draw; no id yet. */
  function FromSample(d: Sample): (r: Product)
    ensures r.id.None? && |r.name| > 0 && 1 <= r.quantity <= 100
    ensures r.name == d.name && r.price == d.price && r.quantity == d.quantity
  {
    Product(None, d.name, d.price, d.quantity)
  }

  /** The batch: 1000 id-less records, the i-th built from the generator's i-th draw. */
  function GenerateBatch(sample: nat -> Sample): (r: seq<Product>)
    ensures |r| == SeedCount
    ensures forall i :: 0 <= i < |r| ==> r[i].id.None? && |r[i].name| > 0 && 1 <= r[i].quantity <= 100
    ensures forall i :: 0 <= i < |r| ==>
      r[i].name == sample(i).name && r[i].price == sample(i).price && r[i].quantity == sample(i).quantity
  {
    var r := seq(SeedCount, i requires 0 <= i < SeedCount => FromSample(sample(i)));
    assert forall i :: 0 <= i < |r| ==> r[i] == FromSample(sample(i));
    r
  }

  /** The part of a call that runs before the bulk insert is awaited. */
  datatype Begun = Returned | Inserting(seeder: Seeder, batch: seq<Product>)

  /** Return if a seed is in flight; otherwise raise the flag, then build the batch. */
  function BeginSeed(seeder: Seeder, sample: nat -> Sample): (r: Begun)
    ensures r.Returned? <==> seeder.isSeeding
    ensures r.Inserting? ==> r.seeder.isSeeding && |r.batch| == SeedCount
  {
    if seeder.isSeeding then Returned
    else Inserting(seeder.(isSeeding := true), GenerateBatch(sample))
  }

  /**
   * The part after the await: the flag is lowered only when the bulk insert
   * resolves. There is no `finally`, so a rejected insert leaves it raised.
   */
  function FinishSeed(seeder: Seeder, s: Store, batch: seq<Product>, outcome: BulkOutcome): (r: SeedRun)
    ensures outcome.Rejected? ==> r == SeedRun(seeder, s)
    ensures outcome.Stored? ==> !r.seeder.isSeeding
  {
    match outcome
    case Stored => SeedRun(seeder.(isSeeding := false), BulkPut(s, batch))
    case Rejected => SeedRun(seeder, s)
  }

  /** `seedProducts`, run to completion with no other call in between. */
  function SeedProducts(seeder: Seeder, s: Store, sample: nat -> Sample, outcome: BulkOutcome): (r: SeedRun)
    ensures seeder.isSeeding ==> r == SeedRun(seeder, s)
  {
    match BeginSeed(seeder, sample)
    case Returned => SeedRun(seeder, s)
    case Inserting(flagged, batch) => FinishSeed(flagged, s, batch, outcome)
  }

  /**
   * A second call that starts while the first one awaits its bulk insert
   * sees the raised flag and touches nothing.
   */
  lemma ReentrantSeedIsNoOp(seeder: Seeder, s: Store, first: nat -> Sample, second: nat -> Sample, outcome: BulkOutcome)
    requires !seeder.isSeeding
    ensures BeginSeed(seeder, first).Inserting?
    ensures var flagged := BeginSeed(seeder, first).seeder;
      SeedProducts(flagged, s, second, outcome) == SeedRun(flagged, s)
  {
  }

  /**
   * A completed seed adds 1000 rows under the next 1000 keys, keeps every
   * existing row, and lowers the flag. The store's size is not consulted.
   */
  lemma SeedStoredSpec(seeder: Seeder, s: Store, sample: nat -> Sample)
    requires Valid(s) && !seeder.isSeeding
    ensures var r := SeedProducts(seeder, s, sample, Stored);
      && !r.seeder.isSeeding
      && Valid(r.store)
      && Count(r.store) == Count(s) + SeedCount
      && r.store.nextId == s.nextId + SeedCount
      && (forall k :: k in s.rows ==> k in r.store.rows && r.store.rows[k] == s.rows[k])
      && (forall k :: k in r.store.rows ==> k in s.rows || s.nextId <= k)
  {
    var batch := GenerateBatch(sample);
    BulkPutCount(s, batch);
    BulkPutKeepsRows(s, batch);
    BulkPutOnlyFresh(s, batch);
  }

  /** The i-th generated record is stored under key `nextId + i`, quantity in range. */
  lemma SeedStoredRow(seeder: Seeder, s: Store, sample: nat -> Sample, i: nat)
    requires Valid(s) && !seeder.isSeeding && i < SeedCount
    ensures var r := SeedProducts(seeder, s, sample, Stored);
      && s.nextId + i in r.store.rows
      && r.store.rows[s.nextId + i] == Product(Some(s.nextId + i), sample(i).name, sample(i).price, sample(i).quantity)
      && 1 <= r.store.rows[s.nextId + i].quantity <= 100
  {
    BulkPutRowAt(s, GenerateBatch(sample), i);
  }

  /**
   * Nothing in the seeder itself prevents a second batch: two completed
   * calls in a row insert 2000 records.
   */
  lemma SeedTwiceAddsTwoBatches(seeder: Seeder, s: Store, first: nat -> Sample, second: nat -> Sample)
    requires Valid(s) && !seeder.isSeeding
    ensures var once := SeedProducts(seeder, s, first, Stored);
      Count(SeedProducts(once.seeder, once.store, second, Stored).store) == Count(s) + 2 * SeedCount
  {
    SeedStoredSpec(seeder, s, first);
    var once := SeedProducts(seeder, s, first, Stored);
    SeedStoredSpec(once.seeder, once.store, second);
  }

  /** A rejected insert leaves the flag raised, so every later call is a no-op. */
  lemma RejectedSeedBlocksLaterSeeds(seeder: Seeder, s: Store, sample: nat -> Sample, later: nat -> Sample, outcome: BulkOutcome)
    requires !seeder.isSeeding
    ensures var r := SeedProducts(seeder, s, sample, Rejected);
      && r.seeder.isSeeding && r.store == s
      && SeedProducts(r.seeder, r.store, later, outcome) == r
  {
  }
}
