/**
 * The `products` object store declared with the schema `++id, name, price,
 * quantity`: rows keyed by an auto-incremented id. Only the behaviour the
 * application relies on is modelled: `add`, `put`, `delete`, `bulkPut`,
 * `count` and `orderBy('id').reverse().toArray()`.
 */
module ProductStore {
  import opened Wrappers
  import opened Products
  import Sequences

  /** The rows by key, and the key generator's current number. */
  datatype Store = Store(rows: map<nat, Product>, nextId: nat)

  /** A fresh table: no rows, and the key generator starts at 1. */
  const Empty: Store := Store(map[], 1)

  /** Every row is stored under its own id, and the generator is past every key. */
  predicate Valid(s: Store)
  {
    s.nextId >= 1 && forall k :: k in s.rows ==> k < s.nextId && s.rows[k].id == Some(k)
  }

  /** `table.count()`. */
  function Count(s: Store): nat
  {
    |s.rows|
  }

  /** The table after a write, and the key the write used. */
  datatype Written = Written(store: Store, key: nat)

  /** `add` refuses a record whose key is already taken. */
  datatype StoreError = KeyExists(key: nat)

  /**
   * `table.put(p)`: stores `p` under its own id, overwriting any row there;
   * a record without an id gets the generator's next key, which is written
   * back onto the stored record. A key at or past the generator moves it on.
   */
  function Put(s: Store, p: Product): (r: Written)
    ensures p.id.Some? ==> r.key == p.id.value
    ensures p.id.None? ==> r.key == s.nextId
    ensures r.key in r.store.rows && r.store.rows[r.key] == p.(id := Some(r.key))
    ensures forall k :: k != r.key ==> (k in r.store.rows <==> k in s.rows)
    ensures forall k :: k != r.key && k in s.rows ==> r.store.rows[k] == s.rows[k]
    ensures Valid(s) ==> Valid(r.store)
    ensures Valid(s) && p.id.None? ==> r.key !in s.rows && Count(r.store) == Count(s) + 1
  {
    var key := if p.id.Some? then p.id.value else s.nextId;
    var next := if key + 1 > s.nextId then key + 1 else s.nextId;
    Written(Store(s.rows[key := p.(id := Some(key))], next), key)
  }

  /** `table.add(p)`: like `put`, but rejects a record whose id is already stored. */
  function Add(s: Store, p: Product): (r: Result<Written, StoreError>)
    ensures r.Failure? <==> p.id.Some? && p.id.value in s.rows
    ensures r.Success? ==> r.value == Put(s, p)
    ensures r.Success? && Valid(s) ==> r.value.key !in s.rows
  {
    if p.id.Some? && p.id.value in s.rows then Failure(KeyExists(p.id.value))
    else Success(Put(s, p))
  }

  /** `table.delete(k)`: removes the row if there is one; an absent key is not an error. */
  function Delete(s: Store, k: nat): (r: Store)
    ensures k !in r.rows
    ensures forall j :: j != k ==> (j in r.rows <==> j in s.rows)
    ensures forall j :: j != k && j in s.rows ==> r.rows[j] == s.rows[j]
    ensures k !in s.rows ==> r == s
    ensures k in s.rows ==> Count(r) == Count(s) - 1
    ensures Valid(s) ==> Valid(r)
  {
    if k in s.rows then
      var r := Store(s.rows - {k}, s.nextId);
      assert r.rows.Keys == s.rows.Keys - {k};
      r
    else s
  }

  /** `table.bulkPut(ps)`: the records put one after another, in order. */
  function BulkPut(s: Store, ps: seq<Product>): Store
    decreases |ps|
  {
    if |ps| == 0 then s else BulkPut(Put(s, ps[0]).store, ps[1..])
  }

  /** The batch records have no id yet. */
  ghost predicate Unkeyed(ps: seq<Product>)
  {
    forall i :: 0 <= i < |ps| ==> ps[i].id.None?
  }

  /** Putting a batch of id-less records advances the generator by its size and adds that many rows. */
  lemma {:induction false} BulkPutCount(s: Store, ps: seq<Product>)
    requires Valid(s) && Unkeyed(ps)
    ensures Valid(BulkPut(s, ps))
    ensures BulkPut(s, ps).nextId == s.nextId + |ps|
    ensures Count(BulkPut(s, ps)) == Count(s) + |ps|
    decreases |ps|
  {
    if |ps| > 0 {
      BulkPutCount(Put(s, ps[0]).store, ps[1..]);
    }
  }

  /** Putting a batch of id-less records keeps every existing row. */
  lemma {:induction false} BulkPutKeepsRows(s: Store, ps: seq<Product>)
    requires Valid(s) && Unkeyed(ps)
    ensures forall k :: k in s.rows ==> k in BulkPut(s, ps).rows && BulkPut(s, ps).rows[k] == s.rows[k]
    decreases |ps|
  {
    if |ps| > 0 {
      BulkPutKeepsRows(Put(s, ps[0]).store, ps[1..]);
    }
  }

  /** Putting a batch of id-less records adds no key below the generator's old value. */
  lemma {:induction false} BulkPutOnlyFresh(s: Store, ps: seq<Product>)
    requires Valid(s) && Unkeyed(ps)
    ensures forall k :: k in BulkPut(s, ps).rows ==> k in s.rows || s.nextId <= k
    decreases |ps|
  {
    if |ps| > 0 {
      BulkPutOnlyFresh(Put(s, ps[0]).store, ps[1..]);
    }
  }

  /** Putting a batch of id-less records stores the i-th one under key `nextId + i`. */
  lemma {:induction false} BulkPutRowAt(s: Store, ps: seq<Product>, i: nat)
    requires Valid(s) && Unkeyed(ps) && i < |ps|
    ensures s.nextId + i in BulkPut(s, ps).rows
    ensures BulkPut(s, ps).rows[s.nextId + i] == ps[i].(id := Some(s.nextId + i))
    decreases i
  {
    var s1 := Put(s, ps[0]).store;
    assert Valid(s1) && s1.nextId == s.nextId + 1 && Unkeyed(ps[1..]) by {
      assert forall j :: 0 <= j < |ps[1..]| ==> ps[1..][j] == ps[j + 1];
    }
    assert BulkPut(s, ps) == BulkPut(s1, ps[1..]);
    if i == 0 {
      assert s.nextId in s1.rows && s1.rows[s.nextId] == ps[0].(id := Some(s.nextId));
      BulkPutKeepsRows(s1, ps[1..]);
    } else {
      BulkPutRowAt(s1, ps[1..], i - 1);
      assert ps[1..][i - 1] == ps[i];
    }
  }

  /** The rows with a key below `n`, highest key first. */
  function Desc(rows: map<nat, Product>, n: nat): seq<Product>
    decreases n
  {
    if n == 0 then [] else (if n - 1 in rows then [rows[n - 1]] else []) + Desc(rows, n - 1)
  }

  /** `table.orderBy('id').reverse().toArray()`: every row, newest id first. */
  function ListDescending(s: Store): seq<Product>
  {
    Desc(s.rows, s.nextId)
  }

  /** Every row is stored under its own id. */
  ghost predicate Keyed(rows: map<nat, Product>)
  {
    forall k :: k in rows ==> rows[k].id == Some(k)
  }

  /** Strictly descending by id. */
  ghost predicate Descending(ps: seq<Product>)
  {
    forall i, j :: 0 <= i < j < |ps| ==> Key(ps[j]) < Key(ps[i])
  }

  function KeysBelow(rows: map<nat, Product>, n: nat): set<nat>
  {
    set k | k in rows && k < n
  }

  /** Every record listed below `n` is the row stored under its id, which is below `n`. */
  lemma {:induction false} DescRows(rows: map<nat, Product>, n: nat)
    requires Keyed(rows)
    ensures forall p :: p in Desc(rows, n) ==>
      p.id.Some? && p.id.value < n && p.id.value in rows && rows[p.id.value] == p
    decreases n
  {
    if n > 0 {
      DescRows(rows, n - 1);
    }
  }

  /** Every row below `n` is listed. */
  lemma {:induction false} DescComplete(rows: map<nat, Product>, n: nat)
    ensures forall k :: k in rows && k < n ==> rows[k] in Desc(rows, n)
    decreases n
  {
    if n > 0 {
      DescComplete(rows, n - 1);
    }
  }

  /** Prepending a record with a larger id keeps a list strictly descending. */
  lemma DescendingCons(h: Product, t: seq<Product>)
    requires Descending(t)
    requires forall p :: p in t ==> Key(p) < Key(h)
    ensures Descending([h] + t)
  {
    var d := [h] + t;
    forall i, j | 0 <= i < j < |d|
      ensures Key(d[j]) < Key(d[i])
    {
      assert d[j] == t[j - 1];
      if i > 0 {
        assert d[i] == t[i - 1];
      } else {
        assert d[j] in t;
      }
    }
  }

  /** The listing is strictly descending by id. */
  lemma {:induction false} DescOrdered(rows: map<nat, Product>, n: nat)
    requires Keyed(rows)
    ensures Descending(Desc(rows, n))
    decreases n
  {
    if n > 0 {
      DescOrdered(rows, n - 1);
      if n - 1 in rows {
        DescRows(rows, n - 1);
        DescendingCons(rows[n - 1], Desc(rows, n - 1));
      }
    }
  }

  /** The listing below `n` has one entry per key below `n`. */
  lemma {:induction false} DescLength(rows: map<nat, Product>, n: nat)
    ensures |Desc(rows, n)| == |KeysBelow(rows, n)|
    decreases n
  {
    if n > 0 {
      DescLength(rows, n - 1);
      if n - 1 in rows {
        assert KeysBelow(rows, n) == KeysBelow(rows, n - 1) + {n - 1};
      } else {
        assert KeysBelow(rows, n) == KeysBelow(rows, n - 1);
      }
    }
  }

  /** The listing of a valid store is every row exactly once, newest id first. */
  lemma ListingSpec(s: Store)
    requires Valid(s)
    ensures forall p :: p in ListDescending(s) ==>
      p.id.Some? && p.id.value in s.rows && s.rows[p.id.value] == p
    ensures forall k :: k in s.rows ==> s.rows[k] in ListDescending(s)
    ensures Descending(ListDescending(s))
    ensures |ListDescending(s)| == Count(s)
  {
    DescRows(s.rows, s.nextId);
    DescComplete(s.rows, s.nextId);
    DescOrdered(s.rows, s.nextId);
    DescLength(s.rows, s.nextId);
    assert KeysBelow(s.rows, s.nextId) == s.rows.Keys;
  }

  /** Two tables that agree below `n` list the same rows below `n`. */
  lemma {:induction false} DescAgree(r1: map<nat, Product>, r2: map<nat, Product>, n: nat)
    requires forall k :: k < n ==> (k in r1 <==> k in r2)
    requires forall k :: k < n && k in r1 ==> r1[k] == r2[k]
    ensures Desc(r1, n) == Desc(r2, n)
    decreases n
  {
    if n > 0 {
      DescAgree(r1, r2, n - 1);
    }
  }

  /** Inserting an id-less record puts it at the head of the listing. */
  lemma ListingAfterInsert(s: Store, p: Product)
    requires Valid(s) && p.id.None?
    ensures ListDescending(Put(s, p).store) == [p.(id := Some(s.nextId))] + ListDescending(s)
  {
    var s' := Put(s, p).store;
    DescAgree(s'.rows, s.rows, s.nextId);
  }

  /** Deleting a key removes exactly the records with that id from the listing. */
  lemma {:induction false} DescAfterDelete(rows: map<nat, Product>, k: nat, n: nat)
    requires Keyed(rows)
    ensures Desc(rows - {k}, n) == RemoveById(Desc(rows, n), k)
    decreases n
  {
    if n > 0 {
      DescAfterDelete(rows, k, n - 1);
      var head := if n - 1 in rows then [rows[n - 1]] else [];
      Sequences.WhereAppend(head, Desc(rows, n - 1), (p: Product) => p.id != Some(k));
      assert Desc(rows, n) == head + Desc(rows, n - 1);
    }
  }

  lemma ListingAfterDelete(s: Store, k: nat)
    requires Valid(s)
    ensures ListDescending(Delete(s, k)) == RemoveById(ListDescending(s), k)
  {
    DescAfterDelete(s.rows, k, s.nextId);
    if k !in s.rows {
      assert s.rows - {k} == s.rows;
    }
  }

  /** Overwriting a stored row replaces it in place in the listing. */
  lemma {:induction false} DescAfterReplace(rows: map<nat, Product>, k: nat, p: Product, n: nat)
    requires Keyed(rows) && k in rows && p.id == Some(k)
    ensures Desc(rows[k := p], n) == ReplaceById(Desc(rows, n), Some(k), p)
    decreases n
  {
    if n > 0 {
      DescAfterReplace(rows, k, p, n - 1);
      var head := if n - 1 in rows then [rows[n - 1]] else [];
      ReplaceByIdAppend(head, Desc(rows, n - 1), Some(k), p);
      assert Desc(rows, n) == head + Desc(rows, n - 1);
    }
  }

  lemma ListingAfterReplace(s: Store, p: Product)
    requires Valid(s) && p.id.Some? && p.id.value in s.rows
    ensures ListDescending(Put(s, p).store) == ReplaceById(ListDescending(s), p.id, p)
  {
    var k := p.id.value;
    assert p.(id := Some(k)) == p;
    assert Put(s, p).store == Store(s.rows[k := p], s.nextId);
    DescAfterReplace(s.rows, k, p, s.nextId);
  }
}
