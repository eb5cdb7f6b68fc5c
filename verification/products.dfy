/**
 * The product record of the `products` table (schema `++id, name, price,
 * quantity`) and the two id-keyed list edits the view performs on it.
 */
module Products {
  import opened Wrappers
  import Sequences

  /**
   * A product. `id` is absent on a record that has not been stored yet (the
   * form payload and the seeder's batch carry none). `price` is opaque: the
   * model keeps only the text `price.toString()` yields for it.
   */
  datatype Product = Product(id: Option<nat>, name: string, price: string, quantity: int)

  /** The id as a number for ordering; records without one sort below every id. */
  function Key(p: Product): int
  {
    if p.id.Some? then p.id.value else -1
  }

  /** `ps.filter((product) => product.id !== id)`. */
  function RemoveById(ps: seq<Product>, id: nat): seq<Product>
  {
    Sequences.Where(ps, (p: Product) => p.id != Some(id))
  }

  /** Removal keeps exactly the records with a different id, in their order. */
  lemma RemoveByIdSpec(ps: seq<Product>, id: nat)
    ensures forall p :: p in RemoveById(ps, id) <==> p in ps && p.id != Some(id)
    ensures Sequences.IsSubsequence(RemoveById(ps, id), ps)
    ensures (forall i :: 0 <= i < |ps| ==> ps[i].id != Some(id)) <==> RemoveById(ps, id) == ps
    ensures forall p :: multiset(RemoveById(ps, id))[p] == if p.id == Some(id) then 0 else multiset(ps)[p]
  {
    Sequences.WhereCounts(ps, (p: Product) => p.id != Some(id));
    Sequences.WhereMembers(ps, (p: Product) => p.id != Some(id));
    Sequences.WhereIsSubsequence(ps, (p: Product) => p.id != Some(id));
    Sequences.WhereUnchangedIff(ps, (p: Product) => p.id != Some(id));
  }

  /** `ps.map((p) => (p.id === id ? edited : p))`. */
  function ReplaceById(ps: seq<Product>, id: Option<nat>, edited: Product): (r: seq<Product>)
    ensures |r| == |ps|
    ensures forall i :: 0 <= i < |ps| ==> r[i] == (if ps[i].id == id then edited else ps[i])
    decreases |ps|
  {
    if |ps| == 0 then []
    else [if ps[0].id == id then edited else ps[0]] + ReplaceById(ps[1..], id, edited)
  }

  lemma ReplaceByIdAppend(a: seq<Product>, b: seq<Product>, id: Option<nat>, edited: Product)
    ensures ReplaceById(a + b, id, edited) == ReplaceById(a, id, edited) + ReplaceById(b, id, edited)
  {
    var l := ReplaceById(a + b, id, edited);
    var r := ReplaceById(a, id, edited) + ReplaceById(b, id, edited);
    assert forall i :: 0 <= i < |l| ==> l[i] == r[i];
  }

  /** Replacing in both lists keeps a subsequence a subsequence. */
  lemma {:induction false} ReplacePreservesSubsequence(a: seq<Product>, b: seq<Product>, id: Option<nat>, edited: Product)
    requires Sequences.IsSubsequence(a, b)
    ensures Sequences.IsSubsequence(ReplaceById(a, id, edited), ReplaceById(b, id, edited))
    decreases |b|
  {
    var ra, rb := ReplaceById(a, id, edited), ReplaceById(b, id, edited);
    if |a| > 0 {
      assert rb[1..] == ReplaceById(b[1..], id, edited);
      if a[0] == b[0] && Sequences.IsSubsequence(a[1..], b[1..]) {
        ReplacePreservesSubsequence(a[1..], b[1..], id, edited);
        assert ra[1..] == ReplaceById(a[1..], id, edited);
      } else {
        ReplacePreservesSubsequence(a, b[1..], id, edited);
      }
    }
  }
}
