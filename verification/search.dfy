/**
 * The search predicate of the view: a record matches a query when its
 * lower-cased name includes the lower-cased query, or when the text of its
 * price or of its quantity includes the query as typed.
 */
module Search {
  import opened Text
  import opened Products
  import Sequences

  predicate Matches(p: Product, query: string)
  {
    || Includes(Lower(p.name), Lower(query))
    || Includes(p.price, query)
    || Includes(IntToText(p.quantity), query)
  }

  /** `products.filter((product) => Matches(product, query))`. */
  function Filter(ps: seq<Product>, query: string): seq<Product>
  {
    Sequences.Where(ps, (p: Product) => Matches(p, query))
  }

  /** Matching in terms of occurrences at an index, independent of `Includes`. */
  lemma MatchesIffOccurs(p: Product, query: string)
    ensures Matches(p, query) <==>
      || (exists i :: OccursAt(Lower(p.name), Lower(query), i))
      || (exists i :: OccursAt(p.price, query, i))
      || (exists i :: OccursAt(IntToText(p.quantity), query, i))
  {
    IncludesIffOccurs(Lower(p.name), Lower(query));
    IncludesIffOccurs(p.price, query);
    IncludesIffOccurs(IntToText(p.quantity), query);
  }

  /**
   * The filtered list is the order-preserving subsequence of the matching
   * records: a record is in it exactly when it is in the list and matches.
   */
  lemma FilterSpec(ps: seq<Product>, query: string)
    ensures Sequences.IsSubsequence(Filter(ps, query), ps)
    ensures forall p :: p in Filter(ps, query) ==> p in ps && Matches(p, query)
    ensures forall p :: p in ps && Matches(p, query) ==> p in Filter(ps, query)
    ensures |Filter(ps, query)| <= |ps|
    ensures forall p :: multiset(Filter(ps, query))[p] == if Matches(p, query) then multiset(ps)[p] else 0
  {
    Sequences.WhereCounts(ps, (p: Product) => Matches(p, query));
    Sequences.WhereIsSubsequence(ps, (p: Product) => Matches(p, query));
    Sequences.WhereMembers(ps, (p: Product) => Matches(p, query));
  }

  /** Filtering distributes over concatenation. */
  lemma FilterAppend(a: seq<Product>, b: seq<Product>, query: string)
    ensures Filter(a + b, query) == Filter(a, query) + Filter(b, query)
  {
    Sequences.WhereAppend(a, b, (p: Product) => Matches(p, query));
  }

  /** Filtering is idempotent. */
  lemma FilterIdempotent(ps: seq<Product>, query: string)
    ensures Filter(Filter(ps, query), query) == Filter(ps, query)
  {
    Sequences.WhereIdempotent(ps, (p: Product) => Matches(p, query));
  }

  /** The empty query matches every record, so filtering by it keeps the whole list. */
  lemma EmptyQueryKeepsAll(ps: seq<Product>)
    ensures Filter(ps, "") == ps
  {
    forall i | 0 <= i < |ps|
      ensures Matches(ps[i], "")
    {
      IncludesTrivial(Lower(ps[i].name));
      assert Lower("") == "";
    }
    Sequences.WhereUnchangedIff(ps, (p: Product) => Matches(p, ""));
  }

  /**
   * A record is found by its own name in any letter case, by the text of
   * its price, and by the text of its quantity.
   */
  lemma RecordFoundByOwnFields(ps: seq<Product>, p: Product, name: string)
    requires p in ps
    requires Lower(name) == Lower(p.name)
    ensures p in Filter(ps, name)
    ensures p in Filter(ps, p.price)
    ensures p in Filter(ps, IntToText(p.quantity))
  {
    IncludesTrivial(Lower(p.name));
    IncludesTrivial(p.price);
    IncludesTrivial(IntToText(p.quantity));
    FilterSpec(ps, name);
    FilterSpec(ps, p.price);
    FilterSpec(ps, IntToText(p.quantity));
  }
}
