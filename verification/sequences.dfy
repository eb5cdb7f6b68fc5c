/**
 * `Array.prototype.filter` and the subsequence relation it produces, stated
 * once for any element type.
 */
module Sequences {

  /** `s.filter(keep)`: the elements `keep` accepts, in their original order. */
  function Where<T>(s: seq<T>, keep: T -> bool): (r: seq<T>)
    ensures |r| <= |s|
    decreases |s|
  {
    if |s| == 0 then [] else (if keep(s[0]) then [s[0]] else []) + Where(s[1..], keep)
  }

  /**
   * `a` can be obtained from `b` by deleting elements: either `a`'s first
   * element is `b`'s first, or `b`'s first is deleted.
   */
  ghost predicate IsSubsequence<T>(a: seq<T>, b: seq<T>)
    decreases |b|
  {
    |a| == 0
    || (|b| > 0
        && ((a[0] == b[0] && IsSubsequence(a[1..], b[1..])) || IsSubsequence(a, b[1..])))
  }

  lemma {:induction false} SubsequenceReflexive<T>(s: seq<T>)
    ensures IsSubsequence(s, s)
    decreases |s|
  {
    if |s| > 0 {
      SubsequenceReflexive(s[1..]);
    }
  }

  /** Every element of a subsequence is an element of the whole. */
  lemma {:induction false} SubsequenceMembers<T>(a: seq<T>, b: seq<T>)
    requires IsSubsequence(a, b)
    ensures forall x :: x in a ==> x in b
    decreases |b|
  {
    if |a| > 0 {
      if a[0] == b[0] && IsSubsequence(a[1..], b[1..]) {
        SubsequenceMembers(a[1..], b[1..]);
        assert forall x :: x in a ==> x == a[0] || x in a[1..];
      } else {
        SubsequenceMembers(a, b[1..]);
      }
    }
  }

  /** The filtered list is a subsequence of the list it was filtered from. */
  lemma {:induction false} WhereIsSubsequence<T>(s: seq<T>, keep: T -> bool)
    ensures IsSubsequence(Where(s, keep), s)
    decreases |s|
  {
    if |s| > 0 {
      WhereIsSubsequence(s[1..], keep);
      var r := Where(s, keep);
      if keep(s[0]) {
        assert r[0] == s[0] && r[1..] == Where(s[1..], keep);
      } else {
        assert r == Where(s[1..], keep);
      }
    }
  }

  /** An element survives the filter exactly when it was there and is accepted. */
  lemma {:induction false} WhereMembers<T>(s: seq<T>, keep: T -> bool)
    ensures forall x :: x in Where(s, keep) ==> x in s && keep(x)
    ensures forall x :: x in s && keep(x) ==> x in Where(s, keep)
    decreases |s|
  {
    if |s| > 0 {
      WhereMembers(s[1..], keep);
      assert forall x :: x in s <==> x == s[0] || x in s[1..];
    }
  }

  /** Filtering distributes over concatenation: the order of survivors is kept. */
  lemma {:induction false} WhereAppend<T>(a: seq<T>, b: seq<T>, keep: T -> bool)
    ensures Where(a + b, keep) == Where(a, keep) + Where(b, keep)
    decreases |a|
  {
    if |a| == 0 {
      assert a + b == b;
    } else {
      WhereAppend(a[1..], b, keep);
      assert (a + b)[1..] == a[1..] + b;
    }
  }

  /** Filtering leaves a list unchanged exactly when every element is accepted. */
  lemma {:induction false} WhereUnchangedIff<T>(s: seq<T>, keep: T -> bool)
    ensures Where(s, keep) == s <==> forall i :: 0 <= i < |s| ==> keep(s[i])
    decreases |s|
  {
    if |s| > 0 {
      WhereUnchangedIff(s[1..], keep);
      if !keep(s[0]) {
        assert |Where(s, keep)| < |s|;
      } else if Where(s, keep) == s {
        assert Where(s[1..], keep) == s[1..];
      }
      assert forall i :: 1 <= i < |s| ==> s[i] == s[1..][i - 1];
    }
  }

  /**
   * The filter keeps every occurrence of an accepted element and none of a
   * rejected one, so duplicates are neither merged nor invented.
   */
  lemma {:induction false} WhereCounts<T>(s: seq<T>, keep: T -> bool)
    ensures forall x :: multiset(Where(s, keep))[x] == if keep(x) then multiset(s)[x] else 0
    decreases |s|
  {
    if |s| > 0 {
      WhereCounts(s[1..], keep);
      assert s == [s[0]] + s[1..];
    }
  }

  /** Filtering twice with the same predicate is filtering once. */
  lemma WhereIdempotent<T>(s: seq<T>, keep: T -> bool)
    ensures Where(Where(s, keep), keep) == Where(s, keep)
  {
    var r := Where(s, keep);
    WhereMembers(s, keep);
    assert forall i :: 0 <= i < |r| ==> r[i] in r;
    WhereUnchangedIff(r, keep);
  }

  /** Filtering both sides with one predicate keeps the subsequence relation. */
  lemma {:induction false} WherePreservesSubsequence<T>(a: seq<T>, b: seq<T>, keep: T -> bool)
    requires IsSubsequence(a, b)
    ensures IsSubsequence(Where(a, keep), Where(b, keep))
    decreases |b|
  {
    if |a| == 0 {
    } else if a[0] == b[0] && IsSubsequence(a[1..], b[1..]) {
      WherePreservesSubsequence(a[1..], b[1..], keep);
      if keep(a[0]) {
        var wa := Where(a, keep);
        var wb := Where(b, keep);
        assert wa[0] == wb[0] && wa[1..] == Where(a[1..], keep) && wb[1..] == Where(b[1..], keep);
      } else {
        assert Where(a, keep) == Where(a[1..], keep) && Where(b, keep) == Where(b[1..], keep);
      }
    } else {
      WherePreservesSubsequence(a, b[1..], keep);
      if keep(b[0]) {
        var wb := Where(b, keep);
        assert wb[1..] == Where(b[1..], keep);
      } else {
        assert Where(b, keep) == Where(b[1..], keep);
      }
    }
  }
}
