/** Orderings of strip indices: distinctness, permutations of {0, ..., n-1}
    and the counting facts that tie them together. */
module Orderings {

  /** No index occurs twice. */
  ghost predicate Distinct(s: seq<nat>) {
    forall i, j :: 0 <= i < j < |s| ==> s[i] != s[j]
  }

  /** Every later element is larger than every earlier one. */
  ghost predicate StrictlyAscending(s: seq<nat>) {
    forall i, j :: 0 <= i < j < |s| ==> s[i] < s[j]
  }

  /** `s` lists each of 0, ..., n-1 exactly once. */
  ghost predicate IsPermutation(s: seq<nat>, n: nat) {
    && |s| == n
    && (forall k :: 0 <= k < |s| ==> s[k] < n)
    && Distinct(s)
  }

  /** The set of indices a sequence mentions. */
  function Elems(s: seq<nat>): set<nat> {
    set x | x in s
  }

  /** The input order 0, 1, ..., n-1. */
  function Identity(n: nat): seq<nat> {
    seq(n, (i: int) requires 0 <= i < n => i as nat)
  }

  /** Rearranges `items` so that position k holds `items[order[k]]`. */
  function Permute<T>(items: seq<T>, order: seq<nat>): (r: seq<T>)
    requires forall k :: 0 <= k < |order| ==> order[k] < |items|
    ensures |r| == |order|
    ensures forall k :: 0 <= k < |order| ==> r[k] == items[order[k]]
  {
    seq(|order|, (k: int) requires 0 <= k < |order| => items[order[k]])
  }

  lemma IdentityIsPermutation(n: nat)
    ensures IsPermutation(Identity(n), n)
    ensures forall k :: 0 <= k < n ==> Identity(n)[k] == k
  {
  }

  /** A distinct sequence has exactly as many elements as its element set. */
  lemma {:induction false} DistinctCard(s: seq<nat>)
    requires Distinct(s)
    ensures |Elems(s)| == |s|
  {
    if |s| > 0 {
      var t := s[..|s| - 1];
      assert Distinct(t);
      DistinctCard(t);
      assert s == t + [s[|s| - 1]];
      assert Elems(s) == Elems(t) + {s[|s| - 1]};
      assert s[|s| - 1] !in Elems(t);
    }
  }

  /** Pigeonhole in the form the assembler needs: a distinct sequence of
      indices below n that mentions every one of them has length n. */
  lemma CoveringIsPermutation(s: seq<nat>, n: nat)
    requires Distinct(s)
    requires forall k :: 0 <= k < |s| ==> s[k] < n
    requires forall x: nat :: x < n ==> x in s
    ensures IsPermutation(s, n)
  {
    DistinctCard(s);
    IdentityIsPermutation(n);
    DistinctCard(Identity(n));
    forall x | x in Elems(s)
      ensures x in Elems(Identity(n))
    {
      var k :| 0 <= k < |s| && s[k] == x;
      assert Identity(n)[x] == x;
    }
    forall x | x in Elems(Identity(n))
      ensures x in Elems(s)
    {
      var k :| 0 <= k < n && Identity(n)[k] == x;
    }
    assert Elems(s) == Elems(Identity(n));
  }
  /** A set inside another set has no more elements. */
  lemma SubsetCard(a: set<nat>, b: set<nat>)
    requires a <= b
    ensures |a| <= |b|
  {
    assert b == a + (b - a);
    assert a * (b - a) == {};
  }

  /** A permutation of 0, ..., n-1 mentions every one of them. */
  lemma PermutationCovers(s: seq<nat>, n: nat)
    requires IsPermutation(s, n)
    ensures forall x: nat :: x < n ==> x in s
  {
    forall x: nat | x < n
      ensures x in s
    {
      if x !in s {
        IdentityIsPermutation(n);
        DistinctCard(s);
        DistinctCard(Identity(n));
        assert x in Elems(Identity(n)) by {
          assert Identity(n)[x] == x;
        }
        forall y | y in Elems(s)
          ensures y in Elems(Identity(n)) - {x}
        {
          assert Identity(n)[y] == y;
        }
        SubsetCard(Elems(s), Elems(Identity(n)) - {x});
      }
    }
  }

  /** Two permutations of 0, ..., n-1 with a common prefix hold the same
      indices after it. */
  lemma PermutationSuffix(o1: seq<nat>, o2: seq<nat>, n: nat, k: nat)
    requires IsPermutation(o1, n) && IsPermutation(o2, n)
    requires k <= n && o1[..k] == o2[..k]
    ensures Elems(o1[k..]) == Elems(o2[k..])
  {
    PermutationCovers(o1, n);
    PermutationCovers(o2, n);
    forall x | x in Elems(o1[k..])
      ensures x in Elems(o2[k..])
    {
      SuffixElement(o1, o2, n, k, x);
    }
    forall x | x in Elems(o2[k..])
      ensures x in Elems(o1[k..])
    {
      SuffixElement(o2, o1, n, k, x);
    }
  }

  lemma SuffixElement(o1: seq<nat>, o2: seq<nat>, n: nat, k: nat, x: nat)
    requires IsPermutation(o1, n) && IsPermutation(o2, n)
    requires forall y: nat :: y < n ==> y in o2
    requires k <= n && o1[..k] == o2[..k]
    requires x in o1[k..]
    ensures x in o2[k..]
  {
    var i :| k <= i < n && o1[i] == x;
    assert x < n && x in o2;
    var j :| 0 <= j < n && o2[j] == x;
    assert o2[k..][j - k] == x;
  }

  /** A strictly ascending sequence is determined by its elements. */
  lemma {:induction false} AscendingUnique(a: seq<nat>, b: seq<nat>)
    requires StrictlyAscending(a) && StrictlyAscending(b) && Elems(a) == Elems(b)
    ensures a == b
  {
    if |a| > 0 {
      assert a[0] in Elems(a);
    }
    if |b| > 0 {
      assert b[0] in Elems(b);
    }
    if |a| > 0 && |b| > 0 {
      assert a[0] in Elems(b);
      assert b[0] in Elems(a);
      assert a[0] == b[0];
      var ta, tb := a[1..], b[1..];
      forall x | x in Elems(ta)
        ensures x in Elems(tb)
      {
        assert x in Elems(b) && x != b[0];
      }
      forall x | x in Elems(tb)
        ensures x in Elems(ta)
      {
        assert x in Elems(a) && x != a[0];
      }
      AscendingUnique(ta, tb);
      assert a == [a[0]] + ta && b == [b[0]] + tb;
    }
  }
}
