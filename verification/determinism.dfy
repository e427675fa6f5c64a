/** The greedy rule leaves no choice: for a given matrix at most one chain
    of each length is greedy, and at most one order meets `GreedyOrder`.
    So the contract of `ReconstructOrder` pins down the order that
    algo.py `reconstruct_strips` returns. */
module Determinism {
  import opened Orderings
  import opened CostMatrix
  import opened Search
  import opened Assembly

  /** In one round the outcomes exclude each other: a left pick, a right
      pick and being stuck never hold together. */
  lemma RoundOutcomesExclusive(m: Matrix, c: seq<nat>, x: nat, y: nat)
    requires IsSquare(m)
    ensures !(LeftChosen(m, c, x) && RightChosen(m, c, y))
    ensures LeftChosen(m, c, x) ==> !Stuck(m, c)
    ensures RightChosen(m, c, y) ==> !Stuck(m, c)
  {
    if LeftChosen(m, c, x) {
      assert Candidate(Column(m, c[0]), Elems(c), x);
    }
    if RightChosen(m, c, y) {
      assert Candidate(m[c[|c| - 1]], Elems(c), y);
    }
  }

  /** The pick at each end is unique. */
  lemma StepUnique(m: Matrix, c: seq<nat>, a: nat, b: nat)
    requires IsSquare(m)
    ensures LeftChosen(m, c, a) && LeftChosen(m, c, b) ==> a == b
    ensures RightChosen(m, c, a) && RightChosen(m, c, b) ==> a == b
  {
    if LeftChosen(m, c, a) && LeftChosen(m, c, b) {
      FirstMinUnique(Column(m, c[0]), Elems(c), a, b);
    }
    if RightChosen(m, c, a) && RightChosen(m, c, b) {
      FirstMinUnique(m[c[|c| - 1]], Elems(c), a, b);
    }
  }

  /** A greedy chain longer than the seed is a shorter greedy chain plus the
      strip one round picked, at the end that round chose. */
  lemma GrownParent(m: Matrix, c: seq<nat>) returns (p: seq<nat>, x: nat, atLeft: bool)
    requires IsSquare(m) && Grown(m, c) && |c| > 2
    ensures Grown(m, p) && |p| == |c| - 1
    ensures atLeft ==> c == [x] + p && LeftChosen(m, p, x)
    ensures !atLeft ==> c == p + [x] && RightChosen(m, p, x)
  {
    atLeft := LeftChosen(m, c[1..], c[0]) && Grown(m, c[1..]);
    if atLeft {
      p, x := c[1..], c[0];
    } else {
      p, x := c[..|c| - 1], c[|c| - 1];
    }
  }

  /** Two greedy chains of the same length are the same chain. */
  lemma {:induction false} GrownUnique(m: Matrix, c1: seq<nat>, c2: seq<nat>)
    requires IsSquare(m) && Grown(m, c1) && Grown(m, c2) && |c1| == |c2|
    ensures c1 == c2
    decreases |c1|
  {
    if |c1| == 2 {
      MinPairUnique(m, c1[0], c1[1], c2[0], c2[1]);
    } else {
      var p1, x1, atLeft1 := GrownParent(m, c1);
      var p2, x2, atLeft2 := GrownParent(m, c2);
      GrownUnique(m, p1, p2);
      RoundOutcomesExclusive(m, p1, x1, x2);
      RoundOutcomesExclusive(m, p1, x2, x1);
      StepUnique(m, p1, x1, x2);
    }
  }

  /** Every greedy chain grew through a greedy chain of each shorter length
      of at least two, and none of those was stuck. */
  lemma {:induction false} GrownAncestor(m: Matrix, c: seq<nat>, j: nat) returns (p: seq<nat>)
    requires IsSquare(m) && Grown(m, c) && 2 <= j < |c|
    ensures Grown(m, p) && |p| == j && !Stuck(m, p)
    decreases |c|
  {
    var q, x, atLeft := GrownParent(m, c);
    RoundOutcomesExclusive(m, q, x, x);
    if j == |q| {
      p := q;
    } else {
      p := GrownAncestor(m, q, j);
    }
  }

  /** A stuck greedy chain is as long as any greedy chain gets. */
  lemma StuckChainIsLongest(m: Matrix, c: seq<nat>, d: seq<nat>)
    requires IsSquare(m) && Grown(m, c) && Stuck(m, c) && Grown(m, d)
    ensures |d| <= |c|
  {
    if |c| < |d| {
      var p := GrownAncestor(m, d, |c|);
      GrownUnique(m, p, c);
    }
  }

  /** Two greedy orders end their chains at the same position. */
  lemma ChainLengthsAgree(m: Matrix, o1: seq<nat>, o2: seq<nat>, k1: nat, k2: nat)
    requires IsSquare(m) && |o1| == |m| && |o2| == |m|
    requires ChainThenRest(m, o1, k1) && ChainThenRest(m, o2, k2)
    ensures k1 == k2
  {
    if k1 < k2 {
      StuckChainIsLongest(m, o1[..k1], o2[..k2]);
    } else if k2 < k1 {
      StuckChainIsLongest(m, o2[..k2], o1[..k1]);
    }
  }

  /** Two greedy orders whose chains have the same length are equal: the
      chains agree, and so do the ascending remainders. */
  lemma SameChainSameOrder(m: Matrix, o1: seq<nat>, o2: seq<nat>, k: nat)
    requires IsSquare(m) && IsPermutation(o1, |m|) && IsPermutation(o2, |m|)
    requires ChainThenRest(m, o1, k) && ChainThenRest(m, o2, k)
    ensures o1 == o2
  {
    GrownUnique(m, o1[..k], o2[..k]);
    PermutationSuffix(o1, o2, |m|, k);
    AscendingUnique(o1[k..], o2[k..]);
    assert o1 == o1[..k] + o1[k..] && o2 == o2[..k] + o2[k..];
  }

  /** Only one order meets `GreedyOrder`: the one `reconstruct_strips`
      returns. */
  lemma GreedyOrderUnique(m: Matrix, o1: seq<nat>, o2: seq<nat>)
    requires IsSquare(m) && GreedyOrder(m, o1) && GreedyOrder(m, o2)
    ensures o1 == o2
  {
    if !NoSeed(m) {
      var k1: nat :| ChainThenRest(m, o1, k1);
      var k2: nat :| ChainThenRest(m, o2, k2);
      ChainLengthsAgree(m, o1, o2, k1, k2);
      SameChainSameOrder(m, o1, o2, k1);
    }
  }
}
