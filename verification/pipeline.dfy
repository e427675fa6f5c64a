/** How the builders and the assembler fit together. The assembler never
    looks at a diagonal cell: the seed is off-diagonal by construction and
    both chain ends are already used when a round scans for candidates. So
    algo.py's matrix (diagonal 0) and tsp.py's matrix (diagonal = self-score)
    lead to the same greedy order. */
module Pipeline {
  import opened Orderings
  import opened Strips
  import opened CostMatrix
  import opened Search
  import opened Assembly
  import opened Determinism

  lemma SeedAgrees(m1: Matrix, m2: Matrix)
    requires AgreeOffDiagonal(m1, m2)
    ensures forall i: nat, j: nat :: ValidPair(m1, i, j) <==> ValidPair(m2, i, j)
    ensures NoSeed(m1) <==> NoSeed(m2)
    ensures forall i: nat, j: nat :: IsMinPair(m1, i, j) <==> IsMinPair(m2, i, j)
  {
    assert forall i: nat, j: nat :: ValidPair(m1, i, j) ==> m1[i][j] == m2[i][j];
  }

  /** Two cost vectors that agree on every unused index offer the same
      candidates and the same best one. */
  lemma VectorsAgree(v1: seq<int>, v2: seq<int>, used: set<nat>)
    requires |v1| == |v2|
    requires forall k: nat :: k < |v1| && k !in used ==> v1[k] == v2[k]
    ensures forall k: nat :: Candidate(v1, used, k) <==> Candidate(v2, used, k)
    ensures forall k: nat :: IsFirstMin(v1, used, k) <==> IsFirstMin(v2, used, k)
    ensures NoCandidate(v1, used) <==> NoCandidate(v2, used)
  {
  }

  /** The scans at both ends of a chain see the same candidates in two
      matrices that differ only on the diagonal, since both ends are used. */
  lemma EndsAgree(m1: Matrix, m2: Matrix, used: set<nat>, first: nat, last: nat)
    requires AgreeOffDiagonal(m1, m2)
    requires first < |m1| && last < |m1| && first in used && last in used
    ensures forall k: nat :: Candidate(Column(m1, first), used, k) <==> Candidate(Column(m2, first), used, k)
    ensures forall k: nat :: Candidate(m1[last], used, k) <==> Candidate(m2[last], used, k)
    ensures forall k: nat :: IsFirstMin(Column(m1, first), used, k) <==> IsFirstMin(Column(m2, first), used, k)
    ensures forall k: nat :: IsFirstMin(m1[last], used, k) <==> IsFirstMin(m2[last], used, k)
    ensures NoCandidate(Column(m1, first), used) <==> NoCandidate(Column(m2, first), used)
    ensures NoCandidate(m1[last], used) <==> NoCandidate(m2[last], used)
    ensures forall k: nat :: Candidate(Column(m1, first), used, k) ==> m1[k][first] == m2[k][first]
    ensures forall k: nat :: Candidate(m1[last], used, k) ==> m1[last][k] == m2[last][k]
  {
    VectorsAgree(Column(m1, first), Column(m2, first), used);
    VectorsAgree(m1[last], m2[last], used);
  }

  lemma ChoicesAgree(m1: Matrix, m2: Matrix, c: seq<nat>, x: nat)
    requires AgreeOffDiagonal(m1, m2)
    ensures LeftChosen(m1, c, x) <==> LeftChosen(m2, c, x)
    ensures RightChosen(m1, c, x) <==> RightChosen(m2, c, x)
    ensures Stuck(m1, c) <==> Stuck(m2, c)
  {
    if |c| >= 1 && c[0] < |m1| && c[|c| - 1] < |m1| {
      EndsAgree(m1, m2, Elems(c), c[0], c[|c| - 1]);
    }
  }

  /** Whether a chain is a greedy chain does not depend on the diagonal. */
  lemma {:induction false} GrownAgrees(m1: Matrix, m2: Matrix, c: seq<nat>)
    requires AgreeOffDiagonal(m1, m2)
    ensures Grown(m1, c) <==> Grown(m2, c)
    decreases |c|
  {
    if |c| == 2 {
      SeedAgrees(m1, m2);
    } else if |c| > 2 {
      GrownAgrees(m1, m2, c[1..]);
      GrownAgrees(m1, m2, c[..|c| - 1]);
      ChoicesAgree(m1, m2, c[1..], c[0]);
      ChoicesAgree(m1, m2, c[..|c| - 1], c[|c| - 1]);
    }
  }

  /** The greedy order does not depend on the diagonal. */
  lemma GreedyOrderAgrees(m1: Matrix, m2: Matrix, order: seq<nat>)
    requires AgreeOffDiagonal(m1, m2)
    ensures GreedyOrder(m1, order) <==> GreedyOrder(m2, order)
  {
    SeedAgrees(m1, m2);
    forall k: nat | 2 <= k <= |order|
      ensures ChainThenRest(m1, order, k) <==> ChainThenRest(m2, order, k)
    {
      GrownAgrees(m1, m2, order[..k]);
      ChoicesAgree(m1, m2, order[..k], 0);
    }
  }

  /** Feeding algo.py's matrix or tsp.py's matrix for the same strips to
      the assembler gives the same order: each admits exactly the greedy
      orders of the other, and a greedy order is unique. */
  lemma BuildersGiveSameOrder(strips: seq<Strip>, edge: Matrix, full: Matrix, order: seq<nat>, other: seq<nat>)
    requires Comparable(strips)
    requires IsEdgeMatrix(strips, edge) && IsFullMatrix(strips, full)
    ensures GreedyOrder(edge, order) <==> GreedyOrder(full, order)
    ensures GreedyOrder(edge, order) && GreedyOrder(full, other) ==> order == other
  {
    BuildersAgreeOffDiagonal(strips, edge, full);
    GreedyOrderAgrees(edge, full, order);
    if GreedyOrder(edge, order) && GreedyOrder(full, other) {
      GreedyOrderUnique(full, order, other);
    }
  }

  /** When every right edge equals every left edge, all off-diagonal costs
      are 0; since a zero cost never counts as a match, there is no seed and
      the strips come back in input order. */
  lemma IdenticalEdgesKeepInputOrder(strips: seq<Strip>, m: Matrix)
    requires Comparable(strips) && IsEdgeMatrix(strips, m)
    requires forall i, j :: 0 <= i < |strips| && 0 <= j < |strips| ==> RightEdge(strips[i]) == LeftEdge(strips[j])
    ensures NoSeed(m)
    ensures forall order :: GreedyOrder(m, order) ==> order == Identity(|strips|)
  {
    forall i: nat, j: nat
      ensures !ValidPair(m, i, j)
    {
      if i < |m| && j < |m| && i != j {
        assert m[i][j] == Adjacency(strips, i, j) == 0;
      }
    }
  }

  /** A single strip comes back on its own. */
  lemma SingleStrip(m: Matrix)
    requires IsSquare(m) && |m| == 1
    ensures NoSeed(m)
    ensures forall order :: GreedyOrder(m, order) ==> order == [0]
  {
    assert Identity(1) == [0];
  }
}
