/** The all-pairs cost matrix: `m[i][j]` is the cost of placing strip j
    immediately to the right of strip i. Two builders exist: algo.py's,
    which leaves the diagonal at 0, and tsp.py's, which scores every cell,
    the diagonal included. Neither mirrors a cell into its transpose. */
module CostMatrix {
  import opened Strips
  import opened Cost

  type Matrix = seq<seq<int>>

  ghost predicate IsSquare(m: Matrix) {
    forall i :: 0 <= i < |m| ==> |m[i]| == |m|
  }

  /** Two square matrices of one size that differ at most on the diagonal. */
  ghost predicate AgreeOffDiagonal(m1: Matrix, m2: Matrix) {
    && |m1| == |m2| && IsSquare(m1) && IsSquare(m2)
    && forall i, j :: 0 <= i < |m1| && 0 <= j < |m1| && i != j ==> m1[i][j] == m2[i][j]
  }

  /** The cost of placing strip j immediately to the right of strip i. */
  function Adjacency(strips: seq<Strip>, i: nat, j: nat): (d: nat)
    requires Comparable(strips)
    requires i < |strips| && j < |strips|
    ensures d == 0 <==> RightEdge(strips[i]) == LeftEdge(strips[j])
  {
    AdjoinableEdges(strips[i], strips[j]);
    Score(RightEdge(strips[i]), LeftEdge(strips[j]))
  }

  /** What algo.py's builder produces for `strips`. */
  ghost predicate IsEdgeMatrix(strips: seq<Strip>, m: Matrix)
    requires Comparable(strips)
  {
    && |m| == |strips| && IsSquare(m)
    && (forall i, j :: 0 <= i < |m| && 0 <= j < |m| ==>
          m[i][j] == if i == j then 0 else Adjacency(strips, i, j))
  }

  /** What tsp.py's builder produces for `strips`. */
  ghost predicate IsFullMatrix(strips: seq<Strip>, m: Matrix)
    requires Comparable(strips)
  {
    && |m| == |strips| && IsSquare(m)
    && (forall i, j :: 0 <= i < |m| && 0 <= j < |m| ==> m[i][j] == StripSimilarity(strips[i], strips[j]))
  }

  /** Row i of algo.py's matrix: the inner loop of `create_similarity_matrix`. */
  method EdgeMatrixRow(strips: seq<Strip>, left: seq<Edge>, right: seq<Edge>, i: nat) returns (row: seq<int>)
    requires Comparable(strips) && i < |strips|
    requires |left| == |strips| && |right| == |strips|
    requires forall k :: 0 <= k < |strips| ==> left[k] == LeftEdge(strips[k]) && right[k] == RightEdge(strips[k])
    ensures |row| == |strips|
    ensures forall j :: 0 <= j < |strips| ==> row[j] == if i == j then 0 else Adjacency(strips, i, j)
  {
    var n := |strips|;
    row := [];
    var j := 0;
    while j < n
      invariant 0 <= j <= n
      invariant |row| == j
      invariant forall b :: 0 <= b < j ==> row[b] == if i == b then 0 else Adjacency(strips, i, b)
    {
      var score := 0;
      if i != j {
        AdjoinableEdges(strips[i], strips[j]);
        score := Score(right[i], left[j]);
      }
      row := row + [score];
      j := j + 1;
    }
  }

  /** algo.py `create_similarity_matrix`: edges are extracted once, then
      every off-diagonal cell is scored and the diagonal stays 0. */
  method BuildEdgeMatrix(strips: seq<Strip>) returns (m: Matrix)
    requires Comparable(strips)
    ensures |m| == |strips| && IsSquare(m)
    ensures forall i :: 0 <= i < |m| ==> m[i][i] == 0
    ensures forall i, j :: 0 <= i < |m| && 0 <= j < |m| && i != j ==>
      m[i][j] == Adjacency(strips, i, j)
    ensures forall i, j :: 0 <= i < |m| && 0 <= j < |m| && i != j ==>
      (m[i][j] == 0 <==> RightEdge(strips[i]) == LeftEdge(strips[j]))
    ensures forall i, j :: 0 <= i < |m| && 0 <= j < |m| ==> m[i][j] >= 0
  {
    var n := |strips|;
    var left, right := ExtractEdges(strips);
    forall k | 0 <= k < n
      ensures left[k] == LeftEdge(strips[k]) && right[k] == RightEdge(strips[k])
    {
    }
    m := [];
    var i := 0;
    while i < n
      invariant 0 <= i <= n
      invariant |m| == i
      invariant forall a :: 0 <= a < i ==> |m[a]| == n
      invariant forall a, b :: 0 <= a < i && 0 <= b < n ==>
        m[a][b] == if a == b then 0 else Adjacency(strips, a, b)
    {
      var row := EdgeMatrixRow(strips, left, right, i);
      m := m + [row];
      i := i + 1;
    }
  }

  /** Row i of tsp.py's matrix: the inner loop of `create_similarity_matrix`. */
  method FullMatrixRow(strips: seq<Strip>, i: nat) returns (row: seq<int>)
    requires Comparable(strips) && i < |strips|
    ensures |row| == |strips|
    ensures forall j :: 0 <= j < |strips| ==> row[j] == Adjacency(strips, i, j)
  {
    var n := |strips|;
    row := [];
    var j := 0;
    while j < n
      invariant 0 <= j <= n
      invariant |row| == j
      invariant forall b :: 0 <= b < j ==> row[b] == Adjacency(strips, i, b)
    {
      StripSimilarityIsScore(strips[i], strips[j]);
      row := row + [StripSimilarity(strips[i], strips[j])];
      j := j + 1;
    }
  }

  /** tsp.py `create_similarity_matrix`: every cell, the diagonal included,
      is scored from the two strips directly. */
  method BuildFullMatrix(strips: seq<Strip>) returns (m: Matrix)
    requires Comparable(strips)
    ensures |m| == |strips| && IsSquare(m)
    ensures forall i, j :: 0 <= i < |m| && 0 <= j < |m| ==>
      m[i][j] == Adjacency(strips, i, j)
    ensures forall i :: 0 <= i < |m| ==> (m[i][i] == 0 <==> RightEdge(strips[i]) == LeftEdge(strips[i]))
  {
    var n := |strips|;
    m := [];
    var i := 0;
    while i < n
      invariant 0 <= i <= n
      invariant |m| == i
      invariant forall a :: 0 <= a < i ==> |m[a]| == n
      invariant forall a, b :: 0 <= a < i && 0 <= b < n ==> m[a][b] == Adjacency(strips, a, b)
    {
      var row := FullMatrixRow(strips, i);
      m := m + [row];
      i := i + 1;
    }
  }

  /** The two builders agree on every off-diagonal cell; on the diagonal
      tsp.py's holds each strip's self-score, which is 0 only for a strip
      whose two boundary columns coincide. */
  lemma BuildersAgreeOffDiagonal(strips: seq<Strip>, edge: Matrix, full: Matrix)
    requires Comparable(strips)
    requires IsEdgeMatrix(strips, edge) && IsFullMatrix(strips, full)
    ensures AgreeOffDiagonal(edge, full)
    ensures forall i :: 0 <= i < |edge| ==> edge[i][i] == 0
    ensures forall i :: 0 <= i < |full| ==> (full[i][i] == 0 <==> RightEdge(strips[i]) == LeftEdge(strips[i]))
  {
    forall i, j | 0 <= i < |edge| && 0 <= j < |edge|
      ensures full[i][j] == Adjacency(strips, i, j)
      ensures edge[i][j] == if i == j then 0 else full[i][j]
    {
      StripSimilarityIsScore(strips[i], strips[j]);
    }
  }
}
