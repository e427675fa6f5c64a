/** The adjacency cost between two strips: the summed absolute channel
    difference between the right edge of one and the left edge of the other
    (algo.py `fast_strip_similarity`, tsp.py `calculate_strip_similarity`). */
module Cost {
  import opened Strips

  function Abs(x: int): nat {
    if x < 0 then -x else x
  }

  /** Sum over channels of |p[c] - q[c]|. */
  function PixelDiff(p: Pixel, q: Pixel): (d: nat)
    requires |p| == |q|
    ensures d == 0 <==> p == q
  {
    if |p| == 0 then 0
    else
      assert p == [p[0]] + p[1..] && q == [q[0]] + q[1..];
      Abs(p[0] as int - q[0] as int) + PixelDiff(p[1..], q[1..])
  }

  /** algo.py `fast_strip_similarity`: the per-pixel differences of two edges
      summed over all rows. Lower is a better match; 0 is a pixel-exact match. */
  function Score(rightA: Edge, leftB: Edge): (d: nat)
    requires SameShape(rightA, leftB)
    ensures d == 0 <==> rightA == leftB
  {
    if |rightA| == 0 then 0
    else
      assert rightA == [rightA[0]] + rightA[1..] && leftB == [leftB[0]] + leftB[1..];
      PixelDiff(rightA[0], leftB[0]) + Score(rightA[1..], leftB[1..])
  }

  lemma {:induction false} PixelDiffSymmetric(p: Pixel, q: Pixel)
    requires |p| == |q|
    ensures PixelDiff(p, q) == PixelDiff(q, p)
  {
    if |p| > 0 {
      PixelDiffSymmetric(p[1..], q[1..]);
    }
  }

  /** The score does not depend on which edge is subtracted from which. */
  lemma {:induction false} ScoreSymmetric(a: Edge, b: Edge)
    requires SameShape(a, b)
    ensures SameShape(b, a) && Score(a, b) == Score(b, a)
  {
    if |a| > 0 {
      PixelDiffSymmetric(a[0], b[0]);
      ScoreSymmetric(a[1..], b[1..]);
    }
  }

  /** The per-pair cost of tsp.py, computed straight from the two strips:
      for every row, the channel differences of the first pixel of `s2` minus
      the last pixel of `s1`, summed. */
  function StripSimilarity(s1: Strip, s2: Strip): (d: nat)
    requires Adjoinable(s1, s2)
    ensures d == 0 <==> RightEdge(s1) == LeftEdge(s2)
  {
    if |s1| == 0 then 0
    else
      AdjoinableTail(s1, s2);
      EdgesOfTail(s1);
      EdgesOfTail(s2);
      var r1, l2 := RightEdge(s1), LeftEdge(s2);
      assert r1 == [r1[0]] + r1[1..] && l2 == [l2[0]] + l2[1..];
      PixelDiff(s2[0][0], s1[0][|s1[0]| - 1]) + StripSimilarity(s1[1..], s2[1..])
  }

  /** tsp.py's per-pair cost is the edge score with the subtraction as
      tsp.py writes it: left edge of `s2` minus right edge of `s1`. */
  lemma {:induction false} StripSimilarityIsEdgeScore(s1: Strip, s2: Strip)
    requires Adjoinable(s1, s2)
    ensures SameShape(LeftEdge(s2), RightEdge(s1))
    ensures StripSimilarity(s1, s2) == Score(LeftEdge(s2), RightEdge(s1))
  {
    AdjoinableEdges(s1, s2);
    if |s1| > 0 {
      AdjoinableTail(s1, s2);
      StripSimilarityIsEdgeScore(s1[1..], s2[1..]);
      EdgesOfTail(s1);
      EdgesOfTail(s2);
    }
  }

  /** tsp.py and algo.py agree: scoring two strips directly equals scoring
      the right edge of the first against the left edge of the second. */
  lemma StripSimilarityIsScore(s1: Strip, s2: Strip)
    requires Adjoinable(s1, s2)
    ensures SameShape(RightEdge(s1), LeftEdge(s2))
    ensures StripSimilarity(s1, s2) == Score(RightEdge(s1), LeftEdge(s2))
  {
    StripSimilarityIsEdgeScore(s1, s2);
    ScoreSymmetric(LeftEdge(s2), RightEdge(s1));
  }

  /** A strip scored against itself costs nothing exactly when its two
      boundary columns are identical. */
  lemma SelfSimilarityZero(s: Strip, height: nat, channels: nat)
    requires IsStrip(s, height, channels)
    ensures StripSimilarity(s, s) == 0 <==> RightEdge(s) == LeftEdge(s)
  {
    StripSimilarityIsScore(s, s);
  }

  /** Two one-pixel-high grayscale strips whose costs differ by direction:
      a dark-to-light strip followed by a light one matches perfectly, the
      other way round it does not. */
  lemma CostIsDirectional()
    ensures var a: Strip := [[[0], [10]]];
            var b: Strip := [[[10], [10]]];
            StripSimilarity(a, b) == 0 && StripSimilarity(b, a) == 10
  {
    var a: Strip := [[[0], [10]]];
    var b: Strip := [[[10], [10]]];
    assert a[1..] == [] && b[1..] == [];
    assert PixelDiff(b[0][0], a[0][1]) == 0;
    assert PixelDiff(a[0][0], b[0][1]) == 10 by {
      assert a[0][0][1..] == [] && b[0][1][1..] == [];
    }
  }
}
