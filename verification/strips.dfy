/** Strips and their edge columns (algo.py `extract_edges`).

    A strip is a height x width x channels grid of pixel values, stored row
    by row; a grayscale strip has one channel per pixel. Values are the
    0..255 intensities the image library produces, so the 16-bit
    intermediate the source converts to never overflows and is not modelled. */
module Strips {

  /** One channel intensity. */
  type Byte = x: int | 0 <= x < 256

  /** The channel values of one pixel. */
  type Pixel = seq<Byte>

  /** Rows of pixels: `s[r][c]` is the pixel in row r, column c. */
  type Strip = seq<seq<Pixel>>

  /** One column of a strip, top to bottom: one pixel per row. */
  type Edge = seq<Pixel>

  /** Every row has a first and a last column to take an edge from. */
  ghost predicate HasColumns(s: Strip) {
    forall r :: 0 <= r < |s| ==> |s[r]| >= 1
  }

  /** A rectangular strip of the given height whose pixels all have the given
      number of channels. Width is not fixed: strips of one puzzle may differ
      in width, since only their boundary columns are compared. */
  ghost predicate IsStrip(s: Strip, height: nat, channels: nat) {
    && |s| == height
    && HasColumns(s)
    && (forall r :: 0 <= r < |s| ==> |s[r]| == |s[0]|)
    && (forall r, c :: 0 <= r < |s| && 0 <= c < |s[r]| ==> |s[r][c]| == channels)
  }

  /** Column 0 of a strip. */
  function LeftEdge(s: Strip): Edge
    requires HasColumns(s)
  {
    seq(|s|, (r: int) requires 0 <= r < |s| => s[r][0])
  }

  /** The last column of a strip. */
  function RightEdge(s: Strip): Edge
    requires HasColumns(s)
  {
    seq(|s|, (r: int) requires 0 <= r < |s| => s[r][|s[r]| - 1])
  }

  /** Dropping the top row of a strip drops the top pixel of both edges. */
  lemma EdgesOfTail(s: Strip)
    requires HasColumns(s) && |s| > 0
    ensures HasColumns(s[1..])
    ensures LeftEdge(s)[1..] == LeftEdge(s[1..]) && RightEdge(s)[1..] == RightEdge(s[1..])
  {
  }

  /** Two edges can be compared pixel by pixel. */
  ghost predicate SameShape(a: Edge, b: Edge) {
    && |a| == |b|
    && forall r :: 0 <= r < |a| ==> |a[r]| == |b[r]|
  }

  /** The right edge of `s1` and the left edge of `s2` can be compared
      pixel by pixel: same height, same channel count row by row. */
  ghost predicate Adjoinable(s1: Strip, s2: Strip) {
    && HasColumns(s1) && HasColumns(s2)
    && |s1| == |s2|
    && forall r :: 0 <= r < |s1| ==> |s1[r][|s1[r]| - 1]| == |s2[r][0]|
  }

  lemma AdjoinableTail(s1: Strip, s2: Strip)
    requires Adjoinable(s1, s2) && |s1| > 0
    ensures Adjoinable(s1[1..], s2[1..])
  {
  }

  /** Every strip can be placed to the right of every strip (itself included). */
  ghost predicate Comparable(strips: seq<Strip>) {
    forall i, j :: 0 <= i < |strips| && 0 <= j < |strips| ==> Adjoinable(strips[i], strips[j])
  }

  lemma AdjoinableEdges(s1: Strip, s2: Strip)
    requires Adjoinable(s1, s2)
    ensures SameShape(RightEdge(s1), LeftEdge(s2))
  {
  }

  /** Reads both boundary columns of every strip once, in input order. */
  method ExtractEdges(strips: seq<Strip>) returns (left: seq<Edge>, right: seq<Edge>)
    requires forall k :: 0 <= k < |strips| ==> HasColumns(strips[k])
    ensures |left| == |strips| && |right| == |strips|
    ensures forall k :: 0 <= k < |strips| ==> |left[k]| == |strips[k]| && |right[k]| == |strips[k]|
    ensures forall k, r :: 0 <= k < |strips| && HasColumns(strips[k]) && 0 <= r < |strips[k]| ==>
      left[k][r] == strips[k][r][0] && right[k][r] == strips[k][r][|strips[k][r]| - 1]
  {
    left, right := [], [];
    var k := 0;
    while k < |strips|
      invariant 0 <= k <= |strips|
      invariant |left| == k && |right| == k
      invariant forall i :: 0 <= i < k ==> left[i] == LeftEdge(strips[i]) && right[i] == RightEdge(strips[i])
    {
      left := left + [LeftEdge(strips[k])];
      right := right + [RightEdge(strips[k])];
      k := k + 1;
    }
  }
}
