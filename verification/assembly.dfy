/** The greedy two-ended chain assembler (algo.py `reconstruct_strips`),
    modelled over strip indices.

    The chain is seeded with the cheapest positive off-diagonal pair. Each
    round looks for the best unused strip to put before the left end and the
    best unused strip to put after the right end, takes the left one unless
    only the right one exists or it is strictly cheaper, and stops early
    when neither exists. Strips never placed follow in ascending index order. */
module Assembly {
  import opened Orderings
  import opened CostMatrix
  import opened Search

  /** x is what one greedy round prepends to chain c: the best strip to put
      before the left end, no dearer than any strip that could follow the
      right end. */
  ghost predicate LeftChosen(m: Matrix, c: seq<nat>, x: nat)
    requires IsSquare(m)
  {
    && |c| >= 1 && c[0] < |m| && c[|c| - 1] < |m|
    && var first, last, used := c[0], c[|c| - 1], Elems(c);
       && IsFirstMin(Column(m, first), used, x)
       && (forall y: nat :: Candidate(m[last], used, y) ==> m[x][first] <= m[last][y])
  }

  /** y is what one greedy round appends to chain c: the best strip to put
      after the right end, strictly cheaper than any strip that could precede
      the left end. */
  ghost predicate RightChosen(m: Matrix, c: seq<nat>, y: nat)
    requires IsSquare(m)
  {
    && |c| >= 1 && c[0] < |m| && c[|c| - 1] < |m|
    && var first, last, used := c[0], c[|c| - 1], Elems(c);
       && IsFirstMin(m[last], used, y)
       && (forall x: nat :: Candidate(Column(m, first), used, x) ==> m[last][y] < m[x][first])
  }

  /** Chain c is what the greedy rounds build: the seed pair, grown one end
      at a time, each step the one the greedy rule picks. */
  ghost predicate Grown(m: Matrix, c: seq<nat>)
    requires IsSquare(m)
    decreases |c|
  {
    if |c| < 2 then false
    else if |c| == 2 then IsMinPair(m, c[0], c[1])
    else
      || (LeftChosen(m, c[1..], c[0]) && Grown(m, c[1..]))
      || (RightChosen(m, c[..|c| - 1], c[|c| - 1]) && Grown(m, c[..|c| - 1]))
  }

  /** Neither end of chain c can be extended by an unused strip. */
  ghost predicate Stuck(m: Matrix, c: seq<nat>)
    requires IsSquare(m)
  {
    && |c| >= 1 && c[0] < |m| && c[|c| - 1] < |m|
    && NoCandidate(Column(m, c[0]), Elems(c))
    && NoCandidate(m[c[|c| - 1]], Elems(c))
  }

  /** The first k entries of `order` are a greedy chain that is either
      complete or stuck, and the rest follow in ascending order. */
  ghost predicate ChainThenRest(m: Matrix, order: seq<nat>, k: nat)
    requires IsSquare(m)
  {
    && 2 <= k <= |order|
    && Grown(m, order[..k])
    && (k < |m| ==> Stuck(m, order[..k]))
    && StrictlyAscending(order[k..])
  }

  /** Everything `reconstruct_strips` promises about the order it returns. */
  ghost predicate GreedyOrder(m: Matrix, order: seq<nat>)
    requires IsSquare(m)
  {
    && IsPermutation(order, |m|)
    && (NoSeed(m) ==> order == Identity(|m|))
    && (!NoSeed(m) ==> exists k: nat :: ChainThenRest(m, order, k))
  }

  /** The indices below n that are not in `used`, in ascending order. */
  function Unplaced(n: nat, used: set<nat>): (r: seq<nat>)
    ensures forall k :: 0 <= k < |r| ==> r[k] < n && r[k] !in used
    ensures forall x: nat :: x < n && x !in used ==> x in r
    ensures StrictlyAscending(r)
  {
    if n == 0 then []
    else Unplaced(n - 1, used) + (if n - 1 in used then [] else [n - 1])
  }

  /** A run of at least two distinct strips in which every strip is
      followed by one it has a strictly positive cost to. */
  ghost predicate IsChain(m: Matrix, c: seq<nat>)
    requires IsSquare(m)
  {
    && |c| >= 2
    && (forall k :: 0 <= k < |c| ==> c[k] < |m|)
    && Distinct(c)
    && (forall p :: 0 <= p < |c| - 1 ==> m[c[p]][c[p + 1]] > 0)
  }

  /** Prepending an unused strip with a positive cost to the left end keeps
      a chain a chain. */
  lemma PrependKeepsChain(m: Matrix, c: seq<nat>)
    requires IsSquare(m) && |c| > 2 && IsChain(m, c[1..])
    requires Candidate(Column(m, c[1]), Elems(c[1..]), c[0])
    ensures IsChain(m, c)
  {
    var rest := c[1..];
    assert forall k :: 1 <= k < |c| ==> c[k] == rest[k - 1];
    assert c[0] !in rest;
    assert m[c[0]][c[1]] == Column(m, c[1])[c[0]];
  }

  /** Appending an unused strip with a positive cost from the right end
      keeps a chain a chain. */
  lemma AppendKeepsChain(m: Matrix, c: seq<nat>)
    requires IsSquare(m) && |c| > 2 && IsChain(m, c[..|c| - 1])
    requires Candidate(m[c[|c| - 2]], Elems(c[..|c| - 1]), c[|c| - 1])
    ensures IsChain(m, c)
  {
    var rest := c[..|c| - 1];
    assert forall k :: 0 <= k < |c| - 1 ==> c[k] == rest[k];
    assert c[|c| - 1] !in rest;
  }

  /** The seed pair is itself a chain. */
  lemma SeedIsChain(m: Matrix, c: seq<nat>)
    requires IsSquare(m) && |c| == 2 && IsMinPair(m, c[0], c[1])
    ensures IsChain(m, c)
  {
  }

  /** The strip a round adds was not yet in the chain and has a positive cost
      to the end it joins. */
  lemma ChosenIsCandidate(m: Matrix, c: seq<nat>)
    requires IsSquare(m) && |c| > 2
    ensures LeftChosen(m, c[1..], c[0]) ==> Candidate(Column(m, c[1]), Elems(c[1..]), c[0])
    ensures RightChosen(m, c[..|c| - 1], c[|c| - 1]) ==> Candidate(m[c[|c| - 2]], Elems(c[..|c| - 1]), c[|c| - 1])
  {
  }

  /** Every greedy chain is a chain: its strips are distinct and each
      adjacent pair has a strictly positive cost. */
  lemma {:induction false} GrownChain(m: Matrix, c: seq<nat>)
    requires IsSquare(m) && Grown(m, c)
    ensures IsChain(m, c)
    decreases |c|
  {
    if |c| == 2 {
      SeedIsChain(m, c);
    } else {
      ChosenIsCandidate(m, c);
      if LeftChosen(m, c[1..], c[0]) && Grown(m, c[1..]) {
        GrownChain(m, c[1..]);
        PrependKeepsChain(m, c);
      } else {
        GrownChain(m, c[..|c| - 1]);
        AppendKeepsChain(m, c);
      }
    }
  }

  /** One left round keeps the chain greedy. */
  lemma PrependStep(m: Matrix, c: seq<nat>, x: nat)
    requires IsSquare(m) && Grown(m, c) && LeftChosen(m, c, x)
    ensures Grown(m, [x] + c)
    ensures Elems([x] + c) == Elems(c) + {x}
  {
    assert ([x] + c)[1..] == c;
  }

  /** One right round keeps the chain greedy. */
  lemma AppendStep(m: Matrix, c: seq<nat>, y: nat)
    requires IsSquare(m) && Grown(m, c) && RightChosen(m, c, y)
    ensures Grown(m, c + [y])
    ensures Elems(c + [y]) == Elems(c) + {y}
  {
    assert (c + [y])[..|c|] == c;
  }

  /** Why the left round picks x: it is the best strip before the left end
      and costs no more than the best strip after the right end, if any. */
  lemma ChooseLeft(m: Matrix, c: seq<nat>, x: nat, best: Option<Choice>)
    requires IsSquare(m) && |c| >= 1 && c[0] < |m| && c[|c| - 1] < |m|
    requires IsFirstMin(Column(m, c[0]), Elems(c), x)
    requires best.None? ==> forall y: nat :: y < |m| && y !in Elems(c) ==> m[c[|c| - 1]][y] <= 0
    requires best.Some? ==> IsFirstMin(m[c[|c| - 1]], Elems(c), best.value.index)
    requires best.Some? ==> m[x][c[0]] <= best.value.cost == m[c[|c| - 1]][best.value.index]
    ensures LeftChosen(m, c, x)
  {
  }

  /** Why the right round picks y: it is the best strip after the right end
      and strictly cheaper than the best strip before the left end, if any. */
  lemma ChooseRight(m: Matrix, c: seq<nat>, y: nat, best: Option<Choice>)
    requires IsSquare(m) && |c| >= 1 && c[0] < |m| && c[|c| - 1] < |m|
    requires IsFirstMin(m[c[|c| - 1]], Elems(c), y)
    requires best.None? ==> forall x: nat :: x < |m| && x !in Elems(c) ==> m[x][c[0]] <= 0
    requires best.Some? ==> IsFirstMin(Column(m, c[0]), Elems(c), best.value.index)
    requires best.Some? ==> m[c[|c| - 1]][y] < best.value.cost == m[best.value.index][c[0]]
    ensures RightChosen(m, c, y)
  {
  }

  /** When neither scan finds a candidate, the chain is stuck. */
  lemma NothingToChoose(m: Matrix, c: seq<nat>)
    requires IsSquare(m) && |c| >= 1 && c[0] < |m| && c[|c| - 1] < |m|
    requires forall x: nat :: x < |m| && x !in Elems(c) ==> m[x][c[0]] <= 0
    requires forall y: nat :: y < |m| && y !in Elems(c) ==> m[c[|c| - 1]][y] <= 0
    ensures Stuck(m, c)
  {
  }

  /** Appending the unplaced strips to a chain completes a permutation. */
  lemma ChainThenUnplaced(c: seq<nat>, n: nat)
    requires Distinct(c) && forall k :: 0 <= k < |c| ==> c[k] < n
    ensures IsPermutation(c + Unplaced(n, Elems(c)), n)
  {
    var order := c + Unplaced(n, Elems(c));
    forall i, j | 0 <= i < j < |order|
      ensures order[i] != order[j]
    {
      if j < |c| {
      } else if i >= |c| {
        assert order[i] == Unplaced(n, Elems(c))[i - |c|];
      } else {
        assert order[i] in Elems(c);
      }
    }
    forall x: nat | x < n
      ensures x in order
    {
      if x in Elems(c) {
        var k :| 0 <= k < |c| && c[k] == x;
        assert order[k] == x;
      } else {
        var k :| 0 <= k < |Unplaced(n, Elems(c))| && Unplaced(n, Elems(c))[k] == x;
        assert order[|c| + k] == x;
      }
    }
    CoveringIsPermutation(order, n);
  }

  /** The bookkeeping of the assembly loop: a greedy chain, its two ends
      and the set of strips it uses. */
  ghost predicate ChainState(m: Matrix, chain: seq<nat>, used: set<nat>, left: nat, right: nat)
    requires IsSquare(m)
  {
    && |chain| >= 2
    && chain[0] == left && chain[|chain| - 1] == right
    && left < |m| && right < |m|
    && used == Elems(chain)
    && Grown(m, chain)
  }

  /** One pass of the loop body of algo.py `reconstruct_strips`: extend the
      chain at the cheaper end, or report that neither end can grow. */
  method GreedyRound(m: Matrix, chain: seq<nat>, used: set<nat>, left: nat, right: nat)
    returns (grew: bool, chain': seq<nat>, used': set<nat>, left': nat, right': nat)
    requires IsSquare(m) && ChainState(m, chain, used, left, right)
    ensures !grew ==> Stuck(m, chain) && chain' == chain && used' == used && left' == left && right' == right
    ensures grew ==> ChainState(m, chain', used', left', right') && |chain'| == |chain| + 1
    ensures grew ==>
      || (chain' == [left'] + chain && LeftChosen(m, chain, left') && right' == right && used' == used + {left'})
      || (chain' == chain + [right'] && RightChosen(m, chain, right') && left' == left && used' == used + {right'})
  {
    chain', used', left', right' := chain, used, left, right;
    var nextLeft := FindBestLeft(m, left, used);
    var nextRight := FindBestRight(m, right, used);
    if nextLeft.None? && nextRight.None? {
      NothingToChoose(m, chain);
      return false, chain', used', left', right';
    }
    grew := true;
    if nextLeft.Some? && (nextRight.None? || nextLeft.value.cost <= nextRight.value.cost) {
      var x := nextLeft.value.index;
      ChooseLeft(m, chain, x, nextRight);
      PrependStep(m, chain, x);
      chain', used', left' := [x] + chain, used + {x}, x;
    } else {
      var y := nextRight.value.index;
      ChooseRight(m, chain, y, nextLeft);
      AppendStep(m, chain, y);
      chain', used', right' := chain + [y], used + {y}, y;
    }
  }

  /** The loop of algo.py `reconstruct_strips`: from the seed pair, at most
      n - 2 greedy rounds, stopping early when neither end can grow. */
  method GrowChain(m: Matrix, seed: Seed) returns (chain: seq<nat>)
    requires IsSquare(m) && IsMinPair(m, seed.left, seed.right)
    ensures Grown(m, chain) && |chain| <= |m|
    ensures |chain| < |m| ==> Stuck(m, chain)
  {
    var n := |m|;
    var left: nat, right: nat := seed.left, seed.right;
    chain := [left, right];
    var used: set<nat> := {left, right};
    assert Elems(chain) == used;
    var t := 0;
    while t < n - 2
      invariant 0 <= t <= n - 2
      invariant |chain| == t + 2
      invariant ChainState(m, chain, used, left, right)
    {
      var grew;
      grew, chain, used, left, right := GreedyRound(m, chain, used, left, right);
      if !grew {
        break;
      }
      t := t + 1;
    }
  }

  /** algo.py `reconstruct_strips` over indices: the order in which the
      strips are returned. */
  method ReconstructOrder(m: Matrix) returns (order: seq<nat>)
    requires IsSquare(m)
    ensures IsPermutation(order, |m|)
    ensures NoSeed(m) ==> order == Identity(|m|)
    ensures !NoSeed(m) ==> exists k: nat :: ChainThenRest(m, order, k)
  {
    var n := |m|;
    var seed := FindMinPair(m);
    if seed.None? {
      IdentityIsPermutation(n);
      return Identity(n);
    }
    var chain := GrowChain(m, seed.value);
    GrownChain(m, chain);
    ChainThenUnplaced(chain, n);
    var rest := Unplaced(n, Elems(chain));
    order := chain + rest;
    assert order[..|chain|] == chain && order[|chain|..] == rest;
    assert ChainThenRest(m, order, |chain|);
  }

  /** algo.py `reconstruct_strips` on the strips themselves: the input
      unchanged when there is no seed pair, otherwise the strips rearranged
      by a greedy order. */
  method Reconstruct<T>(shreds: seq<T>, m: Matrix) returns (r: seq<T>)
    requires IsSquare(m) && |shreds| == |m|
    ensures |r| == |shreds|
    ensures NoSeed(m) ==> r == shreds
    ensures exists order :: GreedyOrder(m, order) && r == Permute(shreds, order)
  {
    var order := ReconstructOrder(m);
    assert GreedyOrder(m, order);
    r := Permute(shreds, order);
    if NoSeed(m) {
      assert r == shreds;
    }
  }
}
