/** The three scans the greedy assembler is built from (algo.py
    `find_min_pair`, `find_best_left`, `find_best_right`). Each keeps the
    first strictly smaller strictly positive entry it meets, so a zero entry
    never counts as a match and ties go to the earliest position. The
    source's "nothing found" answer (index -1 with an infinite value) is
    `None` here. */
module Search {
  import opened CostMatrix

  datatype Option<T> = None | Some(value: T)

  /** An index and the matrix entry that made it the best candidate. */
  datatype Choice = Choice(index: nat, cost: int)

  /** The starting pair of the chain: `right` is placed right of `left`. */
  datatype Seed = Seed(left: nat, right: nat, cost: int)

  /** Column e of a square matrix: the costs of placing each strip left of e. */
  function Column(m: Matrix, e: nat): (col: seq<int>)
    requires IsSquare(m) && e < |m|
    ensures |col| == |m|
  {
    seq(|m|, (i: int) requires 0 <= i < |m| => m[i][e])
  }

  /* ---------- the seed pair ---------- */

  /** An off-diagonal cell with a strictly positive cost. */
  ghost predicate ValidPair(m: Matrix, i: nat, j: nat) {
    i < |m| && j < |m[i]| && i != j && m[i][j] > 0
  }

  /** Cell (a, b) comes before cell (i, j) in row-major order. */
  ghost predicate Before(a: nat, b: nat, i: nat, j: nat) {
    a < i || (a == i && b < j)
  }

  ghost predicate NoSeed(m: Matrix) {
    forall i: nat, j: nat :: !ValidPair(m, i, j)
  }

  /** (i, j) holds the smallest positive off-diagonal cost, and every valid
      cell before it in row-major order costs strictly more. */
  ghost predicate IsMinPair(m: Matrix, i: nat, j: nat) {
    && ValidPair(m, i, j)
    && (forall a: nat, b: nat :: ValidPair(m, a, b) ==> m[i][j] <= m[a][b])
    && (forall a: nat, b: nat :: ValidPair(m, a, b) && Before(a, b, i, j) ==> m[i][j] < m[a][b])
  }

  /** The scan state of `find_min_pair` after visiting every cell before (i, j). */
  ghost predicate MinPairSoFar(m: Matrix, r: Option<Seed>, i: nat, j: nat) {
    match r
    case None => forall a: nat, b: nat :: ValidPair(m, a, b) ==> !Before(a, b, i, j)
    case Some(s) =>
      && ValidPair(m, s.left, s.right)
      && s.cost == m[s.left][s.right]
      && Before(s.left, s.right, i, j)
      && (forall a: nat, b: nat :: ValidPair(m, a, b) && Before(a, b, i, j) ==> s.cost <= m[a][b])
      && (forall a: nat, b: nat :: ValidPair(m, a, b) && Before(a, b, s.left, s.right) ==> s.cost < m[a][b])
  }

  /** One row of the scan of algo.py `find_min_pair`: the inner loop. */
  method ScanRow(m: Matrix, i: nat, r0: Option<Seed>) returns (r: Option<Seed>)
    requires IsSquare(m) && i < |m|
    requires MinPairSoFar(m, r0, i, 0)
    ensures MinPairSoFar(m, r, i + 1, 0)
  {
    var n := |m|;
    r := r0;
    var j := 0;
    while j < n
      invariant 0 <= j <= n
      invariant MinPairSoFar(m, r, i, j)
    {
      if i != j && m[i][j] > 0 && (r.None? || m[i][j] < r.value.cost) {
        r := Some(Seed(i, j, m[i][j]));
      }
      j := j + 1;
    }
    assert forall a: nat, b: nat :: Before(a, b, i, n) && b < n ==> Before(a, b, i + 1, 0);
  }

  /** algo.py `find_min_pair`. */
  method FindMinPair(m: Matrix) returns (r: Option<Seed>)
    requires IsSquare(m)
    ensures r.None? <==> NoSeed(m)
    ensures r.Some? ==> IsMinPair(m, r.value.left, r.value.right) && r.value.cost == m[r.value.left][r.value.right]
  {
    var n := |m|;
    r := None;
    var i := 0;
    while i < n
      invariant 0 <= i <= n
      invariant MinPairSoFar(m, r, i, 0)
    {
      r := ScanRow(m, i, r);
      i := i + 1;
    }
    assert forall a: nat, b: nat :: ValidPair(m, a, b) ==> Before(a, b, n, 0);
  }

  /** The seed pair is determined: the tie-break leaves no choice. */
  lemma MinPairUnique(m: Matrix, i: nat, j: nat, k: nat, l: nat)
    requires IsMinPair(m, i, j) && IsMinPair(m, k, l)
    ensures i == k && j == l
  {
  }

  /* ---------- extending one end ---------- */

  /** Index k is unused and has a strictly positive cost in `v`. */
  ghost predicate Candidate(v: seq<int>, used: set<nat>, k: nat) {
    k < |v| && k !in used && v[k] > 0
  }

  ghost predicate NoCandidate(v: seq<int>, used: set<nat>) {
    forall k: nat :: !Candidate(v, used, k)
  }

  /** k is the first candidate of least cost. */
  ghost predicate IsFirstMin(v: seq<int>, used: set<nat>, k: nat) {
    && Candidate(v, used, k)
    && (forall x: nat :: Candidate(v, used, x) ==> v[k] <= v[x])
    && (forall x: nat :: Candidate(v, used, x) && x < k ==> v[k] < v[x])
  }

  /** The scan shared by `find_best_left` and `find_best_right`: the first
      unused index holding the least strictly positive cost. */
  method FirstPositiveMin(v: seq<int>, used: set<nat>) returns (r: Option<Choice>)
    ensures r.None? <==> NoCandidate(v, used)
    ensures r.Some? ==> IsFirstMin(v, used, r.value.index) && r.value.cost == v[r.value.index]
  {
    r := None;
    var k := 0;
    while k < |v|
      invariant 0 <= k <= |v|
      invariant r.None? ==> forall x: nat :: Candidate(v, used, x) ==> x >= k
      invariant r.Some? ==>
        && Candidate(v, used, r.value.index) && r.value.index < k && r.value.cost == v[r.value.index]
        && (forall x: nat :: Candidate(v, used, x) && x < k ==> r.value.cost <= v[x])
        && (forall x: nat :: Candidate(v, used, x) && x < r.value.index ==> r.value.cost < v[x])
    {
      if k !in used && v[k] > 0 && (r.None? || v[k] < r.value.cost) {
        r := Some(Choice(k, v[k]));
      }
      k := k + 1;
    }
  }

  /** algo.py `find_best_right`: the unused strip that best follows strip e. */
  method FindBestRight(m: Matrix, e: nat, used: set<nat>) returns (r: Option<Choice>)
    requires IsSquare(m) && e < |m|
    ensures r.None? <==> forall y: nat :: y < |m| && y !in used ==> m[e][y] <= 0
    ensures r.Some? ==> IsFirstMin(m[e], used, r.value.index) && r.value.cost == m[e][r.value.index]
  {
    r := FirstPositiveMin(m[e], used);
    if r.None? {
      forall y: nat | y < |m| && y !in used
        ensures m[e][y] <= 0
      {
        assert !Candidate(m[e], used, y);
      }
    }
  }

  /** algo.py `find_best_left`: the unused strip that best precedes strip e. */
  method FindBestLeft(m: Matrix, e: nat, used: set<nat>) returns (r: Option<Choice>)
    requires IsSquare(m) && e < |m|
    ensures r.None? <==> forall x: nat :: x < |m| && x !in used ==> m[x][e] <= 0
    ensures r.Some? ==> IsFirstMin(Column(m, e), used, r.value.index) && r.value.cost == m[r.value.index][e]
  {
    r := FirstPositiveMin(Column(m, e), used);
    if r.None? {
      forall x: nat | x < |m| && x !in used
        ensures m[x][e] <= 0
      {
        assert !Candidate(Column(m, e), used, x);
      }
    }
  }

  /** The best candidate on either side is determined. */
  lemma FirstMinUnique(v: seq<int>, used: set<nat>, k: nat, l: nat)
    requires IsFirstMin(v, used, k) && IsFirstMin(v, used, l)
    ensures k == l
  {
  }
}
