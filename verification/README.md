# Strip unshredder: reconstruction engine in Dafny

A document cut into vertical strips and shuffled is put back together by
comparing strip edges. This project models that reconstruction engine
(`algo.py` and the cost-matrix builder of `tsp.py`) and proves properties
of the model.

- **Strips** (`strips.dfy`, module `Strips`): a strip is a grid of rows by
  columns by channels. Each channel value is a 0..255 intensity (`Byte`).
  `ExtractEdges` reads column 0 and the last column of every strip, in
  input order.
- **Cost** (`cost.dfy`, module `Cost`): `Score` models algo.py's
  `fast_strip_similarity`. It sums, over all rows and channels, the
  absolute difference between the right edge of strip a and the left edge
  of strip b. `StripSimilarity` models tsp.py's `calculate_strip_similarity`,
  which computes the same thing straight from the two strips, with the
  subtraction the other way round.
- **Cost matrix** (`matrix.dfy`, module `CostMatrix`): `BuildEdgeMatrix`
  models algo.py's builder, which leaves the diagonal at 0.
  `BuildFullMatrix` models tsp.py's builder, which scores every cell,
  the diagonal included. Entry `m[i][j]` is the cost of placing strip j
  right of strip i, so the matrix is not symmetric in general.
- **Scans** (`search.dfy`, module `Search`): `FindMinPair`, `FindBestLeft`
  and `FindBestRight`. Each keeps the first strictly smaller strictly
  positive entry it meets. A zero entry is therefore never a match, and
  ties go to the earliest position (row-major for the pair). The source's
  "not found" result, index -1 with an infinite value, is `None` here.
- **Assembler** (`assembly.dfy`, module `Assembly`): `ReconstructOrder` is
  `reconstruct_strips` over indices, and `Reconstruct` applies the
  resulting order to any sequence of strips. The ghost predicate `Grown`
  states what the greedy rounds build. The seed pair is the base case.
  Each longer chain comes from a shorter greedy chain plus one strip at one
  end: the strip that round would have picked. The left strip is picked
  unless the right one is strictly cheaper or the left one does not exist.
  `GreedyOrder` collects what the returned order satisfies: it is a
  permutation; it is the input order when no seed exists; otherwise it is
  a greedy chain, complete or stuck at both ends, followed by the
  remaining indices in ascending order.
- **Determinism** (`determinism.dfy`, module `Determinism`): the greedy
  rule leaves no choice. For a given matrix, at most one chain of each
  length is greedy, and exactly one order meets `GreedyOrder`.
- **Pipeline** (`pipeline.dfy`, module `Pipeline`): the assembler never
  reads a diagonal cell. So algo.py's and tsp.py's matrices admit the same
  greedy orders, and since a greedy order is unique, they give the same
  order.

Matrices and strips are immutable sequences. So "the input matrix is not
modified" (algo.py:69) holds by construction, and no member states it.

Two behaviours of the code are easy to misread, and the model follows the
code in both. The assembler takes no zero-cost seed or neighbour, even
when zero is the best available cost. The edge extractor accepts
zero-height strips. In the model:

- zero costs are never matches (`IdenticalEdgesKeepInputOrder` shows the
  consequence);
- a zero-height strip yields empty edges;
- only a zero-width strip is excluded, by the `HasColumns` precondition,
  because numpy raises an index error there.

## Model

| member | source | states |
|---|---|---|
| Strips.ExtractEdges | algo.py:5-15 | returns one left and one right edge per strip, in input order; row r of edge k is pixel 0, respectively the last pixel, of row r of strip k |
| Cost.Score | algo.py:17-22 | the summed absolute edge difference is a natural number and is 0 exactly when the two edges are equal pixel for pixel |
| Cost.ScoreSymmetric | algo.py:21 | the score is the same whichever edge is subtracted from which |
| Cost.StripSimilarity | tsp.py:41-47 | tsp.py's per-pair cost is a natural number, and it is 0 exactly when the right edge of strip 1 equals the left edge of strip 2 |
| Cost.StripSimilarityIsEdgeScore | tsp.py:41-47 | tsp.py's per-pair cost equals the edge score of strip 2's left edge against strip 1's right edge, subtracted in the order tsp.py uses |
| Cost.StripSimilarityIsScore | tsp.py:41-47 | tsp.py's per-pair cost (left of strip 2 minus right of strip 1) equals algo.py's score of strip 1's right edge against strip 2's left edge |
| Cost.SelfSimilarityZero | tsp.py:41-47 | a strip scored against itself costs 0 exactly when its first and last columns coincide |
| Cost.CostIsDirectional | tsp.py:41-47 | two concrete strips whose cost is 0 in one direction and 10 in the other, so the relation is not symmetric |
| CostMatrix.Adjacency | algo.py:34 | the cost of putting strip j right of strip i is 0 exactly when i's right edge equals j's left edge |
| CostMatrix.EdgeMatrixRow | algo.py:31-35 | row i of algo.py's matrix: 0 at column i, and at every other column j the score of i's right edge against j's left edge |
| CostMatrix.BuildEdgeMatrix | algo.py:24-37 | n x n; diagonal 0; off-diagonal cell (i, j) is the score of i's right edge against j's left edge; all cells >= 0; an off-diagonal cell is 0 exactly on a perfect edge match |
| CostMatrix.FullMatrixRow | tsp.py:65-67 | row i of tsp.py's matrix: at every column j, the diagonal included, the edge score of i's right edge against j's left edge |
| CostMatrix.BuildFullMatrix | tsp.py:51-71 | n x n; every cell (i, j), the diagonal included, equals the edge score of i's right edge against j's left edge; a diagonal cell is 0 exactly when that strip's two edges coincide |
| CostMatrix.BuildersAgreeOffDiagonal | tsp.py:62-68 | for the same strips, the two builders' matrices agree on every off-diagonal cell; they differ only on the diagonal, where tsp.py holds the self-score |
| Search.ScanRow | algo.py:42-45 | scanning row i keeps the scan state: the kept pair is the first cell of least positive cost among every cell up to the end of row i, or none exists there |
| Search.FindMinPair | algo.py:39-47 | no pair exactly when no off-diagonal entry is > 0; otherwise an off-diagonal pair with positive cost, no dearer than any other such pair and strictly cheaper than every such pair before it in row-major order, with its cost |
| Search.MinPairUnique | algo.py:44 | at most one cell meets that specification, so the seed is fully determined |
| Search.FirstPositiveMin | algo.py:52-55 | none exactly when no unused index has a positive entry; otherwise the first unused index with the least positive entry, with its value |
| Search.FindBestRight | algo.py:49-56 | none exactly when every unused j has `m[e][j] <= 0`; otherwise the first unused j of least positive `m[e][j]` |
| Search.FindBestLeft | algo.py:58-65 | none exactly when every unused i has `m[i][e] <= 0`; otherwise the first unused i of least positive `m[i][e]` |
| Search.FirstMinUnique | algo.py:53 | at most one index meets the best-candidate specification |
| Assembly.Unplaced | algo.py:107 | strictly ascending, holds exactly the indices below n that are not used |
| Assembly.ChooseLeft | algo.py:95-99 | the strip prepended is the best strip before the left end, no dearer than any candidate after the right end |
| Assembly.ChooseRight | algo.py:100-104 | the strip appended is the best strip after the right end, strictly cheaper than every candidate before the left end |
| Assembly.NothingToChoose | algo.py:90-92 | when both scans come back empty, neither end of the chain can be extended |
| Assembly.PrependStep | algo.py:95-99 | prepending the left choice to a greedy chain gives a greedy chain |
| Assembly.AppendStep | algo.py:100-104 | appending the right choice to a greedy chain gives a greedy chain |
| Assembly.GreedyRound | algo.py:83-104 | one round either leaves everything unchanged because neither end can be extended, or adds exactly one strip: it prepends the greedy left pick, or it appends the greedy right pick; the other end stays put, the used set gains that strip, and the chain stays greedy |
| Assembly.GrowChain | algo.py:81-104 | the loop yields a greedy chain of at most n strips that, if shorter than n, is stuck at both ends |
| Assembly.GrownChain | algo.py:78-104 | every greedy chain has at least two strips, all distinct and below n, and every adjacent pair has a strictly positive cost |
| Assembly.ChainThenUnplaced | algo.py:106-108 | a distinct chain followed by the unplaced indices is a permutation of 0..n-1 |
| Assembly.ReconstructOrder | algo.py:67-110 | the order is a permutation of 0..n-1; without a seed pair it is the input order; otherwise it starts with a greedy chain that is complete or stuck at both ends, followed by the rest in ascending order |
| Assembly.Reconstruct | algo.py:67-110 | the strips come back unchanged when no seed pair exists, and otherwise rearranged by an order meeting `GreedyOrder` |
| Determinism.RoundOutcomesExclusive | algo.py:91-104 | in one round a left pick and a right pick never both qualify, and a chain with a pick is not stuck |
| Determinism.StepUnique | algo.py:84-88 | at each end at most one strip qualifies as the greedy pick |
| Determinism.GrownUnique | algo.py:78-104 | two greedy chains of the same length are equal |
| Determinism.StuckChainIsLongest | algo.py:90-92 | a greedy chain that is stuck at both ends is at least as long as every greedy chain |
| Determinism.GreedyOrderUnique | algo.py:67-110 | at most one order meets `GreedyOrder`, so the contract of `ReconstructOrder` determines the returned order |
| Pipeline.GrownAgrees | algo.py:81-104 | whether a chain is a greedy chain does not depend on the diagonal of the matrix |
| Pipeline.GreedyOrderAgrees | algo.py:42-65 | two matrices that differ only on the diagonal admit exactly the same greedy orders |
| Pipeline.BuildersGiveSameOrder | tsp.py:64-67 | algo.py's and tsp.py's matrices for the same strips admit exactly the same greedy orders, and a greedy order of one equals a greedy order of the other |
| Pipeline.IdenticalEdgesKeepInputOrder | algo.py:73-76 | when every right edge equals every left edge there is no seed pair, and the strips come back in input order |
| Pipeline.SingleStrip | algo.py:73-76 | a single strip has no seed pair and comes back as `[0]` |

## Left out

- Image I/O and display are not part of this model: `reconstructed_image`,
  `show_reconstructed_image`, shredder.py and main.py. These are numpy
  concatenation and rotation, matplotlib output, PIL file opening and
  cropping, and directory listing.
- tqdm progress bars are left out. They are cosmetic.
- The PIL/numpy array conversion and the int16 casts are left out. Pixel
  values are 0..255 and sums are unbounded integers, so nothing can
  overflow.
- Numpy broadcasting is not modelled. `Score`, `StripSimilarity` and the
  builders require edges of the same shape. For other shapes numpy either
  raises or broadcasts a one-row edge; the model excludes both cases.
- Reconstruct: requires as many strips as matrix rows. The source takes
  its loop count from the strips and its scans from the matrix, and fails
  or misbehaves when the two differ.
- algo.py and tsp.py contain no brute-force path solver, so none is
  modelled.
- The unused height/width minima and the commented-out weighting code in
  tsp.py (lines 19-38) are left out. They are dead code.
- ExtractEdges: requires every row of every strip to have at least one
  pixel (`HasColumns`). A zero-width strip makes numpy raise an index error
  at `arr[:, 0]`, and the model does not represent that error.
