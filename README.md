# Mmani graph geometry, modelled in Dafny

This project models the graph-geometry core of Mmani, a manifold-learning
package (`Mmani/embedding/geometry.py`). It proves properties of that model.
The core has four parts:

- **Breadth-first shortest path lengths.**
  `single_source_shortest_path_length` walks the row lists of a LIL sparse
  matrix level by level. It returns a map from each vertex reached to its hop
  count, and stops early at an optional cutoff.
- **Graph Laplacians.** `graph_laplacian` checks that the graph is square
  and that `normed` names one of five variants, ignoring case. It then hands
  the graph to `_laplacian_dense` (a numpy array) or to `_laplacian_sparse`
  (the triples of a scipy COO matrix). The five variants are unnormalized,
  geometric, randomwalk, symmetricnormalized and renormalized. Every variant
  can symmetrize the graph first and scale the result by 4 / eps². On request
  the backends also return the diagonal, the symmetric intermediate `lapsym`
  and its row sums `w`.
- **Radius-neighbour graphs.** `fl_radius_neighbors_graph` queries a FLANN
  index once per point and concatenates the answers into the triples of a
  COO distance matrix. `distance_matrix` chooses the index or scikit-learn's
  fallback and supplies a default radius.
- **The cache.** The `DistanceMatrix` class holds the data, the index and a
  cached distance graph. `get_distance_matrix` recomputes the graph only when
  nothing is cached or a new radius is passed.

Each backend follows the source's own form:

- **Breadth-first search.** It is a method with a `while` loop over levels.
  An inner loop visits the current level. The method is proved against a
  ghost specification: `Reach` is the set of vertices within k hops, and
  `FirstReachedAt` says a vertex is first reached at level k.
- **Dense Laplacian.** It is a method that updates a fresh `array2<real>` in
  place. Each numpy statement becomes a small method. Each method is proved
  equal to a value-level matrix function, and the whole method to
  `DenseResult`.
- **Sparse Laplacian.** It updates the COO `data` array in place. The
  positions never change. It is proved equal to `SparseResult`. Lemmas then
  state what each variant's triples mean as a dense matrix, and when the
  sparse backend agrees with the dense one.
- **Radius graph.** It is a `for` loop that appends one block per point. It
  is proved equal to `RadiusGraph`, a definition by concatenation. Lemmas
  give the number of triples, the contents of each block and the row order.
- **Cache.** It is a class whose fields the methods update.

Numbers are exact reals. `numpy.sqrt` and `degrees ** renormalization_exponent`
are opaque function parameters (`Numerics`). A FLANN index is a radius-query
function, and scikit-learn's `radius_neighbors_graph` is a function parameter
too. Each exception the model represents is an `Error` value of a `Result`;
the exceptions it does not represent are listed under "## Left out".

Where the docstring and the code disagree, the model follows the code:

- The code spells the random-walk variant `'randomwalk'`. The docstring says
  `'randomwalks'`, which the code rejects (`GraphLaplacian.NameExamples`).
- The code's random-walk Laplacian subtracts the identity. The docstring
  gives it as D⁻¹A.
- The code scales by `4/(scaling_epps**2)`. The docstring says
  4/sqrt(scaling_epps).

## Model

| member | source | states |
|---|---|---|
| ShortestPath.LilRows | Mmani/embedding/geometry.py:79-82 | column j is in the row list of vertex i exactly when entry (i, j) is nonzero; every listed index is a vertex |
| ShortestPath.VisitLevel | Mmani/embedding/geometry.py:89-92 | one pass over a level records every unseen vertex of that level at `level`, keeps earlier levels, and collects as the next level exactly the neighbours of the newly recorded vertices |
| ShortestPath.InitialState | Mmani/embedding/geometry.py:83-85 | before the first pass nothing is recorded and the source alone is on level 0: the search invariant holds |
| ShortestPath.SearchPass | Mmani/embedding/geometry.py:86-95 | after the pass over `level`, the recorded vertices are exactly those within `level` hops, the invariant holds for the next level, and the count of unrecorded vertices strictly drops (the loop ends) |
| ShortestPath.SourceAtLevelZero | Mmani/embedding/geometry.py:84-91 | the source is recorded at level 0 |
| ShortestPath.StoppedAtCutoff | Mmani/embedding/geometry.py:93-94 | when the cutoff stops the search, every vertex within the cutoff is recorded at its shortest hop count, no count exceeds a non-negative cutoff, and a negative cutoff leaves only {source: 0} |
| ShortestPath.ExhaustedSearch | Mmani/embedding/geometry.py:86-96 | when a level comes out empty, every vertex reachable at all is recorded, at its shortest hop count |
| ShortestPath.ReachClosed | Mmani/embedding/geometry.py:86-92 | an empty next level means the recorded vertices are closed under further hops, so nothing farther away is reachable |
| ShortestPath.SingleSourceShortestPathLength | Mmani/embedding/geometry.py:51-96 | the returned map holds the source at 0, maps every recorded vertex to the length of its shortest path, records every vertex within the cutoff, never exceeds a non-negative cutoff, and is {source: 0} for a negative cutoff |
| ShortestPath.FirstLevelUnique | Mmani/embedding/geometry.py:90-91 | a vertex has one shortest hop count, so recording it once at the first level that reaches it is well defined |
| ShortestPath.AnswerIsUnique | Mmani/embedding/geometry.py:51-54 | two maps that both meet the contract are equal: the contract determines the answer, whatever order the sets are visited in |
| ShortestPath.HopsAreTheAnswer | Mmani/embedding/geometry.py:52-54 | a hop labelling that is 0 at the source, grows by at most one along every edge, and gives each other vertex a parent one level lower is the map of shortest path lengths |
| ShortestPath.PathGraphDoctest | Mmani/embedding/geometry.py:70-75 | on the path graph 0-1-2-3 from vertex 0 the answer is {0: 0, 1: 1, 2: 2, 3: 3} |
| ShortestPath.CompleteGraphDoctest | Mmani/embedding/geometry.py:76-77 | on `np.ones((6, 6))` from vertex 2 the answer is {0: 1, 1: 1, 2: 0, 3: 1, 4: 1, 5: 1} |
| Matrices.Guarded | Mmani/embedding/geometry.py:284-285 | after `w[w == 0] = 1` no divisor is zero; nonzero entries are kept and zeros become 1 |
| Matrices.SymmetrizedIsSymmetric | Mmani/embedding/geometry.py:275-276 | (A + Aᵀ) / 2 is symmetric |
| Matrices.DivisionsCommute | Mmani/embedding/geometry.py:294-295 | dividing columns by w and then rows by w gives the same matrix in either order |
| CooMatrices.FromDenseRoundTrip | Mmani/embedding/geometry.py:215-218 | the row-major triples of the nonzero entries stand for exactly the matrix they came from, and store no zero |
| CooMatrices.DivByRowDense | Mmani/embedding/geometry.py:258 | dividing each triple by the divisor of its row divides every row of the matrix by its guarded divisor |
| CooMatrices.DivByColDense | Mmani/embedding/geometry.py:227 | dividing each triple by the divisor of its column divides every column of the matrix by its guarded divisor |
| CooMatrices.LowerDiagonalDense | Mmani/embedding/geometry.py:228 | lowering the diagonal triples lowers each diagonal entry by the total taken off that node's diagonal triples, and leaves off-diagonal entries alone |
| CooMatrices.ScaleDataDense | Mmani/embedding/geometry.py:261 | scaling every triple by s scales the matrix by s |
| CooMatrices.DiagonalValues | Mmani/embedding/geometry.py:265 | `lap.data[diag_mask]` has one value per stored diagonal triple |
| CooMatrices.DiagonalValuesInNodeOrder | Mmani/embedding/geometry.py:265 | when the k-th stored diagonal triple belongs to node k, the m-th value of `lap.data[diag_mask]` is the matrix entry (m, m), and nodes past the last diagonal triple have 0 there |
| DenseLaplacian.UnnormalizedRowsSumToZero | Mmani/embedding/geometry.py:313-315 | the unnormalized Laplacian keeps A off the diagonal, has A[i][i] - degree[i] on it, and every row sums to 0 |
| DenseLaplacian.RandomWalkRowsSumToZero | Mmani/embedding/geometry.py:316-318 | the random-walk Laplacian is A[i][j] / degree[i] minus the identity, and every row sums to 0 |
| DenseLaplacian.GeometricRows | Mmani/embedding/geometry.py:290-312 | geometric and renormalized give lapsym with each row divided by its sum (1 for a zero sum), minus 1 on the diagonal of every node with a nonzero divisor; a row of nonzero sum then sums to 0, or to 1 when its node's divisor is zero, and a row of zero sum sums to 0 or -1 |
| DenseLaplacian.IsolatedNodeStaysZero | Mmani/embedding/geometry.py:290-312 | a node with no edges keeps a zero row and column under geometric, and under renormalized when 0 ** exponent is 0: the zero degree is handled without dividing by zero, as lines 179-181 promise |
| DenseLaplacian.IsolatedNodeDividesByZero | Mmani/embedding/geometry.py:296-299 | as written, a node with no edges has first-stage row sum 0, so the unguarded second division divides by zero |
| DenseLaplacian.GuardAgreesWhenDivisible | Mmani/embedding/geometry.py:296-299 | where every first-stage row sum is nonzero, the guarded second stage is exactly the unguarded division of the code as written |
| DenseLaplacian.StageOneSymmetric | Mmani/embedding/geometry.py:291-298 | the two-sided division keeps a symmetric graph symmetric, so lapsym is symmetric |
| DenseLaplacian.SymmetricNormalizedEntries | Mmani/embedding/geometry.py:282-289 | symmetricnormalized entry (i, j) is A[i][j] / (w[i] w[j]) with the guarded square roots of the degrees, minus 1 on the diagonal of nodes with nonzero w |
| DenseLaplacian.SymmetricNormalizedIsolatedNode | Mmani/embedding/geometry.py:283-289 | a node with no edges keeps a zero row and column, with no division by zero |
| DenseLaplacian.ScalingKeepsZeroRows | Mmani/embedding/geometry.py:320-321 | with eps > 0 every entry is multiplied by 4 / eps², otherwise nothing changes; rows that summed to 0 still do |
| DenseLaplacian.RenormalizedWithExponentOne | Mmani/embedding/geometry.py:301-312 | with exponent 1, renormalized computes exactly the geometric Laplacian |
| DenseLaplacian.LapsymAndW | Mmani/embedding/geometry.py:296-330 | asked for lapsym, only geometric and renormalized succeed; lapsym is the matrix after the two-sided division, w its row sums, and the unscaled Laplacian is lapsym divided by w with the diagonal lowered |
| DenseLaplacian.DenseErrors | Mmani/embedding/geometry.py:273-332 | a 1 × 1 graph always fails; otherwise the call succeeds unless lapsym is asked for outside geometric and renormalized; the diagonal and lapsym are returned exactly when asked for, and the diagonal is the Laplacian's |
| DenseLaplacian.Copied | Mmani/embedding/geometry.py:275-278 | the working array is fresh and holds (A + Aᵀ) / 2 or a copy of A |
| DenseLaplacian.DivideColumns | Mmani/embedding/geometry.py:286 | `lap /= w` divides column j by w[j] in place |
| DenseLaplacian.DivideRows | Mmani/embedding/geometry.py:287 | `lap /= w[:, np.newaxis]` divides row i by w[i] in place |
| DenseLaplacian.SubtractDiagonal | Mmani/embedding/geometry.py:289 | `lap[di] -= v` lowers entry (i, i) by v[i] and changes nothing else |
| DenseLaplacian.ScaleAll | Mmani/embedding/geometry.py:321 | `lap *= c` multiplies every entry by c |
| DenseLaplacian.DivideBothSides | Mmani/embedding/geometry.py:291-295 | guarding the divisor and dividing columns, then rows, leaves the first-stage matrix |
| DenseLaplacian.NormalizeTwice | Mmani/embedding/geometry.py:296-300 | w is the row-sum vector of the first stage, lapsym is a copy of it when asked for, and the array ends as the second stage, divided by the guarded row sums |
| DenseLaplacian.LaplacianDense | Mmani/embedding/geometry.py:273-332 | the in-place computation returns exactly `DenseResult`, whose properties are the lemmas above |
| SparseLaplacian.SymmetrizedCooDense | Mmani/embedding/geometry.py:209-218 | symmetrizing the triples gives triples for (A + Aᵀ) / 2, a symmetric matrix |
| SparseLaplacian.StageOneDense | Mmani/embedding/geometry.py:230-235 | the sparse two-sided division stands for the dense first stage |
| SparseLaplacian.LessOneDense | Mmani/embedding/geometry.py:228 | taking 1 off every diagonal triple lowers each node's diagonal by its number of stored diagonal triples |
| SparseLaplacian.CoreDense | Mmani/embedding/geometry.py:219-259 | as a dense matrix, each sparse variant is the dense formula, except that the diagonal drops only through stored diagonal triples: by each node's count of them, or for unnormalized by its degree once per triple |
| SparseLaplacian.SymmetricNormalizedCoreDense | Mmani/embedding/geometry.py:222-228 | sparse symmetricnormalized is the two-sided division minus each node's count of diagonal triples |
| SparseLaplacian.GeometricCoreDense | Mmani/embedding/geometry.py:230-253 | sparse geometric and renormalized are the first stage divided by its guarded row sums, minus the diagonal counts |
| SparseLaplacian.RandomWalkCoreDense | Mmani/embedding/geometry.py:257-259 | sparse randomwalk is A with rows divided by the guarded degrees, minus the diagonal counts |
| SparseLaplacian.NodeShift | Mmani/embedding/geometry.py:256 | the pairing the model uses: every diagonal triple is lowered by its own node's degree |
| SparseLaplacian.UnnormalizedTotals | Mmani/embedding/geometry.py:255-256 | with one diagonal triple per node, each node's diagonal drops by exactly its degree |
| SparseLaplacian.UnnormalizedRowsSumToZero | Mmani/embedding/geometry.py:255-256 | with one diagonal triple per node, every row of the unnormalized Laplacian sums to 0, in any storage order |
| SparseLaplacian.AgreesWithDense | Mmani/embedding/geometry.py:202-259 | with one diagonal triple per node, the sparse Laplacian is the dense one; symmetricnormalized, geometric and renormalized also need nonzero divisors, because the dense backend lowers only their diagonals |
| SparseLaplacian.UnnormalizedAsWritten | Mmani/embedding/geometry.py:255-256 | the code as written: it raises exactly when the degree vector cannot be broadcast onto the diagonal triples, and otherwise keeps the positions |
| SparseLaplacian.DegreeShiftInOrder | Mmani/embedding/geometry.py:256 | as written, when the k-th diagonal triple belongs to node k, each diagonal triple is lowered by its own node's degree |
| SparseLaplacian.AsWrittenAgreesInOrder | Mmani/embedding/geometry.py:255-256 | for diagonal triples stored in node order, the code as written succeeds and gives the model's unnormalized Laplacian |
| SparseLaplacian.MisalignedDiagonal | Mmani/embedding/geometry.py:256 | as written, with node 1's diagonal triple stored before node 0's, row 0 of the unnormalized Laplacian sums to 2, not 0 |
| SparseLaplacian.MisorderedCorrected | Mmani/embedding/geometry.py:256 | on the same example, the model's unnormalized Laplacian gives row 0 the sum 0 |
| SparseLaplacian.DiagonalValuesAreDiagonal | Mmani/embedding/geometry.py:265 | with one diagonal triple per node, stored in node order, `lap.data[diag_mask]` is the diagonal of the matrix |
| SparseLaplacian.ReturnedDiagonal | Mmani/embedding/geometry.py:263-267 | on such a graph `return_diag` returns the length-N diagonal of the Laplacian returned beside it, as lines 167-168 promise |
| SparseLaplacian.StorageOrderDiagonal | Mmani/embedding/geometry.py:265 | on the misordered example the unnormalized Laplacian has diagonal [-2, 0] but `return_diag` gives [0, -2]: the values come in storage order |
| SparseLaplacian.SparseErrors | Mmani/embedding/geometry.py:202-271 | a 1 × 1 graph fails except for unnormalized; unnormalized raises the broadcast error exactly when there are two or more nodes and the number of diagonal triples is not the number of nodes (line 256); lapsym is unbound outside geometric and renormalized; the diagonal has one value per diagonal triple and w is lapsym's row sums |
| SparseLaplacian.LooplessUnnormalizedRaises | Mmani/embedding/geometry.py:255-256 | a graph of two or more nodes with no stored self-loop raises the broadcast error under unnormalized |
| SparseLaplacian.ScaledDense | Mmani/embedding/geometry.py:260-261 | scaling multiplies the matrix by 4 / eps² when eps > 0 and otherwise leaves it |
| SparseLaplacian.DivideByRow | Mmani/embedding/geometry.py:226 | `lap.data /= w[lap.row]` in place |
| SparseLaplacian.DivideByCol | Mmani/embedding/geometry.py:227 | `lap.data /= w[lap.col]` in place |
| SparseLaplacian.Lower | Mmani/embedding/geometry.py:228 | `lap.data[diag_mask] -= delta` in place: only diagonal triples change |
| SparseLaplacian.ScaleBy | Mmani/embedding/geometry.py:261 | `lap.data *= s` in place |
| SparseLaplacian.DivideBothSides | Mmani/embedding/geometry.py:231-235 | the guarded two-sided division in place leaves the first-stage triples |
| SparseLaplacian.NormalizeInPlace | Mmani/embedding/geometry.py:219-259 | the in-place variant code leaves the core Laplacian triples; for unnormalized it fails, leaving the array unchanged, exactly when the degrees cannot be broadcast onto the diagonal triples; for geometric and renormalized it also returns lapsym and w |
| SparseLaplacian.LaplacianSparse | Mmani/embedding/geometry.py:202-271 | the in-place computation returns exactly `SparseResult`, whose properties are the lemmas above |
| GraphLaplacian.LowerChar | Mmani/embedding/geometry.py:190 | capital letters become lower case and every other character is kept |
| GraphLaplacian.ParseNormed | Mmani/embedding/geometry.py:190-192 | a name is accepted exactly when its lower-case form is one of the five variant names, and then it gives that variant |
| GraphLaplacian.NameParses | Mmani/embedding/geometry.py:191 | every variant is accepted under its own name |
| GraphLaplacian.ParseIgnoresCase | Mmani/embedding/geometry.py:190 | names that lower-case alike are parsed alike |
| GraphLaplacian.NameExamples | Mmani/embedding/geometry.py:190-192 | "Geometric" and "GEOMETRIC" give geometric; "randomwalks" is rejected |
| GraphLaplacian.GraphLaplacian | Mmani/embedding/geometry.py:187-200 | a non-square graph is rejected first, then an unknown `normed`; a success is square with a known variant, and its format matches the input's; past the checks the result is that of the backend for the input's format, with the same arguments, the dense one included |
| GraphLaplacian.GraphLaplacianAsWritten | Mmani/embedding/geometry.py:187-200 | the code as written: the same checks, then the sparse backend with the same arguments, and the dense backend with `return_lapsym` False, so a dense graph never gets lapsym or w back |
| GraphLaplacian.DenseLapsymDropped | Mmani/embedding/geometry.py:200 | asked for lapsym on a dense geometric graph, the code as written omits it; the corrected dispatch returns the first stage and its row sums |
| GraphLaplacian.Validation | Mmani/embedding/geometry.py:187-192 | the result is the non-square error exactly when the graph is not square, and the unknown-normed error exactly when the graph is square and no variant has that lower-case name |
| NeighborsGraph.Queried | Mmani/embedding/geometry.py:391-392 | one radius query per point, in point order |
| NeighborsGraph.CooOf | Mmani/embedding/geometry.py:400 | `coo_matrix` accepts triples of equal length whose indices lie inside n × n, and then keeps them as given; otherwise it raises |
| NeighborsGraph.FlRadiusNeighborsGraph | Mmani/embedding/geometry.py:384-401 | the loop returns exactly `RadiusGraph`: the concatenated row blocks, neighbour indices and distances |
| NeighborsGraph.RadiusGraphErrors | Mmani/embedding/geometry.py:384-397 | a negative radius is rejected, exactly then; an empty data matrix fails in the concatenation, exactly when the radius is non-negative |
| NeighborsGraph.MatchingLengths | Mmani/embedding/geometry.py:392-399 | when each query gives as many distances as indices, the three concatenated arrays have the same length |
| NeighborsGraph.GraphBuilt | Mmani/embedding/geometry.py:391-400 | when each query gives as many distances as indices and every index names a point, the graph is built |
| NeighborsGraph.GraphBlocks | Mmani/embedding/geometry.py:391-400 | the graph has one triple per neighbour found; the t-th answer for point i is the triple (i, index, distance) at offset Σ_{i'<i} \|answers(i')\| + t |
| NeighborsGraph.RowsInOrder | Mmani/embedding/geometry.py:391-398 | row indices never decrease along the triples: the graph comes out row by row |
| NeighborsGraph.DistanceMatrix | Mmani/embedding/geometry.py:334-349 | every mode except the radius modes gives None; with no radius, a zero-dimensional X fails; with an index, a negative radius is rejected |
| NeighborsGraph.DefaultRadius | Mmani/embedding/geometry.py:343-346 | with no radius the index is queried with 1 / X.shape[1], which is never rejected as negative |
| NeighborsGraph.NearestNeighborsFallBack | Mmani/embedding/geometry.py:337-340 | 'nearest_neighbors' gives exactly the 'radius_neighbors' result |
| DistanceCache.Served | Mmani/embedding/geometry.py:439-442 | the cached graph is served, and `.copy()` of a missing graph raises |
| DistanceCache.DistanceMatrix.constructor | Mmani/embedding/geometry.py:405-422 | the settings are kept and nothing is cached; X is kept unless the mode is 'precomputed'; the index is built exactly when use_flann |
| DistanceCache.DistanceMatrix.GetNeighborsRadius | Mmani/embedding/geometry.py:428-429 | the stored radius |
| DistanceCache.DistanceMatrix.Computed | Mmani/embedding/geometry.py:424-438 | 'precomputed' computes nothing; any other mode runs distance_matrix on the kept data |
| DistanceCache.DistanceMatrix.GetDistanceMatrix | Mmani/embedding/geometry.py:431-442 | a passed radius is stored; with a cache and no radius, the cache is served unchanged; otherwise the graph is recomputed and cached, and a failure leaves the cache as it was |

## Left out

- affinity_matrix (line 471 onwards), symmetrize_sparse and symmetrize_sparse_coo are not part of this model.
- Building the FLANN index (`FLANN().build_index`) and `flparams_` are not modelled. The index appears only as the radius query it answers.
- scikit-learn's `radius_neighbors_graph` is a function parameter (`Fallback`), because it lies outside this repository.
- `numpy.sqrt` and `degrees ** renormalization_exponent` are opaque parameters. The lemmas that need one of their properties assume it, such as `sqrt(0) = 0` or the exponent 1.
- Floating point is not modelled. All arithmetic is on exact reals, so rounding, `inf` and `nan` do not occur.
- DenseLaplacian.LaplacianDense: requires, for randomwalk only, that every degree is nonzero (`Divisible`), because line 317 divides by the degrees with no guard. numpy would produce `inf`/`nan` with a warning.
- SparseLaplacian.LaplacianSparse: requires, for randomwalk only, a nonzero degree for the row of each stored triple (`Divisible`), for the same reason (line 258).
- GraphLaplacian.GraphLaplacian: requires the same `Divisible` condition of its backend (`Computable`).
- The second division of geometric and renormalized divides by the first-stage row sums, with a zero sum replaced by 1 (`DenseLaplacian.StageTwo` and `SparseLaplacian.Core`). That is the zero-degree handling promised at lines 179-181. Lines 299, 311, 239 and 252 as written leave the division unguarded; see the findings. In the sparse backend the two differ only where a stored triple lies in a row whose first-stage sum is zero, which needs stored zeros or weights that cancel.
- CooMatrices.DiagonalValues: the diagonal that `return_diag` gives for a sparse graph is `lap.data[diag_mask]`, the values of the stored diagonal triples in storage order, as at line 265. The docstring at lines 167-168 promises the length-N diagonal of the Laplacian. The two agree when every node stores one diagonal triple and they come in node order (`SparseLaplacian.ReturnedDiagonal`), and not otherwise (`SparseLaplacian.StorageOrderDiagonal`).
- SparseLaplacian.SparseErrors: states only the length of the returned diagonal, for the reason given in the line above.
- GraphLaplacian.LowerChar: lowers ASCII letters only; Python's `str.lower` also lowers other Unicode letters.
- The integer-to-float conversion at lines 193-194 is not modelled. Entries are reals from the start.
- The `ndim != 2` half of the check at line 187 is not modelled. A `Graph` is always two-dimensional.
- Format conversions (`tocoo`, `tolil`, the CSR result of `lap + lapt`) are modelled only by their outcome. The symmetrized triples are the nonzero entries of (A + Aᵀ) / 2 in row-major order. A sparse input to the search is given directly as its row lists (`Rows`).
- ShortestPath.SingleSourceShortestPathLength: requires the source to be a vertex index. Python would accept any hashable source, and an index out of range raises `IndexError` in `graph.rows[v]`.
- The order in which Python iterates a set does not appear in the model. The search visits each level in an arbitrary order, and `AnswerIsUnique` shows that the result does not depend on it.
- NeighborsGraph.NearestNeighborsFallBack: holds only if the name `warnings` is bound when line 338 runs. The module never imports `warnings` (its imports are lines 37-45), so it can only come through `from pyflann import *` at line 39. Otherwise 'nearest_neighbors' raises `NameError` at line 338 before the fallback. The model does not represent that error, because what pyflann exports lies outside this repository. The warning itself is not modelled either; the fallback to 'radius_neighbors' is.
- Some parameters are not modelled because the code ignores them: `mode` of fl_radius_neighbors_graph, and `symmetrize` and `n_neighbors` of distance_matrix. `gamma` and `n_neighbors` of the class are only stored.
- The object identity and aliasing of the graph that `get_distance_matrix` returns are not modelled. With `copy` and without it, the same value is returned.
- The sparse unnormalized backend raises the broadcast error of line 256 as the code does, whenever there are two or more nodes and the number of diagonal triples is not the number of nodes. Otherwise it lowers each diagonal triple by its own node's degree (`SparseLaplacian.NodeShift`). The code's storage-order pairing is modelled beside it as `SparseLaplacian.UnnormalizedAsWritten`; see the findings.
- In the four variants other than unnormalized, a node with no stored diagonal triple keeps its diagonal entry, as in the code (`SparseLaplacian.CoreDense`). The model does not add the missing triple. Unnormalized succeeds with such a node only when another node stores two diagonal triples. The node without one then keeps its diagonal entry, and the node with two is lowered by twice its degree.
- The dispatch that the rest of the model uses forwards `return_lapsym` to the dense backend. The version as written is modelled beside it; see the findings.

## Findings

| source | as written | input that shows it | evidently intended | confidence | as-written member | corrected member |
|---|---|---|---|---|---|---|
| Mmani/embedding/geometry.py:200 | the dense call does not pass `return_lapsym`, so `_laplacian_dense` always runs with False | any square numpy graph of two or more nodes with nonzero degrees, `normed='geometric'`, `return_lapsym=True`: only `lap` comes back, with no lapsym and no w | forward `return_lapsym`, as the sparse call at line 197 does, so the result carries lapsym and w | not executed | GraphLaplacian.GraphLaplacianAsWritten | GraphLaplacian.GraphLaplacian |
| Mmani/embedding/geometry.py:296-299 | after the first stage, `w = lap.sum(axis=1)` and `lap /= w[:, np.newaxis]` divide by the row sums with no guard (also lines 308-311, and 236-239 and 249-252 in the sparse backend), so a node of degree zero divides 0 by 0 | the dense graph [[0,0,0],[0,0,1],[0,1,0]] with `normed='geometric'`: row 0 of the result is 0/0 | guard the zero sums as the first stage does, so that a node of degree zero is handled without dividing by zero, as lines 179-181 say, and keeps a zero row and column | not executed | DenseLaplacian.IsolatedNodeDividesByZero | DenseLaplacian.IsolatedNodeStaysZero |
| Mmani/embedding/geometry.py:256 | `lap.data[diag_mask] -= degrees` pairs the k-th stored diagonal triple with `degrees[k]`, whatever node it belongs to, and raises when the counts differ | a 2 × 2 COO matrix with triples (1,1,1.0), (0,0,1.0), (0,1,2.0) and `normed='unnormalized'`: row 0 of the result sums to 2, not 0 | lower each diagonal triple by its own node's degree, so that every row sums to 0 | not executed | SparseLaplacian.MisalignedDiagonal | SparseLaplacian.UnnormalizedRowsSumToZero |
