/**
 * _laplacian_sparse: the same Laplacian variants applied to the stored
 * triples of a COO matrix.  The positions (row, col) never change; the
 * data array is divided, lowered on the diagonal triples and scaled in
 * place.  SparseResult is the value-level definition, LaplacianSparse the
 * in-place method proved to agree with it, and the lemmas say what the
 * result means as a dense matrix and when it agrees with the dense backend.
 * The unnormalized update lowers each diagonal triple by its own node's
 * degree (NodeShift); the storage-order pairing the code writes is kept
 * beside it as UnnormalizedAsWritten.
 */
module SparseLaplacian {
  import opened Common
  import opened Matrices
  import opened CooMatrices
  import DenseLaplacian

  // ------------------------------------------------------- specification

  /**
   * `lap + lapt` (the triples with row and col swapped), `data /= 2.`,
   * `tocoo()`: the nonzero entries of (A + A^T) / 2 in row-major order.
   */
  function SymmetrizedCoo(c: Coo): (s: Coo)
    requires Aligned(c) && c.rows == c.cols
    ensures WellFormed(s) && s.rows == s.cols == c.rows
  {
    FromDense(Symmetrized(ToDense(c)))
  }

  /** The triples the Laplacian is computed on. */
  function Prepared(c: Coo, symmetrize: bool): (p: Coo)
    requires WellFormed(c) && c.rows == c.cols
    ensures WellFormed(p) && p.rows == p.cols == c.rows
  {
    if symmetrize then SymmetrizedCoo(c) else c
  }

  /** `lap.sum(axis=1)`: the row sums of the dense matrix, duplicates included. */
  function Degrees(c: Coo): (d: seq<real>)
    requires Aligned(c)
    ensures |d| == c.rows
  {
    RowSums(ToDense(c))
  }

  /** The divisor vector of a variant, as in the dense backend. */
  function Divisor(c: Coo, normed: Normed, num: Numerics): (v: seq<real>)
    requires Aligned(c)
    ensures |v| == c.rows
  {
    DenseLaplacian.Divisor(ToDense(c), normed, num)
  }

  /** `w[w_zeros] = 1; data /= w[row]; data /= w[col]`. */
  function StageOne(c: Coo, v: seq<real>): (s: Coo)
    requires WellFormed(c) && c.rows == c.cols && |v| == c.rows
    ensures WellFormed(s) && s.rows == c.rows && s.cols == c.cols && s.row == c.row && s.col == c.col
  {
    var g := Guarded(v);
    var once := c.(data := DivByRow(c, g));
    once.(data := DivByCol(once, g))
  }

  /** `data[diag_mask] -= 1.`: every stored diagonal triple loses 1. */
  function LessOne(c: Coo): (s: Coo)
    requires WellFormed(c)
    ensures WellFormed(s) && s.rows == c.rows && s.cols == c.cols && s.row == c.row && s.col == c.col
  {
    c.(data := LowerDiagonal(c, Ones(|c.data|)))
  }

  /**
   * What `lap.data[diag_mask] -= degrees` subtracts from each triple: numpy
   * pairs the k-th diagonal triple with degrees[k], whatever its node; a
   * single-node degree vector is a scalar and goes to every diagonal triple.
   */
  function DegreeShift(row: seq<nat>, col: seq<nat>, d: seq<real>): (delta: seq<real>)
    requires |col| == |row| && (|d| == 1 || DiagonalCount(row, col) <= |d|)
    ensures |delta| == |row|
  {
    if |row| == 0 then []
    else
      var k := |row| - 1;
      DegreeShift(row[..k], col[..k], d)
        + [if row[k] == col[k] then d[if |d| == 1 then 0 else DiagonalCount(row[..k], col[..k])] else 0.0]
  }

  /**
   * What the unnormalized update evidently intends to subtract: every
   * diagonal triple is lowered by its own node's degree, wherever it is
   * stored.  The model uses this pairing; DegreeShift is the one written.
   */
  function NodeShift(c: Coo, d: seq<real>): (delta: seq<real>)
    requires WellFormed(c) && |d| == c.rows
    ensures |delta| == |c.data|
    ensures forall k :: 0 <= k < |c.data| && c.row[k] == c.col[k] ==> delta[k] == d[c.row[k]]
  {
    seq(|c.data|, k requires 0 <= k < |c.data| => if c.row[k] == c.col[k] then d[c.row[k]] else 0.0)
  }

  /** numpy can broadcast the degree vector onto the diagonal triples. */
  predicate Broadcastable(c: Coo)
    requires Aligned(c)
  {
    c.rows == 1 || DiagonalCount(c.row, c.col) == c.rows
  }

  /**
   * The division the source leaves unguarded has a nonzero divisor for
   * every stored triple: the degree of its row for randomwalk.
   */
  predicate Divisible(c: Coo, normed: Normed, num: Numerics)
    requires WellFormed(c) && c.rows == c.cols
  {
    c.rows != 1 && normed.RandomWalk? ==> forall k :: 0 <= k < |c.row| ==> Degrees(c)[c.row[k]] != 0.0
  }

  /** The Laplacian triples of each variant, before scaling. */
  function Core(c: Coo, normed: Normed, num: Numerics): (l: Coo)
    requires WellFormed(c) && c.rows == c.cols && Divisible(c, normed, num)
    requires !normed.Unnormalized? ==> c.rows != 1
    ensures WellFormed(l) && l.rows == c.rows && l.cols == c.cols && l.row == c.row && l.col == c.col
  {
    match normed
    case SymmetricNormalized => LessOne(StageOne(c, Divisor(c, normed, num)))
    case Geometric =>
      var s := StageOne(c, Divisor(c, normed, num));
      LessOne(s.(data := DivByRow(s, Guarded(Degrees(s)))))
    case Renormalized =>
      var s := StageOne(c, Divisor(c, normed, num));
      LessOne(s.(data := DivByRow(s, Guarded(Degrees(s)))))
    case Unnormalized => c.(data := LowerDiagonal(c, NodeShift(c, Degrees(c))))
    case RandomWalk => LessOne(c.(data := DivByRow(c, Degrees(c))))
  }

  /** `if scaling_epps > 0.: lap.data *= 4/(scaling_epps**2)`. */
  function Scaled(c: Coo, eps: real): (s: Coo)
    requires Aligned(c)
    ensures Aligned(s) && s.rows == c.rows && s.cols == c.cols && s.row == c.row && s.col == c.col
  {
    if eps > 0.0 then c.(data := ScaleData(c, 4.0 / (eps * eps))) else c
  }

  /** What _laplacian_sparse returns or raises. */
  function SparseResult(csgraph: Coo, normed: Normed, symmetrize: bool, eps: real, num: Numerics,
                        returnDiag: bool, returnLapsym: bool): Result<Output<Coo>>
    requires WellFormed(csgraph) && csgraph.rows == csgraph.cols
    requires Divisible(Prepared(csgraph, symmetrize), normed, num)
  {
    var c := Prepared(csgraph, symmetrize);
    if c.rows == 1 && !normed.Unnormalized? then Err(SingleNode)
    else if normed.Unnormalized? && !Broadcastable(c) then Err(DiagonalShape)
    else if returnLapsym && !(normed.Geometric? || normed.Renormalized?) then Err(LapsymUnbound)
    else
      var lap := Scaled(Core(c, normed, num), eps);
      var s := StageOne(c, Divisor(c, normed, num));
      Ok(Output(lap,
                if returnDiag then Some(DiagonalValues(lap.row, lap.col, lap.data)) else None,
                if returnLapsym then Some(s) else None,
                if returnLapsym then Some(Degrees(s)) else None))
  }

  // ------------------------------------------------ meaning as a matrix

  /** Symmetrizing the triples symmetrizes the matrix they stand for. */
  lemma SymmetrizedCooDense(c: Coo)
    requires Aligned(c) && c.rows == c.cols
    ensures ToDense(SymmetrizedCoo(c)) == Symmetrized(ToDense(c))
    ensures IsSymmetric(ToDense(SymmetrizedCoo(c)))
  {
    FromDenseRoundTrip(Symmetrized(ToDense(c)));
  }

  /** The first stage divides the matrix on both sides, as the dense backend's first stage does. */
  lemma StageOneDense(c: Coo, v: seq<real>)
    requires WellFormed(c) && c.rows == c.cols && |v| == c.rows
    ensures ToDense(StageOne(c, v)) == DenseLaplacian.StageOne(ToDense(c), v)
  {
    var g := Guarded(v);
    var once := c.(data := DivByRow(c, g));
    DivByRowDense(c, g);
    DivByColDense(once, g);
    assert Guarded(g) == g;
    DivisionsCommute(ToDense(c), g, g);
  }

  /** Taking one off every diagonal triple lowers node i's diagonal by its number of diagonal triples. */
  lemma LessOneDense(c: Coo)
    requires WellFormed(c) && c.rows == c.cols
    ensures ToDense(LessOne(c)) == SubDiag(ToDense(c), DiagonalCounts(c))
  {
    LowerDiagonalDense(c, Ones(|c.data|));
  }

  /**
   * What each variant computes, as a dense matrix A: the dense formulas,
   * except that the diagonal is lowered by each node's number of stored
   * diagonal triples (not by 1 - w_zeros or by the identity), the row
   * divisions only meet rows that store something (so a zero divisor
   * there reads as 1), and unnormalized lowers each node by the degrees
   * its diagonal triples were paired with.
   */
  lemma CoreDense(c: Coo, normed: Normed, num: Numerics)
    requires WellFormed(c) && c.rows == c.cols && Divisible(c, normed, num)
    requires !normed.Unnormalized? ==> c.rows != 1
    ensures var a := ToDense(c);
      var s := DenseLaplacian.StageOne(a, Divisor(c, normed, num));
      ToDense(Core(c, normed, num)) ==
        match normed
        case SymmetricNormalized => SubDiag(s, DiagonalCounts(c))
        case Geometric => SubDiag(DivRows(s, Guarded(RowSums(s))), DiagonalCounts(c))
        case Renormalized => SubDiag(DivRows(s, Guarded(RowSums(s))), DiagonalCounts(c))
        case Unnormalized => SubDiag(a, DiagonalTotals(c, NodeShift(c, Degrees(c))))
        case RandomWalk => SubDiag(DivRows(a, Guarded(Degrees(c))), DiagonalCounts(c))
  {
    var v := Divisor(c, normed, num);
    match normed
    case SymmetricNormalized =>
      SymmetricNormalizedCoreDense(c, v);
    case Geometric =>
      GeometricCoreDense(c, v);
    case Renormalized =>
      GeometricCoreDense(c, v);
    case Unnormalized =>
      LowerDiagonalDense(c, NodeShift(c, Degrees(c)));
    case RandomWalk =>
      RandomWalkCoreDense(c);
  }

  lemma SymmetricNormalizedCoreDense(c: Coo, v: seq<real>)
    requires WellFormed(c) && c.rows == c.cols && |v| == c.rows
    ensures ToDense(LessOne(StageOne(c, v))) == SubDiag(DenseLaplacian.StageOne(ToDense(c), v), DiagonalCounts(c))
  {
    StageOneDense(c, v);
    LessOneDense(StageOne(c, v));
    CountsOfSamePositions(c, StageOne(c, v));
  }

  lemma GeometricCoreDense(c: Coo, v: seq<real>)
    requires WellFormed(c) && c.rows == c.cols && |v| == c.rows
    ensures var s := StageOne(c, v);
      var sd := DenseLaplacian.StageOne(ToDense(c), v);
      ToDense(LessOne(s.(data := DivByRow(s, Guarded(Degrees(s)))))) == SubDiag(DivRows(sd, Guarded(RowSums(sd))), DiagonalCounts(c))
  {
    var s := StageOne(c, v);
    var twice := s.(data := DivByRow(s, Guarded(Degrees(s))));
    StageOneDense(c, v);
    DivByRowDense(s, Guarded(Degrees(s)));
    assert Guarded(Guarded(Degrees(s))) == Guarded(Degrees(s));
    LessOneDense(twice);
    CountsOfSamePositions(c, twice);
  }

  lemma RandomWalkCoreDense(c: Coo)
    requires WellFormed(c) && c.rows == c.cols
    requires forall k :: 0 <= k < |c.row| ==> Degrees(c)[c.row[k]] != 0.0
    ensures ToDense(LessOne(c.(data := DivByRow(c, Degrees(c))))) == SubDiag(DivRows(ToDense(c), Guarded(Degrees(c))), DiagonalCounts(c))
  {
    var once := c.(data := DivByRow(c, Degrees(c)));
    DivByRowDense(c, Degrees(c));
    LessOneDense(once);
    CountsOfSamePositions(c, once);
  }

  // ------------------------------------------ agreement with the dense

  /** Every node stores exactly one diagonal triple. */
  predicate OneDiagonalPerNode(c: Coo)
    requires Aligned(c)
  {
    DiagonalCounts(c) == Ones(c.rows)
  }

  /** The k-th stored diagonal triple is node k's. */
  predicate DiagonalInNodeOrder(c: Coo)
    requires Aligned(c)
  {
    forall k :: 0 <= k < |c.row| && c.row[k] == c.col[k] ==> DiagonalCount(c.row[..k], c.col[..k]) == c.row[k]
  }

  /** With the diagonal triples in node order, each one is paired with its own node's degree. */
  lemma {:induction false} DegreeShiftInOrder(row: seq<nat>, col: seq<nat>, d: seq<real>)
    requires |col| == |row| && |d| != 1 && DiagonalCount(row, col) <= |d|
    requires forall k :: 0 <= k < |row| && row[k] == col[k] ==> DiagonalCount(row[..k], col[..k]) == row[k]
    ensures forall k :: 0 <= k < |row| && row[k] == col[k] ==> row[k] < |d| && DegreeShift(row, col, d)[k] == d[row[k]]
  {
    if |row| > 0 {
      var n := |row| - 1;
      forall k | 0 <= k < n && row[..n][k] == col[..n][k]
        ensures DiagonalCount(row[..n][..k], col[..n][..k]) == row[..n][k]
      {
        assert row[..n][..k] == row[..k] && col[..n][..k] == col[..k];
      }
      DegreeShiftInOrder(row[..n], col[..n], d);
    }
  }

  /** If every diagonal triple of node i is lowered by x, node i's total is x times its count. */
  lemma TotalOfPairing(c: Coo, delta: seq<real>, i: nat, x: real)
    requires Aligned(c) && |delta| == |c.data| && i < c.rows
    requires forall k :: 0 <= k < |c.data| && c.row[k] == i && c.col[k] == i ==> delta[k] == x
    ensures DiagonalTotals(c, delta)[i] == x * DiagonalCounts(c)[i]
  {
    var ones := Masked(c, Ones(|c.data|));
    var masked := Masked(c, delta);
    forall k | 0 <= k < |c.data| && c.row[k] == i && c.col[k] == i
      ensures masked[k] == x * ones[k]
    {
      assert IsDiagonal(c, k);
    }
    StoredScaled(c.row, c.col, ones, masked, i, i, x);
    assert DiagonalCounts(c)[i] == StoredSum(c.row, c.col, ones, i, i);
  }

  /** Node i's diagonal triples are lowered by degree[i] each, so its diagonal by degree[i] times their number. */
  lemma UnnormalizedTotal(c: Coo, i: nat)
    requires WellFormed(c) && c.rows == c.cols && i < c.rows
    ensures DiagonalTotals(c, NodeShift(c, Degrees(c)))[i] == Degrees(c)[i] * DiagonalCounts(c)[i]
  {
    TotalOfPairing(c, NodeShift(c, Degrees(c)), i, Degrees(c)[i]);
  }

  /** ... so with one diagonal triple per node, by exactly its degree. */
  lemma UnnormalizedTotals(c: Coo)
    requires WellFormed(c) && c.rows == c.cols && OneDiagonalPerNode(c)
    ensures DiagonalTotals(c, NodeShift(c, Degrees(c))) == Degrees(c)
  {
    var d := Degrees(c);
    forall i | 0 <= i < c.rows
      ensures DiagonalTotals(c, NodeShift(c, d))[i] == d[i]
    {
      UnnormalizedTotal(c, i);
      assert DiagonalCounts(c)[i] == 1.0;
      assert d[i] * DiagonalCounts(c)[i] == d[i] * 1.0;
    }
  }

  /**
   * When every node stores exactly one diagonal triple and, for the
   * variants that lower the diagonal only where the divisor is nonzero, no
   * divisor is zero, the sparse backend computes the dense backend's
   * Laplacian.
   */
  lemma AgreesWithDense(c: Coo, normed: Normed, num: Numerics)
    requires WellFormed(c) && c.rows == c.cols && c.rows != 1 && Divisible(c, normed, num)
    requires DenseLaplacian.Divisible(ToDense(c), normed, num)
    requires OneDiagonalPerNode(c)
    requires normed.SymmetricNormalized? || normed.Geometric? || normed.Renormalized? ==> NonZero(Divisor(c, normed, num))
    ensures ToDense(Core(c, normed, num)) == DenseLaplacian.Core(ToDense(c), normed, num)
  {
    var a := ToDense(c);
    var n := c.rows;
    var v := Divisor(c, normed, num);
    CoreDense(c, normed, num);
    match normed
    case SymmetricNormalized =>
      assert NonZeroFlags(v) == Ones(n);
    case Geometric =>
      assert NonZeroFlags(v) == Ones(n);
    case Renormalized =>
      assert NonZeroFlags(v) == Ones(n);
    case Unnormalized =>
      UnnormalizedTotals(c);
    case RandomWalk =>
      assert Guarded(Degrees(c)) == Degrees(c);
      assert DiagonalCounts(c) == Ones(n);
  }

  /** The stored sums of the three triples (1,1), (0,0), (0,1) carrying x, y, z. */
  lemma ThreeTriples(x: real, y: real, z: real, i: nat, j: nat)
    ensures StoredSum([1, 0, 0], [1, 0, 1], [x, y, z], i, j)
         == (if i == 1 && j == 1 then x else 0.0) + (if i == 0 && j == 0 then y else 0.0)
          + (if i == 0 && j == 1 then z else 0.0)
  {
    var row: seq<nat>, col: seq<nat>, data := [1, 0, 0], [1, 0, 1], [x, y, z];
    assert row[..2] == [1, 0] && col[..2] == [1, 0] && data[..2] == [x, y];
    assert [1, 0][..1] == [1] && [x, y][..1] == [x];
    assert [1][..0] == [] && [x][..0] == [];
    assert StoredSum([1], [1], [x], i, j) == 0.0 + (if i == 1 && j == 1 then x else 0.0);
    assert StoredSum([1, 0], [1, 0], [x, y], i, j)
        == StoredSum([1], [1], [x], i, j) + (if i == 0 && j == 0 then y else 0.0);
  }

  lemma PairSum(a: real, b: real)
    ensures Sum([a, b]) == a + b
  {
    assert [a, b][..1] == [a] && [a][..0] == [];
    assert Sum([a]) == 0.0 + a;
  }

  /** Node 1's diagonal triple stored before node 0's, and an edge from 0 to 1 of weight 2. */
  const Misordered := Coo(2, 2, [1, 0, 0], [1, 0, 1], [1.0, 1.0, 2.0])

  lemma MisorderedDiagonals()
    ensures WellFormed(Misordered) && DiagonalCount(Misordered.row, Misordered.col) == 2
    ensures DiagonalCount(Misordered.row[..1], Misordered.col[..1]) == 1
  {
    var c := Misordered;
    assert c.row[..2] == [1, 0] && c.col[..2] == [1, 0];
    assert c.row[..2][..1] == [1] && c.col[..2][..1] == [1];
    assert c.row[..1] == [1] && c.col[..1] == [1];
    assert c.row[..2][..1][..0] == [] && c.col[..2][..1][..0] == [];
    assert DiagonalCount([1], [1]) == 1;
    assert DiagonalCount([1, 0], [1, 0]) == 2;
  }

  lemma MisorderedDegrees()
    ensures Aligned(Misordered) && Degrees(Misordered) == [3.0, 1.0]
  {
    var c := Misordered;
    ThreeTriples(1.0, 1.0, 2.0, 0, 0);
    ThreeTriples(1.0, 1.0, 2.0, 0, 1);
    ThreeTriples(1.0, 1.0, 2.0, 1, 0);
    ThreeTriples(1.0, 1.0, 2.0, 1, 1);
    var a := ToDense(c);
    assert a[0] == [1.0, 2.0] && a[1] == [0.0, 1.0];
    PairSum(1.0, 2.0);
    PairSum(0.0, 1.0);
  }

  /**
   * `lap.data[diag_mask] -= degrees` as written: numpy raises unless the
   * degree vector broadcasts onto the diagonal triples, and then lowers
   * the k-th diagonal triple by degrees[k] (DegreeShift).
   */
  function UnnormalizedAsWritten(c: Coo): (r: Result<Coo>)
    requires WellFormed(c) && c.rows == c.cols
    ensures r.Err? <==> !Broadcastable(c)
    ensures r.Err? ==> r.error == DiagonalShape
    ensures r.Ok? ==> WellFormed(r.value) && r.value.row == c.row && r.value.col == c.col
  {
    if !Broadcastable(c) then Err(DiagonalShape)
    else Ok(c.(data := LowerDiagonal(c, DegreeShift(c.row, c.col, Degrees(c)))))
  }

  /**
   * The pairing at line 256 follows storage order, not nodes: with the
   * diagonal of node 1 stored before that of node 0, node 0's row of the
   * unnormalized Laplacian as written sums to 2 instead of 0.
   */
  lemma MisalignedDiagonal()
    ensures WellFormed(Misordered) && Misordered.rows == Misordered.cols
    ensures OneDiagonalPerNode(Misordered) && !DiagonalInNodeOrder(Misordered)
    ensures var r := UnnormalizedAsWritten(Misordered);
      r.Ok? && Sum(ToDense(r.value)[0]) == 2.0
  {
    var c := Misordered;
    MisorderedDiagonals();
    MisorderedDegrees();
    MisorderedCounts();
    assert DegreeShift(c.row, c.col, [3.0, 1.0]) == [3.0, 1.0, 0.0];
    var l := UnnormalizedAsWritten(c).value;
    assert l.data == [-2.0, 0.0, 2.0];
    ThreeTriples(-2.0, 0.0, 2.0, 0, 0);
    ThreeTriples(-2.0, 0.0, 2.0, 0, 1);
    assert ToDense(l)[0] == [0.0, 2.0];
    PairSum(0.0, 2.0);
  }

  lemma MisorderedCounts()
    ensures Aligned(Misordered) && DiagonalCounts(Misordered) == [1.0, 1.0]
  {
    var c := Misordered;
    var ones := Masked(c, Ones(3));
    assert ones == [1.0, 1.0, 0.0];
    ThreeTriples(1.0, 1.0, 0.0, 0, 0);
    ThreeTriples(1.0, 1.0, 0.0, 1, 1);
  }

  /**
   * With one diagonal triple per node, the node-paired unnormalized
   * Laplacian has rows that sum to zero, whatever the storage order.
   */
  lemma UnnormalizedRowsSumToZero(c: Coo, num: Numerics, i: nat)
    requires WellFormed(c) && c.rows == c.cols && OneDiagonalPerNode(c) && i < c.rows
    ensures Sum(ToDense(Core(c, Unnormalized, num))[i]) == 0.0
  {
    var d := Degrees(c);
    UnnormalizedTotal(c, i);
    assert DiagonalCounts(c)[i] == 1.0;
    assert d[i] * DiagonalCounts(c)[i] == d[i] * 1.0;
    LowerDiagonalDense(c, NodeShift(c, d));
    SubDiagRowSum(ToDense(c), DiagonalTotals(c, NodeShift(c, d)), i);
  }

  /**
   * For diagonal triples stored in node order the code as written succeeds
   * and agrees with the node-paired Laplacian: the correction changes
   * nothing there.
   */
  lemma AsWrittenAgreesInOrder(c: Coo, num: Numerics)
    requires WellFormed(c) && c.rows == c.cols && c.rows != 1 && Broadcastable(c) && DiagonalInNodeOrder(c)
    ensures UnnormalizedAsWritten(c) == Ok(Core(c, Unnormalized, num))
  {
    DegreeShiftInOrder(c.row, c.col, Degrees(c));
    assert LowerDiagonal(c, NodeShift(c, Degrees(c))) == LowerDiagonal(c, DegreeShift(c.row, c.col, Degrees(c)));
  }

  /** On the misordered example the node-paired Laplacian does give row 0 the sum zero. */
  lemma MisorderedCorrected(num: Numerics)
    ensures WellFormed(Misordered) && Misordered.rows == Misordered.cols
    ensures Sum(ToDense(Core(Misordered, Unnormalized, num))[0]) == 0.0
  {
    MisorderedDiagonals();
    MisorderedCounts();
    UnnormalizedRowsSumToZero(Misordered, num, 0);
  }

  // ---------------------------------------------------- returned diagonal

  /**
   * When every node stores one diagonal triple and they come in node order,
   * the values of the diagonal triples are the diagonal of the matrix.
   */
  lemma DiagonalValuesAreDiagonal(c: Coo)
    requires WellFormed(c) && c.rows == c.cols
    requires DiagonalCount(c.row, c.col) == c.rows && DiagonalInNodeOrder(c)
    ensures DiagonalValues(c.row, c.col, c.data) == Diagonal(ToDense(c))
  {
    DiagonalValuesInNodeOrder(c.row, c.col, c.data);
  }

  /**
   * `return_diag` on such a graph returns the length-N diagonal of the
   * Laplacian returned beside it, as the documentation promises.
   */
  lemma ReturnedDiagonal(csgraph: Coo, normed: Normed, symmetrize: bool, eps: real, num: Numerics, returnLapsym: bool)
    requires WellFormed(csgraph) && csgraph.rows == csgraph.cols
    requires Divisible(Prepared(csgraph, symmetrize), normed, num)
    requires var c := Prepared(csgraph, symmetrize);
      DiagonalCount(c.row, c.col) == c.rows && DiagonalInNodeOrder(c)
    ensures var r := SparseResult(csgraph, normed, symmetrize, eps, num, true, returnLapsym);
      r.Ok? ==> r.value.diag == Some(Diagonal(ToDense(r.value.lap))) && |r.value.diag.value| == csgraph.rows
  {
    var r := SparseResult(csgraph, normed, symmetrize, eps, num, true, returnLapsym);
    if r.Ok? {
      DiagonalValuesAreDiagonal(r.value.lap);
    }
  }

  /**
   * Out of node order the returned values are the diagonal in storage
   * order: on the misordered example the unnormalized Laplacian has the
   * diagonal [-2, 0], yet `lap.data[diag_mask]` is [0, -2].
   */
  lemma StorageOrderDiagonal(num: Numerics)
    ensures WellFormed(Misordered) && Misordered.rows == Misordered.cols
    ensures var r := SparseResult(Misordered, Unnormalized, false, 0.0, num, true, false);
      && r.Ok? && r.value.diag == Some([0.0, -2.0])
      && Diagonal(ToDense(r.value.lap)) == [-2.0, 0.0]
  {
    var c := Misordered;
    MisorderedDiagonals();
    MisorderedDegrees();
    var l := Core(c, Unnormalized, num);
    assert l.data == [0.0, -2.0, 2.0];
    assert l.row[..2] == [1, 0] && l.col[..2] == [1, 0] && l.data[..2] == [0.0, -2.0];
    assert [1, 0][..1] == [1] && [0.0, -2.0][..1] == [0.0];
    assert [1][..0] == [] && [0.0][..0] == [];
    assert DiagonalValues(l.row, l.col, l.data) == [0.0, -2.0];
    ThreeTriples(0.0, -2.0, 2.0, 0, 0);
    ThreeTriples(0.0, -2.0, 2.0, 1, 1);
  }

  // ------------------------------------------------------------ results

  /**
   * A 1 x 1 graph fails except for unnormalized; unnormalized fails when the
   * degrees cannot be broadcast onto the diagonal triples; lapsym is unbound
   * outside geometric and renormalized.  Otherwise the result is the scaled
   * core, its diagonal triples' values, the first-stage triples and their
   * row sums.
   */
  lemma SparseErrors(csgraph: Coo, normed: Normed, symmetrize: bool, eps: real, num: Numerics,
                     returnDiag: bool, returnLapsym: bool)
    requires WellFormed(csgraph) && csgraph.rows == csgraph.cols
    requires Divisible(Prepared(csgraph, symmetrize), normed, num)
    ensures var c := Prepared(csgraph, symmetrize);
      var r := SparseResult(csgraph, normed, symmetrize, eps, num, returnDiag, returnLapsym);
      && (r.Ok? <==>
            && (normed.Unnormalized? || c.rows != 1)
            && (!normed.Unnormalized? || Broadcastable(c))
            && (!returnLapsym || normed.Geometric? || normed.Renormalized?))
      && (normed.Unnormalized? && !Broadcastable(c) ==> r == Err(DiagonalShape))
      && (r.Ok? ==> (r.value.diag.Some? <==> returnDiag) && (r.value.lapsym.Some? <==> returnLapsym))
      && (r.Ok? && returnDiag ==> |r.value.diag.value| == DiagonalCount(c.row, c.col))
      && (r.Ok? && returnLapsym ==> r.value.w.Some? && r.value.w.value == Degrees(r.value.lapsym.value))
  {
  }

  /** Triples with no diagonal among them count no diagonal triple. */
  lemma {:induction false} NoDiagonalCount(row: seq<nat>, col: seq<nat>)
    requires |col| == |row| && forall k :: 0 <= k < |row| ==> row[k] != col[k]
    ensures DiagonalCount(row, col) == 0
  {
    if |row| > 0 {
      NoDiagonalCount(row[..|row| - 1], col[..|row| - 1]);
    }
  }

  /**
   * A graph of two or more nodes that stores no self-loop cannot be
   * broadcast onto, so unnormalized raises at the subtraction of the degrees.
   */
  lemma LooplessUnnormalizedRaises(csgraph: Coo, eps: real, num: Numerics, returnDiag: bool, returnLapsym: bool)
    requires WellFormed(csgraph) && csgraph.rows == csgraph.cols && csgraph.rows >= 2
    requires forall k :: 0 <= k < |csgraph.row| ==> csgraph.row[k] != csgraph.col[k]
    ensures SparseResult(csgraph, Unnormalized, false, eps, num, returnDiag, returnLapsym) == Err(DiagonalShape)
  {
    NoDiagonalCount(csgraph.row, csgraph.col);
  }

  /** Scaling multiplies the matrix by exactly 4 / eps^2 when eps > 0 and leaves it otherwise. */
  lemma ScaledDense(c: Coo, eps: real)
    requires Aligned(c) && c.rows == c.cols
    ensures ToDense(Scaled(c, eps)) == if eps > 0.0 then Scale(ToDense(c), 4.0 / (eps * eps)) else ToDense(c)
  {
    if eps > 0.0 {
      ScaleDataDense(c, 4.0 / (eps * eps));
    }
  }

  // ----------------------------------------------------------- in place

  /** `lap.data /= w[lap.row]`. */
  method DivideByRow(data: array<real>, pos: Coo, w: seq<real>)
    requires WellFormed(pos) && data.Length == |pos.data|
    requires forall k :: 0 <= k < |pos.row| ==> pos.row[k] < |w| && w[pos.row[k]] != 0.0
    modifies data
    ensures data[..] == DivByRow(pos.(data := old(data[..])), w)
  {
    forall k | 0 <= k < data.Length {
      data[k] := data[k] / w[pos.row[k]];
    }
  }

  /** `lap.data /= w[lap.col]`. */
  method DivideByCol(data: array<real>, pos: Coo, w: seq<real>)
    requires WellFormed(pos) && data.Length == |pos.data|
    requires forall k :: 0 <= k < |pos.col| ==> pos.col[k] < |w| && w[pos.col[k]] != 0.0
    modifies data
    ensures data[..] == DivByCol(pos.(data := old(data[..])), w)
  {
    forall k | 0 <= k < data.Length {
      data[k] := data[k] / w[pos.col[k]];
    }
  }

  /** `lap.data[diag_mask] -= delta`. */
  method Lower(data: array<real>, pos: Coo, delta: seq<real>)
    requires WellFormed(pos) && data.Length == |pos.data| && |delta| == |pos.data|
    modifies data
    ensures data[..] == LowerDiagonal(pos.(data := old(data[..])), delta)
  {
    forall k | 0 <= k < data.Length && pos.row[k] == pos.col[k] {
      data[k] := data[k] - delta[k];
    }
  }

  /** `lap.data *= s`. */
  method ScaleBy(data: array<real>, pos: Coo, s: real)
    requires WellFormed(pos) && data.Length == |pos.data|
    modifies data
    ensures data[..] == ScaleData(pos.(data := old(data[..])), s)
  {
    ghost var before := data[..];
    forall k | 0 <= k < data.Length {
      data[k] := s * data[k];
    }
    assert forall k :: 0 <= k < data.Length ==> data[..][k] == s * before[k];
    ScaleDataEntries(pos.(data := before), data[..], s);
  }

  /** The two-sided division by the guarded divisor. */
  method DivideBothSides(data: array<real>, pos: Coo, v: seq<real>)
    requires WellFormed(pos) && pos.rows == pos.cols && |v| == pos.rows && data.Length == |pos.data|
    modifies data
    ensures data[..] == StageOne(pos.(data := old(data[..])), v).data
  {
    var w := Guarded(v);
    DivideByRow(data, pos, w);
    DivideByCol(data, pos, w);
  }

  /**
   * The variant's own steps on the data array; for geometric and
   * renormalized also the intermediate triples and row sums (`lapsym`, `w`).
   * ok is false when unnormalized cannot broadcast the degrees onto the
   * diagonal triples: numpy raises before writing, so the array is unchanged.
   */
  method NormalizeInPlace(data: array<real>, lap: Coo, normed: Normed, num: Numerics)
    returns (ok: bool, lapsym: Coo, w: seq<real>)
    requires WellFormed(lap) && lap.rows == lap.cols && data[..] == lap.data && Divisible(lap, normed, num)
    requires !normed.Unnormalized? ==> lap.rows != 1
    modifies data
    ensures ok <==> !normed.Unnormalized? || Broadcastable(lap)
    ensures ok ==> lap.(data := data[..]) == Core(lap, normed, num)
    ensures !ok ==> data[..] == old(data[..])
    ensures normed.Geometric? || normed.Renormalized? ==>
      lapsym == StageOne(lap, Divisor(lap, normed, num)) && w == Degrees(lapsym)
  {
    ok, lapsym, w := true, lap, [];
    var degrees := Degrees(lap);
    match normed {
      case SymmetricNormalized =>
        DivideBothSides(data, lap, MapVec(num.sqrt, degrees));
        Lower(data, lap, Ones(data.Length));
      case Geometric =>
        DivideBothSides(data, lap, degrees);
        lapsym := lap.(data := data[..]);
        w := Degrees(lapsym);
        DivideByRow(data, lap, Guarded(w));
        Lower(data, lap, Ones(data.Length));
      case Renormalized =>
        DivideBothSides(data, lap, MapVec(num.power, degrees));
        lapsym := lap.(data := data[..]);
        w := Degrees(lapsym);
        DivideByRow(data, lap, Guarded(w));
        Lower(data, lap, Ones(data.Length));
      case Unnormalized =>
        if !Broadcastable(lap) {
          return false, lapsym, w;
        }
        Lower(data, lap, NodeShift(lap, degrees));
      case RandomWalk =>
        DivideByRow(data, lap, degrees);
        Lower(data, lap, Ones(data.Length));
    }
  }

  /** _laplacian_sparse, step by step on a fresh data array. */
  method LaplacianSparse(csgraph: Coo, normed: Normed, symmetrize: bool, eps: real, num: Numerics,
                         returnDiag: bool, returnLapsym: bool)
    returns (r: Result<Output<Coo>>)
    requires WellFormed(csgraph) && csgraph.rows == csgraph.cols
    requires Divisible(Prepared(csgraph, symmetrize), normed, num)
    ensures r == SparseResult(csgraph, normed, symmetrize, eps, num, returnDiag, returnLapsym)
  {
    var lap := Prepared(csgraph, symmetrize);
    if lap.rows == 1 && !normed.Unnormalized? {
      return Err(SingleNode);
    }
    var data := new real[|lap.data|](k requires 0 <= k < |lap.data| => lap.data[k]);
    assert data[..] == lap.data;
    var ok, lapsym, w := NormalizeInPlace(data, lap, normed, num);
    if !ok {
      return Err(DiagonalShape);
    }
    if eps > 0.0 {
      ScaleBy(data, lap, 4.0 / (eps * eps));
    }
    var result := lap.(data := data[..]);
    if returnLapsym && !(normed.Geometric? || normed.Renormalized?) {
      return Err(LapsymUnbound);
    }
    r := Ok(Output(result,
                   if returnDiag then Some(DiagonalValues(result.row, result.col, result.data)) else None,
                   if returnLapsym then Some(lapsym) else None,
                   if returnLapsym then Some(w) else None));
  }
}
