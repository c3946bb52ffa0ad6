/**
 * scipy's COO sparse matrix: a shape and three parallel arrays (row, col,
 * data).  Triples may repeat a position and then add up; a position with
 * no triple is zero.  ToDense is that meaning; the per-triple data updates
 * the sparse Laplacian performs are related to the dense operations of
 * Matrices by the lemmas below.
 */
module CooMatrices {
  import opened Matrices

  datatype Coo = Coo(rows: nat, cols: nat, row: seq<nat>, col: seq<nat>, data: seq<real>)

  /** The three arrays have one entry per stored triple. */
  predicate Aligned(c: Coo) {
    |c.row| == |c.data| && |c.col| == |c.data|
  }

  /** The same shape and positions, carrying other values. */
  predicate SamePositions(c: Coo, e: Coo) {
    && e.rows == c.rows && e.cols == c.cols && e.row == c.row && e.col == c.col
    && |e.data| == |c.data|
  }

  /** Aligned, and every stored index lies inside the shape. */
  predicate WellFormed(c: Coo) {
    && Aligned(c)
    && (forall k :: 0 <= k < |c.row| ==> c.row[k] < c.rows)
    && (forall k :: 0 <= k < |c.col| ==> c.col[k] < c.cols)
  }

  /**
   * The sum, in storage order, of the values stored at (i, j): what the
   * matrix holds at (i, j).
   */
  function StoredSum(row: seq<nat>, col: seq<nat>, data: seq<real>, i: nat, j: nat): real
    requires |row| == |data| && |col| == |data|
  {
    if |data| == 0 then 0.0
    else
      var k := |data| - 1;
      StoredSum(row[..k], col[..k], data[..k], i, j) + (if row[k] == i && col[k] == j then data[k] else 0.0)
  }

  function Entry(c: Coo, i: nat, j: nat): real
    requires Aligned(c)
  {
    StoredSum(c.row, c.col, c.data, i, j)
  }

  /** `.toarray()`. */
  function ToDense(c: Coo): (m: Matrix)
    requires Aligned(c)
    ensures |m| == c.rows && forall i :: 0 <= i < |m| ==> |m[i]| == c.cols
  {
    seq(c.rows, i requires 0 <= i < c.rows => seq(c.cols, j requires 0 <= j < c.cols => Entry(c, i, j)))
  }

  predicate IsDiagonal(c: Coo, k: nat)
    requires Aligned(c) && k < |c.data|
  {
    c.row[k] == c.col[k]
  }

  /** The number of stored diagonal triples (`diag_mask.sum()`). */
  function DiagonalCount(row: seq<nat>, col: seq<nat>): nat
    requires |col| == |row|
  {
    if |row| == 0 then 0
    else
      var k := |row| - 1;
      DiagonalCount(row[..k], col[..k]) + (if row[k] == col[k] then 1 else 0)
  }

  /** `lap.data[diag_mask]`: the values of the diagonal triples, in storage order. */
  function DiagonalValues(row: seq<nat>, col: seq<nat>, data: seq<real>): (d: seq<real>)
    requires |row| == |data| && |col| == |data|
    ensures |d| == DiagonalCount(row, col)
  {
    if |data| == 0 then []
    else
      var k := |data| - 1;
      DiagonalValues(row[..k], col[..k], data[..k]) + (if row[k] == col[k] then [data[k]] else [])
  }

  /**
   * When the k-th stored diagonal triple belongs to node k, the m-th
   * diagonal value is what the matrix holds at (m, m), and every node past
   * the last diagonal triple has 0 there.
   */
  lemma {:induction false} DiagonalValuesInNodeOrder(row: seq<nat>, col: seq<nat>, data: seq<real>)
    requires |row| == |data| && |col| == |data|
    requires forall k :: 0 <= k < |row| && row[k] == col[k] ==> DiagonalCount(row[..k], col[..k]) == row[k]
    ensures var d := DiagonalValues(row, col, data);
      forall m: nat :: m < |d| ==> d[m] == StoredSum(row, col, data, m, m)
    ensures forall m: nat :: m >= DiagonalCount(row, col) ==> StoredSum(row, col, data, m, m) == 0.0
  {
    if |data| > 0 {
      var k := |data| - 1;
      var r, q, e := row[..k], col[..k], data[..k];
      forall k' | 0 <= k' < |r| && r[k'] == q[k'] ensures DiagonalCount(r[..k'], q[..k']) == r[k'] {
        assert r[..k'] == row[..k'] && q[..k'] == col[..k'];
      }
      DiagonalValuesInNodeOrder(r, q, e);
    }
  }

  // ------------------------------------------------- from a dense matrix

  /**
   * The nonzero entries of m as triples, row by row and left to right
   * within a row: the canonical form scipy leaves after an arithmetic
   * operation (duplicates summed, zeros dropped).  Collect(m, i, j) holds
   * the entries of the rows before i and of row i before column j.
   */
  function Collect(m: Matrix, i: nat, j: nat): (c: Coo)
    requires IsSquare(m) && i <= |m| && j <= |m|
    ensures WellFormed(c) && c.rows == |m| && c.cols == |m|
    ensures forall k :: 0 <= k < |c.data| ==> c.data[k] != 0.0
    decreases i, j
  {
    if j > 0 && i < |m| then
      var c := Collect(m, i, j - 1);
      if m[i][j - 1] != 0.0 then Coo(c.rows, c.cols, c.row + [i], c.col + [j - 1], c.data + [m[i][j - 1]]) else c
    else if i > 0 then Collect(m, i - 1, |m|)
    else Coo(|m|, |m|, [], [], [])
  }

  function FromDense(m: Matrix): (c: Coo)
    requires IsSquare(m)
    ensures WellFormed(c) && c.rows == |m| && c.cols == |m|
  {
    Collect(m, |m|, 0)
  }

  lemma {:induction false} CollectEntry(m: Matrix, i: nat, j: nat, r: nat, q: nat)
    requires IsSquare(m) && i <= |m| && j <= |m| && r < |m| && q < |m|
    ensures Entry(Collect(m, i, j), r, q) == if r < i || (r == i && q < j) then m[r][q] else 0.0
    decreases i, j
  {
    if j > 0 && i < |m| {
      CollectEntry(m, i, j - 1, r, q);
      var c := Collect(m, i, j - 1);
      if m[i][j - 1] != 0.0 {
        var k := |c.data|;
        assert (c.row + [i])[..k] == c.row && (c.col + [j - 1])[..k] == c.col && (c.data + [m[i][j - 1]])[..k] == c.data;
      }
    } else if i > 0 {
      CollectEntry(m, i - 1, |m|, r, q);
    }
  }

  /** Listing the nonzero entries and adding them up again gives back the matrix. */
  lemma FromDenseRoundTrip(m: Matrix)
    requires IsSquare(m)
    ensures ToDense(FromDense(m)) == m
    ensures forall k :: 0 <= k < |FromDense(m).data| ==> FromDense(m).data[k] != 0.0
  {
    forall r, q | 0 <= r < |m| && 0 <= q < |m| ensures ToDense(FromDense(m))[r][q] == m[r][q] {
      CollectEntry(m, |m|, 0, r, q);
    }
    SameEntries(ToDense(FromDense(m)), m);
  }

  // ------------------------------------------------ per-triple updates

  /** `data /= w[row]`. */
  function DivByRow(c: Coo, w: seq<real>): (d: seq<real>)
    requires Aligned(c) && forall k :: 0 <= k < |c.row| ==> c.row[k] < |w| && w[c.row[k]] != 0.0
    ensures |d| == |c.data|
  {
    seq(|c.data|, k requires 0 <= k < |c.data| => c.data[k] / w[c.row[k]])
  }

  /** `data /= w[col]`. */
  function DivByCol(c: Coo, w: seq<real>): (d: seq<real>)
    requires Aligned(c) && forall k :: 0 <= k < |c.col| ==> c.col[k] < |w| && w[c.col[k]] != 0.0
    ensures |d| == |c.data|
  {
    seq(|c.data|, k requires 0 <= k < |c.data| => c.data[k] / w[c.col[k]])
  }

  /** `data[diag_mask] -= delta`, delta given per triple: only diagonal triples change. */
  function LowerDiagonal(c: Coo, delta: seq<real>): (d: seq<real>)
    requires Aligned(c) && |delta| == |c.data|
    ensures |d| == |c.data|
  {
    seq(|c.data|, k requires 0 <= k < |c.data| => if IsDiagonal(c, k) then c.data[k] - delta[k] else c.data[k])
  }

  /** delta on the diagonal triples, zero elsewhere: what LowerDiagonal removes. */
  function Masked(c: Coo, delta: seq<real>): (d: seq<real>)
    requires Aligned(c) && |delta| == |c.data|
    ensures |d| == |c.data|
  {
    seq(|c.data|, k requires 0 <= k < |c.data| => if IsDiagonal(c, k) then delta[k] else 0.0)
  }

  /** `data *= s`. */
  function ScaleData(c: Coo, s: real): (d: seq<real>)
    requires Aligned(c)
    ensures |d| == |c.data|
  {
    seq(|c.data|, k requires 0 <= k < |c.data| => s * c.data[k])
  }

  /** Node i's total of delta over its diagonal triples. */
  function DiagonalTotals(c: Coo, delta: seq<real>): (t: seq<real>)
    requires Aligned(c) && |delta| == |c.data|
    ensures |t| == c.rows
  {
    seq(c.rows, i requires 0 <= i < c.rows => Entry(c.(data := Masked(c, delta)), i, i))
  }

  /** How many diagonal triples node i has. */
  function DiagonalCounts(c: Coo): (t: seq<real>)
    requires Aligned(c)
    ensures |t| == c.rows
  {
    DiagonalTotals(c, Ones(|c.data|))
  }

  /** New values at the same positions leave the diagonal triple counts alone. */
  lemma CountsOfSamePositions(c: Coo, e: Coo)
    requires Aligned(c) && SamePositions(c, e)
    ensures DiagonalCounts(e) == DiagonalCounts(c)
  {
    var ones := Ones(|c.data|);
    assert Masked(e, ones) == Masked(c, ones);
    assert e.(data := Masked(e, ones)) == c.(data := Masked(c, ones));
  }

  /** A sequence whose every value is s times that of the triples is ScaleData. */
  lemma ScaleDataEntries(c: Coo, d: seq<real>, s: real)
    requires Aligned(c) && |d| == |c.data|
    requires forall k :: 0 <= k < |d| ==> d[k] == s * c.data[k]
    ensures d == ScaleData(c, s)
  {
    assert forall k :: 0 <= k < |d| ==> d[k] == ScaleData(c, s)[k];
  }

  // -------------------------------------------- entries under updates

  lemma {:induction false} StoredDivided(row: seq<nat>, col: seq<nat>, c: seq<real>, e: seq<real>, i: nat, j: nat, a: real)
    requires |row| == |c| && |col| == |c| && |e| == |c| && a != 0.0
    requires forall k :: 0 <= k < |c| && row[k] == i && col[k] == j ==> e[k] == c[k] / a
    ensures StoredSum(row, col, e, i, j) == StoredSum(row, col, c, i, j) / a
  {
    if |c| > 0 {
      var k := |c| - 1;
      StoredDivided(row[..k], col[..k], c[..k], e[..k], i, j, a);
      var x := StoredSum(row[..k], col[..k], c[..k], i, j);
      var y := if row[k] == i && col[k] == j then c[k] else 0.0;
      assert StoredSum(row, col, e, i, j) == x / a + y / a;
      assert (x + y) / a == x / a + y / a;
    }
  }

  lemma {:induction false} StoredScaled(row: seq<nat>, col: seq<nat>, c: seq<real>, e: seq<real>, i: nat, j: nat, a: real)
    requires |row| == |c| && |col| == |c| && |e| == |c|
    requires forall k :: 0 <= k < |c| && row[k] == i && col[k] == j ==> e[k] == a * c[k]
    ensures StoredSum(row, col, e, i, j) == a * StoredSum(row, col, c, i, j)
  {
    if |c| > 0 {
      var k := |c| - 1;
      StoredScaled(row[..k], col[..k], c[..k], e[..k], i, j, a);
      var x := StoredSum(row[..k], col[..k], c[..k], i, j);
      var y := if row[k] == i && col[k] == j then c[k] else 0.0;
      assert a * (x + y) == a * x + a * y;
    }
  }

  lemma {:induction false} StoredLowered(row: seq<nat>, col: seq<nat>, c: seq<real>, e: seq<real>, f: seq<real>, i: nat, j: nat)
    requires |row| == |c| && |col| == |c| && |e| == |c| && |f| == |c|
    requires forall k :: 0 <= k < |c| && row[k] == i && col[k] == j ==> e[k] == c[k] - f[k]
    ensures StoredSum(row, col, e, i, j) == StoredSum(row, col, c, i, j) - StoredSum(row, col, f, i, j)
  {
    if |c| > 0 {
      var k := |c| - 1;
      StoredLowered(row[..k], col[..k], c[..k], e[..k], f[..k], i, j);
    }
  }

  lemma {:induction false} StoredZeros(row: seq<nat>, col: seq<nat>, c: seq<real>, i: nat, j: nat)
    requires |row| == |c| && |col| == |c|
    requires forall k :: 0 <= k < |c| && row[k] == i && col[k] == j ==> c[k] == 0.0
    ensures StoredSum(row, col, c, i, j) == 0.0
  {
    if |c| > 0 {
      var k := |c| - 1;
      StoredZeros(row[..k], col[..k], c[..k], i, j);
    }
  }

  // ------------------------------------ dense meaning of the updates

  /** Dividing each triple by w[row] divides each row of the dense matrix by (guarded) w. */
  lemma DivByRowDense(c: Coo, w: seq<real>)
    requires WellFormed(c) && c.rows == c.cols && |w| == c.rows
    requires forall k :: 0 <= k < |c.row| ==> w[c.row[k]] != 0.0
    ensures ToDense(c.(data := DivByRow(c, w))) == DivRows(ToDense(c), Guarded(w))
  {
    var e := c.(data := DivByRow(c, w));
    var g := Guarded(w);
    forall i, j | 0 <= i < c.rows && 0 <= j < c.cols ensures Entry(e, i, j) == Entry(c, i, j) / g[i] {
      StoredDivided(c.row, c.col, c.data, e.data, i, j, g[i]);
    }
    SameEntries(ToDense(e), DivRows(ToDense(c), g));
  }

  /** Dividing each triple by w[col] divides each column of the dense matrix by (guarded) w. */
  lemma DivByColDense(c: Coo, w: seq<real>)
    requires WellFormed(c) && c.rows == c.cols && |w| == c.rows
    requires forall k :: 0 <= k < |c.col| ==> w[c.col[k]] != 0.0
    ensures ToDense(c.(data := DivByCol(c, w))) == DivCols(ToDense(c), Guarded(w))
  {
    var e := c.(data := DivByCol(c, w));
    var g := Guarded(w);
    forall i, j | 0 <= i < c.rows && 0 <= j < c.cols ensures Entry(e, i, j) == Entry(c, i, j) / g[j] {
      StoredDivided(c.row, c.col, c.data, e.data, i, j, g[j]);
    }
    SameEntries(ToDense(e), DivCols(ToDense(c), g));
  }

  /**
   * Lowering the diagonal triples by delta lowers the dense diagonal of
   * node i by i's total of delta and leaves every other entry alone.
   */
  lemma LowerDiagonalDense(c: Coo, delta: seq<real>)
    requires Aligned(c) && c.rows == c.cols && |delta| == |c.data|
    ensures ToDense(c.(data := LowerDiagonal(c, delta))) == SubDiag(ToDense(c), DiagonalTotals(c, delta))
  {
    var e := c.(data := LowerDiagonal(c, delta));
    var f := c.(data := Masked(c, delta));
    var t := DiagonalTotals(c, delta);
    forall i, j | 0 <= i < c.rows && 0 <= j < c.cols
      ensures Entry(e, i, j) == if i == j then Entry(c, i, j) - t[i] else Entry(c, i, j)
    {
      StoredLowered(c.row, c.col, c.data, e.data, f.data, i, j);
      if i != j {
        StoredZeros(f.row, f.col, f.data, i, j);
      }
    }
    SameEntries(ToDense(e), SubDiag(ToDense(c), t));
  }

  /** Scaling every triple scales the dense matrix. */
  lemma ScaleDataDense(c: Coo, s: real)
    requires Aligned(c) && c.rows == c.cols
    ensures ToDense(c.(data := ScaleData(c, s))) == Scale(ToDense(c), s)
  {
    var e := c.(data := ScaleData(c, s));
    forall i, j | 0 <= i < c.rows && 0 <= j < c.cols ensures Entry(e, i, j) == s * Entry(c, i, j) {
      StoredScaled(c.row, c.col, c.data, e.data, i, j, s);
    }
    ScaleEntries(ToDense(c), ToDense(e), s);
  }
}
