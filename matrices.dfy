/**
 * Dense matrices as sequences of rows of exact reals, and the elementwise
 * operations numpy performs on them in the Laplacian code: row sums,
 * broadcast division by a vector along columns or rows, a change of the
 * diagonal, scaling, and (A + A^T) / 2.
 */
module Matrices {

  type Matrix = seq<seq<real>>

  /** n rows of n entries each. */
  predicate IsSquare(m: Matrix) {
    forall i :: 0 <= i < |m| ==> |m[i]| == |m|
  }

  predicate NonZero(w: seq<real>) {
    forall j :: 0 <= j < |w| ==> w[j] != 0.0
  }

  /** Left-to-right sum, the order in which a row is accumulated. */
  function Sum(s: seq<real>): real {
    if s == [] then 0.0 else Sum(s[..|s| - 1]) + s[|s| - 1]
  }

  /** `m.sum(axis=1)`: the degree vector when m is an adjacency matrix. */
  function RowSums(m: Matrix): (d: seq<real>)
    ensures |d| == |m|
  {
    seq(|m|, i requires 0 <= i < |m| => Sum(m[i]))
  }

  /** `w[w == 0] = 1`: every zero entry becomes the divisor 1. */
  function Guarded(w: seq<real>): (r: seq<real>)
    ensures |r| == |w| && NonZero(r)
    ensures forall j :: 0 <= j < |w| && w[j] != 0.0 ==> r[j] == w[j]
    ensures forall j :: 0 <= j < |w| && w[j] == 0.0 ==> r[j] == 1.0
  {
    seq(|w|, j requires 0 <= j < |w| => if w[j] == 0.0 then 1.0 else w[j])
  }

  /** `1 - (w == 0)`: 0 where w is zero, 1 elsewhere. */
  function NonZeroFlags(w: seq<real>): (r: seq<real>)
    ensures |r| == |w|
  {
    seq(|w|, j requires 0 <= j < |w| => if w[j] == 0.0 then 0.0 else 1.0)
  }

  function Ones(n: nat): (r: seq<real>)
    ensures |r| == n
  {
    seq(n, j => 1.0)
  }

  /** A numpy ufunc applied to every entry of a vector. */
  function MapVec(f: real -> real, v: seq<real>): (r: seq<real>)
    ensures |r| == |v|
  {
    seq(|v|, j requires 0 <= j < |v| => f(v[j]))
  }

  /** `lap /= w`: column j divided by w[j]. */
  function DivCols(m: Matrix, w: seq<real>): (r: Matrix)
    requires IsSquare(m) && |w| == |m| && NonZero(w)
    ensures |r| == |m| && IsSquare(r)
  {
    seq(|m|, i requires 0 <= i < |m| =>
      seq(|m|, j requires 0 <= j < |m| => m[i][j] / w[j]))
  }

  /** `lap /= w[:, np.newaxis]`: row i divided by w[i]. */
  function DivRows(m: Matrix, w: seq<real>): (r: Matrix)
    requires IsSquare(m) && |w| == |m| && NonZero(w)
    ensures |r| == |m| && IsSquare(r)
  {
    seq(|m|, i requires 0 <= i < |m| =>
      seq(|m|, j requires 0 <= j < |m| => m[i][j] / w[i]))
  }

  /** `lap[di] -= v`: v[i] subtracted from the diagonal entry of row i. */
  function SubDiag(m: Matrix, v: seq<real>): (r: Matrix)
    requires IsSquare(m) && |v| == |m|
    ensures |r| == |m| && IsSquare(r)
  {
    seq(|m|, i requires 0 <= i < |m| =>
      seq(|m|, j requires 0 <= j < |m| => if i == j then m[i][j] - v[i] else m[i][j]))
  }

  /** `lap *= c`. */
  function Scale(m: Matrix, c: real): (r: Matrix)
    requires IsSquare(m)
    ensures |r| == |m| && IsSquare(r)
  {
    seq(|m|, i requires 0 <= i < |m| =>
      seq(|m|, j requires 0 <= j < |m| => c * m[i][j]))
  }

  /** `(A + A.T) / 2.` */
  function Symmetrized(m: Matrix): (r: Matrix)
    requires IsSquare(m)
    ensures |r| == |m| && IsSquare(r)
  {
    seq(|m|, i requires 0 <= i < |m| =>
      seq(|m|, j requires 0 <= j < |m| => (m[i][j] + m[j][i]) / 2.0))
  }

  /** `lap[di]`: the diagonal entries. */
  function Diagonal(m: Matrix): (d: seq<real>)
    requires IsSquare(m)
    ensures |d| == |m|
  {
    seq(|m|, i requires 0 <= i < |m| => m[i][i])
  }

  predicate IsSymmetric(m: Matrix)
    requires IsSquare(m)
  {
    forall i, j :: 0 <= i < |m| && 0 <= j < |m| ==> m[i][j] == m[j][i]
  }

  /** Two matrices of the same shape with the same entries are equal. */
  lemma SameEntries(a: Matrix, b: Matrix)
    requires |a| == |b| && forall i :: 0 <= i < |a| ==> |a[i]| == |b[i]|
    requires forall i, j :: 0 <= i < |a| && 0 <= j < |a[i]| ==> a[i][j] == b[i][j]
    ensures a == b
  {
    forall i | 0 <= i < |a| ensures a[i] == b[i] {
      assert forall j :: 0 <= j < |a[i]| ==> a[i][j] == b[i][j];
    }
  }

  /** A matrix whose every entry is c times that of m is Scale(m, c). */
  lemma ScaleEntries(m: Matrix, r: Matrix, c: real)
    requires IsSquare(m) && |r| == |m| && IsSquare(r)
    requires forall i, j :: 0 <= i < |m| && 0 <= j < |m| ==> r[i][j] == c * m[i][j]
    ensures r == Scale(m, c)
  {
    SameEntries(r, Scale(m, c));
  }

  // ---------------------------------------------------------- arithmetic

  lemma DivisionCommutes(x: real, a: real, b: real)
    requires a != 0.0 && b != 0.0
    ensures x / b / a == x / a / b
  {
    assert x / b / a == x / (a * b);
    assert x / a / b == x / (a * b);
  }

  // ---------------------------------------------------------------- sums

  lemma {:induction false} SumOfZeros(s: seq<real>)
    requires forall j :: 0 <= j < |s| ==> s[j] == 0.0
    ensures Sum(s) == 0.0
  {
    if s != [] {
      SumOfZeros(s[..|s| - 1]);
    }
  }

  /** Changing one entry by delta changes the sum by delta. */
  lemma {:induction false} SumUpdate(s: seq<real>, k: nat, v: real)
    requires k < |s|
    ensures Sum(s[k := v]) == Sum(s) - s[k] + v
  {
    var t := s[k := v];
    var n := |s|;
    if k == n - 1 {
      assert t[..n - 1] == s[..n - 1];
    } else {
      assert t[..n - 1] == s[..n - 1][k := v];
      SumUpdate(s[..n - 1], k, v);
    }
  }

  /** Multiplying every entry by c multiplies the sum by c. */
  lemma {:induction false} SumScaled(s: seq<real>, t: seq<real>, c: real)
    requires |t| == |s|
    requires forall j :: 0 <= j < |s| ==> t[j] == c * s[j]
    ensures Sum(t) == c * Sum(s)
  {
    if s != [] {
      var n := |s|;
      SumScaled(s[..n - 1], t[..n - 1], c);
    }
  }

  /** Dividing every entry by c divides the sum by c. */
  lemma {:induction false} SumDivided(s: seq<real>, t: seq<real>, c: real)
    requires c != 0.0 && |t| == |s|
    requires forall j :: 0 <= j < |s| ==> t[j] == s[j] / c
    ensures Sum(t) == Sum(s) / c
  {
    if s != [] {
      var n := |s|;
      SumDivided(s[..n - 1], t[..n - 1], c);
      assert Sum(t) == Sum(s[..n - 1]) / c + s[n - 1] / c;
    }
  }

  /** Sums of two sequences of the same length add entrywise. */
  lemma {:induction false} SumAdded(s: seq<real>, t: seq<real>, u: seq<real>)
    requires |t| == |s| && |u| == |s|
    requires forall j :: 0 <= j < |s| ==> u[j] == s[j] + t[j]
    ensures Sum(u) == Sum(s) + Sum(t)
  {
    if s != [] {
      var n := |s|;
      SumAdded(s[..n - 1], t[..n - 1], u[..n - 1]);
    }
  }

  /** A sequence that is zero except at position k sums to its entry at k. */
  lemma SumSingle(s: seq<real>, k: nat)
    requires k < |s|
    requires forall j :: 0 <= j < |s| && j != k ==> s[j] == 0.0
    ensures Sum(s) == s[k]
  {
    var z := seq(|s|, j => 0.0);
    SumOfZeros(z);
    assert s == z[k := s[k]];
    SumUpdate(z, k, s[k]);
  }

  /** Subtracting v[i] on the diagonal lowers the sum of row i by v[i]. */
  lemma SubDiagRowSum(m: Matrix, v: seq<real>, i: nat)
    requires IsSquare(m) && |v| == |m| && i < |m|
    ensures Sum(SubDiag(m, v)[i]) == Sum(m[i]) - v[i]
  {
    assert SubDiag(m, v)[i] == m[i][i := m[i][i] - v[i]];
    SumUpdate(m[i], i, m[i][i] - v[i]);
  }

  /** Dividing row i by w[i] divides its sum by w[i]. */
  lemma DivRowsRowSum(m: Matrix, w: seq<real>, i: nat)
    requires IsSquare(m) && |w| == |m| && NonZero(w) && i < |m|
    ensures Sum(DivRows(m, w)[i]) == Sum(m[i]) / w[i]
  {
    SumDivided(m[i], DivRows(m, w)[i], w[i]);
  }

  /** Scaling every entry by c scales every row sum by c. */
  lemma ScaleRowSum(m: Matrix, c: real, i: nat)
    requires IsSquare(m) && i < |m|
    ensures Sum(Scale(m, c)[i]) == c * Sum(m[i])
  {
    SumScaled(m[i], Scale(m, c)[i], c);
  }

  /** Dividing the rows by g and the columns by h gives the same matrix in either order. */
  lemma DivisionsCommute(m: Matrix, g: seq<real>, h: seq<real>)
    requires IsSquare(m) && |g| == |m| && |h| == |m| && NonZero(g) && NonZero(h)
    ensures DivCols(DivRows(m, g), h) == DivRows(DivCols(m, h), g)
  {
    forall i, j | 0 <= i < |m| && 0 <= j < |m|
      ensures DivCols(DivRows(m, g), h)[i][j] == DivRows(DivCols(m, h), g)[i][j]
    {
      DivisionCommutes(m[i][j], g[i], h[j]);
    }
    SameEntries(DivCols(DivRows(m, g), h), DivRows(DivCols(m, h), g));
  }

  /** (A + A^T) / 2 is symmetric. */
  lemma SymmetrizedIsSymmetric(m: Matrix)
    requires IsSquare(m)
    ensures IsSymmetric(Symmetrized(m))
  {
  }
}
