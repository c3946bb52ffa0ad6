/**
 * _laplacian_dense: the Laplacian of a square adjacency matrix, computed by
 * updating a copy of the matrix in place.  The value-level definition
 * (DenseResult) states what each `normed` variant computes; the method
 * LaplacianDense performs the same steps on an `array2<real>` and is proved
 * to agree with it; the lemmas state what the variants promise.
 */
module DenseLaplacian {
  import opened Common
  import opened Matrices

  // ------------------------------------------------------- specification

  /** `(csgraph + csgraph.T) / 2.` when symmetrizing, a copy otherwise. */
  function Adjusted(a: Matrix, symmetrize: bool): (m: Matrix)
    requires IsSquare(a)
    ensures |m| == |a| && IsSquare(m)
  {
    if symmetrize then Symmetrized(a) else a
  }

  /** The vector `w` that a variant divides by, before its zero entries are replaced by 1. */
  function Divisor(m: Matrix, normed: Normed, num: Numerics): (v: seq<real>)
    ensures |v| == |m|
  {
    match normed
    case SymmetricNormalized => MapVec(num.sqrt, RowSums(m))
    case Renormalized => MapVec(num.power, RowSums(m))
    case _ => RowSums(m)
  }

  /** `lap /= w; lap /= w[:, np.newaxis]` with the zero-guarded w: entry (i, j) over w[j] and w[i]. */
  function StageOne(m: Matrix, v: seq<real>): (s: Matrix)
    requires IsSquare(m) && |v| == |m|
    ensures |s| == |m| && IsSquare(s)
  {
    DivRows(DivCols(m, Guarded(v)), Guarded(v))
  }

  /**
   * The second half of geometric and renormalized: each row divided by its
   * own sum, then 1 subtracted on the diagonal where v is nonzero.  A zero
   * row sum divides by 1, as the first stage does, so that a node of degree
   * zero is handled without dividing by zero (the code as written divides
   * by it; see AsWrittenDivisible).
   */
  function StageTwo(s: Matrix, v: seq<real>): (l: Matrix)
    requires IsSquare(s) && |v| == |s|
    ensures |l| == |s| && IsSquare(l)
  {
    SubDiag(DivRows(s, Guarded(RowSums(s))), NonZeroFlags(v))
  }

  /**
   * The division the source leaves unguarded has nonzero divisors: the
   * degrees for randomwalk.  A 1 x 1 graph fails before any division.
   */
  predicate Divisible(m: Matrix, normed: Normed, num: Numerics)
    requires IsSquare(m)
  {
    |m| != 1 && normed.RandomWalk? ==> NonZero(RowSums(m))
  }

  /**
   * When the code as written, which divides each first-stage row by its
   * unguarded sum (`lap /= w[:, np.newaxis]` after `w = lap.sum(axis=1)`),
   * never divides by zero.
   */
  predicate AsWrittenDivisible(m: Matrix, normed: Normed, num: Numerics)
    requires IsSquare(m)
  {
    (normed.Geometric? || normed.Renormalized?) ==> NonZero(RowSums(StageOne(m, Divisor(m, normed, num))))
  }

  /** The Laplacian of each variant, before scaling. */
  function Core(m: Matrix, normed: Normed, num: Numerics): (l: Matrix)
    requires IsSquare(m) && |m| != 1 && Divisible(m, normed, num)
    ensures |l| == |m| && IsSquare(l)
  {
    var d := RowSums(m);
    match normed
    case SymmetricNormalized =>
      var v := Divisor(m, normed, num);
      SubDiag(StageOne(m, v), NonZeroFlags(v))
    case Geometric => StageTwo(StageOne(m, Divisor(m, normed, num)), Divisor(m, normed, num))
    case Renormalized => StageTwo(StageOne(m, Divisor(m, normed, num)), Divisor(m, normed, num))
    case Unnormalized => SubDiag(m, d)
    case RandomWalk => SubDiag(DivRows(m, d), Ones(|m|))
  }

  /** `if scaling_epps > 0.: lap *= 4/(scaling_epps**2)`. */
  function Scaled(l: Matrix, eps: real): (r: Matrix)
    requires IsSquare(l)
    ensures |r| == |l| && IsSquare(r)
  {
    if eps > 0.0 then Scale(l, 4.0 / (eps * eps)) else l
  }

  /** What _laplacian_dense returns or raises. */
  function DenseResult(a: Matrix, normed: Normed, symmetrize: bool, eps: real, num: Numerics,
                       returnDiag: bool, returnLapsym: bool): Result<Output<Matrix>>
    requires IsSquare(a) && Divisible(Adjusted(a, symmetrize), normed, num)
  {
    var m := Adjusted(a, symmetrize);
    if |m| == 1 then Err(SingleNode)
    else if returnLapsym && !(normed.Geometric? || normed.Renormalized?) then Err(LapsymUnbound)
    else
      var lap := Scaled(Core(m, normed, num), eps);
      var s := StageOne(m, Divisor(m, normed, num));
      Ok(Output(lap,
                if returnDiag then Some(Diagonal(lap)) else None,
                if returnLapsym then Some(s) else None,
                if returnLapsym then Some(RowSums(s)) else None))
  }

  // -------------------------------------------------------------- lemmas

  /**
   * unnormalized: off-diagonal entries are those of A, the diagonal is
   * A[i][i] - degree[i], and so every row sums to zero.
   */
  lemma UnnormalizedRowsSumToZero(m: Matrix, num: Numerics)
    requires IsSquare(m) && |m| != 1
    ensures var l := Core(m, Unnormalized, num);
      && (forall i, j :: 0 <= i < |m| && 0 <= j < |m| && i != j ==> l[i][j] == m[i][j])
      && (forall i :: 0 <= i < |m| ==> l[i][i] == m[i][i] - Sum(m[i]))
      && (forall i :: 0 <= i < |m| ==> Sum(l[i]) == 0.0)
  {
    forall i | 0 <= i < |m| ensures Sum(Core(m, Unnormalized, num)[i]) == 0.0 {
      SubDiagRowSum(m, RowSums(m), i);
    }
  }

  /** randomwalk: row i is A[i] / degree[i] minus the identity row, and sums to zero. */
  lemma RandomWalkRowsSumToZero(m: Matrix, num: Numerics)
    requires IsSquare(m) && |m| != 1 && NonZero(RowSums(m))
    ensures var l := Core(m, RandomWalk, num);
      && (forall i, j :: 0 <= i < |m| && 0 <= j < |m| ==>
            l[i][j] == m[i][j] / Sum(m[i]) - (if i == j then 1.0 else 0.0))
      && (forall i :: 0 <= i < |m| ==> Sum(l[i]) == 0.0)
  {
    var d := RowSums(m);
    forall i | 0 <= i < |m| ensures Sum(Core(m, RandomWalk, num)[i]) == 0.0 {
      DivRowsRowSum(m, d, i);
      SubDiagRowSum(DivRows(m, d), Ones(|m|), i);
    }
  }

  /**
   * geometric and renormalized: the Laplacian is lapsym with each row
   * divided by its sum w[i] (1 where that sum is zero) and 1 subtracted on
   * the diagonal of every node whose divisor is nonzero.  So a row of
   * nonzero sum sums to zero when its node's divisor is nonzero and to one
   * otherwise, and a row of zero sum sums to zero or minus one.
   */
  lemma GeometricRows(m: Matrix, normed: Normed, num: Numerics)
    requires normed.Geometric? || normed.Renormalized?
    requires IsSquare(m) && |m| != 1
    ensures var v := Divisor(m, normed, num);
      var s := StageOne(m, v);
      var l := Core(m, normed, num);
      && (forall i, j :: 0 <= i < |m| && 0 <= j < |m| ==>
            l[i][j] == s[i][j] / (if Sum(s[i]) == 0.0 then 1.0 else Sum(s[i]))
                       - (if i == j && v[i] != 0.0 then 1.0 else 0.0))
      && (forall i :: 0 <= i < |m| ==>
            Sum(l[i]) == (if Sum(s[i]) == 0.0 then 0.0 else 1.0) - (if v[i] == 0.0 then 0.0 else 1.0))
  {
    var v := Divisor(m, normed, num);
    assert Core(m, normed, num) == StageTwo(StageOne(m, v), v);
    StageTwoRows(StageOne(m, v), v);
  }

  lemma StageTwoRows(s: Matrix, v: seq<real>)
    requires IsSquare(s) && |v| == |s|
    ensures var l := StageTwo(s, v);
      && (forall i, j :: 0 <= i < |s| && 0 <= j < |s| ==>
            l[i][j] == s[i][j] / (if Sum(s[i]) == 0.0 then 1.0 else Sum(s[i]))
                       - (if i == j && v[i] != 0.0 then 1.0 else 0.0))
      && (forall i :: 0 <= i < |s| ==>
            Sum(l[i]) == (if Sum(s[i]) == 0.0 then 0.0 else 1.0) - (if v[i] == 0.0 then 0.0 else 1.0))
  {
    var g := Guarded(RowSums(s));
    forall i | 0 <= i < |s|
      ensures Sum(StageTwo(s, v)[i]) == (if Sum(s[i]) == 0.0 then 0.0 else 1.0) - (if v[i] == 0.0 then 0.0 else 1.0)
    {
      DivRowsRowSum(s, g, i);
      SubDiagRowSum(DivRows(s, g), NonZeroFlags(v), i);
    }
  }

  /**
   * A node with no edges in or out: for geometric, and for renormalized
   * when 0 ** exponent is 0, its row and column of the Laplacian stay zero,
   * the graceful handling of zero degrees the documentation promises.
   */
  lemma IsolatedNodeStaysZero(m: Matrix, normed: Normed, num: Numerics, i: nat)
    requires normed.Geometric? || (normed.Renormalized? && num.power(0.0) == 0.0)
    requires IsSquare(m) && |m| != 1 && i < |m|
    requires forall j :: 0 <= j < |m| ==> m[i][j] == 0.0 && m[j][i] == 0.0
    ensures var l := Core(m, normed, num);
      forall j :: 0 <= j < |m| ==> l[i][j] == 0.0 && l[j][i] == 0.0
  {
    var v := Divisor(m, normed, num);
    var s := StageOne(m, v);
    SumOfZeros(m[i]);
    assert v[i] == 0.0;
    assert forall j :: 0 <= j < |m| ==> s[i][j] == 0.0 && s[j][i] == 0.0;
    SumOfZeros(s[i]);
    assert Core(m, normed, num) == StageTwo(s, v);
  }

  /**
   * The code as written on a node with no edges: its first-stage row sums
   * to zero, so line 299 (geometric) and line 311 (renormalized) divide
   * that row by zero.
   */
  lemma IsolatedNodeDividesByZero(m: Matrix, normed: Normed, num: Numerics, i: nat)
    requires normed.Geometric? || normed.Renormalized?
    requires IsSquare(m) && i < |m|
    requires forall j :: 0 <= j < |m| ==> m[i][j] == 0.0
    ensures RowSums(StageOne(m, Divisor(m, normed, num)))[i] == 0.0
    ensures !AsWrittenDivisible(m, normed, num)
  {
    var s := StageOne(m, Divisor(m, normed, num));
    assert forall j :: 0 <= j < |m| ==> s[i][j] == 0.0;
    SumOfZeros(s[i]);
  }

  /** Where the code as written divides by nonzero sums only, the guard changes nothing. */
  lemma GuardAgreesWhenDivisible(s: Matrix, v: seq<real>)
    requires IsSquare(s) && |v| == |s| && NonZero(RowSums(s))
    ensures StageTwo(s, v) == SubDiag(DivRows(s, RowSums(s)), NonZeroFlags(v))
  {
    assert Guarded(RowSums(s)) == RowSums(s);
  }

  /** The first stage keeps a symmetric matrix symmetric: lapsym is symmetric for symmetric input. */
  lemma StageOneSymmetric(m: Matrix, v: seq<real>)
    requires IsSquare(m) && |v| == |m| && IsSymmetric(m)
    ensures IsSymmetric(StageOne(m, v))
  {
    var g := Guarded(v);
    forall i, j | 0 <= i < |m| && 0 <= j < |m| ensures StageOne(m, v)[i][j] == StageOne(m, v)[j][i] {
      assert StageOne(m, v)[i][j] == m[i][j] / g[j] / g[i];
      assert StageOne(m, v)[j][i] == m[j][i] / g[i] / g[j];
      DivisionCommutes(m[i][j], g[i], g[j]);
    }
  }

  /**
   * symmetricnormalized: entry (i, j) is A[i][j] / (w[i] w[j]) with the
   * guarded square roots of the degrees, minus 1 on the diagonal of nodes
   * with nonzero w; a node with no edges in or out keeps an all-zero row
   * and column when sqrt(0) = 0.
   */
  lemma SymmetricNormalizedEntries(m: Matrix, num: Numerics)
    requires IsSquare(m) && |m| != 1
    ensures var v := MapVec(num.sqrt, RowSums(m));
      var g := Guarded(v);
      var l := Core(m, SymmetricNormalized, num);
      forall i, j :: 0 <= i < |m| && 0 <= j < |m| ==>
        l[i][j] == m[i][j] / g[j] / g[i] - (if i == j && v[i] != 0.0 then 1.0 else 0.0)
  {
  }

  lemma SymmetricNormalizedIsolatedNode(m: Matrix, num: Numerics, i: nat)
    requires IsSquare(m) && |m| != 1 && i < |m| && num.sqrt(0.0) == 0.0
    requires forall j :: 0 <= j < |m| ==> m[i][j] == 0.0 && m[j][i] == 0.0
    ensures var l := Core(m, SymmetricNormalized, num);
      forall j :: 0 <= j < |m| ==> l[i][j] == 0.0 && l[j][i] == 0.0
  {
    SumOfZeros(m[i]);
    assert RowSums(m)[i] == 0.0;
    SymmetricNormalizedEntries(m, num);
  }

  /**
   * Scaling multiplies every entry by exactly 4 / eps^2 when eps > 0 and
   * leaves the matrix alone otherwise; either way rows that summed to zero
   * still do.
   */
  lemma ScalingKeepsZeroRows(l: Matrix, eps: real)
    requires IsSquare(l)
    ensures eps > 0.0 ==> forall i, j :: 0 <= i < |l| && 0 <= j < |l| ==>
      Scaled(l, eps)[i][j] == 4.0 / (eps * eps) * l[i][j]
    ensures eps <= 0.0 ==> Scaled(l, eps) == l
    ensures forall i :: 0 <= i < |l| && Sum(l[i]) == 0.0 ==> Sum(Scaled(l, eps)[i]) == 0.0
  {
    if eps > 0.0 {
      forall i | 0 <= i < |l| && Sum(l[i]) == 0.0 ensures Sum(Scaled(l, eps)[i]) == 0.0 {
        ScaleRowSum(l, 4.0 / (eps * eps), i);
      }
    }
  }

  /** With the exponent 1, renormalized is geometric. */
  lemma RenormalizedWithExponentOne(m: Matrix, num: Numerics)
    requires IsSquare(m) && |m| != 1
    requires forall x :: num.power(x) == x
    ensures Divisible(m, Renormalized, num) <==> Divisible(m, Geometric, num)
    ensures Divisible(m, Geometric, num) ==> Core(m, Renormalized, num) == Core(m, Geometric, num)
  {
    assert Divisor(m, Renormalized, num) == Divisor(m, Geometric, num);
  }

  /**
   * The returned lapsym is the matrix after the two-sided division, w is
   * its row-sum vector, and the unscaled Laplacian is lapsym with each row
   * divided by w and the diagonal lowered.  Only geometric and renormalized
   * bind lapsym; asking for it from another variant raises.
   */
  lemma LapsymAndW(a: Matrix, normed: Normed, symmetrize: bool, eps: real, num: Numerics, returnDiag: bool)
    requires IsSquare(a) && |a| != 1 && Divisible(Adjusted(a, symmetrize), normed, num)
    ensures var r := DenseResult(a, normed, symmetrize, eps, num, returnDiag, true);
      && (r.Ok? <==> normed.Geometric? || normed.Renormalized?)
      && (r.Ok? ==>
            && r.value.lapsym.Some? && r.value.w.Some?
            && r.value.lapsym.value == StageOne(Adjusted(a, symmetrize), Divisor(Adjusted(a, symmetrize), normed, num))
            && r.value.w.value == RowSums(r.value.lapsym.value)
            && (eps <= 0.0 ==> r.value.lap == StageTwo(r.value.lapsym.value, Divisor(Adjusted(a, symmetrize), normed, num))))
  {
  }

  /** The errors: a 1 x 1 graph always fails, and lapsym is unbound outside geometric and renormalized. */
  lemma DenseErrors(a: Matrix, normed: Normed, symmetrize: bool, eps: real, num: Numerics,
                    returnDiag: bool, returnLapsym: bool)
    requires IsSquare(a) && Divisible(Adjusted(a, symmetrize), normed, num)
    ensures var r := DenseResult(a, normed, symmetrize, eps, num, returnDiag, returnLapsym);
      && (|a| == 1 ==> r == Err(SingleNode))
      && (r.Ok? <==> |a| != 1 && (!returnLapsym || normed.Geometric? || normed.Renormalized?))
      && (r.Ok? ==> (r.value.diag.Some? <==> returnDiag) && (r.value.lapsym.Some? <==> returnLapsym))
      && (r.Ok? && returnDiag ==> r.value.diag.value == Diagonal(r.value.lap))
  {
  }

  // -------------------------------------------------------- in place

  /** The entries of a 2-D array as rows. */
  function Mat(a: array2<real>): (m: Matrix)
    reads a
    ensures |m| == a.Length0 && forall i :: 0 <= i < |m| ==> |m[i]| == a.Length1
    ensures forall i, j :: 0 <= i < a.Length0 && 0 <= j < a.Length1 ==> m[i][j] == a[i, j]
  {
    seq(a.Length0, i reads a => seq(a.Length1, j reads a => if 0 <= i < a.Length0 && 0 <= j < a.Length1 then a[i, j] else 0.0))
  }

  /** `lap = (csgraph + csgraph.T)/2.` or `lap = csgraph.copy()`: a fresh array. */
  method Copied(a: Matrix, symmetrize: bool) returns (lap: array2<real>)
    requires IsSquare(a)
    ensures fresh(lap) && lap.Length0 == lap.Length1 == |a|
    ensures Mat(lap) == Adjusted(a, symmetrize)
  {
    var m := Adjusted(a, symmetrize);
    lap := new real[|a|, |a|];
    forall i, j | 0 <= i < |a| && 0 <= j < |a| {
      lap[i, j] := m[i][j];
    }
    SameEntries(Mat(lap), m);
  }

  /** `lap /= w`: column j divided by w[j]. */
  method DivideColumns(lap: array2<real>, w: seq<real>)
    requires lap.Length0 == lap.Length1 == |w| && NonZero(w)
    modifies lap
    ensures Mat(lap) == DivCols(old(Mat(lap)), w)
  {
    forall i, j | 0 <= i < lap.Length0 && 0 <= j < lap.Length1 {
      lap[i, j] := lap[i, j] / w[j];
    }
    SameEntries(Mat(lap), DivCols(old(Mat(lap)), w));
  }

  /** `lap /= w[:, np.newaxis]`: row i divided by w[i]. */
  method DivideRows(lap: array2<real>, w: seq<real>)
    requires lap.Length0 == lap.Length1 == |w| && NonZero(w)
    modifies lap
    ensures Mat(lap) == DivRows(old(Mat(lap)), w)
  {
    forall i, j | 0 <= i < lap.Length0 && 0 <= j < lap.Length1 {
      lap[i, j] := lap[i, j] / w[i];
    }
    SameEntries(Mat(lap), DivRows(old(Mat(lap)), w));
  }

  /** `lap[di] -= v`: v[i] subtracted from entry (i, i). */
  method SubtractDiagonal(lap: array2<real>, v: seq<real>)
    requires lap.Length0 == lap.Length1 == |v|
    modifies lap
    ensures Mat(lap) == SubDiag(old(Mat(lap)), v)
  {
    ghost var m := Mat(lap);
    forall i | 0 <= i < lap.Length0 {
      lap[i, i] := lap[i, i] - v[i];
    }
    forall i, j | 0 <= i < |m| && 0 <= j < |m| ensures Mat(lap)[i][j] == SubDiag(m, v)[i][j] {
      assert lap[i, j] == if i == j then m[i][j] - v[i] else m[i][j];
    }
    SameEntries(Mat(lap), SubDiag(m, v));
  }

  /** `lap *= c`. */
  method ScaleAll(lap: array2<real>, c: real)
    requires lap.Length0 == lap.Length1
    modifies lap
    ensures Mat(lap) == Scale(old(Mat(lap)), c)
  {
    ghost var m := Mat(lap);
    forall i, j | 0 <= i < lap.Length0 && 0 <= j < lap.Length1 {
      lap[i, j] := c * lap[i, j];
    }
    assert forall i, j :: 0 <= i < |m| && 0 <= j < |m| ==> lap[i, j] == c * m[i][j];
    ghost var scaled := Mat(lap);
    assert forall i, j :: 0 <= i < |m| && 0 <= j < |m| ==> scaled[i][j] == c * m[i][j];
    ScaleEntries(m, scaled, c);
  }

  /** `w[w_zeros] = 1; lap /= w; lap /= w[:, np.newaxis]`. */
  method DivideBothSides(lap: array2<real>, v: seq<real>)
    requires lap.Length0 == lap.Length1 == |v|
    modifies lap
    ensures Mat(lap) == StageOne(old(Mat(lap)), v)
  {
    var w := Guarded(v);
    DivideColumns(lap, w);
    DivideRows(lap, w);
  }

  /**
   * The geometric / renormalized block: divide by v on both sides, take
   * the row sums w, keep a copy as lapsym when asked, divide each row by
   * its sum (1 for a zero sum) and lower the diagonal where v is nonzero.
   */
  method NormalizeTwice(lap: array2<real>, v: seq<real>, keep: bool)
    returns (lapsym: Option<Matrix>, w: seq<real>)
    requires lap.Length0 == lap.Length1 == |v|
    modifies lap
    ensures w == RowSums(StageOne(old(Mat(lap)), v))
    ensures lapsym == if keep then Some(StageOne(old(Mat(lap)), v)) else None
    ensures Mat(lap) == StageTwo(StageOne(old(Mat(lap)), v), v)
  {
    DivideBothSides(lap, v);
    w := RowSums(Mat(lap));
    lapsym := if keep then Some(Mat(lap)) else None;
    DivideRows(lap, Guarded(w));
    SubtractDiagonal(lap, NonZeroFlags(v));
  }

  /** _laplacian_dense, step by step on a fresh array. */
  method LaplacianDense(csgraph: Matrix, normed: Normed, symmetrize: bool, eps: real, num: Numerics,
                        returnDiag: bool, returnLapsym: bool)
    returns (r: Result<Output<Matrix>>)
    requires IsSquare(csgraph) && Divisible(Adjusted(csgraph, symmetrize), normed, num)
    ensures r == DenseResult(csgraph, normed, symmetrize, eps, num, returnDiag, returnLapsym)
  {
    var lap := Copied(csgraph, symmetrize);
    ghost var m := Mat(lap);
    var degrees := RowSums(Mat(lap));
    if lap.Length0 == 1 {
      return Err(SingleNode);
    }
    var lapsym: Option<Matrix> := None;
    var w: seq<real> := [];
    match normed {
      case SymmetricNormalized =>
        var v := MapVec(num.sqrt, degrees);
        DivideBothSides(lap, v);
        SubtractDiagonal(lap, NonZeroFlags(v));
      case Geometric =>
        lapsym, w := NormalizeTwice(lap, degrees, returnLapsym);
      case Renormalized =>
        lapsym, w := NormalizeTwice(lap, MapVec(num.power, degrees), returnLapsym);
      case Unnormalized =>
        SubtractDiagonal(lap, degrees);
      case RandomWalk =>
        DivideRows(lap, degrees);
        SubtractDiagonal(lap, Ones(lap.Length0));
    }
    assert Mat(lap) == Core(m, normed, num);
    if eps > 0.0 {
      ScaleAll(lap, 4.0 / (eps * eps));
    }
    var result := Mat(lap);
    if returnLapsym && lapsym.None? {
      return Err(LapsymUnbound);
    }
    r := Ok(Output(result,
                   if returnDiag then Some(Diagonal(result)) else None,
                   lapsym,
                   if returnLapsym then Some(w) else None));
  }
}
