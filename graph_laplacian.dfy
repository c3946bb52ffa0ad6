/**
 * graph_laplacian: checks that the graph is square and that `normed`
 * names one of the five variants (ignoring case), then hands the graph to
 * the dense or the sparse backend.
 */
module GraphLaplacian {
  import opened Common
  import opened Matrices
  import opened CooMatrices
  import DenseLaplacian
  import SparseLaplacian

  /** A numpy array, or a scipy sparse matrix given by its COO triples. */
  datatype Graph = Dense(entries: Matrix) | Sparse(triples: Coo)

  /** What the chosen backend returned. */
  datatype Laplacian = DenseOut(dense: Output<Matrix>) | SparseOut(sparse: Output<Coo>)

  /** scipy keeps its triples aligned and inside the shape. */
  predicate ValidGraph(g: Graph) {
    g.Sparse? ==> WellFormed(g.triples)
  }

  /** `csgraph.ndim == 2 and csgraph.shape[0] == csgraph.shape[1]`. */
  predicate SquareGraph(g: Graph) {
    match g
    case Dense(m) => IsSquare(m)
    case Sparse(c) => c.rows == c.cols
  }

  // ------------------------------------------------------ normed names

  /** `str.lower` on the letters A to Z. */
  function LowerChar(ch: char): (r: char)
    ensures 'A' <= ch <= 'Z' ==> 'a' <= r <= 'z'
    ensures !('A' <= ch <= 'Z') ==> r == ch
  {
    if 'A' <= ch <= 'Z' then (ch as int - 'A' as int + 'a' as int) as char else ch
  }

  function Lowered(s: string): (r: string)
    ensures |r| == |s| && forall i :: 0 <= i < |s| ==> r[i] == LowerChar(s[i])
  {
    seq(|s|, i requires 0 <= i < |s| => LowerChar(s[i]))
  }

  /** The name of each variant, as the source spells it. */
  function Name(n: Normed): string {
    match n
    case Unnormalized => "unnormalized"
    case Geometric => "geometric"
    case RandomWalk => "randomwalk"
    case SymmetricNormalized => "symmetricnormalized"
    case Renormalized => "renormalized"
  }

  /** `normed.lower()` and the membership test against the five names. */
  function ParseNormed(s: string): (r: Option<Normed>)
    ensures r.Some? ==> Lowered(s) == Name(r.value)
    ensures r.None? ==> forall n: Normed :: Lowered(s) != Name(n)
  {
    var l := Lowered(s);
    if l == "unnormalized" then Some(Unnormalized)
    else if l == "geometric" then Some(Geometric)
    else if l == "randomwalk" then Some(RandomWalk)
    else if l == "symmetricnormalized" then Some(SymmetricNormalized)
    else if l == "renormalized" then Some(Renormalized)
    else None
  }

  /** Every variant is accepted under its own name. */
  lemma NameParses(n: Normed)
    ensures ParseNormed(Name(n)) == Some(n)
  {
    var l := Name(n);
    assert Lowered(l) == l;
  }

  /** Two strings that lower-case alike name the same variant, or none. */
  lemma ParseIgnoresCase(s: string, t: string)
    requires Lowered(s) == Lowered(t)
    ensures ParseNormed(s) == ParseNormed(t)
  {
  }

  /** "Geometric" and "GEOMETRIC" are both accepted; "randomwalks" (with an s) is not. */
  lemma NameExamples()
    ensures ParseNormed("Geometric") == Some(Geometric)
    ensures ParseNormed("GEOMETRIC") == Some(Geometric)
    ensures ParseNormed("randomwalks") == None
  {
    assert Lowered("Geometric") == "geometric";
    assert Lowered("GEOMETRIC") == "geometric";
    assert |Lowered("randomwalks")| == 11;
  }

  // ----------------------------------------------------------- dispatch

  /** The backend's unguarded divisions have nonzero divisors for this call. */
  predicate Computable(g: Graph, normed: string, symmetrize: bool, num: Numerics)
    requires ValidGraph(g)
  {
    SquareGraph(g) && ParseNormed(normed).Some? ==>
      match g
      case Dense(m) => DenseLaplacian.Divisible(DenseLaplacian.Adjusted(m, symmetrize), ParseNormed(normed).value, num)
      case Sparse(c) => SparseLaplacian.Divisible(SparseLaplacian.Prepared(c, symmetrize), ParseNormed(normed).value, num)
  }

  function Backend(g: Graph, normed: Normed, symmetrize: bool, eps: real, num: Numerics,
                   returnDiag: bool, returnLapsym: bool): Result<Laplacian>
    requires ValidGraph(g) && SquareGraph(g)
    requires g.Dense? ==> DenseLaplacian.Divisible(DenseLaplacian.Adjusted(g.entries, symmetrize), normed, num)
    requires g.Sparse? ==> SparseLaplacian.Divisible(SparseLaplacian.Prepared(g.triples, symmetrize), normed, num)
  {
    match g
    case Dense(m) =>
      var r := DenseLaplacian.DenseResult(m, normed, symmetrize, eps, num, returnDiag, returnLapsym);
      if r.Ok? then Ok(DenseOut(r.value)) else Err(r.error)
    case Sparse(c) =>
      var r := SparseLaplacian.SparseResult(c, normed, symmetrize, eps, num, returnDiag, returnLapsym);
      if r.Ok? then Ok(SparseOut(r.value)) else Err(r.error)
  }

  /**
   * graph_laplacian with `return_lapsym` passed on to both backends, as
   * its documentation promises.
   */
  function GraphLaplacian(g: Graph, normed: string, symmetrize: bool, eps: real, num: Numerics,
                          returnDiag: bool, returnLapsym: bool): (r: Result<Laplacian>)
    requires ValidGraph(g) && Computable(g, normed, symmetrize, num)
    ensures !SquareGraph(g) ==> r == Err(NotSquare)
    ensures SquareGraph(g) && ParseNormed(normed).None? ==> r == Err(UnknownNormed)
    ensures r.Ok? ==> SquareGraph(g) && ParseNormed(normed).Some?
    ensures r.Ok? ==> (r.value.DenseOut? <==> g.Dense?)
    ensures SquareGraph(g) && ParseNormed(normed).Some? && g.Dense? ==>
      var d := DenseLaplacian.DenseResult(g.entries, ParseNormed(normed).value, symmetrize, eps, num, returnDiag, returnLapsym);
      r == (if d.Ok? then Ok(DenseOut(d.value)) else Err(d.error))
    ensures SquareGraph(g) && ParseNormed(normed).Some? && g.Sparse? ==>
      var d := SparseLaplacian.SparseResult(g.triples, ParseNormed(normed).value, symmetrize, eps, num, returnDiag, returnLapsym);
      r == (if d.Ok? then Ok(SparseOut(d.value)) else Err(d.error))
  {
    if !SquareGraph(g) then Err(NotSquare)
    else match ParseNormed(normed)
      case None => Err(UnknownNormed)
      case Some(n) => Backend(g, n, symmetrize, eps, num, returnDiag, returnLapsym)
  }

  /** graph_laplacian as written: the dense call leaves `return_lapsym` at its default, False. */
  function GraphLaplacianAsWritten(g: Graph, normed: string, symmetrize: bool, eps: real, num: Numerics,
                                   returnDiag: bool, returnLapsym: bool): (r: Result<Laplacian>)
    requires ValidGraph(g) && Computable(g, normed, symmetrize, num)
    ensures !SquareGraph(g) ==> r == Err(NotSquare)
    ensures SquareGraph(g) && ParseNormed(normed).None? ==> r == Err(UnknownNormed)
    ensures r.Ok? && r.value.DenseOut? ==> r.value.dense.lapsym.None? && r.value.dense.w.None?
    ensures SquareGraph(g) && ParseNormed(normed).Some? && g.Dense? ==>
      var d := DenseLaplacian.DenseResult(g.entries, ParseNormed(normed).value, symmetrize, eps, num, returnDiag, false);
      r == (if d.Ok? then Ok(DenseOut(d.value)) else Err(d.error))
    ensures SquareGraph(g) && ParseNormed(normed).Some? && g.Sparse? ==>
      var d := SparseLaplacian.SparseResult(g.triples, ParseNormed(normed).value, symmetrize, eps, num, returnDiag, returnLapsym);
      r == (if d.Ok? then Ok(SparseOut(d.value)) else Err(d.error))
  {
    if !SquareGraph(g) then Err(NotSquare)
    else match ParseNormed(normed)
      case None => Err(UnknownNormed)
      case Some(n) => Backend(g, n, symmetrize, eps, num, returnDiag, g.Sparse? && returnLapsym)
  }

  /**
   * Asked for `lapsym` on a dense geometric graph of two or more nodes,
   * the code as written answers without it, while the forwarding version
   * returns the matrix after the two-sided division and its row sums.
   */
  lemma DenseLapsymDropped(m: Matrix, symmetrize: bool, eps: real, num: Numerics, returnDiag: bool)
    requires IsSquare(m) && |m| >= 2
    ensures var written := GraphLaplacianAsWritten(Dense(m), "geometric", symmetrize, eps, num, returnDiag, true);
      written.Ok? && written.value.dense.lapsym.None?
    ensures var fixed := GraphLaplacian(Dense(m), "geometric", symmetrize, eps, num, returnDiag, true);
      var a := DenseLaplacian.Adjusted(m, symmetrize);
      var s := DenseLaplacian.StageOne(a, DenseLaplacian.Divisor(a, Geometric, num));
      fixed.Ok? && fixed.value.dense.lapsym == Some(s) && fixed.value.dense.w == Some(RowSums(s))
  {
    NameParses(Geometric);
  }

  /** Both checks come before any arithmetic, and a valid call reaches the backend of its format. */
  lemma Validation(g: Graph, normed: string, symmetrize: bool, eps: real, num: Numerics,
                   returnDiag: bool, returnLapsym: bool)
    requires ValidGraph(g) && Computable(g, normed, symmetrize, num)
    ensures var r := GraphLaplacian(g, normed, symmetrize, eps, num, returnDiag, returnLapsym);
      && (r == Err(NotSquare) <==> !SquareGraph(g))
      && (r == Err(UnknownNormed) <==> SquareGraph(g) && forall n: Normed :: Lowered(normed) != Name(n))
  {
    var r := GraphLaplacian(g, normed, symmetrize, eps, num, returnDiag, returnLapsym);
    if SquareGraph(g) && ParseNormed(normed).Some? {
      var n := ParseNormed(normed).value;
      match g
      case Dense(m) =>
        DenseLaplacian.DenseErrors(m, n, symmetrize, eps, num, returnDiag, returnLapsym);
      case Sparse(c) =>
        SparseLaplacian.SparseErrors(c, n, symmetrize, eps, num, returnDiag, returnLapsym);
    }
  }
}
