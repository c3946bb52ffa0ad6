/** Option and Result values, and the errors the geometry routines raise. */
module Common {

  datatype Option<+T> = None | Some(value: T)

  /** The exceptions of Mmani/embedding/geometry.py, one constructor each. */
  datatype Error =
    | NotSquare             // graph_laplacian: csgraph is not a square 2-D matrix
    | UnknownNormed         // graph_laplacian: normed outside the five variants
    | SingleNode            // numpy squeezes the degree vector of a 1 x 1 graph to a scalar, which is then indexed
    | DiagonalShape         // numpy: stored diagonal count and degree vector cannot be broadcast together
    | LapsymUnbound         // return_lapsym for a variant that never assigns lapsym
    | NegativeRadius        // fl_radius_neighbors_graph: radius < 0
    | NothingToConcatenate  // np.concatenate of an empty list (a data matrix without rows)
    | LengthMismatch        // coo_matrix: row, column and data arrays differ in length
    | IndexOutOfRange       // coo_matrix: an index is negative or exceeds the matrix shape
    | ZeroDimension         // 1.0 / X.shape[1] with no columns
    | NoGraph               // .copy() on the None that distance_matrix returns for other modes

  datatype Result<+T> = Ok(value: T) | Err(error: Error)

  /** The `normed` values graph_laplacian accepts, after lower-casing. */
  datatype Normed = Unnormalized | Geometric | RandomWalk | SymmetricNormalized | Renormalized

  /**
   * The transcendental numerics the Laplacian uses, left uninterpreted:
   * `np.sqrt` and `x ** renormalization_exponent`.
   */
  datatype Numerics = Numerics(sqrt: real -> real, power: real -> real)

  /**
   * What a Laplacian backend returns: the Laplacian, and, when asked for,
   * its diagonal (`return_diag`) and the symmetric matrix and row-sum vector
   * (`return_lapsym`).  M is a dense matrix or a triple list.
   */
  datatype Output<M> = Output(lap: M, diag: Option<seq<real>>, lapsym: Option<M>, w: Option<seq<real>>)
}
