/**
 * fl_radius_neighbors_graph and distance_matrix: the radius-neighbour
 * distance graph of a data matrix, assembled as COO triples from one
 * radius query per point.  The FLANN index and scikit-learn's
 * radius_neighbors_graph are functions passed in.
 */
module NeighborsGraph {
  import opened Common
  import opened CooMatrices

  /** A data matrix X: its rows (the points) and X.shape[1]. */
  datatype Points = Points(rows: seq<seq<real>>, dim: nat)

  /** What `flindex.nn_radius(point, radius)` returns: indices and distances. */
  datatype Neighbors = Neighbors(indices: seq<int>, distances: seq<real>)

  /** A radius query against a built FLANN index. */
  type RadiusQuery = (seq<real>, real) -> Neighbors

  // ------------------------------------------------------- concatenation

  /** `np.concatenate` of a non-empty list of blocks. */
  function Concat<T>(blocks: seq<seq<T>>): (r: seq<T>)
    ensures |r| == TotalLength(blocks)
  {
    if blocks == [] then [] else Concat(blocks[..|blocks| - 1]) + blocks[|blocks| - 1]
  }

  function TotalLength<T>(blocks: seq<seq<T>>): nat {
    if blocks == [] then 0 else TotalLength(blocks[..|blocks| - 1]) + |blocks[|blocks| - 1]|
  }

  /** Where block i starts in the concatenation. */
  function Offset<T>(blocks: seq<seq<T>>, i: nat): nat
    requires i <= |blocks|
  {
    TotalLength(blocks[..i])
  }

  /** Block i lies at positions Offset(i) .. Offset(i) + |block i|, in order. */
  lemma {:induction false} ConcatBlock<T>(blocks: seq<seq<T>>, i: nat, t: nat)
    requires i < |blocks| && t < |blocks[i]|
    ensures Offset(blocks, i) + t < |Concat(blocks)|
    ensures Concat(blocks)[Offset(blocks, i) + t] == blocks[i][t]
  {
    var n := |blocks| - 1;
    var front := Concat(blocks[..n]);
    assert Concat(blocks) == front + blocks[n];
    OffsetBound(blocks, i);
    if i < n {
      assert blocks[..n][..i] == blocks[..i];
      assert blocks[..n][i] == blocks[i];
      ConcatBlock(blocks[..n], i, t);
    } else {
      assert Offset(blocks, i) == |front|;
    }
  }

  /** Block i ends no later than the whole concatenation. */
  lemma {:induction false} OffsetBound<T>(blocks: seq<seq<T>>, i: nat)
    requires i < |blocks|
    ensures Offset(blocks, i) + |blocks[i]| <= TotalLength(blocks)
  {
    var n := |blocks| - 1;
    assert blocks[..n + 1] == blocks;
    if i < n {
      assert blocks[..n][..i] == blocks[..i];
      OffsetBound(blocks[..n], i);
    }
  }

  /** Every position of the concatenation lies in some block: block i, entry t. */
  lemma {:induction false} ConcatPosition<T>(blocks: seq<seq<T>>, k: nat) returns (i: nat, t: nat)
    requires k < |Concat(blocks)|
    ensures i < |blocks| && t < |blocks[i]| && k == Offset(blocks, i) + t
  {
    var n := |blocks| - 1;
    assert blocks[..n + 1] == blocks;
    if k < TotalLength(blocks[..n]) {
      i, t := ConcatPosition(blocks[..n], k);
      assert blocks[..n][..i] == blocks[..i];
    } else {
      i, t := n, k - TotalLength(blocks[..n]);
    }
  }

  // ------------------------------------------------------ specification

  /** The answers of the radius queries, one per point, in point order. */
  function Queried(points: seq<seq<real>>, radius: real, query: RadiusQuery): (qs: seq<Neighbors>)
    ensures |qs| == |points|
  {
    seq(|points|, i requires 0 <= i < |points| => query(points[i], radius))
  }

  function IndexBlocks(qs: seq<Neighbors>): (b: seq<seq<int>>)
    ensures |b| == |qs|
  {
    seq(|qs|, i requires 0 <= i < |qs| => qs[i].indices)
  }

  function DistanceBlocks(qs: seq<Neighbors>): (b: seq<seq<real>>)
    ensures |b| == |qs|
  {
    seq(|qs|, i requires 0 <= i < |qs| => qs[i].distances)
  }

  /** `i * np.ones(jj.shape)`: block i repeats the row index i once per neighbour. */
  function RowBlocks(qs: seq<Neighbors>): (b: seq<seq<int>>)
    ensures |b| == |qs|
  {
    seq(|qs|, i requires 0 <= i < |qs| => seq(|qs[i].indices|, t => i))
  }

  /** `sparse.coo_matrix((data, (i, j)), shape=(n, n))`: scipy's checks, then the triples. */
  function CooOf(n: nat, row: seq<int>, col: seq<int>, data: seq<real>): (r: Result<Coo>)
    ensures r.Ok? ==> WellFormed(r.value) && r.value.rows == n == r.value.cols
    ensures r.Ok? ==> r.value.row == row && r.value.col == col && r.value.data == data
    ensures r.Err? ==> r.error in {LengthMismatch, IndexOutOfRange}
  {
    if |row| != |data| || |col| != |data| then Err(LengthMismatch)
    else if exists k :: 0 <= k < |row| && !(0 <= row[k] < n && 0 <= col[k] < n) then Err(IndexOutOfRange)
    else
      var r := seq(|row|, k requires 0 <= k < |row| => row[k] as nat);
      var c := seq(|col|, k requires 0 <= k < |col| => col[k] as nat);
      Ok(Coo(n, n, r, c, data))
  }

  /** What fl_radius_neighbors_graph returns or raises. */
  function RadiusGraph(x: Points, radius: real, query: RadiusQuery): Result<Coo> {
    if radius < 0.0 then Err(NegativeRadius)
    else if |x.rows| == 0 then Err(NothingToConcatenate)
    else
      var qs := Queried(x.rows, radius, query);
      CooOf(|x.rows|, Concat(RowBlocks(qs)), Concat(IndexBlocks(qs)), Concat(DistanceBlocks(qs)))
  }

  // ---------------------------------------------------------- the loop

  /** fl_radius_neighbors_graph: one query per point, appended block by block, then concatenated. */
  method FlRadiusNeighborsGraph(x: Points, radius: real, query: RadiusQuery) returns (r: Result<Coo>)
    ensures r == RadiusGraph(x, radius, query)
  {
    if radius < 0.0 {
      return Err(NegativeRadius);
    }
    var nsam := |x.rows|;
    ghost var qs := Queried(x.rows, radius, query);
    var jIndices: seq<seq<int>> := [];
    var iIndices: seq<seq<int>> := [];
    var data: seq<seq<real>> := [];
    for i := 0 to nsam
      invariant jIndices == IndexBlocks(qs)[..i]
      invariant iIndices == RowBlocks(qs)[..i]
      invariant data == DistanceBlocks(qs)[..i]
    {
      var nn := query(x.rows[i], radius);
      data := data + [nn.distances];
      jIndices := jIndices + [nn.indices];
      iIndices := iIndices + [seq(|nn.indices|, t => i)];
    }
    if nsam == 0 {
      return Err(NothingToConcatenate);
    }
    assert jIndices == IndexBlocks(qs) && iIndices == RowBlocks(qs) && data == DistanceBlocks(qs);
    r := CooOf(nsam, Concat(iIndices), Concat(jIndices), Concat(data));
  }

  // ----------------------------------------------------------- lemmas

  /** A negative radius is rejected, and only a negative radius or an empty data matrix fail before scipy's checks. */
  lemma RadiusGraphErrors(x: Points, radius: real, query: RadiusQuery)
    ensures RadiusGraph(x, radius, query) == Err(NegativeRadius) <==> radius < 0.0
    ensures RadiusGraph(x, radius, query) == Err(NothingToConcatenate) <==> radius >= 0.0 && |x.rows| == 0
  {
  }

  /** When every query answers as many distances as indices, the lengths agree. */
  lemma {:induction false} MatchingLengths(qs: seq<Neighbors>)
    requires forall i :: 0 <= i < |qs| ==> |qs[i].indices| == |qs[i].distances|
    ensures TotalLength(RowBlocks(qs)) == TotalLength(IndexBlocks(qs)) == TotalLength(DistanceBlocks(qs))
  {
    if qs != [] {
      var n := |qs| - 1;
      assert RowBlocks(qs)[..n] == RowBlocks(qs[..n]);
      assert IndexBlocks(qs)[..n] == IndexBlocks(qs[..n]);
      assert DistanceBlocks(qs)[..n] == DistanceBlocks(qs[..n]);
      MatchingLengths(qs[..n]);
    }
  }

  /** Each query answers as many distances as indices. */
  predicate Paired(qs: seq<Neighbors>) {
    forall i :: 0 <= i < |qs| ==> |qs[i].indices| == |qs[i].distances|
  }

  /** Position k of the triples carries a row and a column index that name points. */
  lemma PositionInRange(qs: seq<Neighbors>, n: nat, k: nat)
    requires |qs| == n
    requires forall i, t :: 0 <= i < n && 0 <= t < |qs[i].indices| ==> 0 <= qs[i].indices[t] < n
    requires k < |Concat(RowBlocks(qs))|
    ensures k < |Concat(IndexBlocks(qs))|
    ensures 0 <= Concat(RowBlocks(qs))[k] < n && 0 <= Concat(IndexBlocks(qs))[k] < n
  {
    var i, t := ConcatPosition(RowBlocks(qs), k);
    ConcatBlock(RowBlocks(qs), i, t);
    SameOffsets(qs, i);
    ConcatBlock(IndexBlocks(qs), i, t);
  }

  /** With paired answers whose indices name points, scipy accepts the triples. */
  lemma GraphBuilt(x: Points, radius: real, query: RadiusQuery)
    requires radius >= 0.0 && |x.rows| > 0
    requires Paired(Queried(x.rows, radius, query))
    requires forall i, t :: 0 <= i < |x.rows| && 0 <= t < |query(x.rows[i], radius).indices| ==>
      0 <= query(x.rows[i], radius).indices[t] < |x.rows|
    ensures RadiusGraph(x, radius, query).Ok?
  {
    var qs := Queried(x.rows, radius, query);
    var n := |x.rows|;
    MatchingLengths(qs);
    var rows, cols := Concat(RowBlocks(qs)), Concat(IndexBlocks(qs));
    forall k | 0 <= k < |rows|
      ensures 0 <= rows[k] < n && 0 <= cols[k] < n
    {
      PositionInRange(qs, n, k);
    }
  }

  /**
   * The graph holds one triple per answered neighbour, Σ |nn_radius(X[i])|
   * in all; the triples of point i form one block, in the order the query
   * answered, with row index i, column the neighbour's index and the
   * distance as value.
   */
  lemma GraphBlocks(x: Points, radius: real, query: RadiusQuery, i: nat, t: nat)
    requires RadiusGraph(x, radius, query).Ok? && Paired(Queried(x.rows, radius, query))
    requires i < |x.rows| && t < |query(x.rows[i], radius).indices|
    ensures var g := RadiusGraph(x, radius, query).value;
      var qs := Queried(x.rows, radius, query);
      var k := Offset(IndexBlocks(qs), i) + t;
      && |g.data| == TotalLength(IndexBlocks(qs))
      && k < |g.data|
      && g.row[k] == i && g.col[k] == qs[i].indices[t] && g.data[k] == qs[i].distances[t]
  {
    var qs := Queried(x.rows, radius, query);
    ConcatBlock(IndexBlocks(qs), i, t);
    SameOffsets(qs, i);
    ConcatBlock(RowBlocks(qs), i, t);
    DistanceOffsets(qs, i);
    ConcatBlock(DistanceBlocks(qs), i, t);
  }

  /** Row and index blocks have the same lengths, so they start at the same offsets. */
  lemma {:induction false} SameOffsets(qs: seq<Neighbors>, i: nat)
    requires i <= |qs|
    ensures Offset(RowBlocks(qs), i) == Offset(IndexBlocks(qs), i)
  {
    if i > 0 {
      SameOffsets(qs, i - 1);
      assert RowBlocks(qs)[..i][..i - 1] == RowBlocks(qs)[..i - 1];
      assert IndexBlocks(qs)[..i][..i - 1] == IndexBlocks(qs)[..i - 1];
    }
  }

  /** With paired answers, distance blocks start where index blocks do. */
  lemma {:induction false} DistanceOffsets(qs: seq<Neighbors>, i: nat)
    requires i <= |qs| && Paired(qs)
    ensures Offset(DistanceBlocks(qs), i) == Offset(IndexBlocks(qs), i)
  {
    if i > 0 {
      DistanceOffsets(qs, i - 1);
      assert DistanceBlocks(qs)[..i][..i - 1] == DistanceBlocks(qs)[..i - 1];
      assert IndexBlocks(qs)[..i][..i - 1] == IndexBlocks(qs)[..i - 1];
    }
  }

  /** A later block starts after an earlier one ends. */
  lemma {:induction false} OffsetsIncrease<T>(blocks: seq<seq<T>>, i: nat, j: nat)
    requires i < j <= |blocks|
    ensures Offset(blocks, i) + |blocks[i]| <= Offset(blocks, j)
  {
    if j == i + 1 {
      assert blocks[..j][..i] == blocks[..i];
    } else {
      OffsetsIncrease(blocks, i, j - 1);
      assert blocks[..j][..j - 1] == blocks[..j - 1];
    }
  }

  /** In the concatenated row blocks, an earlier position never carries a larger row index. */
  lemma RowPairInOrder(qs: seq<Neighbors>, k: nat, l: nat)
    requires k < l < |Concat(RowBlocks(qs))|
    ensures Concat(RowBlocks(qs))[k] <= Concat(RowBlocks(qs))[l]
  {
    var b := RowBlocks(qs);
    var i, t := ConcatPosition(b, k);
    var i', t' := ConcatPosition(b, l);
    ConcatBlock(b, i, t);
    ConcatBlock(b, i', t');
    if i' < i {
      OffsetsIncrease(b, i', i);
    }
  }

  /** Row indices never decrease along the triples: the graph comes out row by row. */
  lemma RowsInOrder(x: Points, radius: real, query: RadiusQuery)
    requires RadiusGraph(x, radius, query).Ok?
    ensures var g := RadiusGraph(x, radius, query).value;
      forall k, l :: 0 <= k < l < |g.row| ==> g.row[k] <= g.row[l]
  {
    var qs := Queried(x.rows, radius, query);
    var rows := Concat(RowBlocks(qs));
    assert RadiusGraph(x, radius, query).value.row == rows;
    forall k, l | 0 <= k < l < |rows|
      ensures rows[k] <= rows[l]
    {
      RowPairInOrder(qs, k, l);
    }
  }

  // ------------------------------------------------------ distance_matrix

  /** The search structure distance_matrix is given: a built FLANN index, or none. */
  datatype Index = Flann(query: RadiusQuery) | NoIndex

  /** scikit-learn's `radius_neighbors_graph(X, radius, mode='distance')`. */
  type Fallback = (Points, real) -> Result<Coo>

  /** 'nearest_neighbors' falls back to 'radius_neighbors'; every other mode stays. */
  function EffectiveMode(mode: string): string {
    if mode == "nearest_neighbors" then "radius_neighbors" else mode
  }

  /**
   * distance_matrix: the radius graph for the (effective) mode
   * 'radius_neighbors', with radius 1.0 / X.shape[1] when none is given;
   * None for every other mode.
   */
  function DistanceMatrix(x: Points, index: Index, mode: string, radius: Option<real>, fallback: Fallback)
    : (r: Result<Option<Coo>>)
    ensures EffectiveMode(mode) != "radius_neighbors" <==> r == Ok(None)
    ensures EffectiveMode(mode) == "radius_neighbors" && radius.None? && x.dim == 0 ==> r == Err(ZeroDimension)
    ensures index.Flann? && radius.Some? && radius.value < 0.0 && EffectiveMode(mode) == "radius_neighbors" ==>
      r == Err(NegativeRadius)
  {
    if EffectiveMode(mode) != "radius_neighbors" then Ok(None)
    else if radius.None? && x.dim == 0 then Err(ZeroDimension)
    else
      var rad := if radius.Some? then radius.value else 1.0 / (x.dim as real);
      var g := match index
        case Flann(query) => RadiusGraph(x, rad, query)
        case NoIndex => fallback(x, rad);
      if g.Ok? then Ok(Some(g.value)) else Err(g.error)
  }

  /** The FLANN path with no radius given queries with 1 / X.shape[1], which is never rejected as negative. */
  lemma DefaultRadius(x: Points, query: RadiusQuery, mode: string, fallback: Fallback)
    requires EffectiveMode(mode) == "radius_neighbors" && x.dim > 0
    ensures var r := DistanceMatrix(x, Flann(query), mode, None, fallback);
      var g := RadiusGraph(x, 1.0 / (x.dim as real), query);
      && (g.Ok? ==> r == Ok(Some(g.value)))
      && (g.Err? ==> r == Err(g.error))
      && r != Err(NegativeRadius)
  {
    assert 1.0 / (x.dim as real) > 0.0;
  }

  /** Asking for nearest neighbours gives exactly the radius-neighbour graph. */
  lemma NearestNeighborsFallBack(x: Points, index: Index, radius: Option<real>, fallback: Fallback)
    ensures DistanceMatrix(x, index, "nearest_neighbors", radius, fallback)
         == DistanceMatrix(x, index, "radius_neighbors", radius, fallback)
  {
  }
}
