/**
 * The DistanceMatrix class: a data matrix with its search index, and a
 * cached distance graph that get_distance_matrix recomputes only when
 * nothing is cached or a new radius is asked for.
 */
module DistanceCache {
  import opened Common
  import opened CooMatrices
  import opened NeighborsGraph

  /** What get_distance_matrix hands back for a cached value: `.copy()` fails on None. */
  function Served(cached: Option<Coo>, copy: bool): (r: Result<Option<Coo>>)
    ensures r.Ok? ==> r.value == cached
    ensures r.Err? <==> copy && cached.None?
  {
    if copy && cached.None? then Err(NoGraph) else Ok(cached)
  }

  class DistanceMatrix {
    const mode: string
    const gamma: Option<real>
    var neighborsRadius: Option<real>
    const nNeighbors: Option<int>
    /** The cached graph; None until computed, and after a mode that computes nothing. */
    var distanceMatrix: Option<Coo>
    /** `X_`: the data, which is not kept for mode 'precomputed'. */
    const points: Option<Points>
    /** `flindex_`: the FLANN index built on the data, or none. */
    const index: Index
    const fallback: Fallback

    /** The data is kept exactly when the mode is not 'precomputed'. */
    predicate Valid() {
      points.None? <==> mode == "precomputed"
    }

    /**
     * `__init__`: keeps the settings, caches nothing, keeps X unless the mode
     * is 'precomputed', and builds the index when use_flann (the index
     * built on X answers radius queries as `flann` does).
     */
    constructor (x: Points, mode: string, useFlann: bool, gamma: Option<real>, neighborsRadius: Option<real>,
                 nNeighbors: Option<int>, flann: RadiusQuery, fallback: Fallback)
      ensures Valid()
      ensures this.mode == mode && this.gamma == gamma && this.nNeighbors == nNeighbors
      ensures this.neighborsRadius == neighborsRadius && distanceMatrix == None
      ensures points == (if mode != "precomputed" then Some(x) else None)
      ensures index == (if useFlann then Flann(flann) else NoIndex)
      ensures this.fallback == fallback
    {
      this.mode := mode;
      this.gamma := gamma;
      this.neighborsRadius := neighborsRadius;
      this.nNeighbors := nNeighbors;
      distanceMatrix := None;
      points := if mode != "precomputed" then Some(x) else None;
      index := if useFlann then Flann(flann) else NoIndex;
      this.fallback := fallback;
    }

    /** `_pairwise`: the data given is itself the distance matrix. */
    predicate Pairwise()
      requires Valid()
    {
      mode == "precomputed"
    }

    function GetNeighborsRadius(): (r: Option<real>)
      reads this
      ensures r == neighborsRadius
    {
      neighborsRadius
    }

    /** distance_matrix on this object's data, index and mode. */
    function Computed(radius: Option<real>): (r: Result<Option<Coo>>)
      requires Valid()
      ensures Pairwise() ==> r == Ok(None)
      ensures !Pairwise() ==> r == NeighborsGraph.DistanceMatrix(points.value, index, mode, radius, fallback)
    {
      if points.None? then Ok(None) else NeighborsGraph.DistanceMatrix(points.value, index, mode, radius, fallback)
    }

    /**
     * get_distance_matrix: recompute when nothing is cached or a radius is
     * passed (storing that radius first); otherwise serve the cache.
     */
    method GetDistanceMatrix(radius: Option<real>, copy: bool) returns (r: Result<Option<Coo>>)
      requires Valid()
      modifies this
      ensures neighborsRadius == (if radius.Some? then radius else old(neighborsRadius))
      ensures old(distanceMatrix).Some? && radius.None? ==>
        distanceMatrix == old(distanceMatrix) && r == Ok(old(distanceMatrix))
      ensures old(distanceMatrix).None? || radius.Some? ==>
        var c := Computed(neighborsRadius);
        && distanceMatrix == (if c.Ok? then c.value else old(distanceMatrix))
        && r == (if c.Ok? then Served(c.value, copy) else Err(c.error))
    {
      if distanceMatrix.None? || radius.Some? {
        if radius.Some? {
          neighborsRadius := radius;
        }
        var c := Computed(neighborsRadius);
        if c.Err? {
          return Err(c.error);
        }
        distanceMatrix := c.value;
      }
      r := Served(distanceMatrix, copy);
    }
  }
}
