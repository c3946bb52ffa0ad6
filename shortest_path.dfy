/**
 * single_source_shortest_path_length: a level-by-level breadth-first search
 * over the row lists of a LIL sparse matrix.  The result maps every vertex
 * reached to the number of hops at which it was first reached.
 */
module ShortestPath {
  import opened Common

  /** `graph.rows` of a LIL matrix: for each vertex, the column indices stored in its row. */
  type Rows = seq<seq<nat>>

  predicate ValidRows(g: Rows) {
    forall v, k :: 0 <= v < |g| && 0 <= k < |g[v]| ==> g[v][k] < |g|
  }

  /** The column indices j >= from with row[j] != 0, in increasing order. */
  function NonZeroColumns(row: seq<real>, from: nat): (cols: seq<nat>)
    requires from <= |row|
    ensures forall k :: 0 <= k < |cols| ==> from <= cols[k] < |row|
    ensures forall j :: from <= j < |row| ==> (j in cols <==> row[j] != 0.0)
    decreases |row| - from
  {
    if from == |row| then []
    else if row[from] != 0.0 then [from] + NonZeroColumns(row, from + 1)
    else NonZeroColumns(row, from + 1)
  }

  /** `sparse.lil_matrix(graph).rows` for a dense square matrix. */
  function LilRows(m: seq<seq<real>>): (g: Rows)
    requires forall i :: 0 <= i < |m| ==> |m[i]| == |m|
    ensures |g| == |m| && ValidRows(g)
    ensures forall i, j :: 0 <= i < |m| && 0 <= j < |m| ==> (j in g[i] <==> m[i][j] != 0.0)
  {
    seq(|m|, i requires 0 <= i < |m| => NonZeroColumns(m[i], 0))
  }

  // ------------------------------------------------------------ reference

  /** The vertices one hop from S. */
  ghost function Succ(g: Rows, S: set<nat>): set<nat> {
    set v, w | v in S && v < |g| && w in g[v] :: w
  }

  /** How many of the vertex labels 0 .. n-1 are not yet in `keys`: the search's termination measure. */
  ghost function Unvisited(keys: set<nat>, n: nat): nat {
    if n == 0 then 0 else Unvisited(keys, n - 1) + (if n - 1 in keys then 0 else 1)
  }

  /** The vertices at most k hops from s. */
  ghost function Reach(g: Rows, s: nat, k: nat): set<nat> {
    if k == 0 then {s} else Reach(g, s, k - 1) + Succ(g, Reach(g, s, k - 1))
  }

  /** v is at most k hops from s (a named predicate, so that quantifiers over k stay finite). */
  ghost predicate WithinHops(g: Rows, s: nat, k: nat, v: nat) {
    v in Reach(g, s, k)
  }

  /** v is k hops from s and no fewer: k is its shortest path length. */
  ghost predicate FirstReachedAt(g: Rows, s: nat, v: nat, k: nat) {
    v in Reach(g, s, k) && (k > 0 ==> v !in Reach(g, s, k - 1))
  }

  /** A walk: consecutive vertices are joined by a stored entry. */
  ghost predicate IsWalk(g: Rows, p: seq<nat>) {
    forall i :: 0 <= i < |p| - 1 ==> p[i] < |g| && p[i + 1] in g[p[i]]
  }

  lemma {:induction false} ReachMonotone(g: Rows, s: nat, j: nat, k: nat)
    requires j <= k
    ensures Reach(g, s, j) <= Reach(g, s, k)
    decreases k - j
  {
    if j < k {
      ReachMonotone(g, s, j, k - 1);
    }
  }

  /** Reach is exactly "the end of a walk from s with at most k hops". */
  lemma {:induction false} WalkEndsInReach(g: Rows, s: nat, p: seq<nat>)
    requires ValidRows(g) && |p| >= 1 && p[0] == s && IsWalk(g, p)
    ensures p[|p| - 1] in Reach(g, s, |p| - 1)
  {
    if |p| > 1 {
      var q := p[..|p| - 1];
      WalkEndsInReach(g, s, q);
      var u := q[|q| - 1];
      assert p[|p| - 1] in g[u];
      assert p[|p| - 1] in Succ(g, Reach(g, s, |q| - 1));
    }
  }

  lemma {:induction false} ReachHasWalk(g: Rows, s: nat, k: nat, v: nat)
    requires ValidRows(g) && v in Reach(g, s, k)
    ensures exists p :: |p| <= k + 1 && |p| >= 1 && p[0] == s && p[|p| - 1] == v && IsWalk(g, p)
  {
    if k == 0 {
      assert [s][0] == s && IsWalk(g, [s]);
    } else if v in Reach(g, s, k - 1) {
      ReachHasWalk(g, s, k - 1, v);
    } else {
      var u :| u in Reach(g, s, k - 1) && u < |g| && v in g[u];
      ReachHasWalk(g, s, k - 1, u);
      var p :| |p| <= k && |p| >= 1 && p[0] == s && p[|p| - 1] == u && IsWalk(g, p);
      var p' := p + [v];
      assert IsWalk(g, p');
      assert p'[0] == s && p'[|p'| - 1] == v;
    }
  }

  /** Only the newest level contributes vertices that are not already reached. */
  lemma ReachStep(g: Rows, s: nat, k: nat)
    ensures Reach(g, s, k + 1)
         == Reach(g, s, k) + Succ(g, Reach(g, s, k) - (if k == 0 then {} else Reach(g, s, k - 1)))
  {
    var R := Reach(g, s, k);
    var old_ := if k == 0 then {} else Reach(g, s, k - 1);
    if k > 0 {
      assert Succ(g, old_) <= R;
    }
    assert Succ(g, R) == Succ(g, R - old_) + Succ(g, old_);
  }

  /** Once a level adds nothing, no later level does. */
  lemma {:induction false} ReachStable(g: Rows, s: nat, j: nat, k: nat)
    requires Reach(g, s, j + 1) == Reach(g, s, j)
    ensures Reach(g, s, k) <= Reach(g, s, j)
  {
    if k <= j {
      ReachMonotone(g, s, k, j);
    } else {
      ReachStable(g, s, j, k - 1);
      assert Succ(g, Reach(g, s, k - 1)) <= Succ(g, Reach(g, s, j));
    }
  }

  // ------------------------------------------------------------ the search

  predicate WithinCutoff(k: nat, cutoff: Option<int>) {
    cutoff.None? || k <= cutoff.value
  }

  function SetOf(row: seq<nat>): set<nat> {
    set x | x in row
  }

  /**
   * One pass of the `for v in this_level` loop: every vertex of the level
   * not yet seen is recorded at `level`, and the rows of exactly those
   * vertices make up the next level.
   */
  method VisitLevel(g: Rows, thisLevel: set<nat>, seen: map<nat, nat>, level: nat)
    returns (seen': map<nat, nat>, nextLevel: set<nat>)
    requires ValidRows(g) && forall v :: v in thisLevel ==> v < |g|
    ensures seen'.Keys == seen.Keys + thisLevel
    ensures forall v :: v in seen ==> seen'[v] == seen[v]
    ensures forall v :: v in thisLevel && v !in seen ==> seen'[v] == level
    ensures nextLevel == Succ(g, thisLevel - seen.Keys)
  {
    seen' := seen;
    nextLevel := {};
    var remaining := thisLevel;
    while remaining != {}
      invariant remaining <= thisLevel
      invariant seen'.Keys == seen.Keys + (thisLevel - remaining)
      invariant forall v :: v in seen ==> seen'[v] == seen[v]
      invariant forall v :: v in seen' && v !in seen ==> seen'[v] == level
      invariant nextLevel == Succ(g, seen'.Keys - seen.Keys)
      decreases remaining
    {
      var v :| v in remaining;
      remaining := remaining - {v};
      if v !in seen' {
        ghost var before := seen'.Keys - seen.Keys;
        seen' := seen'[v := level];
        assert seen'.Keys - seen.Keys == before + {v};
        assert Succ(g, before + {v}) == Succ(g, before) + SetOf(g[v]);
        nextLevel := nextLevel + SetOf(g[v]);
      }
    }
    assert seen'.Keys - seen.Keys == thisLevel - seen.Keys;
  }

  /** The loop invariant of the search, before the pass over `level`. */
  ghost predicate SearchState(g: Rows, s: nat, seen: map<nat, nat>, nextLevel: set<nat>, level: nat) {
    && (forall v :: v in nextLevel ==> v < |g|)
    && (forall v :: v in seen ==> v < |g| && seen[v] < level)
    // Instantiated only where a level is asked about, so that the search loop never unfolds Reach.
    && (forall v {:trigger FirstReachedAt(g, s, v, seen[v])} :: v in seen ==> FirstReachedAt(g, s, v, seen[v]))
    && seen.Keys == (if level == 0 then {} else Reach(g, s, level - 1))
    && Reach(g, s, level) == seen.Keys + nextLevel
  }

  /** A pass over `level` records exactly the vertices first reached at that level. */
  lemma PassPreservesState(g: Rows, s: nat, seen0: map<nat, nat>, thisLevel: set<nat>, level: nat,
                           seen: map<nat, nat>, nextLevel: set<nat>)
    requires ValidRows(g) && SearchState(g, s, seen0, thisLevel, level)
    requires seen.Keys == seen0.Keys + thisLevel
    requires forall v :: v in seen0 ==> seen[v] == seen0[v]
    requires forall v :: v in thisLevel && v !in seen0 ==> seen[v] == level
    requires nextLevel == Succ(g, thisLevel - seen0.Keys)
    ensures seen.Keys == Reach(g, s, level)
    ensures SearchState(g, s, seen, nextLevel, level + 1)
  {
    ReachStep(g, s, level);
    assert seen.Keys - seen0.Keys == Reach(g, s, level) - seen0.Keys;
    forall v | v in seen
      ensures v < |g| && FirstReachedAt(g, s, v, seen[v]) && seen[v] < level + 1
    {
      if v in seen0 {
        assert seen[v] == seen0[v];
      } else {
        assert seen[v] == level && v in Reach(g, s, level);
        assert level > 0 ==> v !in Reach(g, s, level - 1);
      }
    }
  }

  /** Recording more vertices never increases the measure, and recording a new one below n decreases it. */
  lemma {:induction false} UnvisitedShrinks(a: set<nat>, b: set<nat>, n: nat)
    requires a <= b
    ensures Unvisited(b, n) <= Unvisited(a, n)
    ensures (exists x :: x in b && x !in a && x < n) ==> Unvisited(b, n) < Unvisited(a, n)
  {
    if n > 0 {
      UnvisitedShrinks(a, b, n - 1);
    }
  }

  /** A pass either records a new vertex or leaves nothing for the next level. */
  lemma PassProgress(g: Rows, keys0: set<nat>, thisLevel: set<nat>, keys: set<nat>, nextLevel: set<nat>)
    requires forall v :: v in thisLevel ==> v < |g|
    requires keys == keys0 + thisLevel
    requires nextLevel == Succ(g, thisLevel - keys0)
    ensures Unvisited(keys, |g|) < Unvisited(keys0, |g|)
         || (Unvisited(keys, |g|) == Unvisited(keys0, |g|) && nextLevel == {})
  {
    UnvisitedShrinks(keys0, keys, |g|);
    if thisLevel <= keys0 {
      assert thisLevel - keys0 == {};
      assert keys == keys0;
    } else {
      var v :| v in thisLevel && v !in keys0;
      assert v in keys && v < |g|;
    }
  }

  /** Before the first pass: nothing seen, the source alone on the first level. */
  lemma InitialState(g: Rows, source: nat)
    requires source < |g|
    ensures SearchState(g, source, map[], {source}, 0)
  {
  }

  /** The source is reached at level 0 and hence recorded there. */
  lemma SourceAtLevelZero(g: Rows, source: nat, seen: map<nat, nat>)
    requires source in seen && FirstReachedAt(g, source, source, seen[source])
    ensures seen[source] == 0
  {
    if seen[source] > 0 {
      ReachMonotone(g, source, 0, seen[source] - 1);
    }
  }

  /** One iteration of the `while next_level` loop, up to the cutoff test. */
  method SearchPass(g: Rows, source: nat, seen: map<nat, nat>, thisLevel: set<nat>, level: nat)
    returns (seen': map<nat, nat>, nextLevel: set<nat>)
    requires ValidRows(g) && SearchState(g, source, seen, thisLevel, level)
    ensures seen'.Keys == Reach(g, source, level)
    ensures SearchState(g, source, seen', nextLevel, level + 1)
    ensures Unvisited(seen'.Keys, |g|) < Unvisited(seen.Keys, |g|)
         || (Unvisited(seen'.Keys, |g|) == Unvisited(seen.Keys, |g|) && nextLevel == {})
  {
    seen', nextLevel := VisitLevel(g, thisLevel, seen, level);
    PassPreservesState(g, source, seen, thisLevel, level, seen', nextLevel);
    PassProgress(g, seen.Keys, thisLevel, seen'.Keys, nextLevel);
  }

  /** The outcome when the cutoff ends the search after the pass over `level`. */
  lemma StoppedAtCutoff(g: Rows, source: nat, seen: map<nat, nat>, level: nat, cutoff: Option<int>)
    requires seen.Keys == Reach(g, source, level)
    requires forall v :: v in seen ==> v < |g| && FirstReachedAt(g, source, v, seen[v]) && seen[v] < level + 1
    requires cutoff.Some? && cutoff.value <= level && level <= (if cutoff.value < 0 then 0 else cutoff.value)
    ensures source in seen && seen[source] == 0
    ensures forall v :: v in seen ==> v < |g| && FirstReachedAt(g, source, v, seen[v])
    ensures forall v, k :: WithinHops(g, source, k, v) && WithinCutoff(k, cutoff) ==> v in seen
    ensures cutoff.Some? && cutoff.value >= 0 ==> forall v :: v in seen ==> seen[v] <= cutoff.value
    ensures cutoff.Some? && cutoff.value < 0 ==> seen == map[source := 0]
  {
    forall v, k: nat | WithinHops(g, source, k, v) && WithinCutoff(k, cutoff) ensures v in seen {
      ReachMonotone(g, source, k, level);
    }
    assert source in Reach(g, source, 0);
    ReachMonotone(g, source, 0, level);
    SourceAtLevelZero(g, source, seen);
  }

  /** The outcome when a pass leaves nothing for the next level: every reachable vertex is recorded. */
  lemma ExhaustedSearch(g: Rows, source: nat, seen: map<nat, nat>, level: nat, cutoff: Option<int>)
    requires SearchState(g, source, seen, {}, level)
    requires cutoff.Some? ==> level <= if cutoff.value < 0 then 0 else cutoff.value
    ensures source in seen && seen[source] == 0
    ensures forall v :: v in seen ==> v < |g| && FirstReachedAt(g, source, v, seen[v])
    ensures forall v, k :: WithinHops(g, source, k, v) && WithinCutoff(k, cutoff) ==> v in seen
    ensures cutoff.Some? && cutoff.value >= 0 ==> forall v :: v in seen ==> seen[v] <= cutoff.value
    ensures cutoff.Some? && cutoff.value < 0 ==> seen == map[source := 0]
  {
    ReachClosed(g, source, seen, level);
  }

  /** With nothing left for the next level, the recorded vertices are closed under every further hop. */
  lemma ReachClosed(g: Rows, source: nat, seen: map<nat, nat>, level: nat)
    requires SearchState(g, source, seen, {}, level)
    ensures level > 0 && source in seen && seen[source] == 0
    ensures forall v, k :: WithinHops(g, source, k, v) ==> v in seen
  {
    assert source in Reach(g, source, 0);
    assert level > 0;
    assert seen.Keys == Reach(g, source, level - 1) == Reach(g, source, level);
    ReachStable(g, source, level - 1, 0);
    SourceAtLevelZero(g, source, seen);
    forall v, k | WithinHops(g, source, k, v) ensures v in seen {
      ReachStable(g, source, level - 1, k);
    }
  }

  /**
   * What single_source_shortest_path_length returns: the source at level 0;
   * every recorded vertex at its shortest hop count; every vertex within
   * the cutoff recorded; no count above a non-negative cutoff; and only the
   * source for a negative cutoff.
   */
  ghost predicate ShortestPathLengths(g: Rows, source: nat, cutoff: Option<int>, seen: map<nat, nat>) {
    && source in seen && seen[source] == 0
    && (forall v :: v in seen ==> v < |g| && FirstReachedAt(g, source, v, seen[v]))
    && (forall v, k :: WithinHops(g, source, k, v) && WithinCutoff(k, cutoff) ==> v in seen)
    && (cutoff.Some? && cutoff.value >= 0 ==> forall v :: v in seen ==> seen[v] <= cutoff.value)
    && (cutoff.Some? && cutoff.value < 0 ==> seen == map[source := 0])
  }

  /**
   * The BFS of single_source_shortest_path_length.  `seen` records each
   * vertex once, at its shortest hop count; every vertex within the cutoff
   * is recorded; no recorded count exceeds a non-negative cutoff, and a
   * negative cutoff still records the source at level 0.
   */
  method SingleSourceShortestPathLength(g: Rows, source: nat, cutoff: Option<int>)
    returns (seen: map<nat, nat>)
    requires ValidRows(g) && source < |g|
    ensures ShortestPathLengths(g, source, cutoff, seen)
  {
    InitialState(g, source);
    seen := map[];
    var level: nat := 0;
    var nextLevel: set<nat> := {source};
    while nextLevel != {}
      invariant SearchState(g, source, seen, nextLevel, level)
      invariant cutoff.Some? ==> level <= if cutoff.value < 0 then 0 else cutoff.value
      decreases Unvisited(seen.Keys, |g|), if nextLevel == {} then 0 else 1
    {
      seen, nextLevel := SearchPass(g, source, seen, nextLevel, level);
      if cutoff.Some? && cutoff.value <= level {
        StoppedAtCutoff(g, source, seen, level, cutoff);
        return;
      }
      level := level + 1;
    }
    ExhaustedSearch(g, source, seen, level, cutoff);
  }

  // ------------------------------------------------------------ the answer

  /** A vertex is first reached at one level only. */
  lemma FirstLevelUnique(g: Rows, s: nat, v: nat, j: nat, k: nat)
    requires FirstReachedAt(g, s, v, j) && FirstReachedAt(g, s, v, k)
    ensures j == k
  {
    if j < k {
      ReachMonotone(g, s, j, k - 1);
    } else if k < j {
      ReachMonotone(g, s, k, j - 1);
    }
  }

  /** The contract pins the answer down: two maps that both meet it are equal. */
  lemma AnswerIsUnique(g: Rows, s: nat, cutoff: Option<int>, a: map<nat, nat>, b: map<nat, nat>)
    requires ShortestPathLengths(g, s, cutoff, a) && ShortestPathLengths(g, s, cutoff, b)
    ensures a == b
  {
    if !(cutoff.Some? && cutoff.value < 0) {
      forall v | v in a ensures v in b {
        assert WithinHops(g, s, a[v], v);
      }
      forall v | v in b ensures v in a {
        assert WithinHops(g, s, b[v], v);
      }
      forall v | v in a ensures a[v] == b[v] {
        FirstLevelUnique(g, s, v, a[v], b[v]);
      }
      assert a.Keys == b.Keys;
    }
  }

  /**
   * A hop count for every vertex that is 0 on the source, grows by at most
   * one along every stored entry, and gives every other vertex a parent one
   * hop closer, is exactly the BFS level: v is within k hops iff hops[v] <= k.
   */
  lemma {:induction false} HopsAreLevels(g: Rows, s: nat, hops: map<nat, nat>, parent: seq<nat>, k: nat)
    requires ValidRows(g) && s < |g| && |parent| == |g|
    requires forall v: nat :: v in hops <==> v < |g|
    requires hops[s] == 0
    requires forall u, t :: 0 <= u < |g| && 0 <= t < |g[u]| ==> hops[g[u][t]] <= hops[u] + 1
    requires forall v :: 0 <= v < |g| && v != s ==> parent[v] < |g| && v in g[parent[v]] && hops[parent[v]] + 1 == hops[v]
    ensures forall v: nat :: v in Reach(g, s, k) <==> v in hops && hops[v] <= k
  {
    if k > 0 {
      HopsAreLevels(g, s, hops, parent, k - 1);
      forall v: nat | v in hops && hops[v] <= k ensures v in Reach(g, s, k) {
        if hops[v] < k {
          assert v in Reach(g, s, k - 1);
        } else {
          var u := parent[v];
          assert u in Reach(g, s, k - 1);
          assert v in Succ(g, Reach(g, s, k - 1));
        }
      }
      forall v: nat | v in Reach(g, s, k) ensures v in hops && hops[v] <= k {
        if v !in Reach(g, s, k - 1) {
          var u, w :| u in Reach(g, s, k - 1) && u < |g| && w in g[u] && w == v;
          var t :| 0 <= t < |g[u]| && g[u][t] == w;
        }
      }
    } else {
      forall v: nat | v in hops && v != s ensures hops[v] >= 1 {
        assert v < |g|;
        assert hops[parent[v]] + 1 == hops[v];
      }
    }
  }

  /** Such hop counts are the answer of the search without cutoff. */
  lemma HopsAreTheAnswer(g: Rows, s: nat, hops: map<nat, nat>, parent: seq<nat>)
    requires ValidRows(g) && s < |g| && |parent| == |g|
    requires forall v: nat :: v in hops <==> v < |g|
    requires hops[s] == 0
    requires forall u, t :: 0 <= u < |g| && 0 <= t < |g[u]| ==> hops[g[u][t]] <= hops[u] + 1
    requires forall v :: 0 <= v < |g| && v != s ==> parent[v] < |g| && v in g[parent[v]] && hops[parent[v]] + 1 == hops[v]
    ensures ShortestPathLengths(g, s, None, hops)
  {
    forall v | v in hops ensures FirstReachedAt(g, s, v, hops[v]) {
      HopsAreLevels(g, s, hops, parent, hops[v]);
      if hops[v] > 0 {
        HopsAreLevels(g, s, hops, parent, hops[v] - 1);
      }
    }
    forall v, k | WithinHops(g, s, k, v) ensures v in hops {
      HopsAreLevels(g, s, hops, parent, k);
    }
  }

  // ------------------------------------------------------------ examples

  /** The path 0 - 1 - 2 - 3 of the documentation, as LIL rows. */
  function PathGraph(): (g: Rows)
    ensures |g| == 4 && ValidRows(g)
  {
    LilRows([[0.0, 1.0, 0.0, 0.0], [1.0, 0.0, 1.0, 0.0], [0.0, 1.0, 0.0, 1.0], [0.0, 0.0, 1.0, 0.0]])
  }

  lemma PathRows()
    ensures PathGraph() == [[1], [0, 2], [1, 3], [2]]
  {
    assert NonZeroColumns([0.0, 1.0, 0.0, 0.0], 0) == [1];
    assert NonZeroColumns([1.0, 0.0, 1.0, 0.0], 0) == [0, 2];
    assert NonZeroColumns([0.0, 1.0, 0.0, 1.0], 0) == [1, 3];
    assert NonZeroColumns([0.0, 0.0, 1.0, 0.0], 0) == [2];
  }

  lemma PathHops(g: Rows)
    requires g == [[1], [0, 2], [1, 3], [2]]
    ensures ShortestPathLengths(g, 0, None, map[0 := 0, 1 := 1, 2 := 2, 3 := 3])
  {
    var hops: map<nat, nat> := map[0 := 0, 1 := 1, 2 := 2, 3 := 3];
    assert g[0] == [1] && g[1] == [0, 2] && g[2] == [1, 3] && g[3] == [2];
    assert 1 in g[0] && 2 in g[1] && 3 in g[2];
    HopsAreTheAnswer(g, 0, hops, [0, 0, 1, 2]);
  }

  /** `single_source_shortest_path_length(path, 0)` is {0: 0, 1: 1, 2: 2, 3: 3}. */
  lemma PathGraphDoctest(seen: map<nat, nat>)
    requires ShortestPathLengths(PathGraph(), 0, None, seen)
    ensures seen == map[0 := 0, 1 := 1, 2 := 2, 3 := 3]
  {
    PathRows();
    PathHops(PathGraph());
    AnswerIsUnique(PathGraph(), 0, None, seen, map[0 := 0, 1 := 1, 2 := 2, 3 := 3]);
  }

  /** The complete graph on six vertices, self-loops included: `np.ones((6, 6))`. */
  function CompleteGraph(): (g: Rows)
    ensures |g| == 6 && ValidRows(g)
    ensures forall v :: 0 <= v < 6 ==> v in g[2]
  {
    LilRows(seq(6, i => seq(6, j => 1.0)))
  }

  lemma CompleteHops(g: Rows)
    requires |g| == 6 && ValidRows(g) && forall v :: 0 <= v < 6 ==> v in g[2]
    ensures ShortestPathLengths(g, 2, None, map[0 := 1, 1 := 1, 2 := 0, 3 := 1, 4 := 1, 5 := 1])
  {
    var hops: map<nat, nat> := map[0 := 1, 1 := 1, 2 := 0, 3 := 1, 4 := 1, 5 := 1];
    assert forall v: nat :: v in hops ==> hops[v] <= 1;
    HopsAreTheAnswer(g, 2, hops, [2, 2, 2, 2, 2, 2]);
  }

  /** `single_source_shortest_path_length(np.ones((6, 6)), 2)` is {0: 1, 1: 1, 2: 0, 3: 1, 4: 1, 5: 1}. */
  lemma CompleteGraphDoctest(seen: map<nat, nat>)
    requires ShortestPathLengths(CompleteGraph(), 2, None, seen)
    ensures seen == map[0 := 1, 1 := 1, 2 := 0, 3 := 1, 4 := 1, 5 := 1]
  {
    CompleteHops(CompleteGraph());
    AnswerIsUnique(CompleteGraph(), 2, None, seen, map[0 := 1, 1 := 1, 2 := 0, 3 := 1, 4 := 1, 5 := 1]);
  }
}
