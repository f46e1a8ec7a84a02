/**
 * The search side of discrete_math/discrete_math_lab_4-3.cpp: the bridge
 * search by entry and low times, the connectivity test by depth-first search
 * from vertex 0, and the removal of marked edges until the graph falls apart.
 */
module GraphSplit {
  import opened SpanningForest

  // ---------------------------------------------------------------------
  // Reachability along the matrix entries

  /** A walk following non-zero entries m[p[k - 1]][p[k]]. */
  predicate IsWalk(m: IntMatrix, p: seq<int>)
    requires SquareOf(m, |m|)
  {
    && |p| >= 1
    && (forall k :: 0 <= k < |p| ==> 0 <= p[k] < |m|)
    && (forall k :: 1 <= k < |p| ==> m[p[k - 1]][p[k]] != 0)
  }

  ghost predicate Reaches(m: IntMatrix, a: int, b: int)
    requires SquareOf(m, |m|)
  {
    exists p :: IsWalk(m, p) && p[0] == a && p[|p| - 1] == b
  }

  /** Every vertex can be reached from vertex 0. */
  ghost predicate AllReachable(m: IntMatrix)
    requires SquareOf(m, |m|)
  {
    forall v :: 0 <= v < |m| ==> Reaches(m, 0, v)
  }

  lemma ReachesStep(m: IntMatrix, a: int, b: int, c: int)
    requires SquareOf(m, |m|) && Reaches(m, a, b) && 0 <= b < |m| && 0 <= c < |m| && m[b][c] != 0
    ensures Reaches(m, a, c)
  {
    var p :| IsWalk(m, p) && p[0] == a && p[|p| - 1] == b;
    assert IsWalk(m, p + [c]);
  }

  /** The vertices not marked yet. */
  function Unmarked(vis: seq<bool>): set<int>
  {
    set k | 0 <= k < |vis| && !vis[k]
  }

  /** Every marked vertex outside the stack of open calls has all its successors marked. */
  predicate Closed(m: IntMatrix, vis: seq<bool>, stack: set<int>)
    requires SquareOf(m, |m|) && |vis| == |m|
  {
    forall u, w :: 0 <= u < |m| && 0 <= w < |m| && vis[u] && u !in stack && m[u][w] != 0 ==> vis[w]
  }

  /** Every marked vertex is reachable from vertex 0. */
  ghost predicate MarkedReachable(m: IntMatrix, vis: seq<bool>)
    requires SquareOf(m, |m|) && |vis| == |m|
  {
    forall u :: 0 <= u < |m| && vis[u] ==> Reaches(m, 0, u)
  }

  /** A marked set closed under successors holds everything reachable from a marked vertex. */
  lemma {:induction false} ClosedWalk(m: IntMatrix, vis: seq<bool>, p: seq<int>)
    requires SquareOf(m, |m|) && |vis| == |m| && Closed(m, vis, {}) && IsWalk(m, p) && vis[p[0]]
    ensures vis[p[|p| - 1]]
  {
    if |p| > 1 {
      var front := p[..|p| - 1];
      assert IsWalk(m, front);
      ClosedWalk(m, vis, front);
    }
  }

  // ---------------------------------------------------------------------
  // `isConnect`

  /**
   * The recursive lambda of `isConnect`: marks the vertex and recurses into
   * every unmarked successor. It marks only reachable vertices, never
   * unmarks, and leaves the vertex with all its successors marked.
   */
  method ConnectDfs(m: IntMatrix, visited: array<bool>, vertex: int, ghost stack: set<int>)
    requires SquareOf(m, |m|) && visited.Length == |m| && 0 <= vertex < |m| && !visited[vertex]
    requires Closed(m, visited[..], stack) && MarkedReachable(m, visited[..]) && Reaches(m, 0, vertex)
    modifies visited
    ensures visited[vertex] && forall k :: 0 <= k < |m| && old(visited[k]) ==> visited[k]
    ensures Closed(m, visited[..], stack) && MarkedReachable(m, visited[..])
    decreases Unmarked(visited[..]), 0
  {
    ghost var before := Unmarked(visited[..]);
    visited[vertex] := true;
    ghost var entry := Unmarked(visited[..]);
    assert vertex in before && vertex !in entry && entry <= before;
    for neighbor := 0 to |m|
      invariant visited[vertex] && forall k :: 0 <= k < |m| && old(visited[k]) ==> visited[k]
      invariant Unmarked(visited[..]) <= entry
      invariant Closed(m, visited[..], stack + {vertex}) && MarkedReachable(m, visited[..])
      invariant forall w :: 0 <= w < neighbor && m[vertex][w] != 0 ==> visited[w]
    {
      ConnectNeighbour(m, visited, vertex, neighbor, stack + {vertex});
    }
  }

  /** One turn of the lambda's loop: recurse into the successor when it is unmarked. */
  method ConnectNeighbour(m: IntMatrix, visited: array<bool>, vertex: int, neighbor: int, ghost stack: set<int>)
    requires SquareOf(m, |m|) && visited.Length == |m| && 0 <= vertex < |m| && 0 <= neighbor < |m| && visited[vertex]
    requires Closed(m, visited[..], stack) && MarkedReachable(m, visited[..])
    modifies visited
    ensures forall k :: 0 <= k < |m| && old(visited[k]) ==> visited[k]
    ensures Unmarked(visited[..]) <= old(Unmarked(visited[..]))
    ensures Closed(m, visited[..], stack) && MarkedReachable(m, visited[..])
    ensures m[vertex][neighbor] != 0 ==> visited[neighbor]
    decreases Unmarked(visited[..]), 1
  {
    if m[vertex][neighbor] != 0 && !visited[neighbor] {
      ReachesStep(m, 0, vertex, neighbor);
      ConnectDfs(m, visited, neighbor, stack);
    }
  }

  /** `isConnect`: true exactly when every vertex is reachable from vertex 0. */
  method IsConnect(graph: Graph) returns (b: bool)
    requires WellFormed(graph) && graph.nVertices >= 1
    ensures b <==> AllReachable(graph.values)
  {
    var m := graph.values;
    var visited := new bool[graph.nVertices](_ => false);
    assert IsWalk(m, [0]);
    ConnectDfs(m, visited, 0, {});
    b := true;
    for k := 0 to visited.Length
      invariant b <==> forall t :: 0 <= t < k ==> visited[t]
    {
      if !visited[k] {
        b := false;
        break;
      }
    }
    if b {
      assert forall t :: 0 <= t < |m| ==> visited[t];
    } else {
      var t :| 0 <= t < |m| && !visited[t];
      if Reaches(m, 0, t) {
        var p :| IsWalk(m, p) && p[0] == 0 && p[|p| - 1] == t;
        ClosedWalk(m, visited[..], p);
      }
    }
  }

  // ---------------------------------------------------------------------
  // `splitGraphTwoConnectedComponents`

  /** Clears the entry (i, j) and then its mirror (j, i). */
  function Unlink(m: IntMatrix, i: nat, j: nat): (r: IntMatrix)
    requires SquareOf(m, |m|) && i < |m| && j < |m|
    ensures SquareOf(r, |m|)
    ensures forall a, b :: 0 <= a < |m| && 0 <= b < |m| ==>
              r[a][b] == if (a == i && b == j) || (a == j && b == i) then 0 else m[a][b]
  {
    var once := m[i := m[i][j := 0]];
    once[j := once[j][i := 0]]
  }

  /**
   * The removals from position (i, j) on: entries marked in both the graph
   * and d are cleared in row-major order, and the scan stops as soon as the
   * matrix is no longer connected.
   */
  ghost function SplitFrom(g: IntMatrix, d: IntMatrix, cur: IntMatrix, i: nat, j: nat): (r: IntMatrix)
    requires SquareOf(g, |g|) && SquareOf(d, |g|) && SquareOf(cur, |g|) && j <= |g|
    ensures SquareOf(r, |g|)
    decreases |g| - i, |g| - j
  {
    if i >= |g| then cur
    else if j == |g| then SplitFrom(g, d, cur, i + 1, 0)
    else if g[i][j] != 0 && d[i][j] != 0 then
      var next := Unlink(cur, i, j);
      if !AllReachable(next) then next else SplitFrom(g, d, next, i, j + 1)
    else SplitFrom(g, d, cur, i, j + 1)
  }

  /** Position (i, j) is marked for removal. */
  predicate Candidate(g: IntMatrix, d: IntMatrix, i: int, j: int)
    requires SquareOf(g, |g|) && SquareOf(d, |g|) && 0 <= i < |g| && 0 <= j < |g|
  {
    g[i][j] != 0 && d[i][j] != 0
  }

  /** cur is g with some marked edges cleared, each on both sides. */
  predicate Thinned(g: IntMatrix, d: IntMatrix, cur: IntMatrix)
    requires SquareOf(g, |g|) && SquareOf(d, |g|) && SquareOf(cur, |g|)
  {
    forall a, b :: 0 <= a < |g| && 0 <= b < |g| ==>
      cur[a][b] == g[a][b] || (cur[a][b] == 0 && (Candidate(g, d, a, b) || Candidate(g, d, b, a)))
  }

  /** Every marked position before (i, j) in row-major order is cleared, on both sides. */
  predicate ClearedBefore(g: IntMatrix, d: IntMatrix, cur: IntMatrix, i: nat, j: nat)
    requires SquareOf(g, |g|) && SquareOf(d, |g|) && SquareOf(cur, |g|)
  {
    forall a, b :: 0 <= a < |g| && 0 <= b < |g| && (a < i || (a == i && b < j)) && Candidate(g, d, a, b) ==>
      cur[a][b] == 0 && cur[b][a] == 0
  }

  /** The split only clears marked edges of the graph. */
  lemma {:induction false} SplitThins(g: IntMatrix, d: IntMatrix, cur: IntMatrix, i: nat, j: nat)
    requires SquareOf(g, |g|) && SquareOf(d, |g|) && SquareOf(cur, |g|) && j <= |g| && Thinned(g, d, cur)
    ensures Thinned(g, d, SplitFrom(g, d, cur, i, j))
    decreases |g| - i, |g| - j
  {
    if i >= |g| {
      assert SplitFrom(g, d, cur, i, j) == cur;
    } else if j == |g| {
      assert SplitFrom(g, d, cur, i, j) == SplitFrom(g, d, cur, i + 1, 0);
      SplitThins(g, d, cur, i + 1, 0);
    } else if g[i][j] != 0 && d[i][j] != 0 {
      var next := Unlink(cur, i, j);
      UnlinkThins(g, d, cur, i, j);
      if AllReachable(next) {
        assert SplitFrom(g, d, cur, i, j) == SplitFrom(g, d, next, i, j + 1);
        SplitThins(g, d, next, i, j + 1);
      } else {
        assert SplitFrom(g, d, cur, i, j) == next;
      }
    } else {
      assert SplitFrom(g, d, cur, i, j) == SplitFrom(g, d, cur, i, j + 1);
      SplitThins(g, d, cur, i, j + 1);
    }
  }

  lemma UnlinkThins(g: IntMatrix, d: IntMatrix, cur: IntMatrix, i: nat, j: nat)
    requires SquareOf(g, |g|) && SquareOf(d, |g|) && SquareOf(cur, |g|) && i < |g| && j < |g|
    requires Thinned(g, d, cur) && Candidate(g, d, i, j)
    ensures Thinned(g, d, Unlink(cur, i, j))
  {
  }

  /** When the split ends connected, every marked edge has been cleared. */
  lemma {:induction false} SplitClearsAll(g: IntMatrix, d: IntMatrix, cur: IntMatrix, i: nat, j: nat)
    requires SquareOf(g, |g|) && SquareOf(d, |g|) && SquareOf(cur, |g|) && j <= |g| && i <= |g|
    requires ClearedBefore(g, d, cur, i, j)
    requires AllReachable(SplitFrom(g, d, cur, i, j))
    ensures ClearedBefore(g, d, SplitFrom(g, d, cur, i, j), |g|, 0)
    decreases |g| - i, |g| - j
  {
    if i >= |g| {
    } else if j == |g| {
      ClearedRow(g, d, cur, i);
      SplitClearsAll(g, d, cur, i + 1, 0);
    } else if g[i][j] != 0 && d[i][j] != 0 {
      var next := Unlink(cur, i, j);
      ClearedUnlink(g, d, cur, i, j);
      if AllReachable(next) {
        SplitClearsAll(g, d, next, i, j + 1);
      }
    } else {
      ClearedSkip(g, d, cur, i, j);
      SplitClearsAll(g, d, cur, i, j + 1);
    }
  }

  lemma ClearedRow(g: IntMatrix, d: IntMatrix, cur: IntMatrix, i: nat)
    requires SquareOf(g, |g|) && SquareOf(d, |g|) && SquareOf(cur, |g|) && ClearedBefore(g, d, cur, i, |g|)
    ensures ClearedBefore(g, d, cur, i + 1, 0)
  {
  }

  lemma ClearedSkip(g: IntMatrix, d: IntMatrix, cur: IntMatrix, i: nat, j: nat)
    requires SquareOf(g, |g|) && SquareOf(d, |g|) && SquareOf(cur, |g|) && i < |g| && j < |g|
    requires ClearedBefore(g, d, cur, i, j) && !Candidate(g, d, i, j)
    ensures ClearedBefore(g, d, cur, i, j + 1)
  {
  }

  lemma ClearedUnlink(g: IntMatrix, d: IntMatrix, cur: IntMatrix, i: nat, j: nat)
    requires SquareOf(g, |g|) && SquareOf(d, |g|) && SquareOf(cur, |g|) && i < |g| && j < |g|
    requires ClearedBefore(g, d, cur, i, j)
    ensures ClearedBefore(g, d, Unlink(cur, i, j), i, j + 1)
  {
    var next := Unlink(cur, i, j);
    forall a, b | 0 <= a < |g| && 0 <= b < |g| && (a < i || (a == i && b < j + 1)) && Candidate(g, d, a, b)
      ensures next[a][b] == 0 && next[b][a] == 0
    {
      if !(a == i && b == j) {
        assert cur[a][b] == 0 && cur[b][a] == 0;
      }
    }
  }

  /** One row of the scan in `splitGraphTwoConnectedComponents`; stop reports a disconnection. */
  method SplitRow(g: IntMatrix, d: IntMatrix, cur: IntMatrix, i: nat) returns (next: IntMatrix, stop: bool)
    requires SquareOf(g, |g|) && SquareOf(d, |g|) && SquareOf(cur, |g|) && i < |g|
    ensures SquareOf(next, |g|)
    ensures stop ==> next == SplitFrom(g, d, cur, i, 0)
    ensures !stop ==> SplitFrom(g, d, next, i + 1, 0) == SplitFrom(g, d, cur, i, 0)
  {
    next := cur;
    for j := 0 to |g|
      invariant SquareOf(next, |g|)
      invariant SplitFrom(g, d, next, i, j) == SplitFrom(g, d, cur, i, 0)
    {
      if g[i][j] != 0 && d[i][j] != 0 {
        next := Unlink(next, i, j);
        var connected := IsConnect(Graph(next, |g|));
        if !connected {
          return next, true;
        }
      }
    }
    stop := false;
  }

  /**
   * `splitGraphTwoConnectedComponents`: works on a copy of the graph,
   * clearing each edge marked in both matrices until the copy is no longer
   * connected.
   */
  method SplitGraphTwoConnectedComponents(graph: Graph, deletedEdges: Graph) returns (result: Graph)
    requires WellFormed(graph) && WellFormed(deletedEdges) && deletedEdges.nVertices == graph.nVertices
    ensures result == Graph(SplitFrom(graph.values, deletedEdges.values, graph.values, 0, 0), graph.nVertices)
  {
    var g, d := graph.values, deletedEdges.values;
    var cur := g;
    for i := 0 to graph.nVertices
      invariant SquareOf(cur, |g|)
      invariant SplitFrom(g, d, cur, i, 0) == SplitFrom(g, d, g, 0, 0)
    {
      var stop;
      cur, stop := SplitRow(g, d, cur, i);
      if stop {
        return Graph(cur, graph.nVertices);
      }
    }
    result := Graph(cur, graph.nVertices);
  }

  /**
   * What the split promises: only marked edges of the graph are cleared, each
   * on both sides, and a result that is still connected has lost every
   * marked edge.
   */
  lemma SplitResult(g: IntMatrix, d: IntMatrix)
    requires SquareOf(g, |g|) && SquareOf(d, |g|)
    ensures Thinned(g, d, SplitFrom(g, d, g, 0, 0))
    ensures AllReachable(SplitFrom(g, d, g, 0, 0)) ==> ClearedBefore(g, d, SplitFrom(g, d, g, 0, 0), |g|, 0)
  {
    SplitThins(g, d, g, 0, 0);
    if AllReachable(SplitFrom(g, d, g, 0, 0)) {
      SplitClearsAll(g, d, g, 0, 0);
    }
  }
}
