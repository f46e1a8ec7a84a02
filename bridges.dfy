/**
 * The bridge search of discrete_math/discrete_math_lab_4-3.cpp
 * (`recursionPartForFindingBridges` and `tarjanAlgorithmForFindingBridges`):
 * a depth-first search that stamps each vertex with an entry time and a low
 * time, and marks the edge to a child whose low time exceeds the entry time
 * of its parent.
 */
module Bridges {
  import opened SpanningForest

  function Min(a: int, b: int): (r: int)
    ensures r <= a && r <= b && (r == a || r == b)
  {
    if a <= b then a else b
  }

  /** The vertices whose `visited` entry is still 0. */
  function Unvisited(vis: seq<int>): set<int>
  {
    set k | 0 <= k < |vis| && vis[k] == 0
  }

  /**
   * Every marked entry is a 1 with its mirror marked too, on a pair joined by
   * an edge in one direction or the other.
   */
  predicate BridgesInside(m: IntMatrix, b: IntMatrix)
    requires SquareOf(m, |m|) && SquareOf(b, |m|)
  {
    forall x, y :: 0 <= x < |m| && 0 <= y < |m| && b[x][y] != 0 ==>
      b[x][y] == 1 && b[y][x] == 1 && (m[x][y] != 0 || m[y][x] != 0)
  }

  /** Nothing visited before is unvisited now. */
  predicate Grown(vis0: seq<int>, vis: seq<int>)
    requires |vis0| == |vis|
  {
    forall k :: 0 <= k < |vis| && vis0[k] != 0 ==> vis[k] != 0
  }

  /** Every successor of k is visited. */
  predicate NeighboursVisited(m: IntMatrix, vis: seq<int>, k: int)
    requires SquareOf(m, |m|) && |vis| == |m| && 0 <= k < |m|
  {
    forall w :: 0 <= w < |m| && m[k][w] != 0 ==> vis[w] != 0
  }

  /**
   * The vertices visited since vis0 were finished: each carries an entry time
   * in [lo, hi), no two share one, its low time is at most its entry time, and
   * all its successors are visited.
   */
  predicate Stamped(m: IntMatrix, vis0: seq<int>, vis: seq<int>, tin: seq<int>, tup: seq<int>, lo: int, hi: int)
    requires SquareOf(m, |m|) && |vis0| == |m| && |vis| == |m| && |tin| == |m| && |tup| == |m|
  {
    && (forall k :: 0 <= k < |m| && vis0[k] == 0 && vis[k] != 0 ==>
          lo <= tin[k] < hi && tup[k] <= tin[k] && NeighboursVisited(m, vis, k))
    && (forall k, k' :: 0 <= k < |m| && 0 <= k' < |m| && k != k' && vis0[k] == 0 && vis[k] != 0 && vis0[k'] == 0 && vis[k'] != 0 ==>
          tin[k] != tin[k'])
  }

  /** The entry and low times of the vertices visited in vis0 are those of tin0 and tup0, except the low time of `except`. */
  predicate TimesKept(vis0: seq<int>, tin0: seq<int>, tup0: seq<int>, tin: seq<int>, tup: seq<int>, except: int)
    requires |vis0| == |tin0| == |tup0| == |tin| == |tup|
  {
    forall k :: 0 <= k < |vis0| && vis0[k] != 0 ==> tin[k] == tin0[k] && (k == except || tup[k] == tup0[k])
  }

  /**
   * `recursionPartForFindingBridges`: the static counter is the parameter
   * `timer` and the returned `timer'`; the bridges graph, passed by reference,
   * goes in as `bridges` and comes back as `bridges'`. The call stamps the
   * vertex with the current time, finishes every vertex it reaches, and marks
   * only edges of the graph, on both sides.
   */
  method BridgeVisit(m: IntMatrix, bridges: IntMatrix, visited: array<int>, timerIn: array<int>, timerUp: array<int>,
                     vertex: int, parentVertex: int, timer: int) returns (bridges': IntMatrix, timer': int)
    requires SquareOf(m, |m|) && SquareOf(bridges, |m|) && BridgesInside(m, bridges)
    requires visited.Length == |m| && timerIn.Length == |m| && timerUp.Length == |m|
    requires visited != timerIn && visited != timerUp && timerIn != timerUp
    requires 0 <= vertex < |m| && visited[vertex] == 0
    requires parentVertex == -1 || (0 <= parentVertex < |m| && visited[parentVertex] != 0)
    modifies visited, timerIn, timerUp
    ensures SquareOf(bridges', |m|) && BridgesInside(m, bridges')
    ensures Grown(old(visited[..]), visited[..]) && Unvisited(visited[..]) < old(Unvisited(visited[..]))
    ensures visited[vertex] != 0 && timerIn[vertex] == timer && timer' > timer
    ensures Stamped(m, old(visited[..]), visited[..], timerIn[..], timerUp[..], timer, timer')
    ensures TimesKept(old(visited[..]), old(timerIn[..]), old(timerUp[..]), timerIn[..], timerUp[..], -1)
    decreases Unvisited(visited[..]), 0
  {
    ghost var vis0, tin0, tup0 := visited[..], timerIn[..], timerUp[..];
    visited[vertex] := 1;
    timerIn[vertex] := timer;
    timerUp[vertex] := timer;
    timer' := timer + 1;
    bridges' := bridges;
    ghost var vis1, tin1, tup1 := visited[..], timerIn[..], timerUp[..];
    assert Unvisited(vis1) == Unvisited(vis0) - {vertex};
    for to := 0 to |m|
      invariant SquareOf(bridges', |m|) && BridgesInside(m, bridges')
      invariant Grown(vis0, visited[..]) && Grown(vis1, visited[..]) && Unvisited(visited[..]) <= Unvisited(vis1)
      invariant visited[vertex] != 0 && timerIn[vertex] == timer && timerUp[vertex] <= timer && timer' > timer
      invariant StampedBelow(m, vis0, visited[..], timerIn[..], timerUp[..], vertex, timer, timer')
      invariant TimesKept(vis0, tin0, tup0, timerIn[..], timerUp[..], -1)
      invariant forall w :: 0 <= w < to && m[vertex][w] != 0 ==> visited[w] != 0
      invariant parentVertex == -1 || visited[parentVertex] != 0
    {
      ghost var vis, tin, tup, t := visited[..], timerIn[..], timerUp[..], timer';
      bridges', timer' := BridgeNeighbour(m, bridges', visited, timerIn, timerUp, vertex, parentVertex, to, timer');
      StampedBelowGrow(m, vis0, vis, visited[..], tin, tup, timerIn[..], timerUp[..], vertex, timer, t, timer');
    }
    StampedBelowDone(m, vis0, visited[..], timerIn[..], timerUp[..], vertex, timer, timer');
  }

  /** Stamped, except that `vertex` itself may still have unvisited successors. */
  predicate StampedBelow(m: IntMatrix, vis0: seq<int>, vis: seq<int>, tin: seq<int>, tup: seq<int>, vertex: int, lo: int, hi: int)
    requires SquareOf(m, |m|) && |vis0| == |m| && |vis| == |m| && |tin| == |m| && |tup| == |m|
  {
    && (forall k :: 0 <= k < |m| && k != vertex && vis0[k] == 0 && vis[k] != 0 ==>
          lo <= tin[k] < hi && tup[k] <= tin[k] && NeighboursVisited(m, vis, k))
    && (forall k, k' :: 0 <= k < |m| && 0 <= k' < |m| && k != k' && vis0[k] == 0 && vis[k] != 0 && vis0[k'] == 0 && vis[k'] != 0 ==>
          tin[k] != tin[k'])
  }

  /** A neighbour visit that stamps only above mid keeps StampedBelow. */
  lemma StampedBelowGrow(m: IntMatrix, vis0: seq<int>, vis1: seq<int>, vis2: seq<int>, tin1: seq<int>, tup1: seq<int>,
                         tin2: seq<int>, tup2: seq<int>, vertex: int, lo: int, mid: int, hi: int)
    requires SquareOf(m, |m|) && |vis0| == |m| && |vis1| == |m| && |vis2| == |m|
    requires |tin1| == |m| && |tup1| == |m| && |tin2| == |m| && |tup2| == |m| && 0 <= vertex < |m|
    requires Grown(vis1, vis2) && mid <= hi && vis1[vertex] != 0
    requires StampedBelow(m, vis0, vis1, tin1, tup1, vertex, lo, mid) && Stamped(m, vis1, vis2, tin2, tup2, mid, hi)
    requires TimesKept(vis1, tin1, tup1, tin2, tup2, vertex)
    requires forall k :: 0 <= k < |m| && vis0[k] == 0 && vis1[k] != 0 ==> tin1[k] < mid
    requires lo <= mid
    ensures StampedBelow(m, vis0, vis2, tin2, tup2, vertex, lo, hi)
  {
    forall k | 0 <= k < |m| && k != vertex && vis0[k] == 0 && vis2[k] != 0
      ensures lo <= tin2[k] < hi && tup2[k] <= tin2[k] && NeighboursVisited(m, vis2, k)
    {
      if vis1[k] != 0 {
        assert NeighboursVisited(m, vis1, k);
      }
    }
  }

  /** Once all successors of `vertex` are visited, StampedBelow is Stamped. */
  lemma StampedBelowDone(m: IntMatrix, vis0: seq<int>, vis: seq<int>, tin: seq<int>, tup: seq<int>, vertex: int, lo: int, hi: int)
    requires SquareOf(m, |m|) && |vis0| == |m| && |vis| == |m| && |tin| == |m| && |tup| == |m| && 0 <= vertex < |m|
    requires StampedBelow(m, vis0, vis, tin, tup, vertex, lo, hi) && NeighboursVisited(m, vis, vertex)
    requires lo <= tin[vertex] < hi && tup[vertex] <= tin[vertex]
    ensures Stamped(m, vis0, vis, tin, tup, lo, hi)
  {
  }

  /** Marking an edge on both sides keeps every mark on an edge, mirrored. */
  lemma MarkBridge(m: IntMatrix, b: IntMatrix, x: int, y: int)
    requires SquareOf(m, |m|) && SquareOf(b, |m|) && BridgesInside(m, b)
    requires 0 <= x < |m| && 0 <= y < |m| && m[x][y] != 0
    ensures var b1 := b[x := b[x][y := 1]];
      var b2 := b1[y := b1[y][x := 1]];
      SquareOf(b2, |m|) && BridgesInside(m, b2)
  {
    var b1 := b[x := b[x][y := 1]];
    var b2 := b1[y := b1[y][x := 1]];
    assert SquareOf(b2, |m|);
    assert forall i, j :: 0 <= i < |m| && 0 <= j < |m| ==>
      b2[i][j] == if (i == x && j == y) || (i == y && j == x) then 1 else b[i][j];
    forall i, j {:trigger b2[i][j]} | 0 <= i < |m| && 0 <= j < |m| && b2[i][j] != 0
      ensures b2[i][j] == 1 && b2[j][i] == 1 && (m[i][j] != 0 || m[j][i] != 0)
    {
      if (i == x && j == y) || (i == y && j == x) {
        assert b2[i][j] == 1 && b2[j][i] == 1;
      } else {
        assert b2[i][j] == b[i][j] && b2[j][i] == b[j][i];
      }
    }
    assert BridgesInside(m, b2);
  }

  /**
   * One turn of the loop over `to`: skip the parent, lower the low time by a
   * visited successor's entry time, or visit an unvisited successor, lower
   * the low time by its entry time and mark the edge when the successor's
   * low time is above the vertex's entry time.
   */
  method BridgeNeighbour(m: IntMatrix, bridges: IntMatrix, visited: array<int>, timerIn: array<int>, timerUp: array<int>,
                         vertex: int, parentVertex: int, to: int, timer: int) returns (bridges': IntMatrix, timer': int)
    requires SquareOf(m, |m|) && SquareOf(bridges, |m|) && BridgesInside(m, bridges)
    requires visited.Length == |m| && timerIn.Length == |m| && timerUp.Length == |m|
    requires visited != timerIn && visited != timerUp && timerIn != timerUp
    requires 0 <= vertex < |m| && 0 <= to < |m| && visited[vertex] != 0
    requires parentVertex == -1 || (0 <= parentVertex < |m| && visited[parentVertex] != 0)
    modifies visited, timerIn, timerUp
    ensures SquareOf(bridges', |m|) && BridgesInside(m, bridges')
    ensures Grown(old(visited[..]), visited[..]) && Unvisited(visited[..]) <= old(Unvisited(visited[..]))
    ensures timer' >= timer && timerUp[vertex] <= old(timerUp[vertex])
    ensures Stamped(m, old(visited[..]), visited[..], timerIn[..], timerUp[..], timer, timer')
    ensures TimesKept(old(visited[..]), old(timerIn[..]), old(timerUp[..]), timerIn[..], timerUp[..], vertex)
    ensures m[vertex][to] != 0 ==> visited[to] != 0
    decreases Unvisited(visited[..]), 1
  {
    bridges', timer' := bridges, timer;
    if m[vertex][to] != 0 && to != parentVertex {
      if visited[to] != 0 {
        timerUp[vertex] := Min(timerUp[vertex], timerIn[to]);
      } else {
        bridges', timer' := BridgeVisit(m, bridges, visited, timerIn, timerUp, to, vertex, timer);
        timerUp[vertex] := Min(timerUp[vertex], timerIn[to]);
        if timerUp[to] > timerIn[vertex] {
          MarkBridge(m, bridges', vertex, to);
          bridges' := bridges'[vertex := bridges'[vertex][to := 1]];
          bridges' := bridges'[to := bridges'[to][vertex := 1]];
        }
      }
    }
  }

  /**
   * `tarjanAlgorithmForFindingBridges`: starts a search from every vertex not
   * yet visited, with all times at 0 and an empty bridges graph. The result is
   * a graph of the same size whose marked entries are edges of the input, on
   * both sides; every vertex has been visited.
   */
  method FindBridges(graph: Graph, timer: int) returns (bridges: Graph, timer': int)
    requires WellFormed(graph)
    ensures WellFormed(bridges) && bridges.nVertices == graph.nVertices
    ensures BridgesInside(graph.values, bridges.values) && timer' >= timer
  {
    var m := graph.values;
    var n := graph.nVertices;
    var timerIn := new int[n](_ => 0);
    var timerUp := new int[n](_ => 0);
    var visited := new int[n](_ => 0);
    var b := GetMemGraph(n).values;
    timer' := timer;
    for i := 0 to n
      invariant SquareOf(b, n) && BridgesInside(m, b) && timer' >= timer
      invariant forall k :: 0 <= k < i ==> visited[k] != 0
    {
      if visited[i] == 0 {
        b, timer' := BridgeVisit(m, b, visited, timerIn, timerUp, i, -1, timer');
      }
    }
    bridges := Graph(b, n);
  }
}
