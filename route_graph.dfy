/**
 * Routes in a graph, after discrete_math/discrete_math_lab_4-1.cpp. A graph is
 * the integer `BinMatrix` of its adjacency (a non-zero entry is an edge);
 * vertices are numbered from 1 in the sequences the recognisers and
 * enumerators work on. The recognisers decide whether a vertex sequence is
 * a route (walk), a chain (no edge used twice), a simple chain (no vertex
 * twice), a cycle or a simple cycle; the enumerators list the routes of a
 * given length by backtracking and count walks.
 */
module RouteGraph {
  import opened Common

  type Matrix = seq<seq<int>>

  /** `MAX_VERTICES`: the size of the fixed graphs and buffers of the lab. */
  const MaxVertices: nat := 7

  predicate Shaped(m: Matrix, rows: nat, cols: nat)
  {
    |m| == rows && forall i :: 0 <= i < rows ==> |m[i]| == cols
  }

  predicate Square(g: Matrix)
  {
    Shaped(g, |g|, |g|)
  }

  // ---------------------------------------------------------------------
  // The matrix class

  /** The constructor: a zero dimension throws, otherwise every entry is 0. */
  function Create(rows: nat, cols: nat): (r: Option<Matrix>)
    ensures r.None? <==> rows == 0 || cols == 0
    ensures r.Some? ==> Shaped(r.value, rows, cols)
    ensures r.Some? ==> forall i, j :: 0 <= i < rows && 0 <= j < cols ==> r.value[i][j] == 0
  {
    if rows == 0 || cols == 0 then None else Some(seq(rows, i => seq(cols, j => 0)))
  }

  /** The rows of a matrix laid end to end. */
  function Flatten(m: Matrix): seq<int>
  {
    if m == [] then [] else m[0] + Flatten(m[1..])
  }

  lemma BlockInside(i: nat, rows: nat, cols: nat)
    requires i < rows
    ensures i * cols + cols <= rows * cols
  {
    assert (i + 1) * cols == i * cols + cols;
    assert (i + 1) * cols <= rows * cols;
  }

  /** Row i is the i-th block of `cols` consecutive elements of the flat array, for each i < rows. */
  predicate RowBlocks(r: Matrix, rows: nat, cols: nat, values: seq<int>)
  {
    |r| == rows &&
    forall i :: 0 <= i < rows ==> 0 <= i * cols && i * cols + cols <= |values| && r[i] == values[i * cols .. i * cols + cols]
  }

  /** The inner loop of `initFrom2DArray`: row i takes the i-th block of the flat array. */
  method FillRow(res: Matrix, i: nat, cols: nat, values: seq<int>) returns (out: Matrix)
    requires i < |res| && |res[i]| == cols && i * cols + cols <= |values|
    ensures |out| == |res| && out[i] == values[i * cols .. i * cols + cols]
    ensures forall k :: 0 <= k < |res| && k != i ==> out[k] == res[k]
  {
    var base := i * cols;
    out := res;
    for j := 0 to cols
      invariant |out| == |res| && |out[i]| == cols
      invariant forall k :: 0 <= k < |res| && k != i ==> out[k] == res[k]
      invariant forall j' :: 0 <= j' < j ==> out[i][j'] == values[base + j']
    {
      out := out[i := out[i][j := values[base + j]]];
    }
    assert forall j' :: 0 <= j' < cols ==> out[i][j'] == values[base .. base + cols][j'];
  }

  /**
   * `initFrom2DArray`: different dimensions throw; otherwise entry (i, j)
   * is element i * cols + j of the flat array, so row i is its i-th block.
   */
  method InitFrom2DArray(m: Matrix, rows: nat, cols: nat, values: seq<int>, arrayRows: nat, arrayCols: nat)
    returns (r: Option<Matrix>)
    requires Shaped(m, rows, cols)
    requires arrayRows == rows && arrayCols == cols ==> |values| >= rows * cols
    ensures r.None? <==> arrayRows != rows || arrayCols != cols
    ensures r.Some? ==> Shaped(r.value, rows, cols) && RowBlocks(r.value, rows, cols, values)
  {
    if arrayRows != rows || arrayCols != cols {
      return None;
    }
    var res := m;
    for i := 0 to rows
      invariant Shaped(res, rows, cols)
      invariant forall i' :: 0 <= i' < i ==>
                  0 <= i' * cols && i' * cols + cols <= |values| && res[i'] == values[i' * cols .. i' * cols + cols]
    {
      BlockInside(i, rows, cols);
      res := FillRow(res, i, cols, values);
    }
    return Some(res);
  }

  lemma {:induction false} FlattenBlocks(r: Matrix, rows: nat, cols: nat, values: seq<int>, k: nat)
    requires k <= rows && rows * cols <= |values| && RowBlocks(r, rows, cols, values)
    ensures 0 <= k * cols <= rows * cols && Flatten(r[k..]) == values[k * cols .. rows * cols]
    decreases rows - k
  {
    if k == rows {
      assert r[k..] == [];
    } else {
      FlattenBlocks(r, rows, cols, values, k + 1);
      assert (k + 1) * cols == k * cols + cols;
      assert r[k..][1..] == r[k + 1..];
      assert values[k * cols .. rows * cols] == values[k * cols .. k * cols + cols] + values[(k + 1) * cols .. rows * cols];
    }
  }

  /** Reading the initialised matrix back row by row gives the array's first rows * cols elements. */
  lemma InitRoundTrip(r: Matrix, rows: nat, cols: nat, values: seq<int>)
    requires |values| >= rows * cols && RowBlocks(r, rows, cols, values)
    ensures Flatten(r) == values[..rows * cols]
  {
    FlattenBlocks(r, rows, cols, values, 0);
    assert r[0..] == r;
  }

  // ---------------------------------------------------------------------
  // The recognisers

  /** Every vertex of the sequence is a vertex of the graph, numbered from 1. */
  predicate Vertices(pos: seq<int>, n: nat)
  {
    forall i :: 0 <= i < |pos| ==> 1 <= pos[i] <= n
  }

  /** Consecutive vertices are adjacent. */
  predicate Route(pos: seq<int>, g: Matrix)
    requires Square(g) && Vertices(pos, |g|)
  {
    forall i :: 1 <= i < |pos| ==> g[pos[i - 1] - 1][pos[i] - 1] != 0
  }

  /** `graphIsRoute`: stops at the first consecutive pair that is not an edge. */
  method IsRoute(pos: seq<int>, g: Matrix) returns (b: bool)
    requires Square(g) && Vertices(pos, |g|)
    ensures b <==> Route(pos, g)
  {
    var i := 1;
    while i < |pos|
      invariant 1 <= i
      invariant forall i' :: 1 <= i' < i && i' < |pos| ==> g[pos[i' - 1] - 1][pos[i'] - 1] != 0
    {
      if g[pos[i - 1] - 1][pos[i] - 1] == 0 {
        return false;
      }
      i := i + 1;
    }
    return true;
  }

  /** {u, v} and {x, y} are the same undirected edge. */
  predicate SameEdge(u: int, v: int, x: int, y: int)
  {
    (u == x && v == y) || (u == y && v == x)
  }

  /** The undirected edge {x, y} is one of the first b steps of the sequence. */
  function EdgeUsed(pos: seq<int>, b: nat, x: int, y: int): bool
    requires b < |pos|
  {
    b > 0 && (EdgeUsed(pos, b - 1, x, y) || SameEdge(pos[b - 1], pos[b], x, y))
  }

  lemma {:induction false} EdgeUsedMeaning(pos: seq<int>, b: nat, x: int, y: int)
    requires b < |pos|
    ensures EdgeUsed(pos, b, x, y) <==> exists a :: 0 <= a < b && SameEdge(pos[a], pos[a + 1], x, y)
  {
    if b > 0 {
      EdgeUsedMeaning(pos, b - 1, x, y);
    }
  }

  lemma {:induction false} EdgeUsedSymmetric(pos: seq<int>, b: nat, x: int, y: int)
    requires b < |pos|
    ensures EdgeUsed(pos, b, x, y) <==> EdgeUsed(pos, b, y, x)
  {
    if b > 0 {
      EdgeUsedSymmetric(pos, b - 1, x, y);
    }
  }

  /** No step repeats an undirected edge of an earlier step. */
  predicate DistinctEdges(pos: seq<int>)
  {
    forall b :: 0 <= b < |pos| - 1 ==> !EdgeUsed(pos, b, pos[b], pos[b + 1])
  }

  /** A route that uses no undirected edge twice. */
  predicate Chain(pos: seq<int>, g: Matrix)
    requires Square(g) && Vertices(pos, |g|)
  {
    Route(pos, g) && DistinctEdges(pos)
  }

  /** No two steps of the sequence share an undirected edge. */
  predicate NoSharedEdge(pos: seq<int>)
  {
    forall a, b :: 0 <= a < b < |pos| - 1 ==> !SameEdge(pos[a], pos[a + 1], pos[b], pos[b + 1])
  }

  /** The edges are distinct exactly when no two steps share an undirected edge. */
  lemma DistinctEdgesMeaning(pos: seq<int>)
    ensures DistinctEdges(pos) <==> NoSharedEdge(pos)
  {
    forall a, b | 0 <= a < b < |pos| - 1
      ensures SameEdge(pos[a], pos[a + 1], pos[b], pos[b + 1]) ==> EdgeUsed(pos, b, pos[b], pos[b + 1])
    {
      EdgeUsedMeaning(pos, b, pos[b], pos[b + 1]);
    }
    forall b | 0 <= b < |pos| - 1
      ensures EdgeUsed(pos, b, pos[b], pos[b + 1]) ==> !NoSharedEdge(pos)
    {
      EdgeUsedMeaning(pos, b, pos[b], pos[b + 1]);
    }
  }

  /** The non-zero entries of the scratch matrix are exactly the edges of the first i steps, both ways. */
  predicate Marks(temp: Matrix, pos: seq<int>, i: nat, n: nat)
    requires i < |pos|
  {
    Shaped(temp, n, n) && forall x, y :: 0 <= x < n && 0 <= y < n ==> (temp[x][y] != 0 <==> EdgeUsed(pos, i, x + 1, y + 1))
  }

  /** Marking step i in both directions extends the marks to the first i + 1 steps. */
  lemma MarkStep(temp: Matrix, pos: seq<int>, i: nat, n: nat)
    requires i + 1 < |pos| && Vertices(pos, n) && Marks(temp, pos, i, n)
    ensures var u, v := pos[i] - 1, pos[i + 1] - 1;
            Marks(temp[u := temp[u][v := 1]][v := temp[u := temp[u][v := 1]][v][u := 1]], pos, i + 1, n)
  {
  }

  /**
   * `graphIsChain`: a route whose steps are marked, both ways, in a scratch
   * zero matrix; a step already marked either way fails.
   */
  method IsChain(pos: seq<int>, g: Matrix) returns (b: bool)
    requires Square(g) && |g| > 0 && Vertices(pos, |g|) && |pos| >= 1
    ensures b <==> Chain(pos, g)
  {
    b := IsRoute(pos, g);
    if !b {
      return;
    }
    var n := |g|;
    var temp := Create(n, n).value;
    for i := 0 to |pos| - 1
      invariant Marks(temp, pos, i, n)
      invariant forall b' :: 0 <= b' < i ==> !EdgeUsed(pos, b', pos[b'], pos[b' + 1])
    {
      var u := pos[i] - 1;
      var v := pos[i + 1] - 1;
      EdgeUsedSymmetric(pos, i, u + 1, v + 1);
      if temp[u][v] != 0 || temp[v][u] != 0 {
        return false;
      }
      MarkStep(temp, pos, i, n);
      temp := temp[u := temp[u][v := 1]];
      temp := temp[v := temp[v][u := 1]];
    }
  }

  /** No vertex occurs twice. */
  predicate DistinctVertices(pos: seq<int>)
  {
    forall i, j :: 0 <= i < j < |pos| ==> pos[i] != pos[j]
  }

  predicate SimpleChain(pos: seq<int>, g: Matrix)
    requires Square(g) && Vertices(pos, |g|)
  {
    Chain(pos, g) && DistinctVertices(pos)
  }

  /** `graphIsSimpleChain`: a chain, then each vertex inserted into a set of those seen. */
  method IsSimpleChain(pos: seq<int>, g: Matrix) returns (b: bool)
    requires Square(g) && |g| > 0 && Vertices(pos, |g|) && |pos| >= 1
    ensures b <==> SimpleChain(pos, g)
  {
    b := IsChain(pos, g);
    if !b {
      return;
    }
    var visited: set<int> := {};
    for i := 0 to |pos|
      invariant visited == set i' | 0 <= i' < i :: pos[i']
      invariant DistinctVertices(pos[..i])
    {
      if pos[i] in visited {
        return false;
      }
      visited := visited + {pos[i]};
    }
    assert pos[..|pos|] == pos;
  }

  predicate Cycle(pos: seq<int>, g: Matrix)
    requires Square(g) && Vertices(pos, |g|) && |pos| >= 1
  {
    Chain(pos, g) && pos[0] == pos[|pos| - 1]
  }

  /** `graphIsCycle`: a chain that ends where it starts. */
  method IsCycle(pos: seq<int>, g: Matrix) returns (b: bool)
    requires Square(g) && |g| > 0 && Vertices(pos, |g|) && |pos| >= 1
    ensures b <==> Cycle(pos, g)
  {
    b := IsChain(pos, g);
    if !b {
      return;
    }
    b := pos[0] == pos[|pos| - 1];
  }

  /** A cycle whose inner vertices (all but the first and the last) are distinct. */
  predicate SimpleCycle(pos: seq<int>, g: Matrix)
    requires Square(g) && Vertices(pos, |g|) && |pos| >= 1
  {
    Cycle(pos, g) && forall i, j :: 1 <= i < j < |pos| - 1 ==> pos[i] != pos[j]
  }

  /** `graphIsSimpleCycle`: a cycle, then every pair of inner positions compared. */
  method IsSimpleCycle(pos: seq<int>, g: Matrix) returns (b: bool)
    requires Square(g) && |g| > 0 && Vertices(pos, |g|) && |pos| >= 1
    ensures b <==> SimpleCycle(pos, g)
  {
    b := IsCycle(pos, g);
    if !b {
      return;
    }
    var i := 1;
    while i < |pos| - 1
      invariant 1 <= i
      invariant forall i', j :: 1 <= i' < i && i' < j < |pos| - 1 ==> pos[i'] != pos[j]
    {
      for j := i + 1 to |pos| - 1
        invariant forall j' :: i < j' < j ==> pos[i] != pos[j']
      {
        if pos[i] == pos[j] {
          return false;
        }
      }
      i := i + 1;
    }
  }

  /** A simple chain is a chain, and a chain is a route; a simple chain of two or more vertices is no cycle. */
  lemma RecognisersNest(pos: seq<int>, g: Matrix)
    requires Square(g) && Vertices(pos, |g|) && |pos| >= 2
    ensures SimpleChain(pos, g) ==> Chain(pos, g) && !Cycle(pos, g)
    ensures Chain(pos, g) ==> Route(pos, g)
    ensures SimpleCycle(pos, g) ==> Cycle(pos, g)
  {
  }

  // ---------------------------------------------------------------------
  // Adjacent vertices

  /** The neighbours of `vertex` among the columns below k, numbered from 1, in increasing order. */
  function Adjacent(g: Matrix, vertex: int, k: nat): (vs: seq<int>)
    requires Square(g) && 1 <= vertex <= |g| && k <= |g|
    ensures forall x :: x in vs <==> 1 <= x <= k && g[vertex - 1][x - 1] != 0
    ensures forall a, b :: 0 <= a < b < |vs| ==> vs[a] < vs[b]
    ensures Vertices(vs, k)
  {
    if k == 0 then []
    else
      var front := Adjacent(g, vertex, k - 1);
      assert forall a :: 0 <= a < |front| ==> front[a] in front;
      if g[vertex - 1][k - 1] != 0 then front + [k] else front
  }

  /** `graphGetAdjacentVertices`: the columns with a non-zero entry in the vertex's row. */
  method GetAdjacentVertices(g: Matrix, vertex: int) returns (vertices: seq<int>)
    requires Square(g) && 1 <= vertex <= |g|
    ensures vertices == Adjacent(g, vertex, |g|)
  {
    vertices := [];
    for i := 0 to |g|
      invariant vertices == Adjacent(g, vertex, i)
    {
      if g[vertex - 1][i] != 0 {
        vertices := vertices + [i + 1];
      }
    }
  }

  // ---------------------------------------------------------------------
  // Routes of a given length by backtracking

  /** The vertices 1..n that the sequence does not visit. */
  function Unused(n: nat, s: seq<int>): set<int>
  {
    set v | 1 <= v <= n && v !in s
  }

  lemma {:induction false} RangeCount(n: nat)
    ensures |Unused(n, [])| == n
  {
    if n > 0 {
      RangeCount(n - 1);
      assert Unused(n, []) == Unused(n - 1, []) + {n};
    }
  }

  /** A sequence of distinct vertices and the vertices it misses make up all n vertices. */
  lemma {:induction false} UnusedCount(n: nat, s: seq<int>)
    requires DistinctVertices(s) && Vertices(s, n)
    ensures |s| + |Unused(n, s)| == n
  {
    if s == [] {
      RangeCount(n);
    } else {
      var front := s[..|s| - 1];
      var x := s[|s| - 1];
      assert s == front + [x];
      UnusedCount(n, front);
      assert x in Unused(n, front);
      assert Unused(n, s) == Unused(n, front) - {x};
    }
  }

  /** Pigeonhole: distinct vertices that miss some vertex are fewer than n. */
  lemma DistinctShort(n: nat, s: seq<int>, w: int)
    requires DistinctVertices(s) && Vertices(s, n) && 1 <= w <= n && w !in s
    ensures |s| < n
  {
    UnusedCount(n, s);
    assert w in Unused(n, s);
  }

  /** r is a simple route (no vertex twice) through the graph that starts with `route`. */
  predicate SimpleRouteFrom(r: seq<int>, g: Matrix, route: seq<int>)
    requires Square(g)
  {
    |route| <= |r| && r[..|route|] == route && Vertices(r, |g|) && Route(r, g) && DistinctVertices(r)
  }

  /**
   * The routes `graphGetRoutes_` prints from `route`, in order: `route` itself
   * once it has l vertices, otherwise the routes through each neighbour of its
   * last vertex that it does not visit yet, neighbours in increasing order.
   */
  function Extensions(g: Matrix, l: int, route: seq<int>): seq<seq<int>>
    requires Square(g) && |route| >= 1 && Vertices(route, |g|)
    decreases Unused(|g|, route), 1, 0
  {
    if |route| == l then [route]
    else ExtendAll(g, l, route, Adjacent(g, route[|route| - 1], |g|))
  }

  /** The routes through the candidate next vertices, in the order of the candidates. */
  function ExtendAll(g: Matrix, l: int, route: seq<int>, cands: seq<int>): seq<seq<int>>
    requires Square(g) && |route| >= 1 && Vertices(route, |g|) && Vertices(cands, |g|)
    decreases Unused(|g|, route), 0, |cands|
  {
    if cands == [] then []
    else
      var v := cands[|cands| - 1];
      ExtendAll(g, l, route, cands[..|cands| - 1]) +
      if v in route then []
      else
        assert v in Unused(|g|, route) && v !in Unused(|g|, route + [v]);
        Extensions(g, l, route + [v])
  }

  /** Every listed route has l vertices, starts with `route` and is simple. */
  lemma {:induction false} ExtensionsSound(g: Matrix, l: int, route: seq<int>)
    requires Square(g) && |route| >= 1 && Vertices(route, |g|) && Route(route, g) && DistinctVertices(route)
    ensures forall r :: r in Extensions(g, l, route) ==> |r| == l && SimpleRouteFrom(r, g, route)
    decreases Unused(|g|, route), 1, 0
  {
    if |route| == l {
      assert route[..|route|] == route;
    } else {
      var adj := Adjacent(g, route[|route| - 1], |g|);
      assert forall i :: 0 <= i < |adj| ==> adj[i] in adj;
      ExtendAllSound(g, l, route, adj);
    }
  }

  lemma {:induction false} ExtendAllSound(g: Matrix, l: int, route: seq<int>, cands: seq<int>)
    requires Square(g) && |route| >= 1 && Vertices(route, |g|) && Route(route, g) && DistinctVertices(route)
    requires Vertices(cands, |g|)
    requires forall i :: 0 <= i < |cands| ==> g[route[|route| - 1] - 1][cands[i] - 1] != 0
    ensures forall r :: r in ExtendAll(g, l, route, cands) ==> |r| == l && SimpleRouteFrom(r, g, route)
    decreases Unused(|g|, route), 0, |cands|
  {
    if cands != [] {
      var v := cands[|cands| - 1];
      ExtendAllSound(g, l, route, cands[..|cands| - 1]);
      if v !in route {
        StepSound(g, l, route, v);
      }
    }
  }

  /** The routes through an unvisited neighbour v are simple routes that start with `route`. */
  lemma {:induction false} StepSound(g: Matrix, l: int, route: seq<int>, v: int)
    requires Square(g) && |route| >= 1 && Vertices(route, |g|) && Route(route, g) && DistinctVertices(route)
    requires 1 <= v <= |g| && v !in route && g[route[|route| - 1] - 1][v - 1] != 0
    ensures forall r :: r in Extensions(g, l, route + [v]) ==> |r| == l && SimpleRouteFrom(r, g, route)
    decreases Unused(|g|, route), 0, 0
  {
    var next := route + [v];
    assert v in Unused(|g|, route) && v !in Unused(|g|, next);
    ExtensionsSound(g, l, next);
    forall r | r in Extensions(g, l, next)
      ensures SimpleRouteFrom(r, g, route)
    {
      assert r[..|route|] == r[..|next|][..|route|];
    }
  }

  lemma {:induction false} ExtendAllContains(g: Matrix, l: int, route: seq<int>, cands: seq<int>, v: int)
    requires Square(g) && |route| >= 1 && Vertices(route, |g|) && Vertices(cands, |g|)
    requires v in cands && v !in route && 1 <= v <= |g|
    ensures forall r :: r in Extensions(g, l, route + [v]) ==> r in ExtendAll(g, l, route, cands)
    decreases |cands|
  {
    if cands[|cands| - 1] != v {
      assert cands == cands[..|cands| - 1] + [cands[|cands| - 1]];
      ExtendAllContains(g, l, route, cands[..|cands| - 1], v);
    }
  }

  /** Every simple route with l vertices that starts with `route` is listed. */
  lemma {:induction false} ExtensionsComplete(g: Matrix, l: int, route: seq<int>, r: seq<int>)
    requires Square(g) && |route| >= 1 && Vertices(route, |g|)
    requires |r| == l && SimpleRouteFrom(r, g, route)
    ensures r in Extensions(g, l, route)
    decreases Unused(|g|, route)
  {
    if |route| == l {
      assert r == r[..|route|];
    } else {
      var v := r[|route|];
      var next := route + [v];
      assert route[|route| - 1] == r[|route| - 1];
      assert v !in route by {
        forall k | 0 <= k < |route|
          ensures route[k] != v
        {
          assert route[k] == r[k];
        }
      }
      assert r[..|next|] == next;
      assert v in Unused(|g|, route) && v !in Unused(|g|, next);
      ExtensionsComplete(g, l, next, r);
      ExtendAllContains(g, l, route, Adjacent(g, route[|route| - 1], |g|), v);
    }
  }

  /** The listed routes are exactly the simple routes with l vertices that start with `route`. */
  lemma ExtensionsExactly(g: Matrix, l: int, route: seq<int>, r: seq<int>)
    requires Square(g) && |route| >= 1 && Vertices(route, |g|) && Route(route, g) && DistinctVertices(route)
    ensures r in Extensions(g, l, route) <==> |r| == l && SimpleRouteFrom(r, g, route)
  {
    ExtensionsSound(g, l, route);
    if |r| == l && SimpleRouteFrom(r, g, route) {
      ExtensionsComplete(g, l, route, r);
    }
  }

  /**
   * `graphGetRoutes_`: extends `route` through each neighbour of its last
   * vertex not yet visited, marking it visited around the recursive call; the
   * printed routes are returned in the order they are printed.
   */
  method GetRoutesFrom(g: Matrix, l: int, route: seq<int>, visited: array<bool>) returns (found: seq<seq<int>>)
    requires Square(g) && visited.Length == |g| && |route| >= 1 && Vertices(route, |g|)
    requires forall v :: 0 <= v < |g| ==> (visited[v] <==> v + 1 in route)
    modifies visited
    ensures visited[..] == old(visited[..])
    ensures found == Extensions(g, l, route)
    decreases Unused(|g|, route), 1
  {
    if |route| == l {
      return [route];
    }
    var adj := GetAdjacentVertices(g, route[|route| - 1]);
    found := [];
    for k := 0 to |adj|
      invariant visited[..] == old(visited[..])
      invariant found == ExtendAll(g, l, route, adj[..k])
    {
      found := RouteNeighbour(g, l, route, visited, adj, k, found);
    }
    assert adj[..|adj|] == adj;
  }

  /**
   * One turn of the loop in `graphGetRoutes_`: neighbour adj[k], when not
   * visited, is marked, recursed into and unmarked.
   */
  method RouteNeighbour(g: Matrix, l: int, route: seq<int>, visited: array<bool>, adj: seq<int>, k: nat,
                        found: seq<seq<int>>)
    returns (found': seq<seq<int>>)
    requires Square(g) && visited.Length == |g| && |route| >= 1 && Vertices(route, |g|)
    requires forall v :: 0 <= v < |g| ==> (visited[v] <==> v + 1 in route)
    requires Vertices(adj, |g|) && k < |adj| && found == ExtendAll(g, l, route, adj[..k])
    modifies visited
    ensures visited[..] == old(visited[..])
    ensures found' == ExtendAll(g, l, route, adj[..k + 1])
    decreases Unused(|g|, route), 0
  {
    var next := adj[k];
    assert adj[..k + 1][..k] == adj[..k];
    found' := found;
    if !visited[next - 1] {
      ghost var before := visited[..];
      assert next !in route;
      assert next in Unused(|g|, route) && next !in Unused(|g|, route + [next]);
      visited[next - 1] := true;
      var more := GetRoutesFrom(g, l, route + [next], visited);
      visited[next - 1] := false;
      assert visited[..] == before;
      found' := found + more;
    }
  }

  /** `graphGetRoutes`: nothing for a vertex out of range, else the routes of n vertices from it. */
  method GetRoutes(g: Matrix, vertex: int, n: int) returns (found: seq<seq<int>>)
    requires Square(g)
    ensures !(1 <= vertex <= |g|) ==> found == []
    ensures 1 <= vertex <= |g| ==> found == Extensions(g, n, [vertex])
  {
    if vertex <= 0 || vertex > |g| {
      return [];
    }
    var visited := new bool[|g|](_ => false);
    visited[vertex - 1] := true;
    found := GetRoutesFrom(g, n, [vertex], visited);
  }

  // ---------------------------------------------------------------------
  // Counting walks

  /** The number of walks with len edges from vertex v to vertex j, both numbered from 0. */
  function Walks(g: Matrix, v: int, len: nat, j: int): nat
    requires Square(g) && 0 <= v < |g|
    decreases len, 0
  {
    if len == 0 then (if v == j then 1 else 0)
    else WalkSum(g, Adjacent(g, v + 1, |g|), len - 1, j)
  }

  /** The walks with len edges to j, summed over the given start vertices (numbered from 1). */
  function WalkSum(g: Matrix, vs: seq<int>, len: nat, j: int): nat
    requires Square(g) && Vertices(vs, |g|)
    decreases len, 1, |vs|
  {
    if vs == [] then 0
    else WalkSum(g, vs[..|vs| - 1], len, j) + Walks(g, vs[|vs| - 1] - 1, len, j)
  }

  lemma WalksStep(g: Matrix, v: int, len: nat, adj: seq<int>)
    requires Square(g) && 0 <= v < |g| && len >= 1 && adj == Adjacent(g, v + 1, |g|)
    ensures forall j :: Walks(g, v, len, j) == WalkSum(g, adj, len - 1, j)
  {
  }

  lemma WalkSumSnoc(g: Matrix, vs: seq<int>, i: nat, len: nat)
    requires Square(g) && Vertices(vs, |g|) && i < |vs|
    ensures forall j :: WalkSum(g, vs[..i + 1], len, j) == WalkSum(g, vs[..i], len, j) + Walks(g, vs[i] - 1, len, j)
  {
    assert vs[..i + 1][..i] == vs[..i];
  }

  /**
   * `graphGetRoutesAmount`: writes each neighbour of the current vertex into
   * the route buffer and either counts it, at the last step, or recurses; each
   * count grows by the number of walks to its vertex.
   */
  method RoutesAmount(g: Matrix, cv: nat, routeLength: nat, currentRoute: array<int>, routeCount: array<int>)
    requires Square(g)
    requires currentRoute.Length == |g| && routeCount.Length == |g| && currentRoute != routeCount
    requires cv < routeLength < |g| && 1 <= currentRoute[cv] <= |g|
    modifies currentRoute, routeCount
    ensures currentRoute[..cv + 1] == old(currentRoute[..cv + 1])
    ensures forall j :: 0 <= j < |g| ==>
              routeCount[j] == old(routeCount[j]) + Walks(g, old(currentRoute[cv]) - 1, routeLength - cv, j)
    decreases routeLength - cv, 1
  {
    var adj := GetAdjacentVertices(g, currentRoute[cv]);
    ghost var counts := routeCount[..];
    ghost var prefix := currentRoute[..cv + 1];
    for i := 0 to |adj|
      invariant currentRoute[..cv + 1] == prefix
      invariant forall j :: 0 <= j < |g| ==> routeCount[j] == counts[j] + WalkSum(g, adj[..i], routeLength - cv - 1, j)
    {
      CountNeighbour(g, cv, routeLength, currentRoute, routeCount, adj, i, counts);
    }
    assert adj[..|adj|] == adj;
    WalksStep(g, prefix[cv] - 1, routeLength - cv, adj);
  }

  /**
   * One turn of the loop in `graphGetRoutesAmount`: neighbour adj[i] is
   * written into the buffer, then counted at the last step or recursed into.
   */
  method CountNeighbour(g: Matrix, cv: nat, routeLength: nat, currentRoute: array<int>, routeCount: array<int>,
                        adj: seq<int>, i: nat, ghost counts: seq<int>)
    requires Square(g)
    requires currentRoute.Length == |g| && routeCount.Length == |g| && currentRoute != routeCount
    requires cv < routeLength < |g| && Vertices(adj, |g|) && i < |adj| && |counts| == |g|
    requires forall j :: 0 <= j < |g| ==> routeCount[j] == counts[j] + WalkSum(g, adj[..i], routeLength - cv - 1, j)
    modifies currentRoute, routeCount
    ensures currentRoute[..cv + 1] == old(currentRoute[..cv + 1])
    ensures forall j :: 0 <= j < |g| ==> routeCount[j] == counts[j] + WalkSum(g, adj[..i + 1], routeLength - cv - 1, j)
    decreases routeLength - cv, 0
  {
    WalkSumSnoc(g, adj, i, routeLength - cv - 1);
    currentRoute[cv + 1] := adj[i];
    if cv + 2 == routeLength + 1 {
      routeCount[currentRoute[cv + 1] - 1] := routeCount[currentRoute[cv + 1] - 1] + 1;
    } else {
      RoutesAmount(g, cv + 1, routeLength, currentRoute, routeCount);
    }
  }

  /**
   * `graphGetRoutesAmountWrapper`: row i of the printed table counts, for
   * each end vertex, the walks with routeLength edges from vertex i.
   */
  method RoutesAmountTable(g: Matrix, graphSize: nat, routeLength: nat) returns (counts: seq<seq<int>>)
    requires Square(g) && |g| == MaxVertices && graphSize <= MaxVertices && 1 <= routeLength < MaxVertices
    ensures |counts| == graphSize
    ensures forall i :: 0 <= i < graphSize ==> |counts[i]| == graphSize
    ensures forall i, j :: 0 <= i < graphSize && 0 <= j < graphSize ==> counts[i][j] == Walks(g, i, routeLength, j)
  {
    var routeCount := new int[MaxVertices];
    var currentRoute := new int[MaxVertices];
    counts := [];
    for i := 0 to graphSize
      invariant |counts| == i
      invariant forall i' :: 0 <= i' < i ==> |counts[i']| == graphSize
      invariant forall i', j :: 0 <= i' < i && 0 <= j < graphSize ==> counts[i'][j] == Walks(g, i', routeLength, j)
    {
      currentRoute[0] := i + 1;
      for j := 0 to graphSize
        invariant currentRoute[0] == i + 1
        invariant forall j' :: 0 <= j' < j ==> routeCount[j'] == 0
      {
        routeCount[j] := 0;
      }
      RoutesAmount(g, 0, routeLength, currentRoute, routeCount);
      counts := counts + [routeCount[..graphSize]];
    }
  }

  /**
   * The routes `graphGetRoutesBetweenVertices` records after `prefix`: every
   * neighbour of its last vertex in increasing order, with no check for
   * repeated vertices; a route of l + 1 vertices is kept when it ends at
   * vertexEnd.
   */
  function Between(g: Matrix, l: nat, vertexEnd: int, prefix: seq<int>): seq<seq<int>>
    requires Square(g) && 1 <= |prefix| <= l && Vertices(prefix, |g|)
    decreases l + 1 - |prefix|, 1
  {
    BetweenAll(g, l, vertexEnd, prefix, Adjacent(g, prefix[|prefix| - 1], |g|))
  }

  /** The routes recorded through the candidate next vertices, in the order of the candidates. */
  function BetweenAll(g: Matrix, l: nat, vertexEnd: int, prefix: seq<int>, cands: seq<int>): seq<seq<int>>
    requires Square(g) && 1 <= |prefix| <= l && Vertices(prefix, |g|) && Vertices(cands, |g|)
    decreases l + 1 - |prefix|, 0, |cands|
  {
    if cands == [] then []
    else
      var v := cands[|cands| - 1];
      BetweenAll(g, l, vertexEnd, prefix, cands[..|cands| - 1]) +
      if |prefix| == l then (if v == vertexEnd then [prefix + [v]] else [])
      else Between(g, l, vertexEnd, prefix + [v])
  }

  /** As many routes are recorded as there are walks from the prefix's last vertex to vertexEnd. */
  lemma {:induction false} BetweenCount(g: Matrix, l: nat, vertexEnd: int, prefix: seq<int>)
    requires Square(g) && 1 <= |prefix| <= l && Vertices(prefix, |g|)
    ensures |Between(g, l, vertexEnd, prefix)| == Walks(g, prefix[|prefix| - 1] - 1, l + 1 - |prefix|, vertexEnd - 1)
    decreases l + 1 - |prefix|, 1
  {
    BetweenAllCount(g, l, vertexEnd, prefix, Adjacent(g, prefix[|prefix| - 1], |g|));
  }

  lemma {:induction false} BetweenAllCount(g: Matrix, l: nat, vertexEnd: int, prefix: seq<int>, cands: seq<int>)
    requires Square(g) && 1 <= |prefix| <= l && Vertices(prefix, |g|) && Vertices(cands, |g|)
    ensures |BetweenAll(g, l, vertexEnd, prefix, cands)| == WalkSum(g, cands, l - |prefix|, vertexEnd - 1)
    decreases l + 1 - |prefix|, 0, |cands|
  {
    if cands != [] {
      var v := cands[|cands| - 1];
      BetweenAllCount(g, l, vertexEnd, prefix, cands[..|cands| - 1]);
      if |prefix| < l {
        BetweenCount(g, l, vertexEnd, prefix + [v]);
      }
    }
  }

  /**
   * r has l + 1 vertices, starts with the prefix, ends at vertexEnd, and every
   * step after the prefix is an edge.
   */
  predicate Recorded(r: seq<int>, g: Matrix, l: nat, vertexEnd: int, prefix: seq<int>)
    requires Square(g)
  {
    1 <= |prefix| <= |r| == l + 1 && r[..|prefix|] == prefix && Vertices(r, |g|) && r[l] == vertexEnd &&
    forall k :: |prefix| <= k <= l ==> g[r[k - 1] - 1][r[k] - 1] != 0
  }

  /** Every recorded route has l + 1 vertices, extends the prefix by edges and ends at vertexEnd. */
  lemma {:induction false} BetweenSound(g: Matrix, l: nat, vertexEnd: int, prefix: seq<int>)
    requires Square(g) && 1 <= |prefix| <= l && Vertices(prefix, |g|)
    ensures forall r :: r in Between(g, l, vertexEnd, prefix) ==> Recorded(r, g, l, vertexEnd, prefix)
    decreases l + 1 - |prefix|, 1
  {
    var adj := Adjacent(g, prefix[|prefix| - 1], |g|);
    assert forall i :: 0 <= i < |adj| ==> adj[i] in adj;
    BetweenAllSound(g, l, vertexEnd, prefix, adj);
  }

  lemma {:induction false} BetweenAllSound(g: Matrix, l: nat, vertexEnd: int, prefix: seq<int>, cands: seq<int>)
    requires Square(g) && 1 <= |prefix| <= l && Vertices(prefix, |g|) && Vertices(cands, |g|)
    requires forall i :: 0 <= i < |cands| ==> g[prefix[|prefix| - 1] - 1][cands[i] - 1] != 0
    ensures forall r :: r in BetweenAll(g, l, vertexEnd, prefix, cands) ==> Recorded(r, g, l, vertexEnd, prefix)
    decreases l + 1 - |prefix|, 0, |cands|
  {
    if cands != [] {
      var v := cands[|cands| - 1];
      var n := |prefix|;
      BetweenAllSound(g, l, vertexEnd, prefix, cands[..|cands| - 1]);
      if n == l {
        if v == vertexEnd {
          assert (prefix + [v])[..n] == prefix;
        }
      } else {
        BetweenSound(g, l, vertexEnd, prefix + [v]);
        forall r | r in Between(g, l, vertexEnd, prefix + [v])
          ensures Recorded(r, g, l, vertexEnd, prefix)
        {
          assert r[..n] == r[..n + 1][..n];
          assert r[n - 1] == prefix[n - 1] && r[n] == v;
        }
      }
    }
  }

  /**
   * `graphGetRoutesBetweenVertices`: extends the route buffer through every
   * neighbour of its last vertex; the buffer length `*currRouteSize` is the
   * parameter `size`, and the routes copied into `routes` are returned.
   */
  method RoutesBetween(g: Matrix, l: nat, vertexEnd: int, currRoute: array<int>, size: nat)
    returns (found: seq<seq<int>>)
    requires Square(g) && |g| == MaxVertices
    requires 1 <= size <= l < currRoute.Length && Vertices(currRoute[..size], |g|)
    modifies currRoute
    ensures currRoute[..size] == old(currRoute[..size])
    ensures found == Between(g, l, vertexEnd, old(currRoute[..size]))
    decreases l + 1 - size, 1
  {
    ghost var prefix := currRoute[..size];
    var adj := GetAdjacentVertices(g, currRoute[size - 1]);
    assert adj == Adjacent(g, prefix[size - 1], |g|);
    found := [];
    for j := 0 to |adj|
      invariant currRoute[..size] == prefix
      invariant Vertices(adj[..j], |g|)
      invariant found == BetweenAll(g, l, vertexEnd, prefix, adj[..j])
    {
      found := RecordNeighbour(g, l, vertexEnd, currRoute, size, adj, j, found, prefix);
    }
    assert adj[..|adj|] == adj;
  }

  /**
   * One turn of the loop in `graphGetRoutesBetweenVertices`: neighbour adj[j]
   * is appended to the buffer, then recorded at the last step when it is
   * vertexEnd, or recursed into.
   */
  method RecordNeighbour(g: Matrix, l: nat, vertexEnd: int, currRoute: array<int>, size: nat,
                         adj: seq<int>, j: nat, found: seq<seq<int>>, ghost prefix: seq<int>)
    returns (found': seq<seq<int>>)
    requires Square(g) && |g| == MaxVertices
    requires 1 <= size <= l < currRoute.Length && currRoute[..size] == prefix && Vertices(prefix, |g|)
    requires Vertices(adj, |g|) && j < |adj|
    requires found == BetweenAll(g, l, vertexEnd, prefix, adj[..j])
    modifies currRoute
    ensures currRoute[..size] == prefix
    ensures found' == BetweenAll(g, l, vertexEnd, prefix, adj[..j + 1])
    decreases l + 1 - size, 0
  {
    assert adj[..j + 1][..j] == adj[..j];
    currRoute[size] := adj[j];
    assert currRoute[..size + 1] == prefix + [adj[j]];
    var more: seq<seq<int>>;
    if size + 1 == l + 1 {
      if currRoute[size] == vertexEnd {
        more := [currRoute[..size + 1]];
      } else {
        more := [];
      }
    } else {
      more := RoutesBetween(g, l, vertexEnd, currRoute, size + 1);
    }
    found' := found + more;
  }

  /** A route with at least one vertex and no vertex twice. */
  predicate SimplePath(chain: seq<int>, g: Matrix)
    requires Square(g)
  {
    |chain| >= 1 && Vertices(chain, |g|) && Route(chain, g) && DistinctVertices(chain)
  }

  /** A simple path whose last vertex has no neighbour outside it: it cannot be extended at its end. */
  predicate MaximalSimpleChain(r: seq<int>, g: Matrix)
    requires Square(g)
  {
    SimplePath(r, g) && forall x :: x in Adjacent(g, r[|r| - 1], |g|) ==> x in r
  }

  predicate Extends(r: seq<int>, chain: seq<int>)
  {
    |chain| <= |r| && r[..|chain|] == chain
  }

  /** What `printAllSimplyChainMaximum` has printed so far, and `maxSize`, the length last printed. */
  datatype Printout = Printout(printed: seq<seq<int>>, maxSize: int)

  /**
   * The printed lengths never decrease, lie between lo and hi, and hi is the
   * last length printed (lo when nothing is printed).
   */
  predicate Ascending(p: seq<seq<int>>, lo: int, hi: int)
  {
    lo <= hi &&
    (forall k :: 0 <= k < |p| ==> lo <= |p[k]| <= hi) &&
    (forall a, b :: 0 <= a < b < |p| ==> |p[a]| <= |p[b]|) &&
    (if p == [] then hi == lo else hi == |p[|p| - 1]|)
  }

  lemma AscendingConcat(p1: seq<seq<int>>, p2: seq<seq<int>>, lo: int, mid: int, hi: int)
    requires Ascending(p1, lo, mid) && Ascending(p2, mid, hi)
    ensures Ascending(p1 + p2, lo, hi)
  {
  }

  /**
   * The output of `printAllSimplyChainMaximum` on the route `chain`, with
   * `maxSize` on entry: first everything printed through the neighbours of
   * the last vertex that the chain does not visit, in increasing order; then
   * the chain itself when it is a dead end at least as long as `maxSize` is then.
   */
  function Chains(g: Matrix, chain: seq<int>, maxSize: int): Printout
    requires Square(g) && |chain| >= 1 && Vertices(chain, |g|)
    decreases Unused(|g|, chain), 1, 0
  {
    var (out, deadEnd) := Neighbours(g, chain, maxSize, |g|);
    if deadEnd && |chain| >= out.maxSize then Printout(out.printed + [chain], |chain|) else out
  }

  /** The output through the neighbours among the first i vertices, and whether there was none to visit. */
  function Neighbours(g: Matrix, chain: seq<int>, maxSize: int, i: nat): (Printout, bool)
    requires Square(g) && |chain| >= 1 && Vertices(chain, |g|) && i <= |g|
    decreases Unused(|g|, chain), 0, i
  {
    if i == 0 then (Printout([], maxSize), true)
    else
      var (out, deadEnd) := Neighbours(g, chain, maxSize, i - 1);
      if g[chain[|chain| - 1] - 1][i - 1] != 0 && i !in chain then
        assert i in Unused(|g|, chain) && i !in Unused(|g|, chain + [i]);
        var deeper := Chains(g, chain + [i], out.maxSize);
        (Printout(out.printed + deeper.printed, deeper.maxSize), false)
      else (out, deadEnd)
  }

  /**
   * Everything printed extends the chain and is a maximal simple chain, and
   * the printed lengths ascend from `maxSize` to the returned `maxSize`.
   */
  lemma {:induction false} ChainsSound(g: Matrix, chain: seq<int>, maxSize: int)
    requires Square(g) && SimplePath(chain, g)
    ensures Ascending(Chains(g, chain, maxSize).printed, maxSize, Chains(g, chain, maxSize).maxSize)
    ensures forall r :: r in Chains(g, chain, maxSize).printed ==> MaximalSimpleChain(r, g) && Extends(r, chain)
    decreases Unused(|g|, chain), 1, 0
  {
    NeighboursSound(g, chain, maxSize, |g|);
    var (out, deadEnd) := Neighbours(g, chain, maxSize, |g|);
    if deadEnd && |chain| >= out.maxSize {
      assert chain[..|chain|] == chain;
      AscendingConcat(out.printed, [chain], maxSize, out.maxSize, |chain|);
    }
  }

  lemma {:induction false} NeighboursSound(g: Matrix, chain: seq<int>, maxSize: int, i: nat)
    requires Square(g) && SimplePath(chain, g) && i <= |g|
    ensures Ascending(Neighbours(g, chain, maxSize, i).0.printed, maxSize, Neighbours(g, chain, maxSize, i).0.maxSize)
    ensures forall r :: r in Neighbours(g, chain, maxSize, i).0.printed ==> MaximalSimpleChain(r, g) && Extends(r, chain)
    ensures Neighbours(g, chain, maxSize, i).1 <==> forall x :: x in Adjacent(g, chain[|chain| - 1], i) ==> x in chain
    decreases Unused(|g|, chain), 0, i
  {
    if i > 0 {
      NeighboursSound(g, chain, maxSize, i - 1);
      var (out, deadEnd) := Neighbours(g, chain, maxSize, i - 1);
      var last := chain[|chain| - 1];
      if g[last - 1][i - 1] != 0 && i !in chain {
        DeeperSound(g, chain, maxSize, out, i);
        assert i in Adjacent(g, last, i);
      }
    }
  }

  /** The output through one unvisited neighbour keeps the properties of the output before it. */
  lemma {:induction false} DeeperSound(g: Matrix, chain: seq<int>, maxSize: int, out: Printout, v: int)
    requires Square(g) && SimplePath(chain, g) && 1 <= v <= |g| && v !in chain
    requires g[chain[|chain| - 1] - 1][v - 1] != 0
    requires Ascending(out.printed, maxSize, out.maxSize)
    requires forall r :: r in out.printed ==> MaximalSimpleChain(r, g) && Extends(r, chain)
    ensures Ascending(out.printed + Chains(g, chain + [v], out.maxSize).printed, maxSize, Chains(g, chain + [v], out.maxSize).maxSize)
    ensures forall r :: r in out.printed + Chains(g, chain + [v], out.maxSize).printed ==> MaximalSimpleChain(r, g) && Extends(r, chain)
    decreases Unused(|g|, chain), 0, 0
  {
    var next := chain + [v];
    assert v in Unused(|g|, chain) && v !in Unused(|g|, next);
    NextChain(g, chain, v);
    ChainsSound(g, next, out.maxSize);
    var deeper := Chains(g, next, out.maxSize);
    AscendingConcat(out.printed, deeper.printed, maxSize, out.maxSize, deeper.maxSize);
    forall r | r in deeper.printed
      ensures Extends(r, chain)
    {
      assert r[..|chain|] == r[..|next|][..|chain|];
    }
  }

  /**
   * `printAllSimplyChainMaximum`: appends the vertex to the route, recurses
   * through every unvisited neighbour, and prints the route when it is a dead
   * end at least as long as `maxSize`, which is passed by reference and
   * returned here as the second result.
   */
  method MaxChains(g: Matrix, vertex: int, size: nat, route: array<int>, visited: array<bool>, maxSize: int)
    returns (printed: seq<seq<int>>, newMax: int)
    requires Square(g) && |g| == MaxVertices && route.Length == MaxVertices && visited.Length == MaxVertices
    requires 1 <= vertex <= MaxVertices && size < MaxVertices
    requires SimplePath(route[..size] + [vertex], g)
    requires forall v :: 0 <= v < MaxVertices ==> (visited[v] <==> v + 1 in route[..size])
    modifies route, visited
    ensures visited[..] == old(visited[..])
    ensures route[..size] == old(route[..size])
    ensures Printout(printed, newMax) == Chains(g, old(route[..size]) + [vertex], maxSize)
    decreases MaxVertices - size, 1
  {
    ghost var before := visited[..];
    assert !before[vertex - 1] by {
      NotYetVisited(route[..size], vertex);
    }
    route[size] := vertex;
    visited[vertex - 1] := true;
    ghost var chain := route[..size + 1];
    ghost var marked := visited[..];
    assert marked == before[vertex - 1 := true];
    assert chain == old(route[..size]) + [vertex];
    var isDeadEnd := true;
    printed, newMax := [], maxSize;
    for i := 0 to MaxVertices
      invariant visited[..] == marked
      invariant route[..size + 1] == chain
      invariant (Printout(printed, newMax), isDeadEnd) == Neighbours(g, chain, maxSize, i)
    {
      printed, newMax, isDeadEnd := VisitNeighbour(g, vertex, size, route, visited, i, printed, newMax, isDeadEnd, chain, maxSize);
    }
    if isDeadEnd {
      if size + 1 >= newMax {
        newMax := size + 1;
        printed := printed + [route[..size + 1]];
      }
    }
    visited[vertex - 1] := false;
    assert visited[..] == marked[vertex - 1 := false];
    assert visited[..] == before;
  }

  /** The last vertex of a simple path is not among the vertices before it. */
  lemma NotYetVisited(prefix: seq<int>, vertex: int)
    requires DistinctVertices(prefix + [vertex])
    ensures vertex !in prefix
  {
    var pos := prefix + [vertex];
    forall k | 0 <= k < |prefix|
      ensures prefix[k] != vertex
    {
      assert pos[k] == prefix[k] && pos[|prefix|] == vertex;
    }
  }

  /** Extending a simple path by an adjacent vertex it misses gives a simple path, so the path was short of all vertices. */
  lemma NextChain(g: Matrix, chain: seq<int>, v: int)
    requires Square(g) && SimplePath(chain, g) && 1 <= v <= |g| && v !in chain
    requires g[chain[|chain| - 1] - 1][v - 1] != 0
    ensures SimplePath(chain + [v], g) && |chain| < |g|
  {
    DistinctShort(|g|, chain, v);
  }

  /**
   * One turn of the loop in `printAllSimplyChainMaximum`: neighbour i + 1,
   * when adjacent and unvisited, clears the dead-end flag and is recursed into.
   */
  method VisitNeighbour(g: Matrix, vertex: int, size: nat, route: array<int>, visited: array<bool>, i: nat,
                        printed: seq<seq<int>>, newMax: int, isDeadEnd: bool, ghost chain: seq<int>, ghost maxSize: int)
    returns (printed': seq<seq<int>>, newMax': int, isDeadEnd': bool)
    requires Square(g) && |g| == MaxVertices && route.Length == MaxVertices && visited.Length == MaxVertices
    requires size < MaxVertices && i < MaxVertices && route[..size + 1] == chain && chain[size] == vertex
    requires SimplePath(chain, g)
    requires forall v :: 0 <= v < MaxVertices ==> (visited[v] <==> v + 1 in chain)
    requires (Printout(printed, newMax), isDeadEnd) == Neighbours(g, chain, maxSize, i)
    modifies route, visited
    ensures visited[..] == old(visited[..])
    ensures route[..size + 1] == chain
    ensures (Printout(printed', newMax'), isDeadEnd') == Neighbours(g, chain, maxSize, i + 1)
    decreases MaxVertices - size, 0
  {
    printed', newMax', isDeadEnd' := printed, newMax, isDeadEnd;
    if g[vertex - 1][i] != 0 && !visited[i] {
      isDeadEnd' := false;
      assert i + 1 !in chain;
      NextChain(g, chain, i + 1);
      var more, m := MaxChains(g, i + 1, size + 1, route, visited, newMax);
      printed', newMax' := printed + more, m;
    }
  }

  /** `findAllMaxSimpleChains`: the maximal simple chains from the start vertex, as printed, in ascending length. */
  method FindAllMaxSimpleChains(g: Matrix, startVertex: int) returns (printed: seq<seq<int>>)
    requires Square(g) && |g| == MaxVertices && 1 <= startVertex <= MaxVertices
    ensures printed == Chains(g, [startVertex], 0).printed
    ensures forall r :: r in printed ==> MaximalSimpleChain(r, g) && r[0] == startVertex
    ensures forall a, b :: 0 <= a < b < |printed| ==> |printed[a]| <= |printed[b]|
  {
    var route := new int[MaxVertices];
    var visited := new bool[MaxVertices](_ => false);
    var maxSize := 0;
    assert route[..0] + [startVertex] == [startVertex];
    printed, maxSize := MaxChains(g, startVertex, 0, route, visited, maxSize);
    ChainsSound(g, [startVertex], 0);
    forall r | r in printed
      ensures r[0] == startVertex
    {
      assert Extends(r, [startVertex]);
    }
  }
}
