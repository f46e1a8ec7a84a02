/**
 * The undirected graph of discrete_math/discrete_math_lab_4-2.cpp: a boolean
 * adjacency matrix with a vertex and an edge count, an Euler test by vertex
 * degrees and a Hamiltonian-path test by backtracking depth-first search from
 * vertex 0.
 */
module EulerHamilton {
  type BoolMatrix = seq<seq<bool>>

  predicate SquareOf(m: BoolMatrix, n: nat)
  {
    |m| == n && forall i :: 0 <= i < n ==> |m[i]| == n
  }

  /** The n-by-n matrix without edges. */
  function NoEdges(n: nat): (m: BoolMatrix)
    ensures SquareOf(m, n)
  {
    seq(n, _ => seq(n, _ => false))
  }

  /** The marks of n vertices of which none is visited yet. */
  function NoneVisited(n: nat): (vis: seq<bool>)
    ensures |vis| == n
  {
    seq(n, _ => false)
  }

  /** The number of true entries: the degree of a matrix row, or the number of marked vertices. */
  function Count(s: seq<bool>): (c: nat)
    ensures c <= |s|
  {
    if s == [] then 0 else Count(s[..|s| - 1]) + (if s[|s| - 1] then 1 else 0)
  }

  /** Count is the size of the set of positions holding true. */
  lemma {:induction false} CountIsCardinality(s: seq<bool>)
    ensures Count(s) == |set j | 0 <= j < |s| && s[j]|
  {
    if s != [] {
      var n := |s| - 1;
      CountIsCardinality(s[..n]);
      var front := set j | 0 <= j < n && s[..n][j];
      var all := set j | 0 <= j < |s| && s[j];
      if s[n] {
        assert all == front + {n};
      } else {
        assert all == front;
      }
    }
  }

  /** Marking an unmarked position adds one to the count. */
  lemma {:induction false} CountMark(s: seq<bool>, v: nat)
    requires v < |s| && !s[v]
    ensures Count(s[v := true]) == Count(s) + 1
  {
    var n := |s| - 1;
    if v == n {
      assert s[v := true][..n] == s[..n];
    } else {
      assert s[v := true][..n] == s[..n][v := true];
      CountMark(s[..n], v);
    }
  }

  /** When the count reaches the length, every position is marked. */
  lemma {:induction false} CountFull(s: seq<bool>)
    requires Count(s) == |s|
    ensures forall k :: 0 <= k < |s| ==> s[k]
  {
    if s != [] {
      var n := |s| - 1;
      CountFull(s[..n]);
      assert forall k :: 0 <= k < n ==> s[k] == s[..n][k];
    }
  }

  /** Nothing unmarked counts nothing. */
  lemma {:induction false} CountNone(n: nat)
    ensures Count(NoneVisited(n)) == 0
  {
    if n > 0 {
      CountNone(n - 1);
      assert NoneVisited(n)[..n - 1] == NoneVisited(n - 1);
    }
  }

  /** Every vertex has even degree, the test `isEulerian` applies. */
  predicate EvenDegrees(m: BoolMatrix, n: nat)
    requires SquareOf(m, n)
  {
    forall i :: 0 <= i < n ==> Count(m[i]) % 2 == 0
  }

  /**
   * A simple path in g that starts at v, uses only vertices not marked in
   * vis and follows the direction of the matrix entries.
   */
  predicate SimplePathFrom(g: BoolMatrix, p: seq<int>, v: int, vis: seq<bool>)
    requires SquareOf(g, |g|) && |vis| == |g|
  {
    && |p| >= 1 && p[0] == v
    && (forall k :: 0 <= k < |p| ==> 0 <= p[k] < |g| && !vis[p[k]])
    && (forall a, b :: 0 <= a < b < |p| ==> p[a] != p[b])
    && (forall k :: 1 <= k < |p| ==> g[p[k - 1]][p[k]])
  }

  /**
   * The answer of `dfs(v, count, visited)` with vis the marks on entry: v is
   * marked and counted, and either the count reaches the number of vertices
   * or some unmarked neighbour of v succeeds in turn.
   */
  function Extendable(g: BoolMatrix, v: nat, count: nat, vis: seq<bool>): bool
    requires SquareOf(g, |g|) && |vis| == |g| && v < |g| && !vis[v]
    decreases |vis| - Count(vis), 0
  {
    CountMark(vis, v);
    count + 1 == |g| || ExtendableVia(g, v, count + 1, vis[v := true], |g|)
  }

  /** Some neighbour of v below i is unmarked and succeeds. */
  function ExtendableVia(g: BoolMatrix, v: nat, count: nat, vis: seq<bool>, i: nat): bool
    requires SquareOf(g, |g|) && |vis| == |g| && v < |g| && vis[v] && i <= |g|
    decreases |vis| - Count(vis), 1, i
  {
    i > 0 && (ExtendableVia(g, v, count, vis, i - 1) || (g[v][i - 1] && !vis[i - 1] && Extendable(g, i - 1, count, vis)))
  }

  lemma {:induction false} ViaIntro(g: BoolMatrix, v: nat, count: nat, vis: seq<bool>, i: nat, k: nat)
    requires SquareOf(g, |g|) && |vis| == |g| && v < |g| && vis[v] && i < k <= |g|
    requires g[v][i] && !vis[i] && Extendable(g, i, count, vis)
    ensures ExtendableVia(g, v, count, vis, k)
  {
    if k > i + 1 {
      ViaIntro(g, v, count, vis, i, k - 1);
    }
  }

  lemma {:induction false} ViaWitness(g: BoolMatrix, v: nat, count: nat, vis: seq<bool>, k: nat)
    requires SquareOf(g, |g|) && |vis| == |g| && v < |g| && vis[v] && k <= |g|
    requires ExtendableVia(g, v, count, vis, k)
    ensures exists i :: 0 <= i < k && g[v][i] && !vis[i] && Extendable(g, i, count, vis)
  {
    if !(g[v][k - 1] && !vis[k - 1] && Extendable(g, k - 1, count, vis)) {
      ViaWitness(g, v, count, vis, k - 1);
    }
  }

  /** A successful search has a simple path through the unmarked vertices that the count completes. */
  lemma {:induction false} ExtendableSound(g: BoolMatrix, v: nat, count: nat, vis: seq<bool>)
    requires SquareOf(g, |g|) && |vis| == |g| && v < |g| && !vis[v]
    requires Extendable(g, v, count, vis)
    ensures exists p :: SimplePathFrom(g, p, v, vis) && |p| + count == |g|
    decreases |vis| - Count(vis)
  {
    var marked := vis[v := true];
    CountMark(vis, v);
    if count + 1 == |g| {
      assert SimplePathFrom(g, [v], v, vis);
    } else {
      ViaWitness(g, v, count + 1, marked, |g|);
      var i :| 0 <= i < |g| && g[v][i] && !marked[i] && Extendable(g, i, count + 1, marked);
      ExtendableSound(g, i, count + 1, marked);
      var q :| SimplePathFrom(g, q, i, marked) && |q| + count + 1 == |g|;
      var p := [v] + q;
      assert forall k :: 1 <= k < |p| ==> p[k] == q[k - 1];
      assert SimplePathFrom(g, p, v, vis);
    }
  }

  /** Every simple path through the unmarked vertices that the count completes makes the search succeed. */
  lemma {:induction false} ExtendableComplete(g: BoolMatrix, v: nat, count: nat, vis: seq<bool>, p: seq<int>)
    requires SquareOf(g, |g|) && |vis| == |g| && v < |g| && !vis[v]
    requires SimplePathFrom(g, p, v, vis) && |p| + count == |g|
    ensures Extendable(g, v, count, vis)
    decreases |p|
  {
    if |p| > 1 {
      var marked := vis[v := true];
      var i := p[1];
      var q := p[1..];
      assert forall k :: 0 <= k < |q| ==> q[k] == p[k + 1];
      assert SimplePathFrom(g, q, i, marked);
      ExtendableComplete(g, i, count + 1, marked, q);
      ViaIntro(g, v, count + 1, marked, i, |g|);
    }
  }

  class Graph {
    var adjMatrix: BoolMatrix
    var verticesAmount: int
    var edgesAmount: int

    predicate Valid()
      reads this
    {
      verticesAmount >= 0 && SquareOf(adjMatrix, verticesAmount)
    }

    /** `Graph(n, m)`: n vertices, no edges, and m recorded as the number of edges to generate. */
    constructor (n: nat, m: int)
      ensures Valid() && verticesAmount == n && edgesAmount == m && adjMatrix == NoEdges(n)
    {
      verticesAmount := n;
      edgesAmount := m;
      adjMatrix := NoEdges(n);
    }

    /** `clear`: every entry becomes false; the counts stay. */
    method Clear()
      requires Valid()
      modifies this
      ensures Valid() && adjMatrix == NoEdges(verticesAmount)
      ensures verticesAmount == old(verticesAmount) && edgesAmount == old(edgesAmount)
    {
      var n := verticesAmount;
      for i := 0 to n
        invariant verticesAmount == n && edgesAmount == old(edgesAmount) && SquareOf(adjMatrix, n)
        invariant forall r, c :: 0 <= r < i && 0 <= c < n ==> !adjMatrix[r][c]
      {
        for j := 0 to n
          invariant verticesAmount == n && edgesAmount == old(edgesAmount) && SquareOf(adjMatrix, n)
          invariant forall r, c :: 0 <= r < i && 0 <= c < n ==> !adjMatrix[r][c]
          invariant forall c :: 0 <= c < j ==> !adjMatrix[i][c]
        {
          adjMatrix := adjMatrix[i := adjMatrix[i][j := false]];
        }
      }
      assert forall r :: 0 <= r < n ==> adjMatrix[r] == NoEdges(n)[r];
    }

    /** `isEulerian`: true exactly when every vertex has even degree. */
    method IsEulerian() returns (b: bool)
      requires Valid()
      ensures b <==> EvenDegrees(adjMatrix, verticesAmount)
    {
      for i := 0 to verticesAmount
        invariant forall r :: 0 <= r < i ==> Count(adjMatrix[r]) % 2 == 0
      {
        var row := adjMatrix[i];
        var degree := 0;
        for j := 0 to verticesAmount
          invariant degree == Count(row[..j])
        {
          assert row[..j + 1][..j] == row[..j];
          if row[j] {
            degree := degree + 1;
          }
        }
        assert row[..verticesAmount] == row;
        if degree % 2 != 0 {
          return false;
        }
      }
      return true;
    }

    /**
     * `isHamiltonian`: a depth-first search from vertex 0 with no vertex
     * marked; true exactly when some simple path from vertex 0 passes
     * through all the vertices.
     */
    method IsHamiltonian() returns (h: bool)
      requires Valid() && verticesAmount >= 1
      ensures h <==> exists p :: SimplePathFrom(adjMatrix, p, 0, NoneVisited(verticesAmount)) && |p| == verticesAmount
    {
      var visited := new bool[verticesAmount](_ => false);
      assert visited[..] == NoneVisited(verticesAmount);
      CountNone(verticesAmount);
      h := Dfs(0, 0, visited);
      if h {
        ExtendableSound(adjMatrix, 0, 0, NoneVisited(verticesAmount));
      } else if p :| SimplePathFrom(adjMatrix, p, 0, NoneVisited(verticesAmount)) && |p| == verticesAmount {
        ExtendableComplete(adjMatrix, 0, 0, NoneVisited(verticesAmount), p);
      }
    }

    /**
     * `dfs`: marks and counts v; succeeds once the count reaches the number
     * of vertices, otherwise tries the unmarked neighbours in increasing
     * order. On failure v is unmarked again, so the marks are as on entry;
     * on success every vertex is marked.
     */
    method Dfs(v: nat, count: nat, visited: array<bool>) returns (found: bool)
      requires Valid() && visited.Length == verticesAmount && v < verticesAmount && !visited[v]
      requires count == Count(visited[..])
      modifies visited
      ensures found == Extendable(adjMatrix, v, count, old(visited[..]))
      ensures !found ==> visited[..] == old(visited[..])
      ensures found ==> forall k :: 0 <= k < visited.Length ==> visited[k]
      decreases visited.Length - Count(visited[..]), 0
    {
      ghost var before := visited[..];
      visited[v] := true;
      ghost var marked := visited[..];
      assert marked == before[v := true];
      CountMark(before, v);
      var c := count + 1;
      if c == verticesAmount {
        CountFull(marked);
        return true;
      }
      for i := 0 to verticesAmount
        invariant visited[..] == marked
        invariant !ExtendableVia(adjMatrix, v, c, marked, i)
      {
        found := DfsNeighbour(v, c, visited, i);
        if found {
          ViaIntro(adjMatrix, v, c, marked, i, verticesAmount);
          return;
        }
      }
      visited[v] := false;
      assert visited[..] == before;
      return false;
    }

    /** One turn of the loop in `dfs`: recurse into vertex i when it is an unmarked neighbour of v. */
    method DfsNeighbour(v: nat, count: nat, visited: array<bool>, i: nat) returns (found: bool)
      requires Valid() && visited.Length == verticesAmount && v < verticesAmount && i < verticesAmount && visited[v]
      requires count == Count(visited[..])
      modifies visited
      ensures found == (adjMatrix[v][i] && !old(visited[i]) && Extendable(adjMatrix, i, count, old(visited[..])))
      ensures !found ==> visited[..] == old(visited[..])
      ensures found ==> forall k :: 0 <= k < visited.Length ==> visited[k]
      decreases visited.Length - Count(visited[..]), 1
    {
      if adjMatrix[v][i] && !visited[i] {
        found := Dfs(i, count, visited);
      } else {
        found := false;
      }
    }
  }
}
