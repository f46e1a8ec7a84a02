/**
 * The spanning forest of discrete_math/discrete_math_lab_4-3.cpp: graphs are
 * an integer matrix with a vertex count, and `kraskalAlgorithm` scans the
 * upper triangle row by row, keeps an edge when its ends carry different
 * component labels ("flowers") and then merges the two labels.
 */
module SpanningForest {
  type IntMatrix = seq<seq<int>>

  predicate SquareOf(m: IntMatrix, n: nat)
  {
    |m| == n && forall i :: 0 <= i < n ==> |m[i]| == n
  }

  /** The graph record of the lab: an adjacency matrix and its number of vertices. */
  datatype Graph = Graph(values: IntMatrix, nVertices: int)

  predicate WellFormed(g: Graph)
  {
    g.nVertices >= 0 && SquareOf(g.values, g.nVertices)
  }

  /** `getMemGraph`: n vertices and no edges. */
  function GetMemGraph(n: nat): (g: Graph)
    ensures WellFormed(g) && g.nVertices == n
    ensures forall a, b :: 0 <= a < n && 0 <= b < n ==> g.values[a][b] == 0
  {
    Graph(seq(n, _ => seq(n, _ => 0)), n)
  }

  // ---------------------------------------------------------------------
  // Connectivity as `kraskalAlgorithm` reads the matrix

  /** a and b are joined when the entry in the upper triangle is non-zero. */
  predicate Linked(m: IntMatrix, a: int, b: int)
    requires SquareOf(m, |m|) && 0 <= a < |m| && 0 <= b < |m|
  {
    if a <= b then m[a][b] != 0 else m[b][a] != 0
  }

  predicate IsPath(m: IntMatrix, p: seq<int>)
    requires SquareOf(m, |m|)
  {
    && |p| >= 1
    && (forall k :: 0 <= k < |p| ==> 0 <= p[k] < |m|)
    && (forall k :: 1 <= k < |p| ==> Linked(m, p[k - 1], p[k]))
  }

  /** Every link of m is a link of m2. */
  predicate LinkedWithin(m: IntMatrix, m2: IntMatrix)
    requires SquareOf(m, |m|) && SquareOf(m2, |m|)
  {
    forall x, y :: 0 <= x < |m| && 0 <= y < |m| && Linked(m, x, y) ==> Linked(m2, x, y)
  }

  /** The labels agree across every link of m. */
  predicate Respects(m: IntMatrix, f: seq<int>)
    requires SquareOf(m, |m|) && |f| == |m|
  {
    forall x, y :: 0 <= x < |m| && 0 <= y < |m| && Linked(m, x, y) ==> f[x] == f[y]
  }

  ghost predicate Connected(m: IntMatrix, a: int, b: int)
    requires SquareOf(m, |m|)
  {
    exists p :: IsPath(m, p) && p[0] == a && p[|p| - 1] == b
  }

  /** Two vertices share a label exactly when m connects them: the labels name m's components. */
  ghost predicate LabelsAreComponents(m: IntMatrix, f: seq<int>)
    requires SquareOf(m, |m|) && |f| == |m|
  {
    forall a, b :: 0 <= a < |m| && 0 <= b < |m| ==> (f[a] == f[b] <==> Connected(m, a, b))
  }

  lemma ConnectedRefl(m: IntMatrix, a: int)
    requires SquareOf(m, |m|) && 0 <= a < |m|
    ensures Connected(m, a, a)
  {
    assert IsPath(m, [a]);
  }

  lemma ConnectedLink(m: IntMatrix, a: int, b: int)
    requires SquareOf(m, |m|) && 0 <= a < |m| && 0 <= b < |m| && Linked(m, a, b)
    ensures Connected(m, a, b)
  {
    assert IsPath(m, [a, b]);
  }

  lemma ConnectedTrans(m: IntMatrix, a: int, b: int, c: int)
    requires SquareOf(m, |m|) && Connected(m, a, b) && Connected(m, b, c)
    ensures Connected(m, a, c)
  {
    var p :| IsPath(m, p) && p[0] == a && p[|p| - 1] == b;
    var q :| IsPath(m, q) && q[0] == b && q[|q| - 1] == c;
    var r := p + q[1..];
    assert forall k :: |p| <= k < |r| ==> r[k] == q[k - |p| + 1];
    assert IsPath(m, r);
  }

  /** Connections survive adding edges. */
  lemma ConnectedMono(m: IntMatrix, m2: IntMatrix, a: int, b: int)
    requires SquareOf(m, |m|) && SquareOf(m2, |m|) && LinkedWithin(m, m2)
    requires Connected(m, a, b)
    ensures Connected(m2, a, b)
  {
    var p :| IsPath(m, p) && p[0] == a && p[|p| - 1] == b;
    assert IsPath(m2, p);
  }

  /** Labels that agree across every edge agree along every path. */
  lemma {:induction false} PathSameLabel(m: IntMatrix, f: seq<int>, p: seq<int>)
    requires SquareOf(m, |m|) && |f| == |m| && IsPath(m, p) && Respects(m, f)
    ensures f[p[0]] == f[p[|p| - 1]]
  {
    if |p| > 1 {
      var front := p[..|p| - 1];
      assert IsPath(m, front);
      PathSameLabel(m, f, front);
    }
  }

  lemma ConnectedSameLabel(m: IntMatrix, f: seq<int>, a: int, b: int)
    requires SquareOf(m, |m|) && |f| == |m| && Connected(m, a, b) && Respects(m, f)
    ensures f[a] == f[b]
  {
    var p :| IsPath(m, p) && p[0] == a && p[|p| - 1] == b;
    PathSameLabel(m, f, p);
  }

  // ---------------------------------------------------------------------
  // Labels and forest edges

  /** The distinct labels in use: one per tree of the forest. */
  function Labels(f: seq<int>): set<int>
  {
    set k | 0 <= k < |f| :: f[k]
  }

  /** The edges of a symmetric matrix, each once with its smaller end first. */
  function ForestEdges(m: IntMatrix): set<(int, int)>
    requires SquareOf(m, |m|)
  {
    set a, b | 0 <= a < b < |m| && m[a][b] != 0 :: (a, b)
  }

  /** Every vertex carrying label `from` gets label `to`. */
  function Merge(f: seq<int>, from: int, to: int): (r: seq<int>)
    ensures |r| == |f|
  {
    seq(|f|, k requires 0 <= k < |f| => if f[k] == from then to else f[k])
  }

  /** Merging removes exactly the label of j when i and j carry different labels. */
  lemma MergeLabels(f: seq<int>, i: nat, j: nat)
    requires i < |f| && j < |f| && f[i] != f[j]
    ensures |Labels(Merge(f, f[j], f[i]))| == |Labels(f)| - 1
  {
    var r := Merge(f, f[j], f[i]);
    assert f[i] in Labels(f);
    forall x | x in Labels(r)
      ensures x in Labels(f) - {f[j]}
    {
      var k :| 0 <= k < |r| && r[k] == x;
    }
    forall x | x in Labels(f) - {f[j]}
      ensures x in Labels(r)
    {
      var k :| 0 <= k < |f| && f[k] == x;
      assert r[k] == x;
    }
    assert Labels(r) == Labels(f) - {f[j]};
    assert f[j] in Labels(f);
  }

  lemma {:induction false} IdentityLabels(n: nat)
    ensures |Labels(seq(n, k => k))| == n
  {
    if n > 0 {
      IdentityLabels(n - 1);
      var f: seq<int> := seq(n, k => k);
      var front: seq<int> := seq(n - 1, k => k);
      forall x | x in Labels(f)
        ensures x in Labels(front) + {n - 1}
      {
        var k :| 0 <= k < n && f[k] == x;
        if k < n - 1 {
          assert front[k] == x;
        }
      }
      forall x | x in Labels(front) + {n - 1}
        ensures x in Labels(f)
      {
        if x == n - 1 {
          assert f[n - 1] == x;
        } else {
          var k :| 0 <= k < n - 1 && front[k] == x;
          assert f[k] == x;
        }
      }
      assert Labels(f) == Labels(front) + {n - 1};
    }
  }

  // ---------------------------------------------------------------------
  // The relabelling loop

  /** The relabelling loop with the label of j saved before it starts: every vertex of j's tree joins i's tree. */
  method Relabel(flower: seq<int>, i: nat, j: nat) returns (r: seq<int>)
    requires i < |flower| && j < |flower|
    ensures r == Merge(flower, flower[j], flower[i])
  {
    var from := flower[j];
    var to := flower[i];
    r := flower;
    for k := 0 to |flower|
      invariant |r| == |flower|
      invariant forall t :: 0 <= t < |flower| ==> r[t] == if t < k && flower[t] == from then to else flower[t]
    {
      if r[k] == from {
        r := r[k := to];
      }
    }
  }

  /** What the relabelling loop of `kraskalAlgorithm` computes: once it reaches j it compares with j's new label. */
  function AsWritten(f: seq<int>, i: nat, j: nat): (r: seq<int>)
    requires i < |f| && j < |f|
    ensures |r| == |f|
  {
    seq(|f|, t requires 0 <= t < |f| => if t <= j && f[t] == f[j] then f[i] else f[t])
  }

  /** The loop as written, reading `flower[j]` and `flower[i]` afresh on every turn. */
  method RelabelAsWritten(flower: seq<int>, i: nat, j: nat) returns (r: seq<int>)
    requires i < j < |flower| && flower[i] != flower[j]
    ensures r == AsWritten(flower, i, j)
  {
    r := flower;
    for k := 0 to |flower|
      invariant |r| == |flower| && r[i] == flower[i]
      invariant r[j] == if k <= j then flower[j] else flower[i]
      invariant forall t :: 0 <= t < |flower| ==> r[t] == if t < k && t <= j && flower[t] == flower[j] then flower[i] else flower[t]
    {
      if r[k] == r[j] {
        r := r[k := r[i]];
      }
    }
  }

  /**
   * With labels [0, 1, 0, 0], the forest edge (0, 3) and i = 1, j = 2, the
   * loop as written leaves vertex 3 behind: the two ends of a forest edge end
   * up with different labels, whereas `Merge` keeps them together.
   */
  lemma RelabelAsWrittenSplitsTree()
    ensures var f := [0, 1, 0, 0];
            f[0] == f[3] && AsWritten(f, 1, 2)[0] != AsWritten(f, 1, 2)[3]
            && Merge(f, f[2], f[1])[0] == Merge(f, f[2], f[1])[3]
  {
  }

  /** Merging labels never separates vertices that shared a label. */
  lemma MergeKeepsTogether(f: seq<int>, i: nat, j: nat, a: nat, b: nat)
    requires i < |f| && j < |f| && a < |f| && b < |f| && f[a] == f[b]
    ensures Merge(f, f[j], f[i])[a] == Merge(f, f[j], f[i])[b]
  {
  }

  // ---------------------------------------------------------------------
  // The invariant of the scan

  /** (a, b) with a <= b comes before (i, j) in the row-major scan of the upper triangle. */
  predicate Before(a: int, b: int, i: int, j: int)
  {
    a <= b && (a < i || (a == i && b < j))
  }

  /** The forest is a symmetric 0/1 matrix. */
  predicate ForestShape(F: IntMatrix, n: nat)
  {
    SquareOf(F, n) && forall a, b :: 0 <= a < n && 0 <= b < n ==> F[a][b] == F[b][a] && (F[a][b] == 0 || F[a][b] == 1)
  }

  /** Every forest edge is a graph edge inside one tree. */
  predicate ForestInside(g: IntMatrix, F: IntMatrix, f: seq<int>)
    requires SquareOf(g, |g|) && SquareOf(F, |g|) && |f| == |g|
  {
    forall a, b :: 0 <= a < |g| && 0 <= b < |g| && F[a][b] != 0 ==> Linked(g, a, b) && f[a] == f[b]
  }

  /** Vertices with one label are connected in the forest. */
  ghost predicate LabelsConnected(F: IntMatrix, f: seq<int>)
    requires SquareOf(F, |f|)
  {
    forall a, b :: 0 <= a < |f| && 0 <= b < |f| && f[a] == f[b] ==> Connected(F, a, b)
  }

  /** Every graph edge scanned before (i, j) lies inside one tree. */
  predicate ScannedInside(g: IntMatrix, f: seq<int>, i: nat, j: nat)
    requires SquareOf(g, |g|) && |f| == |g|
  {
    forall a, b :: 0 <= a < |g| && 0 <= b < |g| && Before(a, b, i, j) && g[a][b] != 0 ==> f[a] == f[b]
  }

  /**
   * After scanning up to (i, j): the forest is a symmetric 0/1 part of the
   * graph, the labels are exactly its trees, every scanned edge of the graph
   * lies inside one tree, and edges plus trees number n.
   */
  ghost predicate KruskalInv(g: IntMatrix, F: IntMatrix, f: seq<int>, i: nat, j: nat)
    requires SquareOf(g, |g|)
  {
    && ForestShape(F, |g|) && |f| == |g|
    && ForestInside(g, F, f)
    && LabelsConnected(F, f)
    && ScannedInside(g, f, i, j)
    && |ForestEdges(F)| + |Labels(f)| == |g|
  }

  lemma KruskalStart(g: IntMatrix, F: IntMatrix, f: seq<int>)
    requires SquareOf(g, |g|) && SquareOf(F, |g|) && f == seq(|g|, k => k)
    requires forall a, b :: 0 <= a < |g| && 0 <= b < |g| ==> F[a][b] == 0
    ensures KruskalInv(g, F, f, 0, 0)
  {
    forall a, b | 0 <= a < |g| && 0 <= b < |g| && f[a] == f[b]
      ensures Connected(F, a, b)
    {
      ConnectedRefl(F, a);
    }
    assert ForestEdges(F) == {};
    IdentityLabels(|g|);
  }

  /** A vertex of j's tree and a vertex of i's tree are connected once the edge (i, j) is added. */
  lemma MergeConnected(F: IntMatrix, F2: IntMatrix, f: seq<int>, i: nat, j: nat, a: nat, b: nat)
    requires SquareOf(F, |f|) && SquareOf(F2, |f|) && i < |f| && j < |f| && a < |f| && b < |f| && f[i] != f[j]
    requires LinkedWithin(F, F2) && Linked(F2, i, j) && LabelsConnected(F, f)
    requires Merge(f, f[j], f[i])[a] == Merge(f, f[j], f[i])[b]
    ensures Connected(F2, a, b)
  {
    if f[a] == f[b] {
      ConnectedMono(F, F2, a, b);
    } else if f[a] == f[j] {
      ConnectedMono(F, F2, a, j);
      ConnectedLink(F2, j, i);
      ConnectedMono(F, F2, i, b);
      ConnectedTrans(F2, a, j, i);
      ConnectedTrans(F2, a, i, b);
    } else {
      ConnectedMono(F, F2, a, i);
      ConnectedLink(F2, i, j);
      ConnectedMono(F, F2, j, b);
      ConnectedTrans(F2, a, i, j);
      ConnectedTrans(F2, a, j, b);
    }
  }

  /** The forest with the edge (i, j) added on both sides. */
  predicate AddsEdge(F: IntMatrix, F2: IntMatrix, i: nat, j: nat)
    requires SquareOf(F, |F|) && SquareOf(F2, |F|)
  {
    forall a, b :: 0 <= a < |F| && 0 <= b < |F| ==>
      F2[a][b] == if (a == i && b == j) || (a == j && b == i) then 1 else F[a][b]
  }

  /** The new edge (i, j) adds exactly one pair to the forest's edges. */
  lemma ForestEdgesAdd(F: IntMatrix, F2: IntMatrix, i: nat, j: nat)
    requires SquareOf(F, |F|) && SquareOf(F2, |F|) && i < j < |F| && F[i][j] == 0 && AddsEdge(F, F2, i, j)
    ensures |ForestEdges(F2)| == |ForestEdges(F)| + 1
  {
    assert ForestEdges(F2) == ForestEdges(F) + {(i, j)};
    assert (i, j) !in ForestEdges(F);
  }

  lemma AddEdgeShape(F: IntMatrix, F2: IntMatrix, i: nat, j: nat)
    requires ForestShape(F, |F|) && SquareOf(F2, |F|) && i < |F| && j < |F| && AddsEdge(F, F2, i, j)
    ensures ForestShape(F2, |F|) && LinkedWithin(F, F2) && Linked(F2, i, j)
  {
  }

  lemma AddEdgeInside(g: IntMatrix, F: IntMatrix, f: seq<int>, i: nat, j: nat, F2: IntMatrix)
    requires SquareOf(g, |g|) && SquareOf(F, |g|) && SquareOf(F2, |g|) && |f| == |g| && i < j < |g|
    requires ForestInside(g, F, f) && g[i][j] != 0 && f[i] != f[j] && AddsEdge(F, F2, i, j)
    ensures ForestInside(g, F2, Merge(f, f[j], f[i]))
  {
    var f2 := Merge(f, f[j], f[i]);
    forall a, b | 0 <= a < |g| && 0 <= b < |g| && F2[a][b] != 0
      ensures Linked(g, a, b) && f2[a] == f2[b]
    {
      if (a == i && b == j) || (a == j && b == i) {
        assert f2[i] == f[i] && f2[j] == f[i];
      } else {
        assert F[a][b] != 0;
        MergeKeepsTogether(f, i, j, a, b);
      }
    }
  }

  lemma AddEdgeScanned(g: IntMatrix, f: seq<int>, i: nat, j: nat)
    requires SquareOf(g, |g|) && |f| == |g| && i < j < |g| && f[i] != f[j] && ScannedInside(g, f, i, j)
    ensures ScannedInside(g, Merge(f, f[j], f[i]), i, j + 1)
  {
    var f2 := Merge(f, f[j], f[i]);
    forall a, b | 0 <= a < |g| && 0 <= b < |g| && Before(a, b, i, j + 1) && g[a][b] != 0
      ensures f2[a] == f2[b]
    {
      if a == i && b == j {
        assert f2[i] == f[i] && f2[j] == f[i];
      } else {
        assert Before(a, b, i, j);
        MergeKeepsTogether(f, i, j, a, b);
      }
    }
  }

  lemma AddEdgeConnected(F: IntMatrix, F2: IntMatrix, f: seq<int>, i: nat, j: nat)
    requires SquareOf(F, |f|) && SquareOf(F2, |f|) && i < |f| && j < |f| && f[i] != f[j]
    requires LinkedWithin(F, F2) && Linked(F2, i, j) && LabelsConnected(F, f)
    ensures LabelsConnected(F2, Merge(f, f[j], f[i]))
  {
    var f2 := Merge(f, f[j], f[i]);
    forall a, b | 0 <= a < |f| && 0 <= b < |f| && f2[a] == f2[b]
      ensures Connected(F2, a, b)
    {
      MergeConnected(F, F2, f, i, j, a, b);
    }
  }

  /** Keeping the edge (i, j) and merging the labels preserves the invariant. */
  lemma KruskalAddEdge(g: IntMatrix, F: IntMatrix, f: seq<int>, i: nat, j: nat, F2: IntMatrix)
    requires SquareOf(g, |g|) && KruskalInv(g, F, f, i, j) && i < j < |g| && g[i][j] != 0 && f[i] != f[j]
    requires SquareOf(F2, |g|) && AddsEdge(F, F2, i, j)
    ensures KruskalInv(g, F2, Merge(f, f[j], f[i]), i, j + 1)
  {
    assert F[i][j] == 0;
    AddEdgeShape(F, F2, i, j);
    AddEdgeInside(g, F, f, i, j, F2);
    AddEdgeScanned(g, f, i, j);
    AddEdgeConnected(F, F2, f, i, j);
    ForestEdgesAdd(F, F2, i, j);
    MergeLabels(f, i, j);
  }

  /** Passing over (i, j) without keeping it preserves the invariant. */
  lemma KruskalSkip(g: IntMatrix, F: IntMatrix, f: seq<int>, i: nat, j: nat)
    requires SquareOf(g, |g|) && KruskalInv(g, F, f, i, j) && i <= j < |g|
    requires g[i][j] != 0 ==> f[i] == f[j]
    ensures KruskalInv(g, F, f, i, j + 1)
  {
    assert ScannedInside(g, f, i, j + 1);
  }

  lemma KruskalNextRow(g: IntMatrix, F: IntMatrix, f: seq<int>, i: nat)
    requires SquareOf(g, |g|) && i < |g| && KruskalInv(g, F, f, i, |g|)
    ensures KruskalInv(g, F, f, i + 1, i + 1)
  {
    assert ScannedInside(g, f, i + 1, i + 1);
  }

  /** At the end the forest lies within the graph and the labels respect both. */
  lemma KruskalFinalLinks(g: IntMatrix, F: IntMatrix, f: seq<int>)
    requires SquareOf(g, |g|) && KruskalInv(g, F, f, |g|, |g|)
    ensures LinkedWithin(F, g) && Respects(F, f) && Respects(g, f)
  {
    var n := |g|;
    forall x, y | 0 <= x < n && 0 <= y < n && Linked(g, x, y)
      ensures f[x] == f[y]
    {
      if x <= y {
        assert Before(x, y, n, n);
      } else {
        assert Before(y, x, n, n);
      }
    }
  }

  lemma SameLabelIffConnected(g: IntMatrix, F: IntMatrix, f: seq<int>, a: int, b: int)
    requires SquareOf(g, |g|) && SquareOf(F, |g|) && |f| == |g| && 0 <= a < |g| && 0 <= b < |g|
    requires LinkedWithin(F, g) && Respects(F, f) && Respects(g, f) && LabelsConnected(F, f)
    ensures f[a] == f[b] <==> Connected(g, a, b)
    ensures f[a] == f[b] <==> Connected(F, a, b)
  {
    if f[a] == f[b] {
      ConnectedMono(F, g, a, b);
    }
    if Connected(g, a, b) {
      ConnectedSameLabel(g, f, a, b);
    }
    if Connected(F, a, b) {
      ConnectedSameLabel(F, f, a, b);
    }
  }

  /** At the end the labels are the components of the graph and of the forest alike. */
  lemma KruskalFinal(g: IntMatrix, F: IntMatrix, f: seq<int>)
    requires SquareOf(g, |g|) && KruskalInv(g, F, f, |g|, |g|)
    ensures ForestShape(F, |g|) && |f| == |g| && LinkedWithin(F, g)
    ensures LabelsAreComponents(g, f) && LabelsAreComponents(F, f)
    ensures |ForestEdges(F)| + |Labels(f)| == |g|
  {
    KruskalFinalLinks(g, F, f);
    forall a, b | 0 <= a < |g| && 0 <= b < |g|
      ensures f[a] == f[b] <==> Connected(g, a, b)
      ensures f[a] == f[b] <==> Connected(F, a, b)
    {
      SameLabelIffConnected(g, F, f, a, b);
    }
  }

  // ---------------------------------------------------------------------
  // `kraskalAlgorithm`

  /** The first loop of `kraskalAlgorithm`: every vertex is its own tree. */
  method InitialLabels(n: nat) returns (flower: seq<int>)
    ensures flower == seq(n, k => k)
  {
    flower := seq(n, _ => 0);
    for j := 0 to n
      invariant |flower| == n && forall k :: 0 <= k < j ==> flower[k] == k
    {
      flower := flower[j := j];
    }
  }

  /** One pair of the scan: keep (i, j) when it is an edge between two trees, and merge their labels. */
  method KruskalStep(g: IntMatrix, F: IntMatrix, f: seq<int>, i: nat, j: nat) returns (F2: IntMatrix, f2: seq<int>)
    requires SquareOf(g, |g|) && KruskalInv(g, F, f, i, j) && i <= j < |g|
    ensures KruskalInv(g, F2, f2, i, j + 1)
  {
    F2, f2 := F, f;
    if g[i][j] != 0 {
      if f[i] != f[j] {
        F2 := F2[i := F2[i][j := 1]];
        F2 := F2[j := F2[j][i := 1]];
        f2 := Relabel(f, i, j);
        KruskalAddEdge(g, F, f, i, j, F2);
        return;
      }
    }
    KruskalSkip(g, F, f, i, j);
  }

  /** The inner loop of `kraskalAlgorithm` over row i, from the diagonal on. */
  method KruskalRow(g: IntMatrix, F: IntMatrix, f: seq<int>, i: nat) returns (F2: IntMatrix, f2: seq<int>)
    requires SquareOf(g, |g|) && i < |g| && KruskalInv(g, F, f, i, i)
    ensures KruskalInv(g, F2, f2, i + 1, i + 1)
  {
    F2, f2 := F, f;
    for j := i to |g|
      invariant KruskalInv(g, F2, f2, i, j)
    {
      F2, f2 := KruskalStep(g, F2, f2, i, j);
    }
    KruskalNextRow(g, F2, f2, i);
  }

  /** The outer loop of `kraskalAlgorithm` over the rows. */
  method KruskalScan(g: IntMatrix, F: IntMatrix, f: seq<int>) returns (F2: IntMatrix, f2: seq<int>)
    requires SquareOf(g, |g|) && KruskalInv(g, F, f, 0, 0)
    ensures ForestShape(F2, |g|) && |f2| == |g| && LinkedWithin(F2, g)
    ensures LabelsAreComponents(g, f2) && LabelsAreComponents(F2, f2)
    ensures |ForestEdges(F2)| + |Labels(f2)| == |g|
  {
    F2, f2 := F, f;
    for i := 0 to |g|
      invariant KruskalInv(g, F2, f2, i, i)
    {
      F2, f2 := KruskalRow(g, F2, f2, i);
    }
    KruskalFinal(g, F2, f2);
  }

  /**
   * `kraskalAlgorithm`, with the relabelling corrected to merge the whole of
   * j's tree: the forest is symmetric, 0/1 and part of the graph; two
   * vertices share a label exactly when the graph connects them, and exactly
   * when the forest does; and the forest has as many edges as vertices minus
   * trees. The labels are returned rather than printed.
   */
  method Kruskal(graph: Graph) returns (forest: Graph, flower: seq<int>)
    requires WellFormed(graph)
    ensures WellFormed(forest) && forest.nVertices == graph.nVertices && |flower| == graph.nVertices
    ensures ForestShape(forest.values, graph.nVertices) && LinkedWithin(forest.values, graph.values)
    ensures LabelsAreComponents(graph.values, flower) && LabelsAreComponents(forest.values, flower)
    ensures |ForestEdges(forest.values)| + |Labels(flower)| == graph.nVertices
  {
    var n := graph.nVertices;
    var g := graph.values;
    flower := InitialLabels(n);
    var F := GetMemGraph(n).values;
    KruskalStart(g, F, flower);
    F, flower := KruskalScan(g, F, flower);
    forest := Graph(F, n);
  }

  // ---------------------------------------------------------------------
  // `kraskalAlgorithm` as written

  /** The forest with the edge (i, j) set on both sides, row i first. */
  function AddEdge(F: IntMatrix, i: nat, j: nat): (F2: IntMatrix)
    requires SquareOf(F, |F|) && i < |F| && j < |F|
    ensures SquareOf(F2, |F|)
  {
    var F1 := F[i := F[i][j := 1]];
    F1[j := F1[j][i := 1]]
  }

  /**
   * One pair of the scan as written: the edge (i, j) is kept exactly when it
   * is a graph edge whose ends carry different labels, and the labels are
   * then relabelled by the loop as written.
   */
  function StepAsWritten(g: IntMatrix, F: IntMatrix, f: seq<int>, i: nat, j: nat): (r: (IntMatrix, seq<int>))
    requires SquareOf(g, |g|) && SquareOf(F, |g|) && |f| == |g| && i < |g| && j < |g|
    ensures SquareOf(r.0, |g|) && |r.1| == |g|
  {
    if g[i][j] != 0 && f[i] != f[j] then (AddEdge(F, i, j), AsWritten(f, i, j)) else (F, f)
  }

  /**
   * A step changes the forest or the labels only for a graph edge between two
   * different labels, and after a graph edge (i, j) is scanned its two ends
   * share a label.
   */
  lemma StepAsWrittenJoins(g: IntMatrix, F: IntMatrix, f: seq<int>, i: nat, j: nat)
    requires SquareOf(g, |g|) && SquareOf(F, |g|) && |f| == |g| && i < j < |g|
    ensures var r := StepAsWritten(g, F, f, i, j);
            && (r.0 != F || r.1 != f ==> g[i][j] != 0 && f[i] != f[j])
            && (g[i][j] != 0 ==> r.1[i] == r.1[j])
            && (g[i][j] != 0 && f[i] != f[j] ==> r.0[i][j] == 1 && r.0[j][i] == 1)
  {
  }

  /** The rest of the scan as written, from pair (i, j) of the upper triangle on. */
  function ScanAsWritten(g: IntMatrix, F: IntMatrix, f: seq<int>, i: nat, j: nat): (r: (IntMatrix, seq<int>))
    requires SquareOf(g, |g|) && SquareOf(F, |g|) && |f| == |g| && i <= j <= |g|
    ensures SquareOf(r.0, |g|) && |r.1| == |g|
    decreases |g| - i, |g| - j
  {
    if i == |g| then (F, f)
    else if j == |g| then ScanAsWritten(g, F, f, i + 1, i + 1)
    else
      var r := StepAsWritten(g, F, f, i, j);
      ScanAsWritten(g, r.0, r.1, i, j + 1)
  }

  /** Every entry of F that is set is a symmetric 1 on an edge of g. */
  predicate ForestWithin(g: IntMatrix, F: IntMatrix)
    requires SquareOf(g, |g|) && SquareOf(F, |g|)
  {
    ForestShape(F, |g|) && LinkedWithin(F, g)
  }

  /** A kept edge (i, j) with i < j is a graph edge, so adding it keeps the forest within the graph. */
  lemma AddEdgeWithin(g: IntMatrix, F: IntMatrix, i: nat, j: nat)
    requires SquareOf(g, |g|) && SquareOf(F, |g|) && ForestWithin(g, F) && i < j < |g| && g[i][j] != 0
    ensures ForestWithin(g, AddEdge(F, i, j))
  {
    var F2 := AddEdge(F, i, j);
    assert AddsEdge(F, F2, i, j);
    AddEdgeShape(F, F2, i, j);
    forall x, y | 0 <= x < |g| && 0 <= y < |g| && Linked(F2, x, y)
      ensures Linked(g, x, y)
    {
      if !Linked(F, x, y) {
        assert (x == i && y == j) || (x == j && y == i);
      }
    }
  }

  /** The scan as written keeps the forest a symmetric 0/1 part of the graph. */
  lemma {:induction false} ScanAsWrittenWithin(g: IntMatrix, F: IntMatrix, f: seq<int>, i: nat, j: nat)
    requires SquareOf(g, |g|) && SquareOf(F, |g|) && |f| == |g| && i <= j <= |g| && ForestWithin(g, F)
    ensures ForestWithin(g, ScanAsWritten(g, F, f, i, j).0)
    decreases |g| - i, |g| - j
  {
    if i < |g| {
      if j == |g| {
        ScanAsWrittenWithin(g, F, f, i + 1, i + 1);
      } else {
        var r := StepAsWritten(g, F, f, i, j);
        if g[i][j] != 0 && f[i] != f[j] {
          AddEdgeWithin(g, F, i, j);
        }
        ScanAsWrittenWithin(g, r.0, r.1, i, j + 1);
      }
    }
  }

  /** The inner loop of `kraskalAlgorithm` over row i, as written. */
  method KruskalRowAsWritten(g: IntMatrix, F: IntMatrix, f: seq<int>, i: nat) returns (F2: IntMatrix, f2: seq<int>)
    requires SquareOf(g, |g|) && SquareOf(F, |g|) && |f| == |g| && i < |g|
    ensures SquareOf(F2, |g|) && |f2| == |g|
    ensures ScanAsWritten(g, F2, f2, i + 1, i + 1) == ScanAsWritten(g, F, f, i, i)
  {
    F2, f2 := F, f;
    for j := i to |g|
      invariant SquareOf(F2, |g|) && |f2| == |g|
      invariant ScanAsWritten(g, F2, f2, i, j) == ScanAsWritten(g, F, f, i, i)
    {
      if g[i][j] != 0 {
        if f2[i] != f2[j] {
          F2 := F2[i := F2[i][j := 1]];
          F2 := F2[j := F2[j][i := 1]];
          f2 := RelabelAsWritten(f2, i, j);
        }
      }
    }
  }

  /**
   * `kraskalAlgorithm` exactly as written: an edge (i, j) of the upper
   * triangle is kept only when its ends carry different labels, and the
   * forest is a symmetric 0/1 part of the graph. It is the scan
   * `ScanAsWritten`, which need not give a forest: see `KruskalAsWrittenCycle`.
   */
  method KruskalAsWritten(graph: Graph) returns (forest: Graph, flower: seq<int>)
    requires WellFormed(graph)
    ensures WellFormed(forest) && forest.nVertices == graph.nVertices && |flower| == graph.nVertices
    ensures (forest.values, flower) == ScanAsWritten(graph.values, GetMemGraph(graph.nVertices).values, seq(graph.nVertices, k => k), 0, 0)
    ensures ForestWithin(graph.values, forest.values)
  {
    var n := graph.nVertices;
    var g := graph.values;
    flower := InitialLabels(n);
    var F := GetMemGraph(n).values;
    ghost var result := ScanAsWritten(g, F, flower, 0, 0);
    assert ForestWithin(g, F);
    ScanAsWrittenWithin(g, F, flower, 0, 0);
    for i := 0 to n
      invariant SquareOf(F, n) && |flower| == n
      invariant ScanAsWritten(g, F, flower, i, i) == result
    {
      F, flower := KruskalRowAsWritten(g, F, flower, i);
    }
    forest := Graph(F, n);
  }

  /** The graph of the finding: edges (0,2), (0,3), (1,2) and (2,3) on four vertices. */
  function CycleGraph(): (g: IntMatrix)
    ensures SquareOf(g, 4)
  {
    [[0, 0, 1, 1], [0, 0, 1, 0], [1, 1, 0, 1], [1, 0, 1, 0]]
  }

  /** AddEdge gives F2 when it sets entry j of row i and entry i of row j and leaves every other row. */
  lemma AddEdgeRows(F: IntMatrix, i: nat, j: nat, F2: IntMatrix)
    requires SquareOf(F, |F|) && i < j < |F| && |F2| == |F|
    requires F2[i] == F[i][j := 1] && F2[j] == F[j][i := 1]
    requires forall k :: 0 <= k < |F| && k != i && k != j ==> F2[k] == F[k]
    ensures AddEdge(F, i, j) == F2
  {
  }

  /** The first row of the scan keeps (0,2) and (0,3) and merges 0, 2 and 3 under label 0. */
  lemma CycleRowZero(Z: IntMatrix)
    requires Z == [[0, 0, 0, 0], [0, 0, 0, 0], [0, 0, 0, 0], [0, 0, 0, 0]]
    ensures ScanAsWritten(CycleGraph(), Z, [0, 1, 2, 3], 0, 0)
         == ScanAsWritten(CycleGraph(), [[0, 0, 1, 1], [0, 0, 0, 0], [1, 0, 0, 0], [1, 0, 0, 0]], [0, 1, 0, 0], 1, 1)
  {
    var g := CycleGraph();
    var F02 := [[0, 0, 1, 0], [0, 0, 0, 0], [1, 0, 0, 0], [0, 0, 0, 0]];
    var F03 := [[0, 0, 1, 1], [0, 0, 0, 0], [1, 0, 0, 0], [1, 0, 0, 0]];
    AddEdgeRows(Z, 0, 2, F02);
    AddEdgeRows(F02, 0, 3, F03);
    assert AsWritten([0, 1, 2, 3], 0, 2) == [0, 1, 0, 3];
    assert AsWritten([0, 1, 0, 3], 0, 3) == [0, 1, 0, 0];
    calc {
      ScanAsWritten(g, Z, [0, 1, 2, 3], 0, 0);
      ScanAsWritten(g, F02, [0, 1, 0, 3], 0, 3);
      ScanAsWritten(g, F03, [0, 1, 0, 0], 0, 4);
    }
  }

  /**
   * The second row keeps (1,2); relabelling as written then gives [1, 1, 1, 0],
   * so vertex 3 has lost the label of its tree.
   */
  lemma CycleRowOne()
    ensures ScanAsWritten(CycleGraph(), [[0, 0, 1, 1], [0, 0, 0, 0], [1, 0, 0, 0], [1, 0, 0, 0]], [0, 1, 0, 0], 1, 1)
         == ScanAsWritten(CycleGraph(), [[0, 0, 1, 1], [0, 0, 1, 0], [1, 1, 0, 0], [1, 0, 0, 0]], [1, 1, 1, 0], 2, 2)
  {
    var F03 := [[0, 0, 1, 1], [0, 0, 0, 0], [1, 0, 0, 0], [1, 0, 0, 0]];
    var F12 := [[0, 0, 1, 1], [0, 0, 1, 0], [1, 1, 0, 0], [1, 0, 0, 0]];
    AddEdgeRows(F03, 1, 2, F12);
    assert AsWritten([0, 1, 0, 0], 1, 2) == [1, 1, 1, 0];
  }

  /** The third row keeps (2,3), which closes the cycle, and the last row keeps nothing. */
  lemma CycleRowTwo()
    ensures ScanAsWritten(CycleGraph(), [[0, 0, 1, 1], [0, 0, 1, 0], [1, 1, 0, 0], [1, 0, 0, 0]], [1, 1, 1, 0], 2, 2)
         == (CycleGraph(), [1, 1, 1, 1])
  {
    var g := CycleGraph();
    var F12 := [[0, 0, 1, 1], [0, 0, 1, 0], [1, 1, 0, 0], [1, 0, 0, 0]];
    AddEdgeRows(F12, 2, 3, g);
    assert AsWritten([1, 1, 1, 0], 2, 3) == [1, 1, 1, 1];
    calc {
      ScanAsWritten(g, F12, [1, 1, 1, 0], 2, 2);
      ScanAsWritten(g, g, [1, 1, 1, 1], 2, 4);
      ScanAsWritten(g, g, [1, 1, 1, 1], 3, 3);
    }
  }

  /** The graph itself has the cycle 0-2-3-0. */
  lemma CycleGraphCycle()
    ensures IsPath(CycleGraph(), [0, 2, 3, 0])
  {
    var g := CycleGraph();
    assert Linked(g, 0, 2) && Linked(g, 2, 3) && Linked(g, 3, 0);
  }

  /**
   * On that graph the scan as written keeps all four edges, so its "forest"
   * is the graph itself, with the cycle 0-2-3-0 and as many edges as
   * vertices, which no forest has; every label ends up 1. The corrected
   * `Kruskal` keeps n - 1 = 3 edges.
   */
  lemma KruskalAsWrittenCycle()
    ensures ScanAsWritten(CycleGraph(), GetMemGraph(4).values, seq(4, k => k), 0, 0) == (CycleGraph(), [1, 1, 1, 1])
    ensures IsPath(CycleGraph(), [0, 2, 3, 0])
  {
    CycleGraphCycle();
    var Z := GetMemGraph(4).values;
    var zero := [0, 0, 0, 0];
    assert forall k :: 0 <= k < 4 ==> Z[k] == zero;
    assert Z == [zero, zero, zero, zero];
    assert seq(4, k => k) == [0, 1, 2, 3];
    CycleRowZero(Z);
    CycleRowOne();
    CycleRowTwo();
  }
}
