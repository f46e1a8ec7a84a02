/**
 * The adjacency-list graph of data_structures/graph.c: `num_nodes`
 * vertices, and for each vertex a singly linked list of target vertices,
 * head first. Each list is modelled by the sequence of its node values;
 * DFS and BFS return the vertices they print, in printing order.
 */
module AdjacencyGraph {

  datatype GraphError = GraphSuccess | GraphErrMemory | GraphErrInvalidNode | GraphErrEdgeExists | GraphErrEdgeNotFound

  // ---------------------------------------------------------------------
  // Reference definitions over the lists

  /** The list with the first node holding `x` unlinked. */
  function RemoveFirst(s: seq<int>, x: int): seq<int>
  {
    if s == [] then []
    else if s[0] == x then s[1..]
    else [s[0]] + RemoveFirst(s[1..], x)
  }

  /** Removing an occurrence deletes exactly one copy of it. */
  lemma {:induction false} RemoveFirstMultiset(s: seq<int>, x: int)
    requires x in s
    ensures multiset(RemoveFirst(s, x)) == multiset(s) - multiset{x}
  {
    assert s == [s[0]] + s[1..];
    if s[0] != x {
      RemoveFirstMultiset(s[1..], x);
    }
  }

  /** At the first occurrence, removal is a plain slice. */
  lemma {:induction false} RemoveFirstAt(s: seq<int>, x: int, i: int)
    requires 0 <= i < |s| && s[i] == x && forall j :: 0 <= j < i ==> s[j] != x
    ensures RemoveFirst(s, x) == s[..i] + s[i + 1..]
  {
    if i > 0 {
      RemoveFirstAt(s[1..], x, i - 1);
      assert s[..i] == [s[0]] + s[1..][..i - 1];
    }
  }

  /** Removing the edge just added restores the list: add_edge and remove_edge are inverse. */
  lemma AddThenRemove(s: seq<int>, dest: int)
    ensures RemoveFirst([dest] + s, dest) == s
  {
  }

  /** Every target in the lists is below the vertex count: add_edge rejects larger ones. */
  ghost predicate Below(adj: seq<seq<int>>)
  {
    forall u, k :: 0 <= u < |adj| && 0 <= k < |adj[u]| ==> adj[u][k] < |adj|
  }

  /** Every target in the lists names a vertex, as the traversals need to index `visited`. */
  ghost predicate Targets(adj: seq<seq<int>>)
  {
    forall u, k :: 0 <= u < |adj| && 0 <= k < |adj[u]| ==> 0 <= adj[u][k] < |adj|
  }

  /** There is an edge u -> v: v is in u's list. */
  ghost predicate Edge(adj: seq<seq<int>>, u: int, v: int)
  {
    0 <= u < |adj| && v in adj[u]
  }

  /** p is a walk along edges. */
  ghost predicate Walk(adj: seq<seq<int>>, p: seq<int>)
  {
    forall i :: 0 <= i < |p| - 1 ==> Edge(adj, p[i], p[i + 1])
  }

  /** b can be reached from a by following edges. */
  ghost predicate Reachable(adj: seq<seq<int>>, a: int, b: int)
  {
    exists p :: |p| > 0 && p[0] == a && p[|p| - 1] == b && Walk(adj, p)
  }

  lemma ReachableSelf(adj: seq<seq<int>>, a: int)
    ensures Reachable(adj, a, a)
  {
    assert Walk(adj, [a]);
  }

  /** A vertex reachable from a, followed by one more edge, is reachable from a. */
  lemma ReachableStep(adj: seq<seq<int>>, a: int, u: int, v: int)
    requires Reachable(adj, a, u) && Edge(adj, u, v)
    ensures Reachable(adj, a, v)
  {
    var p :| |p| > 0 && p[0] == a && p[|p| - 1] == u && Walk(adj, p);
    var q := p + [v];
    forall i | 0 <= i < |q| - 1 ensures Edge(adj, q[i], q[i + 1]) {
      if i < |p| - 1 {
        assert q[i] == p[i] && q[i + 1] == p[i + 1];
      }
    }
    assert q[0] == a && q[|q| - 1] == v;
  }

  /** p is a walk of exactly len edges from a to b. */
  ghost predicate WalkOf(adj: seq<seq<int>>, p: seq<int>, a: int, b: int, len: nat)
  {
    |p| == len + 1 && p[0] == a && p[len] == b && Walk(adj, p)
  }

  /** Some walk of exactly len edges leads from a to b. */
  ghost predicate WalkLength(adj: seq<seq<int>>, a: int, b: int, len: nat)
  {
    exists p :: WalkOf(adj, p, a, b, len)
  }

  /** A reachable vertex has a shortest walk: counting up from 0 finds its length. */
  lemma LeastWalk(adj: seq<seq<int>>, a: int, b: int) returns (len: nat)
    requires Reachable(adj, a, b)
    ensures WalkLength(adj, a, b, len) && forall k :: 0 <= k < len ==> !WalkLength(adj, a, b, k)
  {
    var p :| |p| > 0 && p[0] == a && p[|p| - 1] == b && Walk(adj, p);
    assert WalkOf(adj, p, a, b, |p| - 1);
    len := 0;
    while !WalkLength(adj, a, b, len)
      invariant len <= |p| - 1
      invariant forall k :: 0 <= k < len ==> !WalkLength(adj, a, b, k)
      decreases |p| - 1 - len
    {
      len := len + 1;
    }
  }

  lemma LeastWalkExists(adj: seq<seq<int>>, a: int, b: int)
    requires Reachable(adj, a, b)
    ensures exists len: nat :: WalkLength(adj, a, b, len) && forall k :: 0 <= k < len ==> !WalkLength(adj, a, b, k)
  {
    var len := LeastWalk(adj, a, b);
  }

  /** The distance from a to b: the number of edges of a shortest walk. */
  ghost function Dist(adj: seq<seq<int>>, a: int, b: int): (d: nat)
    requires Reachable(adj, a, b)
    ensures WalkLength(adj, a, b, d) && forall k :: 0 <= k < d ==> !WalkLength(adj, a, b, k)
  {
    LeastWalkExists(adj, a, b);
    var len: nat :| WalkLength(adj, a, b, len) && forall k :: 0 <= k < len ==> !WalkLength(adj, a, b, k);
    len
  }

  /** A vertex is at distance 0 from itself. */
  lemma DistSelf(adj: seq<seq<int>>, a: int)
    ensures Reachable(adj, a, a) && Dist(adj, a, a) == 0
  {
    ReachableSelf(adj, a);
    assert WalkOf(adj, [a], a, a, 0);
    assert WalkLength(adj, a, a, 0);
  }

  /** One more edge adds at most one to the distance. */
  lemma DistEdge(adj: seq<seq<int>>, a: int, u: int, v: int)
    requires Reachable(adj, a, u) && Edge(adj, u, v)
    ensures Reachable(adj, a, v) && Dist(adj, a, v) <= Dist(adj, a, u) + 1
  {
    ReachableStep(adj, a, u, v);
    var d := Dist(adj, a, u);
    var p :| WalkOf(adj, p, a, u, d);
    var q := p + [v];
    forall i | 0 <= i < |q| - 1 ensures Edge(adj, q[i], q[i + 1]) {
      if i < |p| - 1 {
        assert q[i] == p[i] && q[i + 1] == p[i + 1];
      }
    }
    assert WalkOf(adj, q, a, v, d + 1);
    assert WalkLength(adj, a, v, d + 1);
  }

  /** A vertex other than a has a predecessor one edge closer to a. */
  lemma DistPred(adj: seq<seq<int>>, a: int, v: int) returns (u: int)
    requires Reachable(adj, a, v) && v != a
    ensures Reachable(adj, a, u) && Edge(adj, u, v) && Dist(adj, a, u) + 1 == Dist(adj, a, v)
  {
    var d := Dist(adj, a, v);
    var p :| WalkOf(adj, p, a, v, d);
    assert d > 0;
    u := p[d - 1];
    var q := p[..d];
    assert Walk(adj, q) by {
      forall i | 0 <= i < |q| - 1 ensures Edge(adj, q[i], q[i + 1]) {
        assert q[i] == p[i] && q[i + 1] == p[i + 1];
      }
    }
    assert WalkOf(adj, q, a, u, d - 1);
    assert WalkLength(adj, a, u, d - 1);
    assert |q| > 0 && q[0] == a && q[|q| - 1] == u;
    assert Edge(adj, p[d - 1], p[d]);
    DistEdge(adj, a, u, v);
  }

  /** A set that holds a and is closed under edges holds everything reachable from a. */
  lemma ClosedHoldsReachable(adj: seq<seq<int>>, s: set<int>, a: int, b: int)
    requires a in s && Reachable(adj, a, b)
    requires forall u, v :: u in s && Edge(adj, u, v) ==> v in s
    ensures b in s
  {
    var p :| |p| > 0 && p[0] == a && p[|p| - 1] == b && Walk(adj, p);
    var i := 0;
    while i < |p| - 1
      invariant 0 <= i < |p| && p[i] in s
    {
      assert Edge(adj, p[i], p[i + 1]);
      i := i + 1;
    }
  }

  /** No vertex is listed twice. */
  ghost predicate Distinct(s: seq<int>)
  {
    forall i, j :: 0 <= i < j < |s| ==> s[i] != s[j]
  }

  /** The vertices not yet marked. */
  ghost function Unvisited(visited: seq<bool>): set<int>
  {
    set i | 0 <= i < |visited| && !visited[i]
  }

  class Graph {
    var numNodes: nat
    /** adjList[u]: the targets of u's edges, most recently added first. */
    var adjList: array<seq<int>>

    ghost predicate Valid()
      reads this, adjList
    {
      adjList.Length == numNodes && Below(adjList[..])
    }

    /** Valid, and every target names a vertex, so the traversals can mark it. */
    ghost predicate Traversable()
      reads this, adjList
    {
      Valid() && Targets(adjList[..])
    }

    /** create_graph: `num_nodes` empty lists. */
    constructor (numNodes: nat)
      ensures Traversable() && fresh(adjList) && this.numNodes == numNodes
      ensures forall u :: 0 <= u < numNodes ==> adjList[u] == []
    {
      this.numNodes := numNodes;
      adjList := new seq<int>[numNodes](_ => []);
    }

    /**
     * add_edge: an out-of-range vertex is rejected; otherwise dest is
     * prepended to src's list and the list is scanned for dest. The scan
     * starts at the node just inserted, so it always reports
     * GRAPH_ERR_EDGE_EXISTS, and the edge stays added. Only the upper bound
     * is checked, so a negative dest is stored too; a negative src would
     * index outside the array and is excluded.
     */
    method AddEdge(src: int, dest: int) returns (err: GraphError)
      requires Valid() && 0 <= src
      modifies adjList
      ensures Valid()
      ensures src >= numNodes || dest >= numNodes ==> err == GraphErrInvalidNode && adjList[..] == old(adjList[..])
      ensures src < numNodes && dest < numNodes ==>
        err == GraphErrEdgeExists && adjList[..] == old(adjList[..])[src := [dest] + old(adjList[src])]
      ensures 0 <= dest && old(Targets(adjList[..])) ==> Targets(adjList[..])
    {
      if src >= numNodes || dest >= numNodes {
        return GraphErrInvalidNode;
      }
      adjList[src] := [dest] + adjList[src];
      var j := FindNode(adjList[src], dest);
      err := if j < |adjList[src]| then GraphErrEdgeExists else GraphSuccess;
    }

    /**
     * The list walk shared by add_edge and remove_edge: the position of the
     * first node holding `dest`, or the list length when there is none.
     */
    static method FindNode(list: seq<int>, dest: int) returns (j: int)
      ensures 0 <= j <= |list|
      ensures j < |list| <==> dest in list
      ensures j < |list| ==> list[j] == dest
      ensures forall k :: 0 <= k < j ==> list[k] != dest
    {
      j := 0;
      while j < |list| && list[j] != dest
        invariant 0 <= j <= |list|
        invariant forall k :: 0 <= k < j ==> list[k] != dest
      {
        j := j + 1;
      }
    }

    /**
     * remove_edge: an out-of-range vertex is rejected; otherwise the first
     * node holding dest in src's list is unlinked, or
     * GRAPH_ERR_EDGE_NOT_FOUND is returned with nothing changed. A negative
     * dest is looked for like any other; a negative src is excluded.
     */
    method RemoveEdge(src: int, dest: int) returns (err: GraphError)
      requires Valid() && 0 <= src
      modifies adjList
      ensures Valid()
      ensures err == (if src >= numNodes || dest >= numNodes then GraphErrInvalidNode
                      else if dest in old(adjList[src]) then GraphSuccess
                      else GraphErrEdgeNotFound)
      ensures err != GraphSuccess ==> adjList[..] == old(adjList[..])
      ensures err == GraphSuccess ==> adjList[..] == old(adjList[..])[src := RemoveFirst(old(adjList[src]), dest)]
    {
      if src >= numNodes || dest >= numNodes {
        return GraphErrInvalidNode;
      }
      var list := adjList[src];
      var j := FindNode(list, dest);
      if j == |list| {
        return GraphErrEdgeNotFound;
      }
      RemoveFirstAt(list, dest, j);
      adjList[src] := list[..j] + list[j + 1..];
      err := GraphSuccess;
    }

    /**
     * dfs: with every vertex unmarked, the recursive helper prints `start`
     * first and then each vertex reachable from it exactly once.
     */
    method Dfs(start: int) returns (order: seq<int>)
      requires Traversable() && 0 <= start < numNodes
      ensures |order| > 0 && order[0] == start && Distinct(order)
      ensures forall v :: v in order <==> Reachable(adjList[..], start, v)
    {
      var visited := new bool[numNodes](_ => false);
      order := DfsHelper(start, visited);
      forall v | Reachable(adjList[..], start, v) ensures v in order {
        ClosedHoldsReachable(adjList[..], (set u | u in order), start, v);
      }
    }

    /**
     * dfs_helper: marks and prints `start`, then recurses into each
     * unmarked target of its list, head first. The vertices it prints are
     * the ones it marks; each is reachable from `start`, and when it
     * returns each of them has all its targets marked.
     */
    method DfsHelper(start: int, visited: array<bool>) returns (order: seq<int>)
      requires Traversable() && visited.Length == numNodes && 0 <= start < numNodes && !visited[start]
      modifies visited
      ensures |order| > 0 && order[0] == start && Distinct(order)
      ensures forall v :: 0 <= v < numNodes ==> (visited[v] <==> old(visited[v]) || v in order)
      ensures forall v :: v in order ==> 0 <= v < numNodes && !old(visited[v]) && Reachable(adjList[..], start, v)
      ensures forall u, v :: u in order && Edge(adjList[..], u, v) ==> 0 <= v < numNodes && visited[v]
      decreases Unvisited(visited[..]), 0
    {
      ghost var adj := adjList[..];
      ghost var entry := Unvisited(visited[..]);
      visited[start] := true;
      assert Unvisited(visited[..]) == entry - {start};
      ReachableSelf(adj, start);
      order := [start];
      var list := adjList[start];
      var k := 0;
      while k < |list|
        invariant 0 <= k <= |list|
        invariant |order| > 0 && order[0] == start && Distinct(order)
        invariant forall v :: 0 <= v < numNodes ==> (visited[v] <==> old(visited[v]) || v in order)
        invariant forall v :: v in order ==> 0 <= v < numNodes && !old(visited[v]) && Reachable(adj, start, v)
        invariant forall u, v :: u in order[1..] && Edge(adj, u, v) ==> visited[v]
        invariant forall j :: 0 <= j < k ==> visited[list[j]]
        invariant Unvisited(visited[..]) < entry
      {
        assert Edge(adj, start, list[k]);
        order := DfsTarget(start, list[k], visited, order, old(visited[..]));
        k := k + 1;
      }
      assert forall v :: Edge(adj, start, v) ==> v in list;
      assert forall u :: u in order ==> u == start || u in order[1..];
    }

    /**
     * One turn of the loop in dfs_helper: target `w` of `start`, when still
     * unmarked, is searched from and what it prints is appended. Marks are
     * only added, `w` ends marked, and the loop's facts about the printed
     * vertices carry over.
     */
    method DfsTarget(start: int, w: int, visited: array<bool>, order: seq<int>, ghost initial: seq<bool>)
      returns (order': seq<int>)
      requires Traversable() && visited.Length == numNodes == |initial| && 0 <= start < numNodes
      requires Edge(adjList[..], start, w)
      requires |order| > 0 && order[0] == start && Distinct(order)
      requires forall v :: 0 <= v < numNodes ==> (visited[v] <==> initial[v] || v in order)
      requires forall v :: v in order ==> 0 <= v < numNodes && !initial[v] && Reachable(adjList[..], start, v)
      requires forall u, v :: u in order[1..] && Edge(adjList[..], u, v) ==> visited[v]
      modifies visited
      ensures |order'| > 0 && order'[0] == start && Distinct(order')
      ensures forall v :: 0 <= v < numNodes ==> (visited[v] <==> initial[v] || v in order')
      ensures forall v :: v in order' ==> 0 <= v < numNodes && !initial[v] && Reachable(adjList[..], start, v)
      ensures forall u, v :: u in order'[1..] && Edge(adjList[..], u, v) ==> visited[v]
      ensures 0 <= w < numNodes && visited[w]
      ensures forall v :: 0 <= v < numNodes && old(visited[v]) ==> visited[v]
      ensures Unvisited(visited[..]) <= old(Unvisited(visited[..]))
      decreases Unvisited(visited[..]), 1
    {
      ghost var adj := adjList[..];
      order' := order;
      if !visited[w] {
        ReachableStep(adj, start, start, w);
        ghost var before := visited[..];
        var sub := DfsHelper(w, visited);
        forall v | v in sub ensures Reachable(adj, start, v) {
          ReachableTrans(adj, start, w, v);
        }
        assert forall v :: v in sub ==> !before[v];
        DistinctConcat(order, sub);
        order' := order + sub;
        assert Unvisited(visited[..]) <= Unvisited(before);
      }
    }

    /**
     * bfs: `start` is marked and printed, then a linked queue is drained;
     * each unmarked target of the front vertex's list is marked, printed
     * and appended. Every vertex reachable from `start` is printed exactly
     * once, and no other, in order of non-decreasing distance from `start`.
     */
    method Bfs(start: int) returns (order: seq<int>)
      requires Traversable() && 0 <= start < numNodes
      ensures |order| > 0 && order[0] == start && Distinct(order)
      ensures forall v :: v in order <==> Reachable(adjList[..], start, v)
      ensures forall k :: 0 <= k < |order| ==> Reachable(adjList[..], start, order[k])
      ensures forall x, y :: 0 <= x < y < |order| ==> Dist(adjList[..], start, order[x]) <= Dist(adjList[..], start, order[y])
    {
      ghost var adj := adjList[..];
      var visited := new bool[numNodes](_ => false);
      visited[start] := true;
      ReachableSelf(adj, start);
      order := [start];
      var queue := [start];
      ghost var head := 0;
      DistSelf(adj, start);
      while queue != []
        invariant BfsState(adj, start, order, head, visited[..]) && queue == order[head..] && |order| <= numNodes
        decreases numNodes - head
      {
        order, queue := BfsTurn(start, visited, order, queue, head);
        head := head + 1;
      }
      BfsDone(adj, start, order);
    }

    /**
     * One turn of the outer loop of bfs: the front vertex's unmarked targets
     * are marked, printed and enqueued, and the front vertex leaves the
     * queue. The printed vertices stay distinct, reachable and in order of
     * distance.
     */
    method BfsTurn(start: int, visited: array<bool>, order: seq<int>, queue: seq<int>, ghost head: int)
      returns (order': seq<int>, queue': seq<int>)
      requires Traversable() && visited.Length == numNodes
      requires BfsState(adjList[..], start, order, head, visited[..]) && queue == order[head..] && queue != []
      modifies visited
      ensures BfsState(adjList[..], start, order', head + 1, visited[..]) && queue' == order'[head + 1..]
      ensures |order'| <= numNodes
    {
      ghost var adj := adjList[..];
      var current := queue[0];
      assert current == order[head] && current in order;
      var list := adjList[current];
      order', queue' := VisitTargets(list, visited, order, queue);
      QueueShift(order, order', head);
      BfsStep(adj, start, order, order', head, list);
      queue' := queue'[1..];
    }

    /**
     * The inner loop of bfs: walks `list` and marks, prints and enqueues
     * each target not yet marked. What is printed is appended to both the
     * printed order and the queue.
     */
    static method VisitTargets(list: seq<int>, visited: array<bool>, order: seq<int>, queue: seq<int>)
      returns (order2: seq<int>, queue2: seq<int>)
      requires forall j :: 0 <= j < |list| ==> 0 <= list[j] < visited.Length
      requires forall v :: 0 <= v < visited.Length ==> (visited[v] <==> v in order)
      requires Distinct(order)
      modifies visited
      ensures |order| <= |order2| && order2[..|order|] == order && queue2 == queue + order2[|order|..]
      ensures Distinct(order2)
      ensures forall v :: 0 <= v < visited.Length ==> (visited[v] <==> v in order2)
      ensures forall v :: v in order2[|order|..] ==> v in list
      ensures forall j :: 0 <= j < |list| ==> list[j] in order2
    {
      order2, queue2 := order, queue;
      var k := 0;
      while k < |list|
        invariant 0 <= k <= |list|
        invariant |order| <= |order2| && order2[..|order|] == order && queue2 == queue + order2[|order|..]
        invariant Distinct(order2)
        invariant forall v :: 0 <= v < visited.Length ==> (visited[v] <==> v in order2)
        invariant forall v :: v in order2[|order|..] ==> v in list
        invariant forall j :: 0 <= j < k ==> list[j] in order2
      {
        var w := list[k];
        if !visited[w] {
          visited[w] := true;
          queue2 := queue2 + [w];
          order2 := order2 + [w];
        }
        k := k + 1;
      }
    }
  }

  /**
   * What bfs keeps true: `order` is what it printed so far, distinct and
   * reachable from `start`, and the first `head` printed vertices (those
   * that left the queue) have all their targets printed.
   */
  ghost predicate BfsInv(adj: seq<seq<int>>, start: int, order: seq<int>, head: int)
  {
    && 0 <= head <= |order| && |order| > 0 && order[0] == start && Distinct(order)
    && (forall v :: v in order ==> 0 <= v < |adj| && Reachable(adj, start, v))
    && (forall u, v :: u in order[..head] && Edge(adj, u, v) ==> v in order)
  }

  /** What bfs keeps true of the printed vertices: BfsInv, and the distances along them levelled. */
  ghost predicate BfsOrder(adj: seq<seq<int>>, start: int, order: seq<int>, head: int)
  {
    && BfsInv(adj, start, order, head)
    && (forall k :: 0 <= k < |order| ==> Reachable(adj, start, order[k]))
    && Levelled(adj, start, order, head)
  }

  /** Everything bfs keeps true, with `visited` marking exactly the printed vertices. */
  ghost predicate BfsState(adj: seq<seq<int>>, start: int, order: seq<int>, head: int, visited: seq<bool>)
  {
    && BfsOrder(adj, start, order, head)
    && (forall v :: 0 <= v < |visited| ==> (visited[v] <==> v in order))
  }

  /**
   * One turn of bfs on the printed vertices: appending the front vertex's
   * unprinted targets and moving the head past it keeps BfsOrder, and the
   * printed vertices stay within the vertex count.
   */
  lemma BfsStep(adj: seq<seq<int>>, start: int, o1: seq<int>, o2: seq<int>, head: int, list: seq<int>)
    requires Targets(adj) && BfsOrder(adj, start, o1, head) && head < |o1|
    requires 0 <= o1[head] < |adj| && list == adj[o1[head]]
    requires |o1| <= |o2| && o2[..|o1|] == o1 && Distinct(o2)
    requires forall v :: v in o2[|o1|..] ==> v in list
    requires forall j :: 0 <= j < |list| ==> list[j] in o2
    ensures BfsOrder(adj, start, o2, head + 1) && |o2| <= |adj|
  {
    BfsRound(adj, start, o1, o2, head, list);
    BfsLevels(adj, start, o1, o2, head, list);
    DistinctBound(o2, |adj|);
  }

  /** One round of bfs: the front vertex's unprinted targets are appended, and it leaves the queue. */
  lemma BfsRound(adj: seq<seq<int>>, start: int, o1: seq<int>, o2: seq<int>, head: int, list: seq<int>)
    requires Targets(adj) && BfsInv(adj, start, o1, head) && head < |o1|
    requires 0 <= o1[head] < |adj| && list == adj[o1[head]]
    requires |o1| <= |o2| && o2[..|o1|] == o1 && Distinct(o2)
    requires forall v :: v in o2[|o1|..] ==> v in list
    requires forall j :: 0 <= j < |list| ==> list[j] in o2
    ensures BfsInv(adj, start, o2, head + 1)
    ensures o2[head..][1..] == o2[head + 1..]
  {
    var current := o1[head];
    assert current in o1;
    assert o2 == o1 + o2[|o1|..];
    forall v | v in o2 ensures 0 <= v < |adj| && Reachable(adj, start, v) {
      if v !in o1 {
        assert v in o2[|o1|..];
        assert v in list;
        ReachableStep(adj, start, current, v);
      }
    }
    forall u, v | u in o2[..head + 1] && Edge(adj, u, v) ensures v in o2 {
      assert o2[..head + 1] == o1[..head] + [current];
      if u != current {
        assert u in o1[..head];
      } else {
        var j :| 0 <= j < |list| && list[j] == v;
      }
    }
  }

  /**
   * Distances from `start` never decrease along the printed vertices, and
   * those still queued, from `head` on, span at most one level.
   */
  ghost predicate Levelled(adj: seq<seq<int>>, start: int, order: seq<int>, head: int)
    requires forall k :: 0 <= k < |order| ==> Reachable(adj, start, order[k])
  {
    && (forall x, y :: 0 <= x < y < |order| ==> Dist(adj, start, order[x]) <= Dist(adj, start, order[y]))
    && (0 <= head < |order| ==> Dist(adj, start, order[|order| - 1]) <= Dist(adj, start, order[head]) + 1)
  }

  /** Every vertex no farther from `start` than the front of the queue has been printed. */
  lemma {:induction false} LevelComplete(adj: seq<seq<int>>, start: int, order: seq<int>, head: int, v: int)
    requires BfsInv(adj, start, order, head) && head < |order|
    requires forall k :: 0 <= k < |order| ==> Reachable(adj, start, order[k])
    requires Levelled(adj, start, order, head)
    requires Reachable(adj, start, v) && Dist(adj, start, v) <= Dist(adj, start, order[head])
    ensures v in order
    decreases Dist(adj, start, v)
  {
    if v == start {
      assert order[0] == start;
    } else {
      var u := DistPred(adj, start, v);
      LevelComplete(adj, start, order, head, u);
      var x :| 0 <= x < |order| && order[x] == u;
      assert x < head;
      assert order[..head][x] == u;
    }
  }

  /**
   * One round of bfs keeps the levels: each vertex it appends is a target of
   * the front vertex that was not yet printed, so it lies exactly one level
   * below the front vertex.
   */
  lemma BfsLevels(adj: seq<seq<int>>, start: int, o1: seq<int>, o2: seq<int>, head: int, list: seq<int>)
    requires BfsInv(adj, start, o1, head) && head < |o1|
    requires forall k :: 0 <= k < |o1| ==> Reachable(adj, start, o1[k])
    requires Levelled(adj, start, o1, head)
    requires 0 <= o1[head] < |adj| && list == adj[o1[head]]
    requires |o1| <= |o2| && o2[..|o1|] == o1 && Distinct(o2)
    requires forall v :: v in o2[|o1|..] ==> v in list
    ensures forall k :: 0 <= k < |o2| ==> Reachable(adj, start, o2[k])
    ensures Levelled(adj, start, o2, head + 1)
  {
    var c := o1[head];
    var dc := Dist(adj, start, c);
    forall y | |o1| <= y < |o2|
      ensures Reachable(adj, start, o2[y]) && Dist(adj, start, o2[y]) == dc + 1
    {
      var w := o2[y];
      assert o2[|o1|..][y - |o1|] == w;
      assert Edge(adj, c, w);
      DistEdge(adj, start, c, w);
      assert w !in o1 by {
        forall x | 0 <= x < |o1| ensures o1[x] != w {
          assert o2[x] == o1[x];
        }
      }
      if Dist(adj, start, w) <= dc {
        LevelComplete(adj, start, o1, head, w);
        assert false;
      }
    }
    forall k | 0 <= k < |o1| ensures o2[k] == o1[k] {
      assert o2[..|o1|][k] == o1[k];
    }
    forall x, y | 0 <= x < y < |o2|
      ensures Dist(adj, start, o2[x]) <= Dist(adj, start, o2[y])
    {
      if y >= |o1| && x < |o1| - 1 {
        assert Dist(adj, start, o1[x]) <= Dist(adj, start, o1[|o1| - 1]);
      }
    }
    if head + 1 < |o2| {
      assert o2[head] == c;
      assert Dist(adj, start, o2[head]) <= Dist(adj, start, o2[head + 1]);
    }
  }

  /**
   * When the queue is empty, every printed vertex has its targets printed,
   * so the printed vertices are exactly the reachable ones, in order of
   * distance.
   */
  lemma BfsDone(adj: seq<seq<int>>, start: int, order: seq<int>)
    requires BfsOrder(adj, start, order, |order|)
    ensures |order| > 0 && order[0] == start && Distinct(order)
    ensures forall v :: v in order <==> Reachable(adj, start, v)
    ensures forall k :: 0 <= k < |order| ==> Reachable(adj, start, order[k])
    ensures forall x, y :: 0 <= x < y < |order| ==> Dist(adj, start, order[x]) <= Dist(adj, start, order[y])
  {
    assert order[..|order|] == order;
    forall v | Reachable(adj, start, v) ensures v in order {
      ClosedHoldsReachable(adj, (set u | u in order), start, v);
    }
  }

  /** The queue, with the newly printed vertices appended and its front removed, is what follows the next head. */
  lemma QueueShift(o1: seq<int>, o2: seq<int>, head: int)
    requires 0 <= head < |o1| <= |o2| && o2[..|o1|] == o1
    ensures (o1[head..] + o2[|o1|..])[1..] == o2[head + 1..]
  {
    assert o2 == o1 + o2[|o1|..];
  }

  /** Joining two distinct lists with nothing in common gives a distinct list. */
  lemma DistinctConcat(a: seq<int>, b: seq<int>)
    requires Distinct(a) && Distinct(b) && forall v :: v in b ==> v !in a
    ensures Distinct(a + b)
    ensures forall v :: v in a + b <==> v in a || v in b
    ensures |a| > 0 ==> (a + b)[1..] == a[1..] + b
  {
    var c := a + b;
    forall i, j | 0 <= i < j < |c| ensures c[i] != c[j] {
      if i < |a| <= j {
        assert c[j] in b && c[i] in a;
      } else if |a| <= i {
        assert c[i] == b[i - |a|] && c[j] == b[j - |a|];
      }
    }
  }

  /** A list of distinct vertices below n has at most n entries. */
  lemma {:induction false} DistinctBound(s: seq<int>, n: int)
    requires n >= 0 && Distinct(s) && forall v :: v in s ==> 0 <= v < n
    ensures |s| <= n
    decreases n
  {
    if s != [] {
      assert s[0] in s;
      if n - 1 in s {
        var i :| 0 <= i < |s| && s[i] == n - 1;
        var t := s[..i] + s[i + 1..];
        forall a, b | 0 <= a < b < |t| ensures t[a] != t[b] {
          var a', b' := if a < i then a else a + 1, if b < i then b else b + 1;
          assert t[a] == s[a'] && t[b] == s[b'];
        }
        forall v | v in t ensures 0 <= v < n - 1 {
          var k :| 0 <= k < |t| && t[k] == v;
          var k' := if k < i then k else k + 1;
          assert s[k'] == v && k' != i && s[k'] in s;
          assert v != n - 1 by {
            if k' < i { assert s[k'] != s[i]; } else { assert s[i] != s[k']; }
          }
        }
        DistinctBound(t, n - 1);
      } else {
        DistinctBound(s, n - 1);
      }
    }
  }

  /** Reachability is transitive. */
  lemma ReachableTrans(adj: seq<seq<int>>, a: int, b: int, c: int)
    requires Reachable(adj, a, b) && Reachable(adj, b, c)
    ensures Reachable(adj, a, c)
  {
    var p :| |p| > 0 && p[0] == a && p[|p| - 1] == b && Walk(adj, p);
    var q :| |q| > 0 && q[0] == b && q[|q| - 1] == c && Walk(adj, q);
    var r := p + q[1..];
    assert r[0] == a && r[|r| - 1] == c;
    forall i | 0 <= i < |r| - 1 ensures Edge(adj, r[i], r[i + 1]) {
      if i < |p| - 1 {
        assert r[i] == p[i] && r[i + 1] == p[i + 1];
      } else {
        assert r[i] == q[i - |p| + 1] && r[i + 1] == q[i - |p| + 2];
      }
    }
  }
}
