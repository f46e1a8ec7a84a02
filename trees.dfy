/**
 * Binary trees of int values as values: the node structs of asd_lab_7.c,
 * asd_lab_7_task.c and binary_tree.c (value, left, right) with NULL as
 * Leaf. The traversals, counts and the array-queue breadth-first walk
 * that those files share are defined here once.
 */
module Trees {

  datatype Tree = Leaf | Node(left: Tree, value: int, right: Tree)

  /** The values stored in a tree, with their multiplicities. */
  function Elements(t: Tree): multiset<int>
  {
    if t.Leaf? then multiset{} else Elements(t.left) + multiset{t.value} + Elements(t.right)
  }

  /** Left subtree, node, right subtree. */
  function InOrder(t: Tree): seq<int>
  {
    if t.Leaf? then [] else InOrder(t.left) + [t.value] + InOrder(t.right)
  }

  /** Node, left subtree, right subtree. */
  function PreOrder(t: Tree): seq<int>
  {
    if t.Leaf? then [] else [t.value] + PreOrder(t.left) + PreOrder(t.right)
  }

  /** The in-order walk lists every stored value once. */
  lemma {:induction false} InOrderElements(t: Tree)
    ensures multiset(InOrder(t)) == Elements(t)
  {
    if t.Node? {
      InOrderElements(t.left);
      InOrderElements(t.right);
    }
  }

  /** The preorder walk lists every stored value once, the root first. */
  lemma {:induction false} PreOrderElements(t: Tree)
    ensures multiset(PreOrder(t)) == Elements(t)
    ensures t.Node? ==> |PreOrder(t)| > 0 && PreOrder(t)[0] == t.value
  {
    if t.Node? {
      PreOrderElements(t.left);
      PreOrderElements(t.right);
    }
  }

  /** countNodes / treeNodeCount: 0 for NULL, otherwise 1 + the counts of the two subtrees. */
  function Count(t: Tree): nat
  {
    if t.Leaf? then 0 else 1 + Count(t.left) + Count(t.right)
  }

  /** The count is the number of stored values, with multiplicity. */
  lemma {:induction false} CountIsSize(t: Tree)
    ensures Count(t) == |Elements(t)| == |InOrder(t)|
  {
    InOrderElements(t);
    if t.Node? {
      CountIsSize(t.left);
      CountIsSize(t.right);
    }
  }

  /** treeHeight: 0 for NULL, otherwise 1 + the larger height of the two subtrees. */
  function Height(t: Tree): nat
  {
    if t.Leaf? then 0
    else
      var l := Height(t.left);
      var r := Height(t.right);
      (if l > r then l else r) + 1
  }

  function Pow2(n: nat): (p: nat)
    ensures p >= 1
  {
    if n == 0 then 1 else 2 * Pow2(n - 1)
  }

  /** A tree of height h has at least h nodes. */
  lemma {:induction false} HeightAtMostCount(t: Tree)
    ensures Height(t) <= Count(t)
  {
    if t.Node? {
      HeightAtMostCount(t.left);
      HeightAtMostCount(t.right);
    }
  }

  /** A tree of height h has at most 2^h - 1 nodes. */
  lemma {:induction false} CountBelowPow2(t: Tree)
    ensures Count(t) < Pow2(Height(t))
  {
    if t.Node? {
      CountBelowPow2(t.left);
      CountBelowPow2(t.right);
      var hl, hr := Height(t.left), Height(t.right);
      var h := Height(t);
      assert h == if hl > hr then hl + 1 else hr + 1;
      PowMonotone(hl, h - 1);
      PowMonotone(hr, h - 1);
      Pow2Step(h);
      var half := Pow2(h - 1);
      assert Count(t.left) < half && Count(t.right) < half;
      assert Count(t) == 1 + Count(t.left) + Count(t.right);
      assert Pow2(Height(t)) == 2 * half;
    }
  }

  lemma Pow2Step(n: nat)
    requires n > 0
    ensures Pow2(n) == 2 * Pow2(n - 1)
  {
  }

  lemma {:induction false} PowMonotone(a: nat, b: nat)
    requires a <= b
    ensures Pow2(a) <= Pow2(b)
  {
    if a < b {
      PowMonotone(a, b - 1);
    }
  }

  /** Every left value is smaller than the node and every right value larger, at every node. */
  ghost predicate StrictOrdered(t: Tree)
  {
    t.Node? ==>
      && (forall x :: x in Elements(t.left) ==> x < t.value)
      && (forall x :: x in Elements(t.right) ==> x > t.value)
      && StrictOrdered(t.left) && StrictOrdered(t.right)
  }

  /** The order binary_tree.c keeps: smaller values on the left, values not smaller (duplicates too) on the right. */
  ghost predicate LooseOrdered(t: Tree)
  {
    t.Node? ==>
      && (forall x :: x in Elements(t.left) ==> x < t.value)
      && (forall x :: x in Elements(t.right) ==> x >= t.value)
      && LooseOrdered(t.left) && LooseOrdered(t.right)
  }

  ghost predicate Increasing(s: seq<int>)
  {
    forall i, j :: 0 <= i < j < |s| ==> s[i] < s[j]
  }

  ghost predicate NonDecreasing(s: seq<int>)
  {
    forall i, j :: 0 <= i < j < |s| ==> s[i] <= s[j]
  }

  lemma IncreasingAround(l: seq<int>, v: int, r: seq<int>)
    requires Increasing(l) && Increasing(r)
    requires forall i :: 0 <= i < |l| ==> l[i] < v
    requires forall i :: 0 <= i < |r| ==> r[i] > v
    ensures Increasing(l + [v] + r)
  {
    var s := l + [v] + r;
    forall i, j | 0 <= i < j < |s| ensures s[i] < s[j] {
      if j < |l| {
        assert s[i] == l[i] && s[j] == l[j];
      } else if i > |l| {
        assert s[i] == r[i - |l| - 1] && s[j] == r[j - |l| - 1];
      } else if i == |l| {
        assert s[j] == r[j - |l| - 1];
      } else if j == |l| {
        assert s[i] == l[i];
      } else {
        assert s[i] == l[i] && s[j] == r[j - |l| - 1];
      }
    }
  }

  lemma NonDecreasingAround(l: seq<int>, v: int, r: seq<int>)
    requires NonDecreasing(l) && NonDecreasing(r)
    requires forall i :: 0 <= i < |l| ==> l[i] < v
    requires forall i :: 0 <= i < |r| ==> r[i] >= v
    ensures NonDecreasing(l + [v] + r)
  {
    var s := l + [v] + r;
    forall i, j | 0 <= i < j < |s| ensures s[i] <= s[j] {
      if j < |l| {
        assert s[i] == l[i] && s[j] == l[j];
      } else if i > |l| {
        assert s[i] == r[i - |l| - 1] && s[j] == r[j - |l| - 1];
      } else if i == |l| {
        assert s[j] == r[j - |l| - 1];
      } else if j == |l| {
        assert s[i] == l[i];
      } else {
        assert s[i] == l[i] && s[j] == r[j - |l| - 1];
      }
    }
  }

  /** A strictly ordered tree lists its values in increasing order. */
  lemma {:induction false} StrictInOrderIncreasing(t: Tree)
    requires StrictOrdered(t)
    ensures Increasing(InOrder(t))
  {
    if t.Node? {
      StrictInOrderIncreasing(t.left);
      StrictInOrderIncreasing(t.right);
      InOrderElements(t.left);
      InOrderElements(t.right);
      var l, r := InOrder(t.left), InOrder(t.right);
      forall i | 0 <= i < |l| ensures l[i] < t.value {
        assert l[i] in multiset(l);
      }
      forall i | 0 <= i < |r| ensures r[i] > t.value {
        assert r[i] in multiset(r);
      }
      IncreasingAround(l, t.value, r);
    }
  }

  /** A loosely ordered tree lists its values in non-decreasing order. */
  lemma {:induction false} LooseInOrderNonDecreasing(t: Tree)
    requires LooseOrdered(t)
    ensures NonDecreasing(InOrder(t))
  {
    if t.Node? {
      LooseInOrderNonDecreasing(t.left);
      LooseInOrderNonDecreasing(t.right);
      InOrderElements(t.left);
      InOrderElements(t.right);
      var l, r := InOrder(t.left), InOrder(t.right);
      forall i | 0 <= i < |l| ensures l[i] < t.value {
        assert l[i] in multiset(l);
      }
      forall i | 0 <= i < |r| ensures r[i] >= t.value {
        assert r[i] in multiset(r);
      }
      NonDecreasingAround(l, t.value, r);
    }
  }

  // Breadth-first order.

  /** The subtrees a breadth walk puts in its queue after a node: the non-NULL children, left first. */
  function Kids(t: Tree): seq<Tree>
  {
    if t.Leaf? then []
    else (if t.left.Node? then [t.left] else []) + (if t.right.Node? then [t.right] else [])
  }

  function SumCounts(qs: seq<Tree>): nat
  {
    if qs == [] then 0 else Count(qs[0]) + SumCounts(qs[1..])
  }

  lemma {:induction false} SumCountsConcat(a: seq<Tree>, b: seq<Tree>)
    ensures SumCounts(a + b) == SumCounts(a) + SumCounts(b)
  {
    if a == [] {
      assert a + b == b;
    } else {
      assert (a + b)[0] == a[0] && (a + b)[1..] == a[1..] + b;
      SumCountsConcat(a[1..], b);
    }
  }

  lemma {:induction false} SumCountsAtLeast(qs: seq<Tree>)
    requires AllNodes(qs)
    ensures SumCounts(qs) >= |qs|
  {
    if qs != [] {
      assert AllNodes(qs[1..]) by {
        forall i | 0 <= i < |qs| - 1 ensures qs[1..][i].Node? {
          assert qs[1..][i] == qs[i + 1];
        }
      }
      SumCountsAtLeast(qs[1..]);
    }
  }

  lemma KidsCount(t: Tree)
    requires t.Node?
    ensures SumCounts(Kids(t)) == Count(t) - 1
  {
    var a := if t.left.Node? then [t.left] else [];
    var b := if t.right.Node? then [t.right] else [];
    SumCountsConcat(a, b);
  }

  /**
   * What a queue-driven walk emits for queue `qs`: take the front; a node
   * is emitted and its non-NULL children join the back of the queue.
   */
  function BfsFrom(qs: seq<Tree>): seq<int>
    decreases SumCounts(qs), |qs|
  {
    if qs == [] then []
    else if qs[0].Leaf? then BfsFrom(qs[1..])
    else
      SumCountsConcat(qs[1..], Kids(qs[0]));
      KidsCount(qs[0]);
      [qs[0].value] + BfsFrom(qs[1..] + Kids(qs[0]))
  }

  /** The values of the nodes of a row of subtrees, left to right. */
  function Roots(qs: seq<Tree>): seq<int>
  {
    if qs == [] then [] else (if qs[0].Node? then [qs[0].value] else []) + Roots(qs[1..])
  }

  /** The next row down: all non-NULL children of a row, left to right. */
  function AllKids(qs: seq<Tree>): seq<Tree>
  {
    if qs == [] then [] else Kids(qs[0]) + AllKids(qs[1..])
  }

  lemma {:induction false} AllKidsCount(qs: seq<Tree>)
    ensures SumCounts(AllKids(qs)) + |Roots(qs)| == SumCounts(qs)
  {
    if qs != [] {
      AllKidsCount(qs[1..]);
      SumCountsConcat(Kids(qs[0]), AllKids(qs[1..]));
      if qs[0].Node? {
        KidsCount(qs[0]);
      }
    }
  }

  /** Level order by definition: the row's node values, then the level order of the row below. */
  function LevelOrder(qs: seq<Tree>): seq<int>
    decreases SumCounts(qs)
  {
    if Roots(qs) == [] then []
    else
      AllKidsCount(qs);
      Roots(qs) + LevelOrder(AllKids(qs))
  }

  /** Draining a queue prefix `qs` emits its roots and leaves its children behind `us`. */
  lemma {:induction false} BfsDrain(qs: seq<Tree>, us: seq<Tree>)
    ensures BfsFrom(qs + us) == Roots(qs) + BfsFrom(us + AllKids(qs))
    decreases |qs|
  {
    if qs == [] {
      assert qs + us == us && us + AllKids(qs) == us;
    } else if qs[0].Leaf? {
      BfsDrain(qs[1..], us);
      DrainLeafStep(qs, us);
    } else {
      BfsDrain(qs[1..], us + Kids(qs[0]));
      DrainNodeStep(qs, us);
    }
  }

  lemma TailOfConcat<T>(a: seq<T>, b: seq<T>)
    requires a != []
    ensures (a + b)[0] == a[0] && (a + b)[1..] == a[1..] + b
  {
  }

  lemma ConcatAssoc<T>(a: seq<T>, b: seq<T>, c: seq<T>)
    ensures a + b + c == a + (b + c)
  {
  }

  lemma DrainLeafStep(qs: seq<Tree>, us: seq<Tree>)
    requires qs != [] && qs[0].Leaf?
    requires BfsFrom(qs[1..] + us) == Roots(qs[1..]) + BfsFrom(us + AllKids(qs[1..]))
    ensures BfsFrom(qs + us) == Roots(qs) + BfsFrom(us + AllKids(qs))
  {
    TailOfConcat(qs, us);
    assert Kids(qs[0]) == [];
    assert AllKids(qs) == AllKids(qs[1..]) && Roots(qs) == Roots(qs[1..]);
  }

  lemma DrainNodeStep(qs: seq<Tree>, us: seq<Tree>)
    requires qs != [] && qs[0].Node?
    requires BfsFrom(qs[1..] + (us + Kids(qs[0]))) == Roots(qs[1..]) + BfsFrom(us + Kids(qs[0]) + AllKids(qs[1..]))
    ensures BfsFrom(qs + us) == Roots(qs) + BfsFrom(us + AllKids(qs))
  {
    var q, rest, kids := qs[0], qs[1..], Kids(qs[0]);
    TailOfConcat(qs, us);
    BfsNodeStep(qs + us);
    ConcatAssoc(rest, us, kids);
    assert AllKids(qs) == kids + AllKids(rest);
    ConcatAssoc(us, kids, AllKids(rest));
    calc {
      BfsFrom(qs + us);
      [q.value] + BfsFrom(rest + (us + kids));
      [q.value] + (Roots(rest) + BfsFrom(us + AllKids(qs)));
      ([q.value] + Roots(rest)) + BfsFrom(us + AllKids(qs));
    }
  }

  lemma {:induction false} NoRootsNoKids(qs: seq<Tree>)
    requires Roots(qs) == []
    ensures AllKids(qs) == []
  {
    if qs != [] {
      NoRootsNoKids(qs[1..]);
    }
  }

  /** The queue-driven walk emits level order. */
  lemma {:induction false} BfsIsLevelOrder(qs: seq<Tree>)
    ensures BfsFrom(qs) == LevelOrder(qs)
    decreases SumCounts(qs)
  {
    BfsDrain(qs, []);
    assert qs + [] == qs && [] + AllKids(qs) == AllKids(qs);
    if Roots(qs) == [] {
      NoRootsNoKids(qs);
    } else {
      AllKidsCount(qs);
      BfsIsLevelOrder(AllKids(qs));
    }
  }

  function ElementsOf(qs: seq<Tree>): multiset<int>
  {
    if qs == [] then multiset{} else Elements(qs[0]) + ElementsOf(qs[1..])
  }

  lemma {:induction false} ElementsOfConcat(a: seq<Tree>, b: seq<Tree>)
    ensures ElementsOf(a + b) == ElementsOf(a) + ElementsOf(b)
  {
    if a == [] {
      assert a + b == b;
    } else {
      assert (a + b)[0] == a[0] && (a + b)[1..] == a[1..] + b;
      ElementsOfConcat(a[1..], b);
    }
  }

  lemma ElementsOfKids(q: Tree)
    requires q.Node?
    ensures ElementsOf(Kids(q)) == Elements(q.left) + Elements(q.right)
  {
    var a := if q.left.Node? then [q.left] else [];
    var b := if q.right.Node? then [q.right] else [];
    ElementsOfConcat(a, b);
    assert ElementsOf(a) == Elements(q.left) by {
      if q.left.Node? { assert ElementsOf(a) == Elements(q.left) + ElementsOf([]); }
    }
    assert ElementsOf(b) == Elements(q.right) by {
      if q.right.Node? { assert ElementsOf(b) == Elements(q.right) + ElementsOf([]); }
    }
  }

  /** One step of the walk at a node. */
  lemma BfsNodeStep(qs: seq<Tree>)
    requires qs != [] && qs[0].Node?
    ensures BfsFrom(qs) == [qs[0].value] + BfsFrom(qs[1..] + Kids(qs[0]))
  {
  }

  /** The walk emits every value of the queued subtrees once, and nothing else. */
  lemma {:induction false} BfsElements(qs: seq<Tree>)
    ensures multiset(BfsFrom(qs)) == ElementsOf(qs)
    decreases SumCounts(qs), |qs|
  {
    if qs != [] {
      var q := qs[0];
      if q.Leaf? {
        BfsElements(qs[1..]);
      } else {
        SumCountsConcat(qs[1..], Kids(q));
        KidsCount(q);
        BfsNodeStep(qs);
        BfsElements(qs[1..] + Kids(q));
        ElementsOfConcat(qs[1..], Kids(q));
        ElementsOfKids(q);
      }
    }
  }

  /** Breadth-first order of one tree: a permutation of its values that starts at the root and is its level order. */
  lemma BreadthOrder(t: Tree)
    ensures multiset(BfsFrom([t])) == Elements(t)
    ensures BfsFrom([t]) == LevelOrder([t])
    ensures t.Node? ==> BfsFrom([t])[0] == t.value
  {
    BfsElements([t]);
    BfsIsLevelOrder([t]);
    assert ElementsOf([t]) == Elements(t) + ElementsOf([]);
  }

  /**
   * The breadth walk of asd_lab_7_task.c and binary_tree.c: an array of
   * `capacity` subtree pointers with `front` and `rear` indices; the
   * caller must keep the node count within the array.
   */
  method BreadthFirst(root: Tree, capacity: nat) returns (out: seq<int>)
    requires Count(root) <= capacity
    ensures out == BfsFrom([root])
  {
    if root.Leaf? {
      return [];
    }
    var queue := new Tree[capacity](_ => Leaf);
    var front, rear := 0, 0;
    queue[rear] := root;
    rear := rear + 1;
    out := [];
    while front < rear
      invariant 0 <= front <= rear <= capacity
      invariant AllNodes(queue[front..rear])
      invariant rear + SumCounts(queue[front..rear]) - (rear - front) == Count(root)
      invariant out + BfsFrom(queue[front..rear]) == BfsFrom([root])
      decreases SumCounts(queue[front..rear]), rear - front
    {
      ghost var waiting := queue[front..rear];
      var node := queue[front];
      WalkStep(root, out, waiting, rear);
      front := front + 1;
      assert waiting[1..] == queue[front..rear];
      out := out + [node.value];
      rear := PushKids(queue, front, rear, node);
    }
  }

  /** Queueing the non-NULL children of a node at `rear`, left first. */
  method PushKids(queue: array<Tree>, front: nat, rear: nat, node: Tree) returns (newRear: nat)
    requires node.Node? && front <= rear && rear + |Kids(node)| <= queue.Length
    modifies queue
    ensures newRear == rear + |Kids(node)|
    ensures queue[front..newRear] == old(queue[front..rear]) + Kids(node)
  {
    ghost var rest := queue[front..rear];
    newRear := rear;
    if node.left.Node? {
      queue[newRear] := node.left;
      newRear := newRear + 1;
      assert queue[front..newRear] == rest + [node.left];
    }
    ghost var mid := queue[front..newRear];
    if node.right.Node? {
      queue[newRear] := node.right;
      newRear := newRear + 1;
      assert queue[front..newRear] == mid + [node.right];
    }
  }

  /** What taking the front node and queueing its children keeps of the walk's invariant. */
  lemma WalkStep(root: Tree, out: seq<int>, waiting: seq<Tree>, rear: int)
    requires waiting != [] && AllNodes(waiting)
    requires rear + SumCounts(waiting) - |waiting| == Count(root)
    requires out + BfsFrom(waiting) == BfsFrom([root])
    ensures waiting[0].Node?
    ensures AllNodes(waiting[1..] + Kids(waiting[0]))
    ensures rear + |Kids(waiting[0])| <= Count(root)
    ensures rear + |Kids(waiting[0])| + SumCounts(waiting[1..] + Kids(waiting[0])) - (|waiting| - 1 + |Kids(waiting[0])|) == Count(root)
    ensures SumCounts(waiting[1..] + Kids(waiting[0])) < SumCounts(waiting)
    ensures (out + [waiting[0].value]) + BfsFrom(waiting[1..] + Kids(waiting[0])) == BfsFrom([root])
  {
    var node, rest := waiting[0], waiting[1..];
    assert AllNodes(rest) by {
      forall i | 0 <= i < |rest| ensures rest[i].Node? {
        assert rest[i] == waiting[i + 1];
      }
    }
    KidsCount(node);
    SumCountsAtLeast(rest);
    SumCountsConcat(rest, Kids(node));
    BfsNodeStep(waiting);
    AllNodesConcat(rest, node);
    KidsBoundedByCount(node);
  }

  lemma KidsBoundedByCount(t: Tree)
    requires t.Node?
    ensures |Kids(t)| <= Count(t) - 1
  {
  }

  /** Every queued subtree is a node: the walk enqueues only non-NULL children. */
  ghost predicate AllNodes(qs: seq<Tree>)
  {
    forall i :: 0 <= i < |qs| ==> qs[i].Node?
  }

  lemma AllNodesConcat(rest: seq<Tree>, t: Tree)
    requires AllNodes(rest) && t.Node?
    ensures AllNodes(rest + Kids(t))
  {
  }

  // The place a pointer-to-pointer walk has reached: the path from the root.

  /** One step down: to the left child (keeping the node's value and right subtree) or to the right child. */
  datatype Frame = WentLeft(value: int, right: Tree) | WentRight(left: Tree, value: int)

  /** Put `t` back in the place `path` leads to: `*current = t` seen from the root. */
  function Plug(path: seq<Frame>, t: Tree): Tree
  {
    if path == [] then t
    else match path[0]
      case WentLeft(v, r) => Node(Plug(path[1..], t), v, r)
      case WentRight(l, v) => Node(l, v, Plug(path[1..], t))
  }

  /** Stepping one level further down. */
  lemma {:induction false} PlugStep(path: seq<Frame>, f: Frame, t: Tree)
    ensures Plug(path + [f], t) == Plug(path, Plug([f], t))
  {
    if path != [] {
      assert (path + [f])[0] == path[0] && (path + [f])[1..] == path[1..] + [f];
      PlugStep(path[1..], f, t);
    }
  }

  /** Two ascending sequences with the same members are equal. */
  lemma {:induction false} IncreasingUnique(s: seq<int>, t: seq<int>)
    requires Increasing(s) && Increasing(t)
    requires forall k :: k in s <==> k in t
    ensures s == t
    decreases |s|
  {
    assert s == [] <==> t == [] by {
      if s != [] {
        assert s[0] in s;
      }
      if t != [] {
        assert t[0] in t;
      }
    }
    if s != [] {
      assert s[0] in s && t[0] in t;
      HeadIsLeast(s, t[0]);
      HeadIsLeast(t, s[0]);
      forall k ensures k in s[1..] <==> k in t[1..] {
        TailMembers(s, k);
        TailMembers(t, k);
      }
      IncreasingUnique(s[1..], t[1..]);
    }
  }

  /** The first element of an ascending sequence is its least member. */
  lemma HeadIsLeast(s: seq<int>, k: int)
    requires Increasing(s) && k in s
    ensures s[0] <= k
  {
    var i :| 0 <= i < |s| && s[i] == k;
    assert i == 0 || s[0] < s[i];
  }

  /** The tail of an ascending sequence holds exactly its members after the first. */
  lemma TailMembers(s: seq<int>, k: int)
    requires Increasing(s) && s != []
    ensures k in s[1..] <==> k in s && k != s[0]
  {
    if k in s && k != s[0] {
      var i :| 0 <= i < |s| && s[i] == k;
      assert s[1..][i - 1] == k;
    }
    if k in s[1..] {
      var i :| 0 <= i < |s[1..]| && s[1..][i] == k;
      assert s[i + 1] == k && s[0] < s[i + 1];
    }
  }

  /** Replacing a part of a union by the part with one more copy of `d` adds that copy to the union. */
  lemma Regroup(part: multiset<int>, whole: multiset<int>, other: multiset<int>, v: int, d: int)
    requires part + multiset{d} == whole
    ensures part + multiset{v} + other + multiset{d} == whole + multiset{v} + other
    ensures other + multiset{v} + part + multiset{d} == other + multiset{v} + whole
  {
    assert forall x :: (part + multiset{v} + other + multiset{d})[x] == (whole + multiset{v} + other)[x];
    assert forall x :: (other + multiset{v} + part + multiset{d})[x] == (other + multiset{v} + whole)[x];
  }
}
