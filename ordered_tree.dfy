/**
 * The tasks of asd_lab_7_task.c on the search tree: building it from an
 * array, printing the first n values in order, the per-node subtree
 * counts, the depth-first (preorder) and the breadth-first walks. Its
 * treeInit, treeInsert and treeFree are the ones of asd_lab_7.c, modelled
 * in SearchTree. Printing is modelled as the sequence of values printed.
 */
module OrderedTree {
  import opened Trees
  import opened SearchTree

  /** The tree after inserting `values` one by one, first to last. */
  function InsertAll(t: Tree, values: seq<int>): Tree
  {
    if values == [] then t
    else Insert(InsertAll(t, values[..|values| - 1]), values[|values| - 1])
  }

  /** Building stores exactly the old values and the array's values. */
  lemma {:induction false} InsertAllMembers(t: Tree, values: seq<int>)
    ensures forall x :: x in Elements(InsertAll(t, values)) <==> x in Elements(t) || x in values
  {
    if values != [] {
      var init, last := values[..|values| - 1], values[|values| - 1];
      InsertAllMembers(t, init);
      InsertMembers(InsertAll(t, init), last);
      assert values == init + [last];
      assert forall x :: x in values <==> x in init || x == last;
    }
  }

  /** Building keeps the search-tree order, so each value is stored once. */
  lemma {:induction false} InsertAllOrdered(t: Tree, values: seq<int>)
    requires StrictOrdered(t)
    ensures StrictOrdered(InsertAll(t, values))
  {
    if values != [] {
      InsertAllOrdered(t, values[..|values| - 1]);
      InsertOrdered(InsertAll(t, values[..|values| - 1]), values[|values| - 1]);
    }
  }

  /** buildOrderedTree: treeInsert on every value; a duplicate's ERROR_DUPLICATE is ignored. */
  method BuildOrderedTree(tree: BinaryTree, values: seq<int>)
    requires tree.Valid()
    modifies tree
    ensures tree.Valid()
    ensures tree.root == InsertAll(old(tree.root), values)
  {
    var i := 0;
    while i < |values|
      invariant 0 <= i <= |values|
      invariant tree.Valid()
      invariant tree.root == InsertAll(old(tree.root), values[..i])
    {
      assert values[..i + 1][..i] == values[..i];
      var _ := tree.TreeInsert(values[i]);
      i := i + 1;
    }
    assert values[..i] == values;
  }

  /** The first `k` values of `s`: none when k is not positive, all of `s` when k reaches its length. */
  function Take(s: seq<int>, k: int): (r: seq<int>)
    ensures |r| == if k <= 0 then 0 else if k < |s| then k else |s|
    ensures r <= s
  {
    if k <= 0 then [] else if k < |s| then s[..k] else s
  }

  lemma TakeAfterAll(l: seq<int>, v: int, r: seq<int>, k: int)
    requires |l| < k
    ensures Take(l + [v] + r, k) == l + [v] + Take(r, k - |l| - 1)
  {
    if k - |l| - 1 < |r| {
      assert (l + [v] + r)[..k] == l + [v] + r[..k - |l| - 1];
    }
  }

  lemma TakeWithinLeft(l: seq<int>, v: int, r: seq<int>, k: int)
    requires k <= |l|
    ensures Take(l + [v] + r, k) == Take(l, k)
  {
    if 0 < k {
      assert (l + [v] + r)[..k] == l[..k];
    }
  }

  /**
   * inorderTraversal: while fewer than n values are printed, the left
   * subtree, the node and the right subtree are printed in turn and the
   * counter moves on with each value.
   */
  method InorderTraversal(node: Tree, count: int, n: int) returns (newCount: int, printed: seq<int>)
    ensures printed == Take(InOrder(node), n - count)
    ensures newCount == count + |printed|
    decreases node
  {
    newCount, printed := count, [];
    if node.Node? && newCount < n {
      var left;
      newCount, left := InorderTraversal(node.left, newCount, n);
      printed := left;
      if newCount < n {
        printed := printed + [node.value];
        newCount := newCount + 1;
      }
      var right;
      newCount, right := InorderTraversal(node.right, newCount, n);
      printed := printed + right;
      if |InOrder(node.left)| < n - count {
        TakeAfterAll(InOrder(node.left), node.value, InOrder(node.right), n - count);
      } else {
        TakeWithinLeft(InOrder(node.left), node.value, InOrder(node.right), n - count);
      }
    }
  }

  /**
   * printOrderedSequence: the counter starts at 0, so the first n values
   * in order are printed: ascending, min(n, node count) of them, and
   * every stored value left out is larger than every value printed.
   */
  method PrintOrderedSequence(tree: BinaryTree, n: int) returns (printed: seq<int>)
    requires tree.Valid()
    ensures printed == Take(InOrder(tree.root), n)
    ensures Increasing(printed)
    ensures |printed| == if n <= 0 then 0 else if n < Count(tree.root) then n else Count(tree.root)
    ensures forall i, x :: 0 <= i < |printed| && x in Elements(tree.root) && x !in printed ==> printed[i] < x
  {
    var count;
    count, printed := InorderTraversal(tree.root, 0, n);
    SmallestFirst(tree.root, n);
    CountIsSize(tree.root);
  }

  /** A prefix of an ordered tree's in-order sequence is ascending and holds its smallest values. */
  lemma SmallestFirst(t: Tree, n: int)
    requires StrictOrdered(t)
    ensures Increasing(Take(InOrder(t), n))
    ensures forall i, x :: 0 <= i < |Take(InOrder(t), n)| && x in Elements(t) && x !in Take(InOrder(t), n) ==> Take(InOrder(t), n)[i] < x
  {
    StrictInOrderIncreasing(t);
    InOrderElements(t);
    PrefixSmallest(InOrder(t), Take(InOrder(t), n));
  }

  /** An ascending sequence: its prefix is ascending and below every later value. */
  lemma PrefixSmallest(s: seq<int>, p: seq<int>)
    requires Increasing(s) && p <= s
    ensures Increasing(p)
    ensures forall i, x :: 0 <= i < |p| && x in multiset(s) && x !in p ==> p[i] < x
  {
    forall i, x | 0 <= i < |p| && x in multiset(s) && x !in p ensures p[i] < x {
      var j :| 0 <= j < |s| && s[j] == x;
      assert j >= |p| by {
        forall k | 0 <= k < |p| ensures s[k] != x {
          assert p[k] == s[k];
        }
      }
      assert p[i] == s[i];
    }
  }

  /** What printSubtreeCounts prints for one node: its value and the node counts of its two subtrees. */
  datatype NodeCounts = NodeCounts(value: int, left: nat, right: nat)

  /** printSubtreeCounts: one line per node, in preorder. */
  function SubtreeCounts(t: Tree): seq<NodeCounts>
  {
    if t.Leaf? then []
    else [NodeCounts(t.value, Count(t.left), Count(t.right))] + SubtreeCounts(t.left) + SubtreeCounts(t.right)
  }

  function Values(lines: seq<NodeCounts>): seq<int>
  {
    if lines == [] then [] else [lines[0].value] + Values(lines[1..])
  }

  lemma {:induction false} ValuesConcat(a: seq<NodeCounts>, b: seq<NodeCounts>)
    ensures Values(a + b) == Values(a) + Values(b)
  {
    if a == [] {
      assert a + b == b;
    } else {
      assert (a + b)[0] == a[0] && (a + b)[1..] == a[1..] + b;
      ValuesConcat(a[1..], b);
    }
  }

  /** One line per node, for the nodes in preorder. */
  lemma {:induction false} SubtreeCountsLines(t: Tree)
    ensures |SubtreeCounts(t)| == Count(t)
    ensures Values(SubtreeCounts(t)) == PreOrder(t)
  {
    if t.Node? {
      SubtreeCountsLines(t.left);
      SubtreeCountsLines(t.right);
      var head := [NodeCounts(t.value, Count(t.left), Count(t.right))];
      ValuesConcat(head + SubtreeCounts(t.left), SubtreeCounts(t.right));
      ValuesConcat(head, SubtreeCounts(t.left));
      assert Values(head) == [t.value] + Values([]);
    }
  }

  /**
   * At the root the two counts add up to the node count less one, and at
   * every node they stay below the node count of the whole tree.
   */
  lemma {:induction false} SubtreeCountsBound(t: Tree)
    ensures t.Node? ==> SubtreeCounts(t)[0].left + SubtreeCounts(t)[0].right == Count(t) - 1
    ensures forall i :: 0 <= i < |SubtreeCounts(t)| ==> SubtreeCounts(t)[i].left + SubtreeCounts(t)[i].right < Count(t)
  {
    if t.Node? {
      SubtreeCountsBound(t.left);
      SubtreeCountsBound(t.right);
      var head := [NodeCounts(t.value, Count(t.left), Count(t.right))];
      var a, b := SubtreeCounts(t.left), SubtreeCounts(t.right);
      assert SubtreeCounts(t) == head + a + b;
      forall i | 0 <= i < |SubtreeCounts(t)| ensures SubtreeCounts(t)[i].left + SubtreeCounts(t)[i].right < Count(t) {
        if i == 0 {
        } else if i < 1 + |a| {
          assert SubtreeCounts(t)[i] == a[i - 1];
        } else {
          assert SubtreeCounts(t)[i] == b[i - 1 - |a|];
        }
      }
    }
  }

  /** breadthFirstSearch: the walk with its array of 100 pointers; a larger tree overruns it. */
  method BreadthFirstSearch(root: Tree) returns (out: seq<int>)
    requires Count(root) <= 100
    ensures out == LevelOrder([root])
    ensures multiset(out) == Elements(root)
    ensures root.Node? ==> out[0] == root.value
  {
    out := BreadthFirst(root, 100);
    BreadthOrder(root);
  }

  /** The tree the test of asd_lab_7_task.c builds from 10, 5, 15, 3, 7, 13, 17: full, of height 3. */
  lemma BuildExample()
    ensures InsertAll(Leaf, [10, 5, 15, 3, 7, 13, 17])
         == Node(Node(Node(Leaf, 3, Leaf), 5, Node(Leaf, 7, Leaf)), 10, Node(Node(Leaf, 13, Leaf), 15, Node(Leaf, 17, Leaf)))
  {
    var t1 := Node(Leaf, 10, Leaf);
    assert InsertAll(Leaf, [10]) == t1 by {
      assert [10][..0] == [];
    }
    var t2 := Node(Node(Leaf, 5, Leaf), 10, Leaf);
    assert InsertAll(Leaf, [10, 5]) == t2 by {
      assert [10, 5][..1] == [10];
    }
    var t3 := Node(Node(Leaf, 5, Leaf), 10, Node(Leaf, 15, Leaf));
    assert InsertAll(Leaf, [10, 5, 15]) == t3 by {
      assert [10, 5, 15][..2] == [10, 5];
    }
    var t4 := Node(Node(Node(Leaf, 3, Leaf), 5, Leaf), 10, Node(Leaf, 15, Leaf));
    assert InsertAll(Leaf, [10, 5, 15, 3]) == t4 by {
      assert [10, 5, 15, 3][..3] == [10, 5, 15];
    }
    var l := Node(Node(Leaf, 3, Leaf), 5, Node(Leaf, 7, Leaf));
    var t5 := Node(l, 10, Node(Leaf, 15, Leaf));
    assert InsertAll(Leaf, [10, 5, 15, 3, 7]) == t5 by {
      assert [10, 5, 15, 3, 7][..4] == [10, 5, 15, 3];
    }
    var t6 := Node(l, 10, Node(Node(Leaf, 13, Leaf), 15, Leaf));
    assert InsertAll(Leaf, [10, 5, 15, 3, 7, 13]) == t6 by {
      assert [10, 5, 15, 3, 7, 13][..5] == [10, 5, 15, 3, 7];
    }
    assert [10, 5, 15, 3, 7, 13, 17][..6] == [10, 5, 15, 3, 7, 13];
  }

  /** The test of asd_lab_7_task.c, building. */
  method BuildTest() returns (tree: BinaryTree)
    ensures fresh(tree) && tree.Valid()
    ensures tree.root == Node(Node(Node(Leaf, 3, Leaf), 5, Node(Leaf, 7, Leaf)), 10, Node(Node(Leaf, 13, Leaf), 15, Node(Leaf, 17, Leaf)))
  {
    tree := new BinaryTree();
    BuildOrderedTree(tree, [10, 5, 15, 3, 7, 13, 17]);
    BuildExample();
  }

  /** The test of asd_lab_7_task.c, walks: the first five in order, the preorder, the per-node counts and level order. */
  method WalksTest() returns (ordered: seq<int>, subtrees: seq<NodeCounts>, depth: seq<int>, breadth: seq<int>)
    ensures ordered == [3, 5, 7, 10, 13]
    ensures depth == [10, 5, 3, 7, 15, 13, 17]
    ensures |subtrees| == 7 && subtrees[0] == NodeCounts(10, 3, 3) && subtrees[1] == NodeCounts(5, 1, 1)
    ensures breadth == [10, 5, 15, 3, 7, 13, 17]
  {
    var tree := BuildTest();
    var l := Node(Node(Leaf, 3, Leaf), 5, Node(Leaf, 7, Leaf));
    var r := Node(Node(Leaf, 13, Leaf), 15, Node(Leaf, 17, Leaf));
    WalksExample(l, r);
    CountsExample(l, r);
    LevelOrderExample(l, r);
    ordered := PrintOrderedSequence(tree, 5);
    subtrees := SubtreeCounts(tree.root);
    depth := PreOrder(tree.root);
    breadth := BreadthFirstSearch(tree.root);
    tree.TreeFree();
  }

  lemma WalksExample(l: Tree, r: Tree)
    requires l == Node(Node(Leaf, 3, Leaf), 5, Node(Leaf, 7, Leaf))
    requires r == Node(Node(Leaf, 13, Leaf), 15, Node(Leaf, 17, Leaf))
    ensures Take(InOrder(Node(l, 10, r)), 5) == [3, 5, 7, 10, 13]
    ensures PreOrder(Node(l, 10, r)) == [10, 5, 3, 7, 15, 13, 17]
  {
    assert InOrder(l) == [3, 5, 7] && InOrder(r) == [13, 15, 17];
    assert InOrder(Node(l, 10, r)) == [3, 5, 7, 10, 13, 15, 17];
    assert PreOrder(l) == [5, 3, 7] && PreOrder(r) == [15, 13, 17];
  }

  lemma CountsExample(l: Tree, r: Tree)
    requires l == Node(Node(Leaf, 3, Leaf), 5, Node(Leaf, 7, Leaf))
    requires r == Node(Node(Leaf, 13, Leaf), 15, Node(Leaf, 17, Leaf))
    ensures |SubtreeCounts(Node(l, 10, r))| == 7
    ensures SubtreeCounts(Node(l, 10, r))[0] == NodeCounts(10, 3, 3)
    ensures SubtreeCounts(Node(l, 10, r))[1] == NodeCounts(5, 1, 1)
  {
    assert Count(l) == 3 && Count(r) == 3;
    SubtreeCountsLines(Node(l, 10, r));
    assert SubtreeCounts(l)[0] == NodeCounts(5, 1, 1);
    assert SubtreeCounts(Node(l, 10, r)) == [NodeCounts(10, 3, 3)] + SubtreeCounts(l) + SubtreeCounts(r);
  }

  lemma LevelOrderExample(l: Tree, r: Tree)
    requires l == Node(Node(Leaf, 3, Leaf), 5, Node(Leaf, 7, Leaf))
    requires r == Node(Node(Leaf, 13, Leaf), 15, Node(Leaf, 17, Leaf))
    ensures LevelOrder([Node(l, 10, r)]) == [10, 5, 15, 3, 7, 13, 17]
  {
    LeafRow(l.left, l.right, r.left, r.right);
    PairRow(l, r);
    assert Kids(l) + Kids(r) == [l.left, l.right, r.left, r.right];
    LevelStep([l, r]);
    SingleRow(Node(l, 10, r));
    LevelStep([Node(l, 10, r)]);
  }

  /** A row of one node: its value, then its children. */
  lemma SingleRow(t: Tree)
    requires t.Node?
    ensures Roots([t]) == [t.value] && AllKids([t]) == Kids(t)
  {
    assert [t][1..] == [];
  }

  /** A row of two nodes: their values, then their children in order. */
  lemma PairRow(l: Tree, r: Tree)
    requires l.Node? && r.Node?
    ensures Roots([l, r]) == [l.value, r.value] && AllKids([l, r]) == Kids(l) + Kids(r)
  {
    assert [l, r][1..] == [r];
    SingleRow(r);
  }

  lemma LevelStep(qs: seq<Tree>)
    requires Roots(qs) != []
    ensures LevelOrder(qs) == Roots(qs) + LevelOrder(AllKids(qs))
  {
  }

  /** A row of four childless nodes is its own level order. */
  lemma LeafRow(a: Tree, b: Tree, c: Tree, d: Tree)
    requires a.Node? && a.left.Leaf? && a.right.Leaf?
    requires b.Node? && b.left.Leaf? && b.right.Leaf?
    requires c.Node? && c.left.Leaf? && c.right.Leaf?
    requires d.Node? && d.left.Leaf? && d.right.Leaf?
    ensures LevelOrder([a, b, c, d]) == [a.value, b.value, c.value, d.value]
  {
    var row := [a, b, c, d];
    assert [d][1..] == [];
    assert [c, d][1..] == [d];
    assert [b, c, d][1..] == [c, d];
    assert row[1..] == [b, c, d];
    assert Roots([d]) == [d.value] && AllKids([d]) == [];
    assert Roots([c, d]) == [c.value, d.value] && AllKids([c, d]) == [];
    assert Roots([b, c, d]) == [b.value, c.value, d.value] && AllKids([b, c, d]) == [];
    assert Roots(row) == [a.value, b.value, c.value, d.value];
    assert AllKids(row) == [];
    LevelStep(row);
  }
}
