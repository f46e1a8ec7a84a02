/**
 * The AVL tree of avl_tree.c: every node stores its height, insert
 * recurses down, recomputes the height on the way back and repairs a
 * balance factor of +-2 with one of the LL, RR, LR and RL rotations.
 * insert returns the new root of the subtree it was given, which the
 * caller stores back into the link; the model returns that subtree.
 */
module Avl {
  import Trees

  /** A node with its stored height; heights are never negative (create_node stores 1, the rest is 1 + a maximum). */
  datatype AvlTree = Empty | AvlNode(left: AvlTree, data: int, height: nat, right: AvlTree)

  function Max(a: int, b: int): int
  {
    if a > b then a else b
  }

  /** height: the stored height, 0 for NULL. */
  function Height(t: AvlTree): nat
  {
    if t.Empty? then 0 else t.height
  }

  /** balance_factor: left height minus right height, 0 for NULL. */
  function BalanceFactor(t: AvlTree): int
  {
    if t.Empty? then 0 else Height(t.left) - Height(t.right)
  }

  /** create_node: a node of height 1 with no children. */
  function CreateNode(data: int): (t: AvlTree)
    ensures Height(t) == 1 && BalanceFactor(t) == 0 && Avl(t) && Keys(t) == {data}
  {
    AvlNode(Empty, data, 1, Empty)
  }

  /** A node whose height is recomputed as 1 + the larger height of its children. */
  function Fix(l: AvlTree, d: int, r: AvlTree): AvlTree
  {
    AvlNode(l, d, 1 + Max(Height(l), Height(r)), r)
  }

  function Keys(t: AvlTree): set<int>
  {
    if t.Empty? then {} else Keys(t.left) + {t.data} + Keys(t.right)
  }

  function InOrder(t: AvlTree): seq<int>
  {
    if t.Empty? then [] else InOrder(t.left) + [t.data] + InOrder(t.right)
  }

  ghost predicate Below(t: AvlTree, v: int)
  {
    forall k :: k in Keys(t) ==> k < v
  }

  ghost predicate Above(t: AvlTree, v: int)
  {
    forall k :: k in Keys(t) ==> k > v
  }

  /** Search-tree order: smaller keys on the left, larger on the right, at every node. */
  ghost predicate Ordered(t: AvlTree)
  {
    t.AvlNode? ==> Below(t.left, t.data) && Above(t.right, t.data) && Ordered(t.left) && Ordered(t.right)
  }

  /** Every stored height is 1 + the larger stored height of the children. */
  ghost predicate HeightsOk(t: AvlTree)
  {
    t.AvlNode? ==> t.height == 1 + Max(Height(t.left), Height(t.right)) && HeightsOk(t.left) && HeightsOk(t.right)
  }

  /** Every balance factor is -1, 0 or 1. */
  ghost predicate Balanced(t: AvlTree)
  {
    t.AvlNode? ==> -1 <= BalanceFactor(t) <= 1 && Balanced(t.left) && Balanced(t.right)
  }

  ghost predicate Avl(t: AvlTree)
  {
    Ordered(t) && HeightsOk(t) && Balanced(t)
  }

  /** rotate_right: the left child x becomes the root, x's right subtree moves under y. */
  function RotateRight(y: AvlTree): AvlTree
    requires y.AvlNode? && y.left.AvlNode?
  {
    var x := y.left;
    Fix(x.left, x.data, Fix(x.right, y.data, y.right))
  }

  /** rotate_left: the right child y becomes the root, y's left subtree moves under x. */
  function RotateLeft(x: AvlTree): AvlTree
    requires x.AvlNode? && x.right.AvlNode?
  {
    var y := x.right;
    Fix(Fix(x.left, x.data, y.left), y.data, y.right)
  }

  /** A right rotation keeps the search-tree order. */
  lemma RotateRightOrdered(y: AvlTree)
    requires y.AvlNode? && y.left.AvlNode? && Ordered(y)
    ensures Ordered(RotateRight(y))
  {
    var x := y.left;
    assert x.data in Keys(x);
    assert Ordered(x) && Below(x, y.data) && Above(y.right, y.data);
    assert Below(x.left, x.data) && Above(x.right, x.data);
    var inner := Fix(x.right, y.data, y.right);
    forall k | k in Keys(x.right) ensures k < y.data {
      assert k in Keys(x);
    }
    forall k | k in Keys(inner) ensures k > x.data {
      if k in Keys(y.right) {
        assert k > y.data;
      }
    }
    assert Ordered(inner);
  }

  /** A rotation keeps the in-order sequence and its keys, and with correct heights below it every height is correct. */
  lemma RotateRightSpec(y: AvlTree)
    requires y.AvlNode? && y.left.AvlNode?
    ensures InOrder(RotateRight(y)) == InOrder(y)
    ensures Keys(RotateRight(y)) == Keys(y)
    ensures Ordered(y) ==> Ordered(RotateRight(y))
    ensures HeightsOk(y.left.left) && HeightsOk(y.left.right) && HeightsOk(y.right) ==> HeightsOk(RotateRight(y))
  {
    if Ordered(y) {
      RotateRightOrdered(y);
    }
  }

  /** A left rotation keeps the search-tree order. */
  lemma RotateLeftOrdered(x: AvlTree)
    requires x.AvlNode? && x.right.AvlNode? && Ordered(x)
    ensures Ordered(RotateLeft(x))
  {
    var y := x.right;
    assert y.data in Keys(y);
    assert Ordered(y) && Above(y, x.data) && Below(x.left, x.data);
    assert Below(y.left, y.data) && Above(y.right, y.data);
    var inner := Fix(x.left, x.data, y.left);
    forall k | k in Keys(y.left) ensures k > x.data {
      assert k in Keys(y);
    }
    forall k | k in Keys(inner) ensures k < y.data {
      if k in Keys(x.left) {
        assert k < x.data;
      }
    }
    assert Ordered(inner);
  }

  /** The mirror image of RotateRightSpec. */
  lemma RotateLeftSpec(x: AvlTree)
    requires x.AvlNode? && x.right.AvlNode?
    ensures InOrder(RotateLeft(x)) == InOrder(x)
    ensures Keys(RotateLeft(x)) == Keys(x)
    ensures Ordered(x) ==> Ordered(RotateLeft(x))
    ensures HeightsOk(x.left) && HeightsOk(x.right.left) && HeightsOk(x.right.right) ==> HeightsOk(RotateLeft(x))
  {
    if Ordered(x) {
      RotateLeftOrdered(x);
    }
  }

  /** The LR case: rotate the left child left, then the node right. */
  function RotateLeftRight(n: AvlTree): AvlTree
    requires n.AvlNode? && n.left.AvlNode? && n.left.right.AvlNode?
  {
    RotateRight(AvlNode(RotateLeft(n.left), n.data, n.height, n.right))
  }

  /** The RL case: rotate the right child right, then the node left. */
  function RotateRightLeft(n: AvlTree): AvlTree
    requires n.AvlNode? && n.right.AvlNode? && n.right.left.AvlNode?
  {
    RotateLeft(AvlNode(n.left, n.data, n.height, RotateRight(n.right)))
  }

  /** The rotations insert can call on a node: those whose NULL checks hold. */
  ghost predicate RebalanceDefined(n: AvlTree, data: int)
    requires n.AvlNode?
  {
    && (BalanceFactor(n) > 1 && data > n.left.data ==> n.left.right.AvlNode?)
    && (BalanceFactor(n) < -1 && data < n.right.data ==> n.right.left.AvlNode?)
  }

  /**
   * The repair step of insert on a node whose height was just
   * recomputed: the LL, RR, LR and RL cases, chosen by the balance factor
   * and by where `data` went. A balance factor above 1 needs a left child
   * and one below -1 a right child, since heights are not negative.
   */
  function Rebalance(n: AvlTree, data: int): AvlTree
    requires n.AvlNode? && RebalanceDefined(n, data)
  {
    var balance := BalanceFactor(n);
    if balance > 1 && data < n.left.data then RotateRight(n)
    else if balance < -1 && data > n.right.data then RotateLeft(n)
    else if balance > 1 && data > n.left.data then RotateLeftRight(n)
    else if balance < -1 && data < n.right.data then RotateRightLeft(n)
    else n
  }

  /** The height grew only where the new key went: a fresh node, or a node leaning toward the key by one. */
  ghost predicate GrewToward(t: AvlTree, r: AvlTree, data: int)
  {
    Height(r) == Height(t) + 1 ==>
      || (t.Empty? && r == CreateNode(data))
      || (r.AvlNode? && data < r.data && BalanceFactor(r) == 1)
      || (r.AvlNode? && data > r.data && BalanceFactor(r) == -1)
  }

  /** What insert promises on an AVL tree. */
  ghost predicate InsertPost(t: AvlTree, data: int, r: AvlTree)
  {
    && Avl(r) && r.AvlNode?
    && Keys(r) == Keys(t) + {data}
    && (data in Keys(t) ==> r == t)
    && Height(t) <= Height(r) <= Height(t) + 1
    && GrewToward(t, r, data)
  }

  /**
   * insert: on an AVL tree the result is an AVL tree with the key added,
   * the same tree when the key is there, and at most one level taller.
   */
  function Insert(t: AvlTree, data: int): (r: AvlTree)
    requires Avl(t)
    ensures InsertPost(t, data, r)
  {
    if t.Empty? then CreateNode(data)
    else if data < t.data then
      var l := Insert(t.left, data);
      InsertLeftStep(t, data, l);
      Rebalance(Fix(l, t.data, t.right), data)
    else if data > t.data then
      var r := Insert(t.right, data);
      InsertRightStep(t, data, r);
      Rebalance(Fix(t.left, t.data, r), data)
    else t
  }

  /** The left case of insert: the left subtree took the key. */
  lemma InsertLeftStep(t: AvlTree, data: int, l: AvlTree)
    requires t.AvlNode? && Avl(t) && data < t.data
    requires InsertPost(t.left, data, l)
    ensures RebalanceDefined(Fix(l, t.data, t.right), data)
    ensures InsertPost(t, data, Rebalance(Fix(l, t.data, t.right), data))
  {
    var n := Fix(l, t.data, t.right);
    assert Ordered(n) by {
      assert Below(l, t.data);
    }
    if data in Keys(t.left) {
      assert n == t;
    } else if BalanceFactor(n) <= 1 {
      assert Rebalance(n, data) == n;
    } else {
      assert l.AvlNode?;
      if data < l.data {
        LeftLeft(n);
      } else {
        LeftRight(n);
      }
    }
  }

  /** The right case of insert: the right subtree took the key. */
  lemma InsertRightStep(t: AvlTree, data: int, r: AvlTree)
    requires t.AvlNode? && Avl(t) && data > t.data
    requires InsertPost(t.right, data, r)
    ensures RebalanceDefined(Fix(t.left, t.data, r), data)
    ensures InsertPost(t, data, Rebalance(Fix(t.left, t.data, r), data))
  {
    var n := Fix(t.left, t.data, r);
    assert Ordered(n) by {
      assert Above(r, t.data);
    }
    if data in Keys(t.right) {
      assert n == t;
    } else if BalanceFactor(n) >= -1 {
      assert Rebalance(n, data) == n;
    } else {
      assert r.AvlNode?;
      if data > r.data {
        RightRight(n);
      } else {
        RightLeft(n);
      }
    }
  }

  /** LL: the left child leans left by one and the node by two; one right rotation balances it at its old height. */
  lemma LeftLeft(n: AvlTree)
    requires n.AvlNode? && n.left.AvlNode? && Ordered(n)
    requires Avl(n.left) && Avl(n.right) && BalanceFactor(n) == 2 && BalanceFactor(n.left) == 1
    ensures Avl(RotateRight(n)) && Keys(RotateRight(n)) == Keys(n)
    ensures Height(RotateRight(n)) == Height(n.right) + 2 && BalanceFactor(RotateRight(n)) == 0
  {
    RotateRightSpec(n);
  }

  /** LR: the left child leans right; a left rotation of it and a right rotation of the node balance it. */
  lemma LeftRight(n: AvlTree)
    requires n.AvlNode? && n.left.AvlNode? && n.left.right.AvlNode? && Ordered(n)
    requires Avl(n.left) && Avl(n.right) && BalanceFactor(n) == 2 && BalanceFactor(n.left) == -1
    ensures Avl(RotateLeftRight(n))
    ensures Keys(RotateLeftRight(n)) == Keys(n)
    ensures Height(RotateLeftRight(n)) == Height(n.right) + 2
  {
    var x, c := n.left, n.right;
    var a, b := x.left, x.right;
    LeftRightOrder(n);
    LeftRightHeights(n);
    var left := Fix(a, x.data, b.left);
    var right := Fix(b.right, n.data, c);
    FixAvl(a, x.data, b.left);
    FixAvl(b.right, n.data, c);
    FixAvl(left, b.data, right);
    assert RotateLeftRight(n) == Fix(left, b.data, right);
    LeftRightKeys(n);
  }

  /** The heights below an LR case: the outer grandchild and the right child are equal, the inner grandchild is one taller. */
  lemma LeftRightHeights(n: AvlTree)
    requires n.AvlNode? && n.left.AvlNode? && n.left.right.AvlNode?
    requires Avl(n.left) && BalanceFactor(n) == 2 && BalanceFactor(n.left) == -1
    ensures Avl(n.left.left) && Avl(n.left.right.left) && Avl(n.left.right.right)
    ensures Height(n.left.left) == Height(n.right)
    ensures Height(n.right) - 1 <= Height(n.left.right.left) <= Height(n.right)
    ensures Height(n.right) - 1 <= Height(n.left.right.right) <= Height(n.right)
  {
    var b := n.left.right;
    assert HeightsOk(n.left) && Avl(b);
  }

  /** An LR rotation keeps the keys. */
  lemma LeftRightKeys(n: AvlTree)
    requires n.AvlNode? && n.left.AvlNode? && n.left.right.AvlNode?
    ensures Keys(RotateLeftRight(n)) == Keys(n)
  {
    RotateLeftSpec(n.left);
    RotateRightSpec(AvlNode(RotateLeft(n.left), n.data, n.height, n.right));
  }

  /** RR: the mirror image of LL. */
  lemma RightRight(n: AvlTree)
    requires n.AvlNode? && n.right.AvlNode? && Ordered(n)
    requires Avl(n.left) && Avl(n.right) && BalanceFactor(n) == -2 && BalanceFactor(n.right) == -1
    ensures Avl(RotateLeft(n)) && Keys(RotateLeft(n)) == Keys(n)
    ensures Height(RotateLeft(n)) == Height(n.left) + 2 && BalanceFactor(RotateLeft(n)) == 0
  {
    RotateLeftSpec(n);
  }

  /** RL: the mirror image of LR. */
  lemma RightLeft(n: AvlTree)
    requires n.AvlNode? && n.right.AvlNode? && n.right.left.AvlNode? && Ordered(n)
    requires Avl(n.left) && Avl(n.right) && BalanceFactor(n) == -2 && BalanceFactor(n.right) == 1
    ensures Avl(RotateRightLeft(n))
    ensures Keys(RotateRightLeft(n)) == Keys(n)
    ensures Height(RotateRightLeft(n)) == Height(n.left) + 2
  {
    var c, y := n.left, n.right;
    var b, a := y.left, y.right;
    RightLeftOrder(n);
    RightLeftHeights(n);
    var left := Fix(c, n.data, b.left);
    var right := Fix(b.right, y.data, a);
    FixAvl(c, n.data, b.left);
    FixAvl(b.right, y.data, a);
    FixAvl(left, b.data, right);
    assert RotateRightLeft(n) == Fix(left, b.data, right);
    RightLeftKeys(n);
  }

  /** The heights below an RL case, the mirror image of LeftRightHeights. */
  lemma RightLeftHeights(n: AvlTree)
    requires n.AvlNode? && n.right.AvlNode? && n.right.left.AvlNode?
    requires Avl(n.right) && BalanceFactor(n) == -2 && BalanceFactor(n.right) == 1
    ensures Avl(n.right.right) && Avl(n.right.left.left) && Avl(n.right.left.right)
    ensures Height(n.right.right) == Height(n.left)
    ensures Height(n.left) - 1 <= Height(n.right.left.left) <= Height(n.left)
    ensures Height(n.left) - 1 <= Height(n.right.left.right) <= Height(n.left)
  {
    var b := n.right.left;
    assert HeightsOk(n.right) && Avl(b);
  }

  /** An RL rotation keeps the keys. */
  lemma RightLeftKeys(n: AvlTree)
    requires n.AvlNode? && n.right.AvlNode? && n.right.left.AvlNode?
    ensures Keys(RotateRightLeft(n)) == Keys(n)
  {
    RotateRightSpec(n.right);
    RotateLeftSpec(AvlNode(n.left, n.data, n.height, RotateRight(n.right)));
  }

  /** The key order of the pieces an LR rotation reassembles. */
  lemma LeftRightOrder(n: AvlTree)
    requires n.AvlNode? && n.left.AvlNode? && n.left.right.AvlNode? && Ordered(n)
    ensures Below(n.left.left, n.left.data) && Above(n.left.right.left, n.left.data)
    ensures Below(n.left.right.right, n.data) && Above(n.right, n.data)
    ensures Below(Fix(n.left.left, n.left.data, n.left.right.left), n.left.right.data)
    ensures Above(Fix(n.left.right.right, n.data, n.right), n.left.right.data)
  {
    var x, c := n.left, n.right;
    var a, b := x.left, x.right;
    assert Ordered(x) && Ordered(b);
    assert Below(a, x.data) && Above(b, x.data) && Below(x, n.data) && Above(c, n.data);
    assert b.data in Keys(b) && x.data in Keys(x) && b.data in Keys(x);
    forall k | k in Keys(b.left) ensures x.data < k < b.data {
      assert k in Keys(b);
    }
    forall k | k in Keys(b.right) ensures b.data < k < n.data {
      assert k in Keys(b) && k in Keys(x);
    }
  }

  /** The key order of the pieces an RL rotation reassembles. */
  lemma RightLeftOrder(n: AvlTree)
    requires n.AvlNode? && n.right.AvlNode? && n.right.left.AvlNode? && Ordered(n)
    ensures Above(n.right.right, n.right.data) && Below(n.right.left.right, n.right.data)
    ensures Above(n.right.left.left, n.data) && Below(n.left, n.data)
    ensures Above(Fix(n.right.left.right, n.right.data, n.right.right), n.right.left.data)
    ensures Below(Fix(n.left, n.data, n.right.left.left), n.right.left.data)
  {
    var c, y := n.left, n.right;
    var b, a := y.left, y.right;
    assert Ordered(y) && Ordered(b);
    assert Above(a, y.data) && Below(b, y.data) && Above(y, n.data) && Below(c, n.data);
    assert b.data in Keys(b) && y.data in Keys(y) && b.data in Keys(y);
    forall k | k in Keys(b.right) ensures b.data < k < y.data {
      assert k in Keys(b);
    }
    forall k | k in Keys(b.left) ensures n.data < k < b.data {
      assert k in Keys(b) && k in Keys(y);
    }
  }

  /** A node over two AVL subtrees that differ in height by at most one, in key order, is an AVL tree. */
  lemma FixAvl(l: AvlTree, d: int, r: AvlTree)
    requires Avl(l) && Avl(r) && Below(l, d) && Above(r, d) && -1 <= Height(l) - Height(r) <= 1
    ensures Avl(Fix(l, d, r)) && Keys(Fix(l, d, r)) == Keys(l) + {d} + Keys(r)
  {
  }

  /** traverse_inorder: the keys of an ordered tree, ascending. */
  lemma {:induction false} InOrderAscending(t: AvlTree)
    requires Ordered(t)
    ensures Trees.Increasing(InOrder(t))
    ensures forall k :: k in InOrder(t) <==> k in Keys(t)
  {
    if t.AvlNode? {
      InOrderAscending(t.left);
      InOrderAscending(t.right);
      var l, r := InOrder(t.left), InOrder(t.right);
      forall i | 0 <= i < |l| ensures l[i] < t.data {
        assert l[i] in Keys(t.left);
      }
      forall i | 0 <= i < |r| ensures r[i] > t.data {
        assert r[i] in Keys(t.right);
      }
      Trees.IncreasingAround(l, t.data, r);
    }
  }

  /**
   * The insertions of main in avl_tree.c, on the tree create_node(5)
   * made; the method sees that tree through its keys only.
   */
  method InsertExample(first: AvlTree) returns (tree: AvlTree)
    requires Avl(first) && Keys(first) == {5}
    ensures Avl(tree) && Keys(tree) == {5, 10, 20, 25, 30, 40, 50}
  {
    var t1 := Insert(first, 10);
    var t2 := Insert(t1, 20);
    var t3 := Insert(t2, 30);
    var t4 := Insert(t3, 40);
    var t5 := Insert(t4, 50);
    tree := Insert(t5, 25);
    ExampleKeys(Keys(first), Keys(t1), Keys(t2), Keys(t3), Keys(t4), Keys(t5), Keys(tree));
  }

  /** The key sets main builds, one insertion at a time. */
  lemma ExampleKeys(k0: set<int>, k1: set<int>, k2: set<int>, k3: set<int>, k4: set<int>, k5: set<int>, k6: set<int>)
    requires k0 == {5} && k1 == k0 + {10} && k2 == k1 + {20} && k3 == k2 + {30}
    requires k4 == k3 + {40} && k5 == k4 + {50} && k6 == k5 + {25}
    ensures k6 == {5, 10, 20, 25, 30, 40, 50}
  {
  }

  /** main of avl_tree.c: after the insertions the in-order walk prints 5 10 20 25 30 40 50. */
  method MainTest() returns (tree: AvlTree, inorder: seq<int>)
    ensures Avl(tree) && Keys(tree) == {5, 10, 20, 25, 30, 40, 50}
    ensures inorder == [5, 10, 20, 25, 30, 40, 50]
  {
    tree := InsertExample(CreateNode(5));
    inorder := InOrder(tree);
    InOrderAscending(tree);
    SortedExample(inorder, Keys(tree));
  }

  /** The one ascending sequence with the keys of the example. */
  lemma SortedExample(s: seq<int>, keys: set<int>)
    requires Trees.Increasing(s) && keys == {5, 10, 20, 25, 30, 40, 50}
    requires forall k :: k in s <==> k in keys
    ensures s == [5, 10, 20, 25, 30, 40, 50]
  {
    var expected := [5, 10, 20, 25, 30, 40, 50];
    assert Trees.Increasing(expected);
    Trees.IncreasingUnique(s, expected);
  }
}
