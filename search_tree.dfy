/**
 * The binary search tree of asd_lab_7.c: distinct int values, smaller on
 * the left, larger on the right. treeInsert, treeFind and treeRemove walk
 * down with a pointer to the link they stand on (`TreeNode **current`);
 * the model keeps that place as the path from the root (Trees.Frame) and
 * writes through it with Trees.Plug.
 */
module SearchTree {
  import opened Trees

  datatype TreeError = ErrorNone | ErrorMemory | ErrorNotFound | ErrorDuplicate

  /** What treeInsert makes of a tree: a new leaf where the search for `v` falls off, nothing if `v` is there. */
  function Insert(t: Tree, v: int): Tree
  {
    if t.Leaf? then Node(Leaf, v, Leaf)
    else if v == t.value then t
    else if v < t.value then Node(Insert(t.left, v), t.value, t.right)
    else Node(t.left, t.value, Insert(t.right, v))
  }

  /** Insertion adds `v` and nothing else, as a set of values. */
  lemma {:induction false} InsertMembers(t: Tree, v: int)
    ensures forall x :: x in Elements(Insert(t, v)) <==> x in Elements(t) || x == v
  {
    if t.Node? && v != t.value {
      if v < t.value {
        InsertMembers(t.left, v);
      } else {
        InsertMembers(t.right, v);
      }
    }
  }

  /** Insertion keeps the search-tree order. */
  lemma {:induction false} InsertOrdered(t: Tree, v: int)
    requires StrictOrdered(t)
    ensures StrictOrdered(Insert(t, v))
  {
    if t.Node? && v != t.value {
      if v < t.value {
        InsertOrdered(t.left, v);
        InsertMembers(t.left, v);
      } else {
        InsertOrdered(t.right, v);
        InsertMembers(t.right, v);
      }
    }
  }

  /** Insertion adds exactly `v`, once, unless it is already there. */
  lemma {:induction false} InsertElements(t: Tree, v: int)
    requires StrictOrdered(t)
    ensures v in Elements(t) ==> Insert(t, v) == t
    ensures v !in Elements(t) ==> Elements(Insert(t, v)) == Elements(t) + multiset{v}
  {
    if t.Node? && v != t.value {
      if v < t.value {
        InsertElements(t.left, v);
        assert v !in Elements(t.right);
        if v !in Elements(t.left) {
          Regroup(Elements(t.left), Elements(Insert(t.left, v)), Elements(t.right), t.value, v);
        }
      } else {
        InsertElements(t.right, v);
        assert v !in Elements(t.left);
        if v !in Elements(t.right) {
          Regroup(Elements(t.right), Elements(Insert(t.right, v)), Elements(t.left), t.value, v);
        }
      }
    }
  }

  /**
   * The in-order successor removal of treeRemove: the leftmost node of
   * `t` gives its value and is replaced by its right subtree.
   */
  function RemoveMin(t: Tree): (int, Tree)
    requires t.Node?
  {
    if t.left.Leaf? then (t.value, t.right)
    else
      var (m, rest) := RemoveMin(t.left);
      (m, Node(rest, t.value, t.right))
  }

  /** The removed value and the rest together are the values of the tree. */
  lemma {:induction false} RemoveMinElements(t: Tree)
    requires t.Node?
    ensures Elements(RemoveMin(t).1) + multiset{RemoveMin(t).0} == Elements(t)
  {
    if t.left.Node? {
      RemoveMinElements(t.left);
    }
  }

  /** In an ordered tree the removed value is below every value left, and the rest stays ordered. */
  lemma {:induction false} RemoveMinOrdered(t: Tree)
    requires t.Node? && StrictOrdered(t)
    ensures forall x :: x in Elements(RemoveMin(t).1) ==> x > RemoveMin(t).0
    ensures StrictOrdered(RemoveMin(t).1)
  {
    if t.left.Node? {
      RemoveMinOrdered(t.left);
      RemoveMinElements(t.left);
      var (m, rest) := RemoveMin(t.left);
      assert m in Elements(t.left);
      forall x | x in Elements(rest) ensures x < t.value {
        assert x in Elements(t.left);
      }
    }
  }

  /** What treeRemove does at the node holding the value: unlink it, or copy up the successor. */
  function RemoveRoot(t: Tree): Tree
    requires t.Node?
  {
    if t.left.Leaf? && t.right.Leaf? then Leaf
    else if t.left.Leaf? then t.right
    else if t.right.Leaf? then t.left
    else
      var (m, rest) := RemoveMin(t.right);
      Node(t.left, m, rest)
  }

  /** What treeRemove makes of a tree: the node with `v`, if any, is taken out. */
  function Remove(t: Tree, v: int): Tree
  {
    if t.Leaf? then Leaf
    else if v == t.value then RemoveRoot(t)
    else if v < t.value then Node(Remove(t.left, v), t.value, t.right)
    else Node(t.left, t.value, Remove(t.right, v))
  }

  /** Unlinking a node drops its value and keeps the rest. */
  lemma RemoveRootElements(t: Tree)
    requires t.Node?
    ensures Elements(RemoveRoot(t)) + multiset{t.value} == Elements(t)
  {
    if t.left.Node? && t.right.Node? {
      RemoveMinElements(t.right);
    }
  }

  lemma RemoveRootOrdered(t: Tree)
    requires t.Node? && StrictOrdered(t)
    ensures StrictOrdered(RemoveRoot(t))
  {
    if t.left.Node? && t.right.Node? {
      RemoveMinOrdered(t.right);
      RemoveMinElements(t.right);
      var (m, rest) := RemoveMin(t.right);
      assert m in Elements(t.right);
      forall x | x in Elements(t.left) ensures x < m {
      }
    }
  }

  /** Removal only ever takes values out. */
  lemma {:induction false} RemoveShrinks(t: Tree, v: int)
    ensures forall x :: x in Elements(Remove(t, v)) ==> x in Elements(t)
  {
    if t.Node? {
      if v == t.value {
        RemoveRootElements(t);
      } else if v < t.value {
        RemoveShrinks(t.left, v);
      } else {
        RemoveShrinks(t.right, v);
      }
    }
  }

  /** Removing an absent value changes nothing. */
  lemma {:induction false} RemoveAbsent(t: Tree, v: int)
    requires v !in Elements(t)
    ensures Remove(t, v) == t
  {
    if t.Node? {
      if v < t.value {
        RemoveAbsent(t.left, v);
      } else {
        RemoveAbsent(t.right, v);
      }
    }
  }

  /** In an ordered tree a present value is found and taken out once. */
  lemma {:induction false} RemovePresent(t: Tree, v: int)
    requires StrictOrdered(t) && v in Elements(t)
    ensures Elements(Remove(t, v)) + multiset{v} == Elements(t)
  {
    if v == t.value {
      RemoveRootElements(t);
    } else if v < t.value {
      assert v !in Elements(t.right);
      RemovePresent(t.left, v);
      Regroup(Elements(Remove(t.left, v)), Elements(t.left), Elements(t.right), t.value, v);
    } else {
      assert v !in Elements(t.left);
      RemovePresent(t.right, v);
      Regroup(Elements(Remove(t.right, v)), Elements(t.right), Elements(t.left), t.value, v);
    }
  }

  /** Removal keeps the search-tree order. */
  lemma {:induction false} RemoveOrdered(t: Tree, v: int)
    requires StrictOrdered(t)
    ensures StrictOrdered(Remove(t, v))
  {
    if t.Node? {
      if v == t.value {
        RemoveRootOrdered(t);
      } else if v < t.value {
        RemoveOrdered(t.left, v);
        RemoveShrinks(t.left, v);
      } else {
        RemoveOrdered(t.right, v);
        RemoveShrinks(t.right, v);
      }
    }
  }

  /** Removal takes out `v` once, and an absent value leaves the tree as it is. */
  lemma RemoveElements(t: Tree, v: int)
    requires StrictOrdered(t)
    ensures Elements(Remove(t, v)) == Elements(t) - multiset{v}
    ensures v !in Elements(t) ==> Remove(t, v) == t
  {
    if v in Elements(t) {
      RemovePresent(t, v);
    } else {
      RemoveAbsent(t, v);
    }
  }

  /** hasLeftChild: the node exists and has a left child. */
  predicate HasLeftChild(t: Tree)
  {
    t.Node? && t.left.Node?
  }

  /** hasRightChild: the node exists and has a right child. */
  predicate HasRightChild(t: Tree)
  {
    t.Node? && t.right.Node?
  }

  /** Stepping from an ordered node toward `v`: `v` is below exactly when it is in that subtree. */
  lemma StepLeft(t: Tree, v: int)
    requires t.Node? && StrictOrdered(t) && v < t.value
    ensures v in Elements(t) <==> v in Elements(t.left)
    ensures StrictOrdered(t.left)
  {
    assert v !in Elements(t.right);
  }

  lemma StepRight(t: Tree, v: int)
    requires t.Node? && StrictOrdered(t) && v > t.value
    ensures v in Elements(t) <==> v in Elements(t.right)
    ensures StrictOrdered(t.right)
  {
    assert v !in Elements(t.left);
  }

  /** A step a search for `v` takes: left when `v` is smaller than the node, right when larger. */
  ghost predicate Guides(f: Frame, v: int)
  {
    match f
    case WentLeft(x, _) => v < x
    case WentRight(_, x) => v > x
  }

  /** The path a search for `v` walks. */
  ghost predicate Toward(path: seq<Frame>, v: int)
  {
    forall i :: 0 <= i < |path| ==> Guides(path[i], v)
  }

  lemma TowardTail(path: seq<Frame>, v: int)
    requires path != [] && Toward(path, v)
    ensures Toward(path[1..], v)
  {
    forall i | 0 <= i < |path| - 1 ensures Guides(path[1..][i], v) {
      assert path[1..][i] == path[i + 1];
    }
  }

  /** One step of a search down the left link: the path still leads back to the same tree. */
  lemma DescendLeft(path: seq<Frame>, t: Tree, v: int)
    requires Toward(path, v) && t.Node? && v < t.value
    ensures Plug(path + [WentLeft(t.value, t.right)], t.left) == Plug(path, t)
    ensures Toward(path + [WentLeft(t.value, t.right)], v)
  {
    PlugStep(path, WentLeft(t.value, t.right), t.left);
    assert Plug([WentLeft(t.value, t.right)], t.left) == t;
  }

  lemma DescendRight(path: seq<Frame>, t: Tree, v: int)
    requires Toward(path, v) && t.Node? && v > t.value
    ensures Plug(path + [WentRight(t.left, t.value)], t.right) == Plug(path, t)
    ensures Toward(path + [WentRight(t.left, t.value)], v)
  {
    PlugStep(path, WentRight(t.left, t.value), t.right);
    assert Plug([WentRight(t.left, t.value)], t.right) == t;
  }

  /** Inserting from the root does what inserting at the end of the search path does. */
  lemma {:induction false} PlugInsert(path: seq<Frame>, c: Tree, v: int)
    requires Toward(path, v)
    ensures Insert(Plug(path, c), v) == Plug(path, Insert(c, v))
  {
    if path != [] {
      TowardTail(path, v);
      PlugInsert(path[1..], c, v);
    }
  }

  /** Removing from the root does what removing at the end of the search path does. */
  lemma {:induction false} PlugRemove(path: seq<Frame>, c: Tree, v: int)
    requires Toward(path, v)
    ensures Remove(Plug(path, c), v) == Plug(path, Remove(c, v))
  {
    if path != [] {
      TowardTail(path, v);
      PlugRemove(path[1..], c, v);
    }
  }

  /** The path of the successor search: always to the left. */
  ghost predicate AllLeft(path: seq<Frame>)
  {
    forall i :: 0 <= i < |path| ==> path[i].WentLeft?
  }

  lemma DescendLeftmost(path: seq<Frame>, t: Tree)
    requires AllLeft(path) && t.Node?
    ensures Plug(path + [WentLeft(t.value, t.right)], t.left) == Plug(path, t)
    ensures AllLeft(path + [WentLeft(t.value, t.right)])
  {
    PlugStep(path, WentLeft(t.value, t.right), t.left);
    assert Plug([WentLeft(t.value, t.right)], t.left) == t;
  }

  /** Removing the minimum from the top does what removing it at the end of a leftward path does. */
  lemma {:induction false} PlugRemoveMin(path: seq<Frame>, s: Tree)
    requires AllLeft(path) && s.Node?
    ensures Plug(path, s).Node?
    ensures RemoveMin(Plug(path, s)) == (RemoveMin(s).0, Plug(path, RemoveMin(s).1))
  {
    if path != [] {
      assert AllLeft(path[1..]) by {
        forall i | 0 <= i < |path| - 1 ensures path[1..][i].WentLeft? {
          assert path[1..][i] == path[i + 1];
        }
      }
      PlugRemoveMin(path[1..], s);
    }
  }

  class BinaryTree {
    var root: Tree

    ghost predicate Valid()
      reads this
    {
      StrictOrdered(root)
    }

    /** treeInit: the empty tree. */
    constructor ()
      ensures Valid() && root == Leaf
    {
      root := Leaf;
    }

    /** treeIsEmpty. */
    function IsEmpty(): (r: bool)
      reads this
      ensures r <==> Elements(root) == multiset{}
    {
      root.Leaf?
    }

    /**
     * treeInsert: walk down to the NULL link where the value belongs and
     * hang a new node there; meeting the value on the way gives
     * ERROR_DUPLICATE and no change. Allocation never fails here.
     */
    method TreeInsert(value: int) returns (err: TreeError)
      requires Valid()
      modifies this
      ensures Valid()
      ensures root == Insert(old(root), value)
      ensures err == ErrorDuplicate <==> value in Elements(old(root))
      ensures err == ErrorNone <==> value !in Elements(old(root))
      ensures err == ErrorDuplicate ==> root == old(root)
      ensures err == ErrorNone ==> Elements(root) == Elements(old(root)) + multiset{value}
    {
      InsertElements(root, value);
      InsertOrdered(root, value);
      var path: seq<Frame> := [];
      var current := root;
      while current.Node?
        invariant root == old(root)
        invariant Plug(path, current) == root
        invariant Toward(path, value)
        invariant StrictOrdered(current)
        invariant value in Elements(root) <==> value in Elements(current)
        decreases current
      {
        if value == current.value {
          return ErrorDuplicate;
        } else if value < current.value {
          StepLeft(current, value);
          DescendLeft(path, current, value);
          path := path + [WentLeft(current.value, current.right)];
          current := current.left;
        } else {
          StepRight(current, value);
          DescendRight(path, current, value);
          path := path + [WentRight(current.left, current.value)];
          current := current.right;
        }
      }
      PlugInsert(path, current, value);
      root := Plug(path, Node(Leaf, value, Leaf));
      return ErrorNone;
    }

    /**
     * treeFind: walk down comparing with each node; the node with the
     * value is written to the result and ERROR_NONE returned, otherwise
     * ERROR_NOT_FOUND and the caller's `prev` result stays as it was.
     */
    method TreeFind(value: int, prev: Tree) returns (err: TreeError, result: Tree)
      requires Valid()
      ensures err == ErrorNone <==> value in Elements(root)
      ensures err == ErrorNone || err == ErrorNotFound
      ensures err == ErrorNone ==> result.Node? && result.value == value
      ensures err == ErrorNotFound ==> result == prev
    {
      if root.Leaf? {
        return ErrorNotFound, prev;
      }
      var current := root;
      while current.Node?
        invariant StrictOrdered(current)
        invariant value in Elements(root) <==> value in Elements(current)
        decreases current
      {
        if value == current.value {
          return ErrorNone, current;
        } else if value < current.value {
          StepLeft(current, value);
          current := current.left;
        } else {
          StepRight(current, value);
          current := current.right;
        }
      }
      return ErrorNotFound, prev;
    }

    /**
     * treeRemove: walk down to the link holding the value; a leaf is
     * unlinked, a node with one child is replaced by it, and a node with
     * two children takes the value of its in-order successor, whose own
     * node is unlinked. An empty tree or an absent value gives
     * ERROR_NOT_FOUND.
     */
    method TreeRemove(value: int) returns (err: TreeError)
      requires Valid()
      modifies this
      ensures Valid()
      ensures root == Remove(old(root), value)
      ensures err == ErrorNone <==> value in Elements(old(root))
      ensures err == ErrorNotFound <==> value !in Elements(old(root))
      ensures Elements(root) == Elements(old(root)) - multiset{value}
      ensures err == ErrorNotFound ==> root == old(root)
    {
      RemoveElements(root, value);
      RemoveOrdered(root, value);
      if root.Leaf? {
        return ErrorNotFound;
      }
      var path: seq<Frame> := [];
      var current := root;
      while current.Node? && current.value != value
        invariant root == old(root)
        invariant Plug(path, current) == root
        invariant Toward(path, value)
        invariant StrictOrdered(current)
        invariant value in Elements(root) <==> value in Elements(current)
        decreases current
      {
        if value < current.value {
          StepLeft(current, value);
          DescendLeft(path, current, value);
          path := path + [WentLeft(current.value, current.right)];
          current := current.left;
        } else {
          StepRight(current, value);
          DescendRight(path, current, value);
          path := path + [WentRight(current.left, current.value)];
          current := current.right;
        }
      }
      if current.Leaf? {
        return ErrorNotFound;
      }
      PlugRemove(path, current, value);
      var replacement := Unlink(current);
      root := Plug(path, replacement);
      return ErrorNone;
    }

    /**
     * The unlinking part of treeRemove at the node that holds the value:
     * what is written into the link that pointed to it.
     */
    static method Unlink(node: Tree) returns (replacement: Tree)
      requires node.Node?
      ensures replacement == RemoveRoot(node)
    {
      if node.left.Leaf? && node.right.Leaf? {
        replacement := Leaf;
      } else if node.left.Leaf? {
        replacement := node.right;
      } else if node.right.Leaf? {
        replacement := node.left;
      } else {
        var successorPath: seq<Frame> := [];
        var successor := node.right;
        while successor.left.Node?
          invariant successor.Node?
          invariant Plug(successorPath, successor) == node.right
          invariant AllLeft(successorPath)
          decreases successor
        {
          DescendLeftmost(successorPath, successor);
          successorPath := successorPath + [WentLeft(successor.value, successor.right)];
          successor := successor.left;
        }
        PlugRemoveMin(successorPath, successor);
        replacement := Node(node.left, successor.value, Plug(successorPath, successor.right));
      }
    }

    /** treeFree: every node is released and the root is NULL. */
    method TreeFree()
      modifies this
      ensures root == Leaf && IsEmpty() && Valid()
    {
      root := Leaf;
    }
  }

  /** The tree the test of asd_lab_7.c builds: 10 at the root, 5 on the left, 15 on the right. */
  function SampleTree(): Tree
  {
    Node(Node(Leaf, 5, Leaf), 10, Node(Leaf, 15, Leaf))
  }

  /** The test of asd_lab_7.c, first part: 10, 5, 15 go in; a second 5 is a duplicate. */
  method InsertTest() returns (tree: BinaryTree)
    ensures fresh(tree) && tree.Valid()
    ensures tree.root == SampleTree()
  {
    tree := new BinaryTree();
    var e1 := tree.TreeInsert(10);
    assert e1 == ErrorNone && tree.root == Node(Leaf, 10, Leaf);
    var e2 := tree.TreeInsert(5);
    assert e2 == ErrorNone && tree.root == Node(Node(Leaf, 5, Leaf), 10, Leaf);
    var e3 := tree.TreeInsert(15);
    assert e3 == ErrorNone && tree.root == SampleTree();
    assert Elements(tree.root) == multiset{5, 10, 15};
    var e4 := tree.TreeInsert(5);
    assert e4 == ErrorDuplicate;
  }

  /**
   * The test of asd_lab_7.c, second part: 10, 5 and 15 are found with
   * their values, 20 is not; the root has two children and its left
   * child none.
   */
  method FindTest(tree: BinaryTree) returns (errors: seq<TreeError>, values: seq<int>)
    requires tree.Valid() && tree.root == SampleTree()
    ensures errors == [ErrorNone, ErrorNone, ErrorNone, ErrorNotFound] && values == [10, 5, 15]
    ensures HasLeftChild(tree.root) && HasRightChild(tree.root)
    ensures !HasLeftChild(tree.root.left) && !HasRightChild(tree.root.left)
  {
    assert Elements(tree.root) == multiset{5, 10, 15};
    var found := Leaf;
    var f10, f5, f15, f20;
    f10, found := tree.TreeFind(10, found);
    values := [found.value];
    f5, found := tree.TreeFind(5, found);
    values := values + [found.value];
    f15, found := tree.TreeFind(15, found);
    values := values + [found.value];
    f20, found := tree.TreeFind(20, found);
    errors := [f10, f5, f15, f20];
  }

  /** The removals of the test of asd_lab_7.c: 5 goes and is then not found; 20 is not there to remove; 10 and 15 stay. */
  method RemoveTest(tree: BinaryTree) returns (removed: TreeError, findAfter: TreeError, absent: TreeError)
    requires tree.Valid() && tree.root == SampleTree()
    modifies tree
    ensures removed == ErrorNone && findAfter == ErrorNotFound && absent == ErrorNotFound
    ensures tree.Valid() && tree.root == Node(Leaf, 10, Node(Leaf, 15, Leaf))
  {
    assert 5 in Elements(tree.root);
    removed := tree.TreeRemove(5);
    assert tree.root == Node(Leaf, 10, Node(Leaf, 15, Leaf));
    assert 5 !in Elements(tree.root) && 20 !in Elements(tree.root);
    var found;
    findAfter, found := tree.TreeFind(5, Leaf);
    absent := tree.TreeRemove(20);
  }

  /** The test of asd_lab_7.c, second part: 5 is removed and no longer found; removing 20 fails; freeing empties the tree. */
  method RemoveFreeTest() returns (removed: TreeError, findAfter: TreeError, absent: TreeError, emptyBefore: bool, emptyAfter: bool)
    ensures removed == ErrorNone && findAfter == ErrorNotFound && absent == ErrorNotFound
    ensures !emptyBefore && emptyAfter
  {
    var tree := InsertTest();
    var errors, values := FindTest(tree);
    removed, findAfter, absent := RemoveTest(tree);
    emptyBefore := tree.IsEmpty();
    tree.TreeFree();
    emptyAfter := tree.IsEmpty();
  }
}
