/**
 * The recursive binary search tree of binary_tree.c. Smaller values go
 * left and values not smaller go right, so duplicates are kept
 * (Trees.LooseOrdered). insert and delete take the address of the link
 * they work on (`TreeNode **root`) and rewrite it; the model returns the
 * new subtree that is written into that link, next to the error code.
 */
module DuplicateTree {
  import opened Common
  import opened Trees

  datatype ErrorCode = Success | ErrMemory | ErrNotFound | ErrInvalidInput

  /** create_node: a node with no children. */
  function CreateNode(data: int): (t: Tree)
    ensures Elements(t) == multiset{data} && LooseOrdered(t) && Count(t) == 1
  {
    Node(Leaf, data, Leaf)
  }

  /** insert: down the left link for a smaller value, down the right one otherwise, and a new node at the NULL link reached. */
  function Insert(t: Tree, data: int): (r: (ErrorCode, Tree))
  {
    if t.Leaf? then (Success, CreateNode(data))
    else if data < t.value then (Insert(t.left, data).0, Node(Insert(t.left, data).1, t.value, t.right))
    else (Insert(t.right, data).0, Node(t.left, t.value, Insert(t.right, data).1))
  }

  /** Insertion always succeeds and adds one more copy of the value. */
  lemma {:induction false} InsertAdds(t: Tree, data: int)
    ensures Insert(t, data).0 == Success
    ensures Elements(Insert(t, data).1) == Elements(t) + multiset{data}
  {
    if t.Node? {
      if data < t.value {
        InsertAdds(t.left, data);
      } else {
        InsertAdds(t.right, data);
      }
    }
  }

  /** Insertion keeps the order: smaller on the left, not smaller on the right. */
  lemma {:induction false} InsertOrdered(t: Tree, data: int)
    requires LooseOrdered(t)
    ensures LooseOrdered(Insert(t, data).1)
  {
    if t.Node? {
      if data < t.value {
        InsertOrdered(t.left, data);
        InsertAdds(t.left, data);
        var l' := Insert(t.left, data).1;
        assert Insert(t, data).1 == Node(l', t.value, t.right);
        forall x | x in Elements(l')
          ensures x < t.value
        {
          assert x in Elements(t.left) || x == data;
        }
      } else {
        InsertOrdered(t.right, data);
        InsertAdds(t.right, data);
        var r' := Insert(t.right, data).1;
        assert Insert(t, data).1 == Node(t.left, t.value, r');
        forall x | x in Elements(r')
          ensures x >= t.value
        {
          assert x in Elements(t.right) || x == data;
        }
      }
    }
  }

  /** search: the first node on the search path that holds the value, or NULL. */
  function Search(t: Tree, data: int): (r: Option<Tree>)
    ensures r.Some? ==> r.value.Node? && r.value.value == data
  {
    if t.Leaf? then None
    else if t.value == data then Some(t)
    else if data < t.value then Search(t.left, data)
    else Search(t.right, data)
  }

  /** In an ordered tree the search finds the value exactly when it is stored. */
  lemma {:induction false} SearchFinds(t: Tree, data: int)
    requires LooseOrdered(t)
    ensures Search(t, data).Some? <==> data in Elements(t)
  {
    if t.Node? && t.value != data {
      if data < t.value {
        SearchFinds(t.left, data);
        assert data !in Elements(t.right);
      } else {
        SearchFinds(t.right, data);
        assert data !in Elements(t.left);
      }
    }
  }

  /** The value of the leftmost node. */
  function Leftmost(t: Tree): int
    requires t.Node?
  {
    if t.left.Leaf? then t.value else Leftmost(t.left)
  }

  /** The leftmost value is stored, and in an ordered tree no stored value is smaller. */
  lemma {:induction false} LeftmostIsMin(t: Tree)
    requires t.Node?
    ensures Leftmost(t) in Elements(t)
    ensures LooseOrdered(t) ==> forall x :: x in Elements(t) ==> Leftmost(t) <= x
  {
    if t.left.Node? {
      LeftmostIsMin(t.left);
    }
  }

  /** find_min: follow the left links while there is one; NULL gives NULL. */
  method FindMin(root: Tree) returns (min: Tree)
    ensures root.Leaf? ==> min == Leaf
    ensures root.Node? ==> min.Node? && min.left.Leaf? && min.value == Leftmost(root)
  {
    min := root;
    while min.Node? && min.left.Node?
      invariant min.Node? ==> root.Node? && Leftmost(min) == Leftmost(root)
      invariant min.Leaf? ==> root.Leaf?
      decreases min
    {
      min := min.left;
    }
  }

  /**
   * delete: down the left link for a smaller value, down the right one for
   * a larger one; at the value's node a missing child lets the other one
   * take its place, and with two children the node takes the minimum of
   * its right subtree, which is then deleted from that subtree.
   */
  function Delete(t: Tree, data: int): (r: (ErrorCode, Tree))
  {
    if t.Leaf? then (ErrNotFound, t)
    else if data < t.value then (Delete(t.left, data).0, Node(Delete(t.left, data).1, t.value, t.right))
    else if data > t.value then (Delete(t.right, data).0, Node(t.left, t.value, Delete(t.right, data).1))
    else if t.left.Leaf? then (Success, t.right)
    else if t.right.Leaf? then (Success, t.left)
    else
      var m := Leftmost(t.right);
      (Delete(t.right, m).0, Node(t.left, m, Delete(t.right, m).1))
  }

  /** Deleting an absent value reports ERR_NOT_FOUND and changes nothing. */
  lemma {:induction false} DeleteAbsent(t: Tree, data: int)
    requires data !in Elements(t)
    ensures Delete(t, data) == (ErrNotFound, t)
  {
    if t.Node? {
      if data < t.value {
        DeleteAbsent(t.left, data);
      } else {
        DeleteAbsent(t.right, data);
      }
    }
  }

  /** Deletion only ever takes values out. */
  lemma {:induction false} DeleteShrinks(t: Tree, data: int)
    ensures forall x :: x in Elements(Delete(t, data).1) ==> x in Elements(t)
  {
    if t.Node? {
      if data < t.value {
        DeleteShrinks(t.left, data);
      } else if data > t.value {
        DeleteShrinks(t.right, data);
      } else if t.left.Node? && t.right.Node? {
        DeleteShrinks(t.right, Leftmost(t.right));
        LeftmostIsMin(t.right);
      }
    }
  }

  /** In an ordered tree a stored value is deleted: SUCCESS, and one copy fewer. */
  lemma {:induction false} DeletePresent(t: Tree, data: int)
    requires LooseOrdered(t) && data in Elements(t)
    ensures Delete(t, data).0 == Success
    ensures Elements(Delete(t, data).1) + multiset{data} == Elements(t)
  {
    if data < t.value {
      assert data !in Elements(t.right);
      DeletePresent(t.left, data);
      DeleteLeftStep(t, data);
    } else if data > t.value {
      assert data !in Elements(t.left);
      DeletePresent(t.right, data);
      DeleteRightStep(t, data);
    } else if t.left.Leaf? || t.right.Leaf? {
      DeleteOneSided(t);
    } else {
      LeftmostIsMin(t.right);
      DeletePresent(t.right, Leftmost(t.right));
      DeleteSuccessor(t);
    }
  }

  /** A smaller value: deleting it from the left subtree deletes it from the tree. */
  lemma DeleteLeftStep(t: Tree, data: int)
    requires t.Node? && data < t.value
    requires Delete(t.left, data).0 == Success && Elements(Delete(t.left, data).1) + multiset{data} == Elements(t.left)
    ensures Delete(t, data).0 == Success && Elements(Delete(t, data).1) + multiset{data} == Elements(t)
  {
    var l' := Delete(t.left, data).1;
    assert Delete(t, data).1 == Node(l', t.value, t.right);
    Regroup(Elements(l'), Elements(t.left), Elements(t.right), t.value, data);
  }

  /** A larger value: deleting it from the right subtree deletes it from the tree. */
  lemma DeleteRightStep(t: Tree, data: int)
    requires t.Node? && data > t.value
    requires Delete(t.right, data).0 == Success && Elements(Delete(t.right, data).1) + multiset{data} == Elements(t.right)
    ensures Delete(t, data).0 == Success && Elements(Delete(t, data).1) + multiset{data} == Elements(t)
  {
    var r' := Delete(t.right, data).1;
    assert Delete(t, data).1 == Node(t.left, t.value, r');
    Regroup(Elements(r'), Elements(t.right), Elements(t.left), t.value, data);
  }

  /** The value's node with a missing child: the other child takes its place. */
  lemma DeleteOneSided(t: Tree)
    requires t.Node? && (t.left.Leaf? || t.right.Leaf?)
    ensures Delete(t, t.value).0 == Success && Elements(Delete(t, t.value).1) + multiset{t.value} == Elements(t)
  {
    if t.left.Leaf? {
      assert Delete(t, t.value).1 == t.right;
      OneSided(Elements(t.right), t.value);
    } else {
      assert Delete(t, t.value).1 == t.left;
      OneSided(Elements(t.left), t.value);
    }
  }

  /** A node with one empty side holds its value and the other side. */
  lemma OneSided(a: multiset<int>, d: int)
    ensures a + multiset{d} == multiset{} + multiset{d} + a
    ensures a + multiset{d} == a + multiset{d} + multiset{}
  {
    assert forall x :: (a + multiset{d})[x] == (multiset{} + multiset{d} + a)[x];
  }

  /** The two-child case: the successor's value moves up and one copy of it leaves the right subtree. */
  lemma {:induction false} DeleteSuccessor(t: Tree)
    requires LooseOrdered(t) && t.Node? && t.left.Node? && t.right.Node?
    requires Delete(t.right, Leftmost(t.right)).0 == Success
    requires Elements(Delete(t.right, Leftmost(t.right)).1) + multiset{Leftmost(t.right)} == Elements(t.right)
    ensures Delete(t, t.value).0 == Success
    ensures Elements(Delete(t, t.value).1) + multiset{t.value} == Elements(t)
  {
    var m := Leftmost(t.right);
    var r' := Delete(t.right, m).1;
    assert Elements(r') + multiset{m} == Elements(t.right);
    assert Elements(Delete(t, t.value).1) == Elements(t.left) + multiset{m} + Elements(r');
  }

  /** Deletion keeps the order. */
  lemma {:induction false} DeleteOrdered(t: Tree, data: int)
    requires LooseOrdered(t)
    ensures LooseOrdered(Delete(t, data).1)
  {
    if t.Node? {
      if data < t.value {
        DeleteOrdered(t.left, data);
        DeleteShrinks(t.left, data);
      } else if data > t.value {
        DeleteOrdered(t.right, data);
        DeleteShrinks(t.right, data);
      } else if t.left.Node? && t.right.Node? {
        var m := Leftmost(t.right);
        LeftmostIsMin(t.right);
        DeleteOrdered(t.right, m);
        DeleteShrinks(t.right, m);
        assert m >= t.value;
      }
    }
  }

  /** delete, all cases: ERR_NOT_FOUND exactly for an absent value (tree unchanged), otherwise one copy fewer, in order. */
  lemma DeleteSpec(t: Tree, data: int)
    requires LooseOrdered(t)
    ensures Delete(t, data).0 == ErrNotFound <==> data !in Elements(t)
    ensures Delete(t, data).0 == Success <==> data in Elements(t)
    ensures Delete(t, data).0 == ErrNotFound ==> Delete(t, data).1 == t
    ensures Elements(Delete(t, data).1) == Elements(t) - multiset{data}
    ensures LooseOrdered(Delete(t, data).1)
  {
    DeleteOrdered(t, data);
    var r := Delete(t, data);
    if data in Elements(t) {
      DeletePresent(t, data);
      LessOne(Elements(r.1), Elements(t), data);
    } else {
      DeleteAbsent(t, data);
      LessAbsent(Elements(t), data);
    }
  }

  /** Taking one copy away undoes adding it. */
  lemma LessOne(a: multiset<int>, b: multiset<int>, d: int)
    requires a + multiset{d} == b
    ensures a == b - multiset{d}
  {
    assert forall x :: a[x] == (b - multiset{d})[x];
  }

  /** Taking away a value that is not there changes nothing. */
  lemma LessAbsent(b: multiset<int>, d: int)
    requires d !in b
    ensures b - multiset{d} == b
  {
    assert forall x :: b[x] == (b - multiset{d})[x];
  }

  /** traverse_inorder: every stored value once, in non-decreasing order. */
  lemma InorderSorted(t: Tree)
    requires LooseOrdered(t)
    ensures NonDecreasing(InOrder(t))
    ensures multiset(InOrder(t)) == Elements(t)
  {
    LooseInOrderNonDecreasing(t);
    InOrderElements(t);
  }

  /** traverse_breadth: the walk with its array of QUEUE_SIZE = 512 pointers; a larger tree overruns it. */
  method TraverseBreadth(root: Tree) returns (out: seq<int>)
    requires Count(root) <= 512
    ensures out == LevelOrder([root])
    ensures multiset(out) == Elements(root)
  {
    out := BreadthFirst(root, 512);
    BreadthOrder(root);
  }

  function Single(v: int): Tree
  {
    Node(Leaf, v, Leaf)
  }

  /** The tree main of binary_tree.c builds: 5, then 50, 30, 70, 20, 40, 60, 80. */
  function Example(): Tree
  {
    Node(Leaf, 5, Node(Node(Single(20), 30, Single(40)), 50, Node(Single(60), 70, Single(80))))
  }

  /** main of binary_tree.c, building: each insert reports SUCCESS. */
  lemma BuildExample()
    ensures Insert(Single(5), 50) == (Success, Node(Leaf, 5, Single(50)))
    ensures Insert(Node(Leaf, 5, Single(50)), 30) == (Success, Node(Leaf, 5, Node(Single(30), 50, Leaf)))
    ensures Insert(Node(Leaf, 5, Node(Single(30), 50, Leaf)), 70) == (Success, Node(Leaf, 5, Node(Single(30), 50, Single(70))))
    ensures Insert(Node(Leaf, 5, Node(Single(30), 50, Single(70))), 20)
         == (Success, Node(Leaf, 5, Node(Node(Single(20), 30, Leaf), 50, Single(70))))
    ensures Insert(Node(Leaf, 5, Node(Node(Single(20), 30, Leaf), 50, Single(70))), 40)
         == (Success, Node(Leaf, 5, Node(Node(Single(20), 30, Single(40)), 50, Single(70))))
    ensures Insert(Node(Leaf, 5, Node(Node(Single(20), 30, Single(40)), 50, Single(70))), 60)
         == (Success, Node(Leaf, 5, Node(Node(Single(20), 30, Single(40)), 50, Node(Single(60), 70, Leaf))))
    ensures Insert(Node(Leaf, 5, Node(Node(Single(20), 30, Single(40)), 50, Node(Single(60), 70, Leaf))), 80)
         == (Success, Example())
  {
  }

  /** main of binary_tree.c, deleting: 20 is a leaf, 50 has two children and takes 60, 100 is absent. */
  lemma DeleteExample()
    ensures Delete(Example(), 20) == (Success, Node(Leaf, 5, Node(Node(Leaf, 30, Single(40)), 50, Node(Single(60), 70, Single(80)))))
    ensures Delete(Node(Leaf, 5, Node(Node(Leaf, 30, Single(40)), 50, Node(Single(60), 70, Single(80)))), 50)
         == (Success, Node(Leaf, 5, Node(Node(Leaf, 30, Single(40)), 60, Node(Leaf, 70, Single(80)))))
    ensures Delete(Node(Leaf, 5, Node(Node(Leaf, 30, Single(40)), 60, Node(Leaf, 70, Single(80)))), 100)
         == (ErrNotFound, Node(Leaf, 5, Node(Node(Leaf, 30, Single(40)), 60, Node(Leaf, 70, Single(80)))))
    ensures InOrder(Node(Leaf, 5, Node(Node(Leaf, 30, Single(40)), 60, Node(Leaf, 70, Single(80))))) == [5, 30, 40, 60, 70, 80]
  {
    assert Leftmost(Node(Single(60), 70, Single(80))) == 60;
  }

  /** main of binary_tree.c: the inserts succeed, 40 is found and 90 is not, 20 and 50 are deleted and 100 is not found. */
  method MainTest() returns (codes: seq<ErrorCode>, found40: bool, found90: bool, deletes: seq<ErrorCode>, after: seq<int>)
    ensures codes == [Success, Success, Success, Success, Success, Success, Success]
    ensures found40 && !found90
    ensures deletes == [Success, Success, ErrNotFound]
    ensures after == [5, 30, 40, 60, 70, 80]
  {
    BuildExample();
    DeleteExample();
    var tree := CreateNode(5);
    var r1 := Insert(tree, 50);
    var r2 := Insert(r1.1, 30);
    var r3 := Insert(r2.1, 70);
    var r4 := Insert(r3.1, 20);
    var r5 := Insert(r4.1, 40);
    var r6 := Insert(r5.1, 60);
    var r7 := Insert(r6.1, 80);
    codes := [r1.0, r2.0, r3.0, r4.0, r5.0, r6.0, r7.0];
    tree := r7.1;
    found40 := Search(tree, 40).Some?;
    found90 := Search(tree, 90).Some?;
    var d1 := Delete(tree, 20);
    var d2 := Delete(d1.1, 50);
    var d3 := Delete(d2.1, 100);
    deletes := [d1.0, d2.0, d3.0];
    after := InOrder(d3.1);
  }
}
