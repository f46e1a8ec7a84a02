/**
 * The red-black tree of RB_tree.c. A node's parent pointer is modelled
 * by a zipper: the walk from a node up to the root is a path of frames,
 * each holding the parent's colour, key and other child, so that
 * parent, grandparent and uncle are path[0], path[1] and the sibling
 * stored in path[1]. Plugging the node back into its path rebuilds the
 * whole tree, which keeps every parent/child link consistent by
 * construction.
 */
module RedBlack {
  import Trees

  datatype Color = Red | Black

  datatype RBTree = Nil | Node(color: Color, left: RBTree, data: int, right: RBTree)

  /** NULL counts as black. */
  predicate IsBlack(t: RBTree)
  {
    t.Nil? || t.color == Black
  }

  function Blacken(t: RBTree): RBTree
  {
    if t.Nil? then Nil else t.(color := Black)
  }

  /** create_node: a new node is red, with no children (the NULL parent is the empty path). */
  function CreateNode(data: int): (t: RBTree)
    ensures t.Node? && t.color == Red && t.data == data && t.left.Nil? && t.right.Nil?
  {
    Node(Red, Nil, data, Nil)
  }

  function InOrder(t: RBTree): seq<int>
  {
    if t.Nil? then [] else InOrder(t.left) + [t.data] + InOrder(t.right)
  }

  ghost function Elements(t: RBTree): set<int>
  {
    set x | x in InOrder(t)
  }

  /** The number of black nodes on a path down to NULL, NULL included. */
  function BlackHeight(t: RBTree): nat
  {
    if t.Nil? then 1 else BlackHeight(t.left) + (if t.color == Black then 1 else 0)
  }

  /** No red node has a red child. */
  ghost predicate RedOk(t: RBTree)
  {
    t.Node? ==> (t.color == Red ==> IsBlack(t.left) && IsBlack(t.right)) && RedOk(t.left) && RedOk(t.right)
  }

  /** Every path from a node down to NULL meets the same number of black nodes. */
  ghost predicate BlackOk(t: RBTree)
  {
    t.Node? ==> BlackHeight(t.left) == BlackHeight(t.right) && BlackOk(t.left) && BlackOk(t.right)
  }

  /** The red-black invariants, with the keys ascending in order. */
  ghost predicate RedBlackTree(t: RBTree)
  {
    IsBlack(t) && RedOk(t) && BlackOk(t) && Trees.Increasing(InOrder(t))
  }

  /** left_rotate around x: its right child y takes its place; every node keeps its colour. */
  function RotateLeft(x: RBTree): RBTree
    requires x.Node? && x.right.Node?
  {
    var y := x.right;
    Node(y.color, Node(x.color, x.left, x.data, y.left), y.data, y.right)
  }

  /** right_rotate around y: its left child x takes its place; every node keeps its colour. */
  function RotateRight(y: RBTree): RBTree
    requires y.Node? && y.left.Node?
  {
    var x := y.left;
    Node(x.color, x.left, x.data, Node(y.color, x.right, y.data, y.right))
  }

  /** The rotations keep the in-order sequence and undo each other. */
  lemma RotateLeftSpec(x: RBTree)
    requires x.Node? && x.right.Node?
    ensures InOrder(RotateLeft(x)) == InOrder(x)
    ensures RotateLeft(x).left.Node? && RotateRight(RotateLeft(x)) == x
  {
    var y := x.right;
    Regroup(InOrder(x.left), [x.data], InOrder(y.left), [y.data], InOrder(y.right));
  }

  lemma RotateRightSpec(y: RBTree)
    requires y.Node? && y.left.Node?
    ensures InOrder(RotateRight(y)) == InOrder(y)
    ensures RotateRight(y).right.Node? && RotateLeft(RotateRight(y)) == y
  {
    var x := y.left;
    Regroup(InOrder(x.left), [x.data], InOrder(x.right), [y.data], InOrder(y.right));
  }

  /** The groupings of five concatenated sequences this module needs. */
  lemma Regroup(p1: seq<int>, p2: seq<int>, p3: seq<int>, p4: seq<int>, p5: seq<int>)
    ensures (p1 + p2 + p3) + p4 + p5 == p1 + p2 + (p3 + p4 + p5)
    ensures p1 + (p2 + p3 + p4) + p5 == (p1 + p2) + p3 + (p4 + p5)
  {
  }

  // ---------------------------------------------------------------
  // The parent chain as a zipper
  // ---------------------------------------------------------------

  /** One step up: the node was the left child (LeftOf) or the right child (RightOf) of a parent. */
  datatype Frame = LeftOf(color: Color, data: int, right: RBTree) | RightOf(color: Color, left: RBTree, data: int)

  /** The parent node with `t` as the child the frame stands for. */
  function Wrap(f: Frame, t: RBTree): RBTree
  {
    match f
    case LeftOf(c, d, r) => Node(c, t, d, r)
    case RightOf(c, l, d) => Node(c, l, d, t)
  }

  /** The frame with the parent repainted. */
  function Paint(f: Frame, c: Color): Frame
  {
    match f
    case LeftOf(_, d, r) => LeftOf(c, d, r)
    case RightOf(_, l, d) => RightOf(c, l, d)
  }

  /** The whole tree, rebuilt by walking the path from the node (path[0] its parent) to the root. */
  function Plug(path: seq<Frame>, t: RBTree): RBTree
    decreases |path|
  {
    if path == [] then t else Plug(path[1..], Wrap(path[0], t))
  }

  /** The keys in order before and after the hole of one frame. */
  function LeftPart(f: Frame): seq<int>
  {
    if f.LeftOf? then [] else InOrder(f.left) + [f.data]
  }

  function RightPart(f: Frame): seq<int>
  {
    if f.LeftOf? then [f.data] + InOrder(f.right) else []
  }

  /** The keys in order before and after the hole of a path. */
  function Before(path: seq<Frame>): seq<int>
    decreases |path|
  {
    if path == [] then [] else Before(path[1..]) + LeftPart(path[0])
  }

  function After(path: seq<Frame>): seq<int>
    decreases |path|
  {
    if path == [] then [] else RightPart(path[0]) + After(path[1..])
  }

  lemma PlugCons(f: Frame, path: seq<Frame>, t: RBTree)
    ensures Plug([f] + path, t) == Plug(path, Wrap(f, t))
    ensures Before([f] + path) == Before(path) + LeftPart(f)
    ensures After([f] + path) == RightPart(f) + After(path)
  {
    assert ([f] + path)[1..] == path;
  }

  lemma PlugTwo(path: seq<Frame>, t: RBTree)
    requires |path| >= 2
    ensures Plug(path, t) == Plug(path[2..], Wrap(path[1], Wrap(path[0], t)))
  {
    assert path[1..][1..] == path[2..];
  }

  lemma PlugSingle(path: seq<Frame>, t: RBTree)
    ensures |path| == 1 ==> Plug(path, t) == Wrap(path[0], t)
  {
    if |path| == 1 {
      assert path[1..] == [];
    }
  }

  /** The in-order sequence of a plugged tree is the path's part before, the node's, and the path's part after. */
  lemma {:induction false} PlugInOrder(path: seq<Frame>, t: RBTree)
    ensures InOrder(Plug(path, t)) == Before(path) + InOrder(t) + After(path)
    decreases |path|
  {
    if path != [] {
      var w := Wrap(path[0], t);
      PlugInOrder(path[1..], w);
      var b, a := Before(path[1..]), After(path[1..]);
      var lp, rp := LeftPart(path[0]), RightPart(path[0]);
      WrapInOrder(path[0], t);
      assert Plug(path, t) == Plug(path[1..], w);
      assert Before(path) == b + lp && After(path) == rp + a;
      Regroup(b, lp, InOrder(t), rp, a);
    }
  }

  lemma WrapInOrder(f: Frame, t: RBTree)
    ensures InOrder(Wrap(f, t)) == LeftPart(f) + InOrder(t) + RightPart(f)
  {
    match f
    case LeftOf(c, d, r) =>
      assert InOrder(Wrap(f, t)) == InOrder(t) + [d] + InOrder(r);
    case RightOf(c, l, d) =>
      assert InOrder(Wrap(f, t)) == InOrder(l) + [d] + InOrder(t);
  }

  /** Replacing the node by one with the same in-order sequence keeps the whole tree's. */
  lemma PlugSameInOrder(path: seq<Frame>, x: RBTree, y: RBTree)
    requires InOrder(x) == InOrder(y)
    ensures InOrder(Plug(path, x)) == InOrder(Plug(path, y))
  {
    PlugInOrder(path, x);
    PlugInOrder(path, y);
  }

  lemma {:induction false} PlugRedInner(path: seq<Frame>, t: RBTree)
    requires RedOk(Plug(path, t))
    ensures RedOk(t)
    decreases |path|
  {
    if path != [] {
      PlugRedInner(path[1..], Wrap(path[0], t));
    }
  }

  lemma {:induction false} PlugBlackInner(path: seq<Frame>, t: RBTree)
    requires BlackOk(Plug(path, t))
    ensures BlackOk(t)
    decreases |path|
  {
    if path != [] {
      PlugBlackInner(path[1..], Wrap(path[0], t));
    }
  }

  /** A node may be replaced by a red-correct one that is black wherever the old one was. */
  lemma {:induction false} PlugRedSwap(path: seq<Frame>, x: RBTree, y: RBTree)
    requires RedOk(Plug(path, x)) && RedOk(y) && (IsBlack(x) ==> IsBlack(y))
    ensures RedOk(Plug(path, y))
    decreases |path|
  {
    if path != [] {
      PlugRedInner(path[1..], Wrap(path[0], x));
      PlugRedSwap(path[1..], Wrap(path[0], x), Wrap(path[0], y));
    }
  }

  /** A node may be replaced by a black-correct one of the same black height. */
  lemma {:induction false} PlugBlackSwap(path: seq<Frame>, x: RBTree, y: RBTree)
    requires BlackOk(Plug(path, x)) && BlackOk(y) && BlackHeight(x) == BlackHeight(y)
    ensures BlackOk(Plug(path, y)) && BlackHeight(Plug(path, y)) == BlackHeight(Plug(path, x))
    decreases |path|
  {
    if path != [] {
      PlugBlackInner(path[1..], Wrap(path[0], x));
      PlugBlackSwap(path[1..], Wrap(path[0], x), Wrap(path[0], y));
    }
  }

  /** Below a non-empty path the root's colour does not depend on the node. */
  lemma {:induction false} PlugColor(path: seq<Frame>, x: RBTree, y: RBTree)
    requires path != []
    ensures IsBlack(Plug(path, x)) == IsBlack(Plug(path, y))
    decreases |path|
  {
    if |path| > 1 {
      PlugColor(path[1..], Wrap(path[0], x), Wrap(path[0], y));
    }
  }

  // ---------------------------------------------------------------
  // fix_insert
  // ---------------------------------------------------------------

  /**
   * The state at the head of fix_insert's loop: the node is red and the
   * only red-red pair the tree may hold is the node and its parent (so
   * painting the node black would leave no such pair), every black
   * height agrees, the root is black unless the node is the root, and
   * the in-order sequence is `target` throughout.
   */
  ghost predicate FixInv(path: seq<Frame>, node: RBTree, target: seq<int>)
  {
    && node.Node? && node.color == Red && RedOk(node)
    && RedOk(Plug(path, Blacken(node)))
    && BlackOk(Plug(path, node))
    && (path != [] ==> IsBlack(Plug(path, node)))
    && InOrder(Plug(path, node)) == target
  }

  /** A red parent is not the root, so the grandparent node->parent->parent exists, and it is black. */
  lemma GrandparentExists(path: seq<Frame>, node: RBTree, target: seq<int>)
    requires FixInv(path, node, target) && path != [] && path[0].color == Red
    ensures |path| >= 2 && path[1].color == Black
  {
    PlugSingle(path, node);
    if |path| >= 2 {
      PlugTwo(path, Blacken(node));
      PlugRedInner(path[2..], Wrap(path[1], Wrap(path[0], Blacken(node))));
    }
  }

  /** The local facts of a red parent that is the left child of the grandparent. */
  lemma ParentLeftFacts(path: seq<Frame>, node: RBTree, target: seq<int>)
    requires FixInv(path, node, target) && |path| >= 2 && path[0].color == Red && path[1].LeftOf?
    ensures path[1].color == Black
    ensures RedOk(path[1].right) && BlackOk(path[1].right) && BlackHeight(path[1].right) == BlackHeight(node)
    ensures BlackOk(node)
    ensures path[0].LeftOf? ==> IsBlack(path[0].right) && RedOk(path[0].right) && BlackOk(path[0].right) && BlackHeight(path[0].right) == BlackHeight(node)
    ensures path[0].RightOf? ==> IsBlack(path[0].left) && RedOk(path[0].left) && BlackOk(path[0].left) && BlackHeight(path[0].left) == BlackHeight(node)
    ensures RedOk(Plug(path[2..], Wrap(path[1], Wrap(path[0], Blacken(node)))))
    ensures BlackOk(Plug(path[2..], Wrap(path[1], Wrap(path[0], node))))
  {
    PlugTwo(path, Blacken(node));
    PlugTwo(path, node);
    PlugRedInner(path[2..], Wrap(path[1], Wrap(path[0], Blacken(node))));
    PlugBlackInner(path[2..], Wrap(path[1], Wrap(path[0], node)));
  }

  /** The local facts of a red parent that is the right child of the grandparent. */
  lemma ParentRightFacts(path: seq<Frame>, node: RBTree, target: seq<int>)
    requires FixInv(path, node, target) && |path| >= 2 && path[0].color == Red && path[1].RightOf?
    ensures path[1].color == Black
    ensures RedOk(path[1].left) && BlackOk(path[1].left) && BlackHeight(path[1].left) == BlackHeight(node)
    ensures BlackOk(node)
    ensures path[0].LeftOf? ==> IsBlack(path[0].right) && RedOk(path[0].right) && BlackOk(path[0].right) && BlackHeight(path[0].right) == BlackHeight(node)
    ensures path[0].RightOf? ==> IsBlack(path[0].left) && RedOk(path[0].left) && BlackOk(path[0].left) && BlackHeight(path[0].left) == BlackHeight(node)
    ensures RedOk(Plug(path[2..], Wrap(path[1], Wrap(path[0], Blacken(node)))))
    ensures BlackOk(Plug(path[2..], Wrap(path[1], Wrap(path[0], node))))
  {
    PlugTwo(path, Blacken(node));
    PlugTwo(path, node);
    PlugRedInner(path[2..], Wrap(path[1], Wrap(path[0], Blacken(node))));
    PlugBlackInner(path[2..], Wrap(path[1], Wrap(path[0], node)));
  }

  /**
   * A subtree that replaces the grandparent keeps everything above it
   * right: the red rule where it is black or red-correct in a red
   * grandparent's place, black heights, the root's colour and order.
   */
  lemma ReplaceGrandparent(path: seq<Frame>, node: RBTree, target: seq<int>, y: RBTree)
    requires FixInv(path, node, target) && |path| >= 2
    requires path[1].color == Black
    requires RedOk(Plug(path[2..], Wrap(path[1], Wrap(path[0], Blacken(node)))))
    requires BlackOk(Plug(path[2..], Wrap(path[1], Wrap(path[0], node))))
    requires RedOk(y) && BlackOk(y) && BlackHeight(y) == BlackHeight(Wrap(path[1], Wrap(path[0], node)))
    requires InOrder(y) == InOrder(Wrap(path[1], Wrap(path[0], node)))
    ensures RedOk(Plug(path[2..], Blacken(y)))
    ensures BlackOk(Plug(path[2..], y))
    ensures path[2..] != [] ==> IsBlack(Plug(path[2..], y))
    ensures InOrder(Plug(path[2..], y)) == target
  {
    var g := Wrap(path[1], Wrap(path[0], node));
    PlugTwo(path, node);
    PlugRedSwap(path[2..], Wrap(path[1], Wrap(path[0], Blacken(node))), Blacken(y));
    PlugBlackSwap(path[2..], g, y);
    if path[2..] != [] {
      PlugColor(path[2..], g, y);
    }
    PlugSameInOrder(path[2..], g, y);
  }

  /** Case 1, parent on the left: parent and uncle turn black, the grandparent red, and the fix moves up to it. */
  lemma FixRecolorLeft(path: seq<Frame>, node: RBTree, target: seq<int>)
    requires FixInv(path, node, target) && |path| >= 2 && path[0].color == Red && path[1].LeftOf?
    requires path[1].right.Node? && path[1].right.color == Red
    ensures FixInv(path[2..], Node(Red, Wrap(Paint(path[0], Black), node), path[1].data, Blacken(path[1].right)), target)
  {
    ParentLeftFacts(path, node, target);
    var y := Node(Red, Wrap(Paint(path[0], Black), node), path[1].data, Blacken(path[1].right));
    assert InOrder(Wrap(Paint(path[0], Black), node)) == InOrder(Wrap(path[0], node));
    ReplaceGrandparent(path, node, target, y);
  }

  /** Case 1, parent on the right: the mirror image. */
  lemma FixRecolorRight(path: seq<Frame>, node: RBTree, target: seq<int>)
    requires FixInv(path, node, target) && |path| >= 2 && path[0].color == Red && path[1].RightOf?
    requires path[1].left.Node? && path[1].left.color == Red
    ensures FixInv(path[2..], Node(Red, Blacken(path[1].left), path[1].data, Wrap(Paint(path[0], Black), node)), target)
  {
    ParentRightFacts(path, node, target);
    var y := Node(Red, Blacken(path[1].left), path[1].data, Wrap(Paint(path[0], Black), node));
    assert InOrder(Wrap(Paint(path[0], Black), node)) == InOrder(Wrap(path[0], node));
    ReplaceGrandparent(path, node, target, y);
  }

  /**
   * Case 3, parent on the left and the node its right child: the node
   * moves to the parent and left_rotate lifts the old node above it; the
   * state then is case 2's, a red left child of a red left child.
   */
  lemma PreRotateLeft(path: seq<Frame>, node: RBTree, target: seq<int>)
    requires FixInv(path, node, target) && |path| >= 2 && path[0].color == Red && path[1].LeftOf? && path[0].RightOf?
    ensures var r := RotateLeft(Wrap(path[0], node));
      && r.left.Node?
      && FixInv([LeftOf(r.color, r.data, r.right)] + path[1..], r.left, target)
      && ([LeftOf(r.color, r.data, r.right)] + path[1..])[1..] == path[1..]
  {
    ParentLeftFacts(path, node, target);
    var p := Wrap(path[0], node);
    var r := RotateLeft(p);
    var top := [LeftOf(r.color, r.data, r.right)] + path[1..];
    PlugCons(path[0], path[1..], node);
    PlugCons(path[0], path[1..], Blacken(node));
    PlugCons(top[0], path[1..], r.left);
    PlugCons(top[0], path[1..], Blacken(r.left));
    PlugRedInner(path[1..], Wrap(path[0], Blacken(node)));
    PlugRedSwap(path[1..], Wrap(path[0], Blacken(node)), Wrap(top[0], Blacken(r.left)));
    PlugBlackInner(path[1..], p);
    PlugBlackSwap(path[1..], p, r);
    PlugColor(path[1..], p, r);
    RotateLeftSpec(p);
    PlugSameInOrder(path[1..], p, r);
    assert top[1..] == path[1..];
  }

  /** Case 3, parent on the right and the node its left child: the mirror image, with right_rotate. */
  lemma PreRotateRight(path: seq<Frame>, node: RBTree, target: seq<int>)
    requires FixInv(path, node, target) && |path| >= 2 && path[0].color == Red && path[1].RightOf? && path[0].LeftOf?
    ensures var r := RotateRight(Wrap(path[0], node));
      && r.right.Node?
      && FixInv([RightOf(r.color, r.left, r.data)] + path[1..], r.right, target)
      && ([RightOf(r.color, r.left, r.data)] + path[1..])[1..] == path[1..]
  {
    ParentRightFacts(path, node, target);
    var p := Wrap(path[0], node);
    var r := RotateRight(p);
    var top := [RightOf(r.color, r.left, r.data)] + path[1..];
    PlugCons(path[0], path[1..], node);
    PlugCons(path[0], path[1..], Blacken(node));
    PlugCons(top[0], path[1..], r.right);
    PlugCons(top[0], path[1..], Blacken(r.right));
    PlugRedInner(path[1..], Wrap(path[0], Blacken(node)));
    PlugRedSwap(path[1..], Wrap(path[0], Blacken(node)), Wrap(top[0], Blacken(r.right)));
    PlugBlackInner(path[1..], p);
    PlugBlackSwap(path[1..], p, r);
    PlugColor(path[1..], p, r);
    RotateRightSpec(p);
    PlugSameInOrder(path[1..], p, r);
    assert top[1..] == path[1..];
  }

  /**
   * Case 2, parent on the left and the node its left child: the parent
   * turns black, the grandparent red, and right_rotate lifts the parent
   * into the grandparent's place; the parent is now black, which ends
   * the loop.
   */
  lemma FixRotateLeft(path: seq<Frame>, node: RBTree, target: seq<int>)
    requires FixInv(path, node, target) && |path| >= 2 && path[0].color == Red && path[1].LeftOf? && path[0].LeftOf?
    requires IsBlack(path[1].right)
    ensures var r := RotateRight(Node(Red, Wrap(Paint(path[0], Black), node), path[1].data, path[1].right));
      && r.color == Black
      && FixInv([LeftOf(r.color, r.data, r.right)] + path[2..], node, target)
  {
    ParentLeftFacts(path, node, target);
    var g := Node(Red, Wrap(Paint(path[0], Black), node), path[1].data, path[1].right);
    var r := RotateRight(g);
    var top := [LeftOf(r.color, r.data, r.right)] + path[2..];
    RotateRightSpec(g);
    assert InOrder(g) == InOrder(Wrap(path[1], Wrap(path[0], node)));
    ReplaceGrandparent(path, node, target, r);
    PlugCons(top[0], path[2..], node);
    PlugCons(top[0], path[2..], Blacken(node));
    PlugRedSwap(path[2..], Blacken(r), Wrap(top[0], Blacken(node)));
    if path[2..] != [] {
      PlugColor(path[2..], r, Wrap(top[0], node));
    }
  }

  /** Case 2, parent on the right and the node its right child: the mirror image, with left_rotate. */
  lemma FixRotateRight(path: seq<Frame>, node: RBTree, target: seq<int>)
    requires FixInv(path, node, target) && |path| >= 2 && path[0].color == Red && path[1].RightOf? && path[0].RightOf?
    requires IsBlack(path[1].left)
    ensures var r := RotateLeft(Node(Red, path[1].left, path[1].data, Wrap(Paint(path[0], Black), node)));
      && r.color == Black
      && FixInv([RightOf(r.color, r.left, r.data)] + path[2..], node, target)
  {
    ParentRightFacts(path, node, target);
    var g := Node(Red, path[1].left, path[1].data, Wrap(Paint(path[0], Black), node));
    var r := RotateLeft(g);
    var top := [RightOf(r.color, r.left, r.data)] + path[2..];
    RotateLeftSpec(g);
    assert InOrder(g) == InOrder(Wrap(path[1], Wrap(path[0], node)));
    ReplaceGrandparent(path, node, target, r);
    PlugCons(top[0], path[2..], node);
    PlugCons(top[0], path[2..], Blacken(node));
    PlugRedSwap(path[2..], Blacken(r), Wrap(top[0], Blacken(node)));
    if path[2..] != [] {
      PlugColor(path[2..], r, Wrap(top[0], node));
    }
  }

  /** When the loop stops (node at the root, or a black parent), painting the root black leaves a red-black tree. */
  lemma FixDone(path: seq<Frame>, node: RBTree, target: seq<int>)
    requires FixInv(path, node, target) && (path == [] || path[0].color == Black)
    ensures IsBlack(Blacken(Plug(path, node))) && RedOk(Blacken(Plug(path, node)))
    ensures BlackOk(Blacken(Plug(path, node))) && InOrder(Blacken(Plug(path, node))) == target
  {
    if path != [] {
      PlugCons(path[0], path[1..], node);
      PlugCons(path[0], path[1..], Blacken(node));
      assert path == [path[0]] + path[1..];
      PlugRedInner(path[1..], Wrap(path[0], Blacken(node)));
      PlugRedSwap(path[1..], Wrap(path[0], Blacken(node)), Wrap(path[0], node));
    }
  }

  /**
   * fix_insert: from a red node whose only possible fault is a red
   * parent, walk up recolouring (case 1) or rotating (cases 2 and 3)
   * until the parent is black or the node is the root, then paint the
   * root black. The result is a red-black tree with the same in-order
   * sequence.
   */
  method FixInsert(path0: seq<Frame>, node0: RBTree, ghost target: seq<int>) returns (root: RBTree)
    requires FixInv(path0, node0, target)
    ensures IsBlack(root) && RedOk(root) && BlackOk(root) && InOrder(root) == target
  {
    var path, node := path0, node0;
    while path != [] && path[0].color == Red
      invariant FixInv(path, node, target)
      decreases |path|
    {
      GrandparentExists(path, node, target);
      if path[1].LeftOf? {
        var uncle := path[1].right;
        if uncle.Node? && uncle.color == Red {
          FixRecolorLeft(path, node, target);
          node := Node(Red, Wrap(Paint(path[0], Black), node), path[1].data, Blacken(uncle));
          path := path[2..];
        } else {
          if path[0].RightOf? {
            PreRotateLeft(path, node, target);
            var r := RotateLeft(Wrap(path[0], node));
            path := [LeftOf(r.color, r.data, r.right)] + path[1..];
            node := r.left;
          }
          FixRotateLeft(path, node, target);
          var r := RotateRight(Node(Red, Wrap(Paint(path[0], Black), node), path[1].data, path[1].right));
          path := [LeftOf(r.color, r.data, r.right)] + path[2..];
        }
      } else {
        var uncle := path[1].left;
        if uncle.Node? && uncle.color == Red {
          FixRecolorRight(path, node, target);
          node := Node(Red, Blacken(uncle), path[1].data, Wrap(Paint(path[0], Black), node));
          path := path[2..];
        } else {
          if path[0].LeftOf? {
            PreRotateRight(path, node, target);
            var r := RotateRight(Wrap(path[0], node));
            path := [RightOf(r.color, r.left, r.data)] + path[1..];
            node := r.right;
          }
          FixRotateRight(path, node, target);
          var r := RotateLeft(Node(Red, path[1].left, path[1].data, Wrap(Paint(path[0], Black), node)));
          path := [RightOf(r.color, r.left, r.data)] + path[2..];
        }
      }
    }
    FixDone(path, node, target);
    root := Blacken(Plug(path, node));
  }

  // ---------------------------------------------------------------
  // insert
  // ---------------------------------------------------------------

  ghost predicate AllBelow(s: seq<int>, v: int)
  {
    forall i :: 0 <= i < |s| ==> s[i] < v
  }

  ghost predicate AllAbove(s: seq<int>, v: int)
  {
    forall i :: 0 <= i < |s| ==> s[i] > v
  }

  lemma BelowConcat(x: seq<int>, y: seq<int>, v: int)
    requires AllBelow(x, v) && AllBelow(y, v)
    ensures AllBelow(x + y, v)
  {
    forall i | 0 <= i < |x + y| ensures (x + y)[i] < v {
      if i >= |x| {
        assert (x + y)[i] == y[i - |x|];
      }
    }
  }

  lemma AboveConcat(x: seq<int>, y: seq<int>, v: int)
    requires AllAbove(x, v) && AllAbove(y, v)
    ensures AllAbove(x + y, v)
  {
    forall i | 0 <= i < |x + y| ensures (x + y)[i] > v {
      if i >= |x| {
        assert (x + y)[i] == y[i - |x|];
      }
    }
  }

  /** In an ascending sequence everything left of a key is smaller and everything right of it larger. */
  lemma AroundKey(l: seq<int>, d: int, r: seq<int>)
    requires Trees.Increasing(l + [d] + r)
    ensures AllBelow(l, d) && AllAbove(r, d)
  {
    var s := l + [d] + r;
    forall i | 0 <= i < |l| ensures l[i] < d {
      assert s[i] == l[i] && s[|l|] == d;
    }
    forall i | 0 <= i < |r| ensures r[i] > d {
      assert s[|l| + 1 + i] == r[i] && s[|l|] == d;
    }
  }

  /** Every key before the hole is smaller than `data`, every key after it larger. */
  ghost predicate Fits(path: seq<Frame>, data: int)
  {
    AllBelow(Before(path), data) && AllAbove(After(path), data)
  }

  /** The sequence facts of one step left. */
  lemma FitsLeft(b: seq<int>, l: seq<int>, d: int, r: seq<int>, a: seq<int>, data: int)
    requires AllBelow(b, data) && AllAbove(a, data) && data < d
    requires Trees.Increasing(b + (l + [d] + r) + a)
    ensures AllAbove([d] + r + a, data) && Trees.Increasing(b + l + ([d] + r + a))
  {
    assert b + (l + [d] + r) + a == (b + l) + [d] + (r + a) == b + l + ([d] + r + a);
    AroundKey(b + l, d, r + a);
    assert AllAbove(r, data) by {
      forall i | 0 <= i < |r| ensures r[i] > data {
        assert (r + a)[i] == r[i];
      }
    }
    AboveConcat([d], r, data);
    AboveConcat([d] + r, a, data);
  }

  /** The sequence facts of one step right. */
  lemma FitsRight(b: seq<int>, l: seq<int>, d: int, r: seq<int>, a: seq<int>, data: int)
    requires AllBelow(b, data) && AllAbove(a, data) && data > d
    requires Trees.Increasing(b + (l + [d] + r) + a)
    ensures AllBelow(b + (l + [d]), data) && Trees.Increasing(b + (l + [d]) + r + a)
  {
    assert b + (l + [d] + r) + a == (b + l) + [d] + (r + a) == b + (l + [d]) + r + a;
    AroundKey(b + l, d, r + a);
    assert AllBelow(l, data) by {
      forall i | 0 <= i < |l| ensures l[i] < data {
        assert (b + l)[|b| + i] == l[i];
      }
    }
    BelowConcat(l, [d], data);
    BelowConcat(b, l + [d], data);
  }

  /** Going left past a larger key keeps `data` fitting the hole. */
  lemma DescendLeft(path: seq<Frame>, current: RBTree, data: int)
    requires current.Node? && data < current.data && Fits(path, data)
    requires Trees.Increasing(Before(path) + InOrder(current) + After(path))
    ensures var down := [LeftOf(current.color, current.data, current.right)] + path;
      Fits(down, data) && Trees.Increasing(Before(down) + InOrder(current.left) + After(down))
  {
    var f := LeftOf(current.color, current.data, current.right);
    PlugCons(f, path, current.left);
    var b, l, d, r, a := Before(path), InOrder(current.left), current.data, InOrder(current.right), After(path);
    assert InOrder(current) == l + [d] + r;
    assert Before([f] + path) == b + [] == b;
    assert After([f] + path) == ([d] + r) + a;
    FitsLeft(b, l, d, r, a, data);
  }

  /** Going right past a smaller key keeps `data` fitting the hole. */
  lemma DescendRight(path: seq<Frame>, current: RBTree, data: int)
    requires current.Node? && data > current.data && Fits(path, data)
    requires Trees.Increasing(Before(path) + InOrder(current) + After(path))
    ensures var down := [RightOf(current.color, current.left, current.data)] + path;
      Fits(down, data) && Trees.Increasing(Before(down) + InOrder(current.right) + After(down))
  {
    var f := RightOf(current.color, current.left, current.data);
    PlugCons(f, path, current.right);
    var b, l, d, r, a := Before(path), InOrder(current.left), current.data, InOrder(current.right), After(path);
    assert InOrder(current) == l + [d] + r;
    assert Before([f] + path) == b + (l + [d]);
    assert After([f] + path) == [] + a == a;
    FitsRight(b, l, d, r, a, data);
  }

  /** A key that fits between two parts of an ascending sequence keeps it ascending. */
  lemma IncreasingInsert(b: seq<int>, v: int, a: seq<int>)
    requires Trees.Increasing(b + a) && AllBelow(b, v) && AllAbove(a, v)
    ensures Trees.Increasing(b + [v] + a)
  {
    var s := b + [v] + a;
    forall i, j | 0 <= i < j < |s| ensures s[i] < s[j] {
      if j < |b| {
        assert s[i] == (b + a)[i] && s[j] == (b + a)[j];
      } else if i > |b| {
        assert s[i] == (b + a)[i - 1] && s[j] == (b + a)[j - 1];
      } else if i < |b| {
        assert s[i] == b[i];
        if j > |b| {
          assert s[j] == a[j - |b| - 1];
        }
      } else {
        assert s[j] == a[j - |b| - 1];
      }
    }
  }

  /** The new red node in the hole the descent found: fix_insert's loop may start. */
  lemma Attach(path: seq<Frame>, root: RBTree, data: int)
    requires RedBlackTree(root) && root.Node? && Plug(path, Nil) == root
    ensures path != []
    ensures FixInv(path, CreateNode(data), Before(path) + [data] + After(path))
  {
    var node := CreateNode(data);
    PlugRedSwap(path, Nil, Blacken(node));
    PlugBlackSwap(path, Nil, node);
    PlugColor(path, Nil, node);
    PlugInOrder(path, node);
  }

  /**
   * The descent of insert: from the root, go left below a greater key and
   * right below a smaller one, stopping at the node holding `data` or at
   * the NULL link where it belongs.
   */
  method Descend(root: RBTree, data: int) returns (path: seq<Frame>, current: RBTree)
    requires Trees.Increasing(InOrder(root))
    ensures Plug(path, current) == root && Fits(path, data)
    ensures Trees.Increasing(Before(path) + InOrder(current) + After(path))
    ensures current.Node? ==> current.data == data
  {
    path := [];
    current := root;
    while current.Node? && current.data != data
      invariant Plug(path, current) == root
      invariant Fits(path, data)
      invariant Trees.Increasing(Before(path) + InOrder(current) + After(path))
      decreases current
    {
      if data < current.data {
        DescendLeft(path, current, data);
        PlugCons(LeftOf(current.color, current.data, current.right), path, current.left);
        path := [LeftOf(current.color, current.data, current.right)] + path;
        current := current.left;
      } else {
        DescendRight(path, current, data);
        PlugCons(RightOf(current.color, current.left, current.data), path, current.right);
        path := [RightOf(current.color, current.left, current.data)] + path;
        current := current.right;
      }
    }
  }

  /**
   * insert: an empty tree becomes one black node; otherwise descend from
   * the root, return the tree unchanged when the key is found, else
   * hang a red node in the NULL link reached and run fix_insert. On a
   * red-black tree the result is a red-black tree with the key added.
   */
  method Insert(root: RBTree, data: int) returns (r: RBTree)
    requires RedBlackTree(root)
    ensures RedBlackTree(r)
    ensures root.Nil? ==> r == Node(Black, Nil, data, Nil)
    ensures data in Elements(root) ==> r == root
    ensures Elements(r) == Elements(root) + {data}
    ensures data !in Elements(root) ==> |InOrder(r)| == |InOrder(root)| + 1
  {
    var node := CreateNode(data);
    if root.Nil? {
      r := node.(color := Black);
      return;
    }
    var path, current := Descend(root, data);
    if current.Node? {
      PlugInOrder(path, current);
      assert data in InOrder(current);
      r := root;
      return;
    }
    Attach(path, root, data);
    ghost var b, a := Before(path), After(path);
    assert Trees.Increasing(b + [data] + a) by {
      assert b + InOrder(current) + a == b + a;
      IncreasingInsert(b, data, a);
    }
    assert InOrder(root) == b + a by {
      PlugInOrder(path, current);
      assert b + InOrder(current) + a == b + a;
    }
    ghost var target := b + [data] + a;
    r := FixInsert(path, node, target);
    InsertedElements(r, root, b, data, a);
  }

  lemma InsertedElements(r: RBTree, root: RBTree, b: seq<int>, data: int, a: seq<int>)
    requires InOrder(r) == b + [data] + a && InOrder(root) == b + a
    ensures Elements(r) == Elements(root) + {data}
  {
    assert forall x :: x in InOrder(r) <==> x in InOrder(root) || x == data;
  }

  /** main of RB_tree.c: 10, 20, 30 and 15 into an empty tree; the in-order walk prints 10 15 20 30. */
  method MainTest() returns (tree: RBTree, inorder: seq<int>)
    ensures RedBlackTree(tree) && inorder == [10, 15, 20, 30]
  {
    var t1 := Insert(Nil, 10);
    var t2 := Insert(t1, 20);
    var t3 := Insert(t2, 30);
    tree := Insert(t3, 15);
    NoElements();
    ExampleKeys(Elements(Nil), Elements(t1), Elements(t2), Elements(t3), Elements(tree));
    inorder := InOrder(tree);
    SortedExample(inorder, Elements(tree));
  }

  lemma NoElements()
    ensures Elements(Nil) == {}
  {
    assert InOrder(Nil) == [];
  }

  lemma ExampleKeys(k0: set<int>, k1: set<int>, k2: set<int>, k3: set<int>, k4: set<int>)
    requires k0 == {} && k1 == k0 + {10} && k2 == k1 + {20} && k3 == k2 + {30} && k4 == k3 + {15}
    ensures k4 == {10, 15, 20, 30}
  {
  }

  lemma SortedExample(s: seq<int>, keys: set<int>)
    requires Trees.Increasing(s) && keys == {10, 15, 20, 30} && keys == set x | x in s
    ensures s == [10, 15, 20, 30]
  {
    var expected := [10, 15, 20, 30];
    assert Trees.Increasing(expected);
    assert forall k :: k in s <==> k in keys;
    Trees.IncreasingUnique(s, expected);
  }
}
