/**
 * The order relations of discrete_math/discrete_math_lab_3-4.cpp. The lab reuses
 * the `BinMatrix` relation predicates (modelled in `BinRelation`) and adds
 * the order tests built from them, the domination (covering) matrix of a
 * relation, the relation "closer to the origin" on a set of lattice points,
 * and a topological levelling of an acyclic relation by in-degrees.
 */
module OrderRelation {
  import BinRelation

  type Relation = BinRelation.Relation

  // ---------------------------------------------------------------------
  // The order tests

  /** `isOrder`: antisymmetric and transitive. */
  predicate Order(m: Relation)
    requires BinRelation.IsSquare(m)
  {
    BinRelation.AntiSymmetric(m) && BinRelation.Transitive(m)
  }

  predicate LooseOrder(m: Relation)
    requires BinRelation.IsSquare(m)
  {
    Order(m) && BinRelation.Reflexive(m)
  }

  predicate StrictOrder(m: Relation)
    requires BinRelation.IsSquare(m)
  {
    Order(m) && BinRelation.AntiReflexive(m)
  }

  predicate LinearOrder(m: Relation)
    requires BinRelation.IsSquare(m)
  {
    Order(m) && BinRelation.Full(m)
  }

  predicate LooseLinearOrder(m: Relation)
    requires BinRelation.IsSquare(m)
  {
    LooseOrder(m) && BinRelation.Full(m)
  }

  predicate StrictLinearOrder(m: Relation)
    requires BinRelation.IsSquare(m)
  {
    StrictOrder(m) && BinRelation.Full(m)
  }

  /** `isOrder`: the antisymmetry test first, the transitivity test only when it passes. */
  method IsOrder(m: Relation) returns (b: bool)
    requires BinRelation.IsSquare(m)
    ensures b <==> BinRelation.AntiSymmetric(m) && BinRelation.Transitive(m)
  {
    b := BinRelation.IsAntiSymmetric(m);
    if b {
      b := BinRelation.IsTransitive(m);
    }
  }

  /** `isLooseOrder`: an order that is also reflexive. */
  method IsLooseOrder(m: Relation) returns (b: bool)
    requires BinRelation.IsSquare(m)
    ensures b <==> Order(m) && BinRelation.Reflexive(m)
  {
    b := IsOrder(m);
    if b {
      b := BinRelation.IsReflection(m);
    }
  }

  /** `isStrictOrder`: an order that is also antireflexive. */
  method IsStrictOrder(m: Relation) returns (b: bool)
    requires BinRelation.IsSquare(m)
    ensures b <==> Order(m) && BinRelation.AntiReflexive(m)
  {
    b := IsOrder(m);
    if b {
      b := BinRelation.IsAntiReflection(m);
    }
  }

  /** `isLinearOrder`: an order in which any two distinct points are comparable. */
  method IsLinearOrder(m: Relation) returns (b: bool)
    requires BinRelation.IsSquare(m)
    ensures b <==> Order(m) && BinRelation.Full(m)
  {
    b := IsOrder(m);
    if b {
      b := BinRelation.IsFull(m);
    }
  }

  /** `isLooseLinearOrder`: a loose order that is full. */
  method IsLooseLinearOrder(m: Relation) returns (b: bool)
    requires BinRelation.IsSquare(m)
    ensures b <==> LooseOrder(m) && BinRelation.Full(m)
  {
    b := IsLooseOrder(m);
    if b {
      b := BinRelation.IsFull(m);
    }
  }

  /** `isStrictLinearOrder`: a strict order that is full. */
  method IsStrictLinearOrder(m: Relation) returns (b: bool)
    requires BinRelation.IsSquare(m)
    ensures b <==> StrictOrder(m) && BinRelation.Full(m)
  {
    b := IsStrictOrder(m);
    if b {
      b := BinRelation.IsFull(m);
    }
  }

  /**
   * The antisymmetry test rejects every diagonal pair, so on a non-empty
   * matrix no relation passes `isLooseOrder` (nor `isLooseLinearOrder`), and
   * every relation that passes `isOrder` also passes `isStrictOrder`.
   */
  lemma LooseOrderNeverHolds(m: Relation)
    requires BinRelation.IsSquare(m) && |m| > 0
    ensures !LooseOrder(m) && !LooseLinearOrder(m)
    ensures Order(m) <==> StrictOrder(m)
    ensures LinearOrder(m) <==> StrictLinearOrder(m)
  {
    if BinRelation.AntiSymmetric(m) {
      BinRelation.AntiSymmetricNotReflexive(m);
      forall i | 0 <= i < |m|
        ensures !m[i][i]
      {
        var d := m[i][i];
        assert !(d && d);
      }
    }
  }

  // ---------------------------------------------------------------------
  // makeZeroDiagonal and the domination matrix

  /** The relation with its diagonal removed. */
  function WithoutDiagonal(m: Relation): (r: Relation)
    requires BinRelation.IsSquare(m)
    ensures BinRelation.SameSize(r, m)
    ensures forall i, j :: 0 <= i < |m| && 0 <= j < |m| ==> (r[i][j] <==> m[i][j] && i != j)
  {
    seq(|m|, i requires 0 <= i < |m| => seq(|m|, j requires 0 <= j < |m| => m[i][j] && i != j))
  }

  /** `makeZeroDiagonal`: clears the diagonal entries and nothing else. */
  method MakeZeroDiagonal(m: Relation) returns (r: Relation)
    requires BinRelation.IsSquare(m)
    ensures r == WithoutDiagonal(m)
  {
    r := m;
    for i := 0 to |m|
      invariant BinRelation.SameSize(r, m)
      invariant forall a, b :: 0 <= a < |m| && 0 <= b < |m| ==> r[a][b] == (m[a][b] && (a != b || a >= i))
    {
      r := r[i := r[i][i := false]];
    }
    assert forall a :: 0 <= a < |m| ==> r[a] == WithoutDiagonal(m)[a];
  }

  /** Some point below `through` lies between j and k. */
  function Between(s: Relation, through: nat, j: nat, k: nat): bool
    requires BinRelation.IsSquare(s) && through <= |s| && j < |s| && k < |s|
  {
    through > 0 && (Between(s, through - 1, j, k) || (s[j][through - 1] && s[through - 1][k]))
  }

  /** Scanning every middle point finds a path of length two exactly when the square relates j to k. */
  lemma {:induction false} BetweenIsSquare(s: Relation, through: nat, j: nat, k: nat)
    requires BinRelation.IsSquare(s) && through <= |s| && j < |s| && k < |s|
    ensures Between(s, through, j, k) <==> exists i :: 0 <= i < through && s[j][i] && s[i][k]
    decreases through
  {
    if through > 0 {
      BetweenIsSquare(s, through - 1, j, k);
    }
  }

  /** The domination matrix once the middle points below `through` are scanned. */
  function DominationAfter(s: Relation, other: Relation, through: nat): (r: Relation)
    requires BinRelation.SameSize(s, other) && through <= |s|
    ensures BinRelation.SameSize(r, s)
  {
    seq(|s|, j requires 0 <= j < |s| => seq(|s|, k requires 0 <= k < |s| =>
      other[j][k] && j != k && !Between(s, through, j, k)))
  }

  /** The pairs of `other`, off the diagonal, with no point of `s` between them. */
  function Domination(s: Relation, other: Relation): (r: Relation)
    requires BinRelation.SameSize(s, other)
    ensures BinRelation.SameSize(r, s)
    ensures forall j, k :: 0 <= j < |s| && 0 <= k < |s| ==>
              (r[j][k] <==> other[j][k] && j != k && !BinRelation.Compose(s, s)[j][k])
  {
    forall j, k | 0 <= j < |s| && 0 <= k < |s|
      ensures Between(s, |s|, j, k) <==> BinRelation.Compose(s, s)[j][k]
    {
      BetweenIsSquare(s, |s|, j, k);
    }
    DominationAfter(s, other, |s|)
  }

  /**
   * `makeDominationMatrix`: a copy of `other` with its diagonal cleared, then
   * every pair (j, k) with a middle point i of this relation cleared.
   */
  method MakeDominationMatrix(s: Relation, other: Relation) returns (dom: Relation)
    requires BinRelation.SameSize(s, other)
    ensures dom == Domination(s, other)
  {
    var n := |s|;
    dom := MakeZeroDiagonal(other);
    assert forall j :: 0 <= j < n ==> dom[j] == DominationAfter(s, other, 0)[j];
    for i := 0 to n
      invariant dom == DominationAfter(s, other, i)
    {
      dom := ClearThrough(s, other, i, dom);
    }
  }

  /** One pass of the outer loop: every pair (j, k) with middle point i is cleared. */
  method ClearThrough(s: Relation, other: Relation, i: nat, dom: Relation) returns (next: Relation)
    requires BinRelation.SameSize(s, other) && i < |s| && dom == DominationAfter(s, other, i)
    ensures next == DominationAfter(s, other, i + 1)
  {
    next := dom;
    for j := 0 to |s|
      invariant |next| == |s|
      invariant forall j' :: 0 <= j' < |s| ==> next[j'] == (if j' < j then DominationAfter(s, other, i + 1) else dom)[j']
    {
      var row := ClearRow(s, i, j, next[j]);
      assert row == DominationAfter(s, other, i + 1)[j];
      next := next[j := row];
    }
  }

  /** The innermost loop: row j loses every k with j -> i -> k. */
  method ClearRow(s: Relation, i: nat, j: nat, row: seq<bool>) returns (r: seq<bool>)
    requires BinRelation.IsSquare(s) && i < |s| && j < |s| && |row| == |s|
    ensures |r| == |s|
    ensures forall k :: 0 <= k < |s| ==> r[k] == (row[k] && !(s[j][i] && s[i][k]))
  {
    r := row;
    for k := 0 to |s|
      invariant |r| == |s|
      invariant forall k' :: 0 <= k' < |s| ==> r[k'] == (if k' < k then row[k'] && !(s[j][i] && s[i][k']) else row[k'])
    {
      if s[j][i] && s[i][k] {
        r := r[k := false];
      }
    }
  }

  /**
   * The domination matrix keeps only pairs with nothing in between: it lies
   * inside the relation, is antireflexive, and relates no point to anything
   * two steps away. None of this needs the relation to be an order.
   */
  lemma DominationIsCovering(m: Relation)
    requires BinRelation.IsSquare(m)
    ensures BinRelation.Subset(Domination(m, m), m)
    ensures BinRelation.AntiReflexive(Domination(m, m))
    ensures BinRelation.AntiTransitive(Domination(m, m))
  {
    var d := Domination(m, m);
    forall i, j, k | 0 <= i < |m| && 0 <= j < |m| && 0 <= k < |m| && d[i][j] && d[j][k]
      ensures !d[i][k]
    {
      assert m[i][j] && m[j][k];
    }
  }

  // ---------------------------------------------------------------------
  // The relation on lattice points

  datatype Point = Point(x: int, y: int)

  /** The squared distance from the origin. */
  function Norm(p: Point): int
  {
    p.x * p.x + p.y * p.y
  }

  /** Point a is related to point b when a is strictly closer to the origin. */
  function CloserRelation(points: seq<Point>, n: nat): (r: Relation)
    requires n <= |points|
    ensures |r| == n && BinRelation.IsSquare(r)
    ensures forall a, b :: 0 <= a < n && 0 <= b < n ==> (r[a][b] <==> Norm(points[a]) < Norm(points[b]))
  {
    seq(n, a requires 0 <= a < n => seq(n, b requires 0 <= b < n => Norm(points[a]) < Norm(points[b])))
  }

  /** `MakeRelationPointsMatrix`: fills a size-n matrix from the first n points. */
  method MakeRelationPointsMatrix(points: seq<Point>, n: nat) returns (result: Relation)
    requires n <= |points|
    ensures result == CloserRelation(points, n)
  {
    result := [];
    for a := 0 to n
      invariant |result| == a
      invariant forall r :: 0 <= r < a ==> result[r] == CloserRelation(points, n)[r]
    {
      var row := [];
      for b := 0 to n
        invariant row == CloserRelation(points, n)[a][..b]
      {
        row := row + [Norm(points[a]) < Norm(points[b])];
      }
      result := result + [row];
    }
  }

  /** Being closer to the origin is a strict order. */
  lemma CloserIsStrictOrder(points: seq<Point>, n: nat)
    requires n <= |points|
    ensures BinRelation.AntiReflexive(CloserRelation(points, n))
    ensures BinRelation.Transitive(CloserRelation(points, n))
    ensures BinRelation.AntiSymmetric(CloserRelation(points, n))
    ensures StrictOrder(CloserRelation(points, n))
  {
  }

  /** The nine points of the lab's first set. */
  function LabPoints(): seq<Point>
  {
    [Point(-1, -1), Point(-1, 0), Point(-1, 1), Point(0, -1), Point(0, 0),
     Point(0, 1), Point(1, -1), Point(1, 0), Point(1, 1)]
  }

  /** Points at the same distance are incomparable, so the relation on the first set is not linear. */
  lemma LabPointsNotLinear()
    ensures !BinRelation.Full(CloserRelation(LabPoints(), 9))
    ensures !LinearOrder(CloserRelation(LabPoints(), 9))
  {
    var r := CloserRelation(LabPoints(), 9);
    assert Norm(LabPoints()[1]) == Norm(LabPoints()[3]) == 1;
    assert !r[1][3] && !r[3][1];
  }

  // ---------------------------------------------------------------------
  // isNegative

  /** `isNegative`: stops at the first entry that is not negative. */
  method IsNegative(w: seq<int>) returns (b: bool)
    ensures b <==> forall i :: 0 <= i < |w| ==> w[i] < 0
  {
    for i := 0 to |w|
      invariant forall i' :: 0 <= i' < i ==> w[i'] < 0
    {
      if w[i] >= 0 {
        return false;
      }
    }
    return true;
  }

  // ---------------------------------------------------------------------
  // topologicSort

  /** The number of points below r related to j: the column sum `W` starts from. */
  function InDegree(m: Relation, j: nat, r: nat): nat
    requires BinRelation.IsSquare(m) && j < |m| && r <= |m|
  {
    if r == 0 then 0 else InDegree(m, j, r - 1) + (if m[r - 1][j] then 1 else 0)
  }

  /** The number of points below r related to j that are not yet levelled (W >= 0). */
  function Undone(m: Relation, w: seq<int>, j: nat, r: nat): nat
    requires BinRelation.IsSquare(m) && |w| == |m| && j < |m| && r <= |m|
  {
    if r == 0 then 0 else Undone(m, w, j, r - 1) + (if m[r - 1][j] && w[r - 1] >= 0 then 1 else 0)
  }

  /** The number of points below r related to j that are levelled in the current round (W == 0). */
  function Fresh(m: Relation, w: seq<int>, j: nat, r: nat): nat
    requires BinRelation.IsSquare(m) && |w| == |m| && j < |m| && r <= |m|
  {
    if r == 0 then 0 else Fresh(m, w, j, r - 1) + (if m[r - 1][j] && w[r - 1] == 0 then 1 else 0)
  }

  /** The relation has no cycle: a rank that every pair climbs witnesses it. */
  ghost predicate Ranked(m: Relation, rank: seq<nat>)
    requires BinRelation.IsSquare(m)
  {
    |rank| == |m| && forall i, j :: 0 <= i < |m| && 0 <= j < |m| && m[i][j] ==> rank[i] < rank[j]
  }

  /**
   * What `W` holds before round k: a levelled point holds -(its round + 1),
   * an unlevelled one the number of its unlevelled predecessors, every
   * predecessor of a levelled point was levelled in an earlier round, and
   * after the first round every point without predecessors holds -1.
   */
  ghost predicate Layered(m: Relation, w: seq<int>, k: nat)
    requires BinRelation.IsSquare(m) && |w| == |m|
  {
    && (forall j :: 0 <= j < |m| && w[j] < 0 ==> k + w[j] >= 0)
    && (forall j :: 0 <= j < |m| && w[j] >= 0 ==> w[j] == Undone(m, w, j, |m|))
    && (forall i, j :: 0 <= i < |m| && 0 <= j < |m| && m[i][j] && w[j] < 0 ==> w[j] < w[i] < 0)
    && (forall j :: 0 <= j < |m| && k > 0 && InDegree(m, j, |m|) == 0 ==> w[j] == -1)
  }

  /** The first loop of a round: every zero entry becomes -(k + 1). */
  function Label(w: seq<int>, k: nat): (r: seq<int>)
    ensures |r| == |w|
    ensures forall j :: 0 <= j < |w| ==> r[j] == if w[j] == 0 then -(k + 1) else w[j]
  {
    seq(|w|, j requires 0 <= j < |w| => if w[j] == 0 then -(k + 1) else w[j])
  }

  /** A whole round: zeros are levelled, and each unlevelled point loses its freshly levelled predecessors. */
  function Level(m: Relation, w: seq<int>, k: nat): (r: seq<int>)
    requires BinRelation.IsSquare(m) && |w| == |m|
    ensures |r| == |w|
    ensures forall j :: 0 <= j < |w| ==>
              r[j] == if w[j] < 0 then w[j] else if w[j] == 0 then -(k + 1) else w[j] - Fresh(m, w, j, |m|)
  {
    seq(|w|, j requires 0 <= j < |w| =>
      if w[j] < 0 then w[j] else if w[j] == 0 then -(k + 1) else w[j] - Fresh(m, w, j, |m|))
  }

  /** The points not yet levelled. */
  ghost function Remaining(w: seq<int>): set<int>
  {
    set i | 0 <= i < |w| && w[i] >= 0
  }

  lemma {:induction false} FreshAtMostUndone(m: Relation, w: seq<int>, j: nat, r: nat)
    requires BinRelation.IsSquare(m) && |w| == |m| && j < |m| && r <= |m|
    ensures Fresh(m, w, j, r) <= Undone(m, w, j, r)
  {
    if r > 0 {
      FreshAtMostUndone(m, w, j, r - 1);
    }
  }

  lemma {:induction false} FreshGrows(m: Relation, w: seq<int>, j: nat, r: nat, r': nat)
    requires BinRelation.IsSquare(m) && |w| == |m| && j < |m| && r <= r' <= |m|
    ensures Fresh(m, w, j, r) <= Fresh(m, w, j, r')
    decreases r' - r
  {
    if r < r' {
      FreshGrows(m, w, j, r, r' - 1);
    }
  }

  lemma {:induction false} UndoneNone(m: Relation, w: seq<int>, j: nat, r: nat)
    requires BinRelation.IsSquare(m) && |w| == |m| && j < |m| && r <= |m|
    requires Undone(m, w, j, r) == 0
    ensures forall i :: 0 <= i < r && m[i][j] ==> w[i] < 0
  {
    if r > 0 {
      UndoneNone(m, w, j, r - 1);
    }
  }

  /** A positive count names an unlevelled predecessor. */
  lemma {:induction false} UndonePredecessor(m: Relation, w: seq<int>, j: nat, r: nat) returns (i: nat)
    requires BinRelation.IsSquare(m) && |w| == |m| && j < |m| && r <= |m|
    requires Undone(m, w, j, r) > 0
    ensures i < r && m[i][j] && w[i] >= 0
  {
    if m[r - 1][j] && w[r - 1] >= 0 {
      i := r - 1;
    } else {
      i := UndonePredecessor(m, w, j, r - 1);
    }
  }

  lemma {:induction false} FreshNone(m: Relation, w: seq<int>, j: nat, r: nat)
    requires BinRelation.IsSquare(m) && |w| == |m| && j < |m| && r <= |m|
    requires forall i :: 0 <= i < r && m[i][j] ==> w[i] != 0
    ensures Fresh(m, w, j, r) == 0
  {
    if r > 0 {
      FreshNone(m, w, j, r - 1);
    }
  }

  /** Levelling the zeros moves them from the unlevelled count to the fresh count. */
  lemma {:induction false} UndoneSplit(m: Relation, w: seq<int>, w': seq<int>, j: nat, r: nat)
    requires BinRelation.IsSquare(m) && |w| == |m| && |w'| == |m| && j < |m| && r <= |m|
    requires forall i :: 0 <= i < |m| ==> (w'[i] >= 0 <==> w[i] > 0)
    ensures Undone(m, w, j, r) == Undone(m, w', j, r) + Fresh(m, w, j, r)
  {
    if r > 0 {
      UndoneSplit(m, w, w', j, r - 1);
    }
  }

  /** Before any point is levelled, the unlevelled predecessors are all the predecessors. */
  lemma {:induction false} UndoneAtStart(m: Relation, w: seq<int>, j: nat, r: nat)
    requires BinRelation.IsSquare(m) && |w| == |m| && j < |m| && r <= |m|
    ensures Undone(m, w, j, r) <= InDegree(m, j, r)
    ensures (forall i :: 0 <= i < |m| ==> w[i] >= 0) ==> Undone(m, w, j, r) == InDegree(m, j, r)
  {
    if r > 0 {
      UndoneAtStart(m, w, j, r - 1);
    }
  }

  lemma {:induction false} InDegreeNone(m: Relation, j: nat, r: nat)
    requires BinRelation.IsSquare(m) && j < |m| && r <= |m|
    requires forall i :: 0 <= i < r ==> !m[i][j]
    ensures InDegree(m, j, r) == 0
  {
    if r > 0 {
      InDegreeNone(m, j, r - 1);
    }
  }

  /** On an acyclic relation, while some point is unlevelled, some point has no unlevelled predecessor. */
  lemma Progress(m: Relation, rank: seq<nat>, w: seq<int>, x: nat) returns (z: nat)
    requires BinRelation.IsSquare(m) && Ranked(m, rank) && |w| == |m|
    requires forall j :: 0 <= j < |m| && w[j] >= 0 ==> w[j] == Undone(m, w, j, |m|)
    requires x < |m| && w[x] >= 0
    ensures z < |m| && w[z] == 0
    decreases rank[x]
  {
    if Undone(m, w, x, |m|) == 0 {
      z := x;
    } else {
      var i := UndonePredecessor(m, w, x, |m|);
      z := Progress(m, rank, w, i);
    }
  }

  /** In round k, the second loop tests `W[i] == -(k + 1)` exactly at the points levelled in that round. */
  lemma SubtractGuard(m: Relation, w: seq<int>, k: nat, i: nat)
    requires BinRelation.IsSquare(m) && |w| == |m| && Layered(m, w, k) && i < |m|
    ensures Label(w, k)[i] - Fresh(m, w, i, i) == -(k + 1) <==> w[i] == 0
  {
    if w[i] > 0 {
      FreshGrows(m, w, i, i, |m|);
      FreshAtMostUndone(m, w, i, |m|);
    } else if w[i] == 0 {
      UndoneNone(m, w, i, |m|);
      FreshNone(m, w, i, i);
    } else {
      FreshNone(m, w, i, i);
    }
  }

  /** After the second loop, every entry is what a whole round gives. */
  lemma RoundComplete(m: Relation, w: seq<int>, k: nat)
    requires BinRelation.IsSquare(m) && |w| == |m| && Layered(m, w, k)
    ensures forall j :: 0 <= j < |m| ==> Label(w, k)[j] - Fresh(m, w, j, |m|) == Level(m, w, k)[j]
  {
    forall j | 0 <= j < |m|
      ensures Label(w, k)[j] - Fresh(m, w, j, |m|) == Level(m, w, k)[j]
    {
      if w[j] == 0 {
        UndoneNone(m, w, j, |m|);
        FreshNone(m, w, j, |m|);
      } else if w[j] < 0 {
        FreshNone(m, w, j, |m|);
      }
    }
  }

  /** A round leaves an unlevelled point unlevelled exactly when it was not a zero. */
  lemma LevelSign(m: Relation, w: seq<int>, k: nat)
    requires BinRelation.IsSquare(m) && |w| == |m| && Layered(m, w, k)
    ensures forall j :: 0 <= j < |m| ==> (Level(m, w, k)[j] >= 0 <==> w[j] > 0)
  {
    forall j | 0 <= j < |m| && w[j] > 0
      ensures Level(m, w, k)[j] >= 0
    {
      FreshAtMostUndone(m, w, j, |m|);
    }
  }

  /** A round keeps the layering, one round further on. */
  lemma LevelLayered(m: Relation, w: seq<int>, k: nat)
    requires BinRelation.IsSquare(m) && |w| == |m| && Layered(m, w, k)
    ensures Layered(m, Level(m, w, k), k + 1)
  {
    var l := Level(m, w, k);
    LevelSign(m, w, k);
    forall j | 0 <= j < |m| && l[j] >= 0
      ensures l[j] == Undone(m, l, j, |m|)
    {
      UndoneSplit(m, w, l, j, |m|);
    }
    forall i, j | 0 <= i < |m| && 0 <= j < |m| && m[i][j] && l[j] < 0
      ensures l[j] < l[i] < 0
    {
      if w[j] == 0 {
        UndoneNone(m, w, j, |m|);
      }
    }
    forall j | 0 <= j < |m| && InDegree(m, j, |m|) == 0
      ensures l[j] == -1
    {
      UndoneAtStart(m, w, j, |m|);
    }
  }

  /** The first loop of `topologicSort`: W holds the column sums. */
  method InDegrees(m: Relation) returns (w: seq<int>)
    requires BinRelation.IsSquare(m)
    ensures |w| == |m|
    ensures forall j :: 0 <= j < |m| ==> w[j] == InDegree(m, j, |m|)
  {
    var n := |m|;
    w := [];
    for i := 0 to n
      invariant |w| == i
      invariant forall i' :: 0 <= i' < i ==> w[i'] == InDegree(m, i', n)
    {
      w := w + [0];
      for j := 0 to n
        invariant |w| == i + 1 && w[i] == InDegree(m, i, j)
        invariant forall i' :: 0 <= i' < i ==> w[i'] == InDegree(m, i', n)
      {
        w := w[i := w[i] + if m[j][i] then 1 else 0];
      }
    }
  }

  /** The first loop of a round: each zero entry becomes -(k + 1). */
  method LabelZeros(w0: seq<int>, k: nat) returns (w: seq<int>)
    ensures w == Label(w0, k)
  {
    w := w0;
    for i := 0 to |w0|
      invariant |w| == |w0|
      invariant forall j :: 0 <= j < |w0| ==> w[j] == if j < i then Label(w0, k)[j] else w0[j]
    {
      if w[i] == 0 {
        w := w[i := -(k + 1)];
      }
    }
  }

  /** The innermost loop: every target of a pair leaving i loses one. */
  method SubtractRow(m: Relation, w0: seq<int>, i: nat) returns (w: seq<int>)
    requires BinRelation.IsSquare(m) && |w0| == |m| && i < |m|
    ensures |w| == |m|
    ensures forall j :: 0 <= j < |m| ==> w[j] == w0[j] - if m[i][j] then 1 else 0
  {
    w := w0;
    for j := 0 to |m|
      invariant |w| == |m|
      invariant forall j' :: 0 <= j' < |m| ==> w[j'] == w0[j'] - if j' < j && m[i][j'] then 1 else 0
    {
      w := w[j := w[j] - if m[i][j] then 1 else 0];
    }
  }

  /** One pass of the second loop counts point i among the fresh predecessors exactly when it was a zero. */
  lemma SubtractStep(m: Relation, w0: seq<int>, k: nat, i: nat, before: seq<int>, after: seq<int>)
    requires BinRelation.IsSquare(m) && |w0| == |m| && i < |m| && |before| == |m| && |after| == |m|
    requires forall j :: 0 <= j < |m| ==> before[j] == Label(w0, k)[j] - Fresh(m, w0, j, i)
    requires w0[i] == 0 ==> forall j :: 0 <= j < |m| ==> after[j] == before[j] - if m[i][j] then 1 else 0
    requires w0[i] != 0 ==> after == before
    ensures forall j :: 0 <= j < |m| ==> after[j] == Label(w0, k)[j] - Fresh(m, w0, j, i + 1)
  {
  }

  /** The body of the second loop at point i: a point levelled in this round gives up its pairs. */
  method SubtractPass(m: Relation, w0: seq<int>, k: nat, i: nat, before: seq<int>) returns (w: seq<int>)
    requires BinRelation.IsSquare(m) && |w0| == |m| && i < |m| && |before| == |m|
    requires Label(w0, k)[i] - Fresh(m, w0, i, i) == -(k + 1) <==> w0[i] == 0
    requires forall j :: 0 <= j < |m| ==> before[j] == Label(w0, k)[j] - Fresh(m, w0, j, i)
    ensures |w| == |m|
    ensures forall j :: 0 <= j < |m| ==> w[j] == Label(w0, k)[j] - Fresh(m, w0, j, i + 1)
  {
    w := before;
    if w[i] == -(k + 1) {
      w := SubtractRow(m, w, i);
    }
    SubtractStep(m, w0, k, i, before, w);
  }

  /** One round of `topologicSort`: level the zeros, then subtract the pairs leaving them. */
  method LevelRound(m: Relation, w0: seq<int>, k: nat) returns (w: seq<int>)
    requires BinRelation.IsSquare(m) && |w0| == |m| && Layered(m, w0, k)
    ensures w == Level(m, w0, k)
  {
    RoundGuards(m, w0, k);
    w := LabelZeros(w0, k);
    for i := 0 to |m|
      invariant |w| == |m|
      invariant forall j :: 0 <= j < |m| ==> w[j] == Label(w0, k)[j] - Fresh(m, w0, j, i)
    {
      w := SubtractPass(m, w0, k, i, w);
    }
    ghost var l := Level(m, w0, k);
    forall j | 0 <= j < |m|
      ensures w[j] == l[j]
    {
    }
  }

  /**
   * Under the layering, the second loop's test picks out exactly the zeros,
   * and no levelled point is a target of one, so the two loops make up `Level`.
   */
  lemma RoundGuards(m: Relation, w: seq<int>, k: nat)
    requires BinRelation.IsSquare(m) && |w| == |m| && Layered(m, w, k)
    ensures forall i :: 0 <= i < |m| ==> (Label(w, k)[i] - Fresh(m, w, i, i) == -(k + 1) <==> w[i] == 0)
    ensures forall j :: 0 <= j < |m| ==> Label(w, k)[j] - Fresh(m, w, j, |m|) == Level(m, w, k)[j]
  {
    forall i | 0 <= i < |m|
      ensures Label(w, k)[i] - Fresh(m, w, i, i) == -(k + 1) <==> w[i] == 0
    {
      SubtractGuard(m, w, k, i);
    }
    RoundComplete(m, w, k);
  }

  /** A round levels at least the zero z, and no levelled point becomes unlevelled. */
  lemma RoundShrinks(m: Relation, w: seq<int>, k: nat, z: nat)
    requires BinRelation.IsSquare(m) && |w| == |m| && Layered(m, w, k) && z < |m| && w[z] == 0
    ensures Remaining(Level(m, w, k)) < Remaining(w)
  {
    LevelSign(m, w, k);
    assert z in Remaining(w) - Remaining(Level(m, w, k));
  }

  /** Before the first round: nothing levelled, and W counts the unlevelled predecessors. */
  lemma StartLayered(m: Relation, w: seq<int>)
    requires BinRelation.IsSquare(m) && |w| == |m|
    requires forall j :: 0 <= j < |m| ==> w[j] == InDegree(m, j, |m|)
    ensures Layered(m, w, 0)
  {
    forall j | 0 <= j < |m|
      ensures w[j] == Undone(m, w, j, |m|)
    {
      UndoneAtStart(m, w, j, |m|);
    }
  }

  /** At the end only the points without predecessors hold -1, because every pair climbs. */
  lemma FirstLevel(m: Relation, w: seq<int>, k: nat)
    requires BinRelation.IsSquare(m) && |w| == |m| && Layered(m, w, k)
    ensures forall j :: 0 <= j < |m| && w[j] == -1 ==> InDegree(m, j, |m|) == 0
  {
    forall j | 0 <= j < |m| && w[j] == -1
      ensures InDegree(m, j, |m|) == 0
    {
      InDegreeNone(m, j, |m|);
    }
  }

  /**
   * `topologicSort` on an acyclic relation: `W` starts as the in-degrees;
   * each round k levels every zero entry as -(k + 1) and then takes the
   * pairs leaving the points just levelled off their targets. The loop ends
   * (the rank shows it cannot stall) with every entry negative, every pair
   * climbing to a later level, and exactly the points without predecessors
   * on the first level.
   */
  method TopologicSort(m: Relation, ghost rank: seq<nat>) returns (w: seq<int>)
    requires BinRelation.IsSquare(m) && Ranked(m, rank)
    ensures |w| == |m|
    ensures forall j :: 0 <= j < |m| ==> w[j] < 0
    ensures forall i, j :: 0 <= i < |m| && 0 <= j < |m| && m[i][j] ==> w[j] < w[i]
    ensures forall j :: 0 <= j < |m| ==> (w[j] == -1 <==> InDegree(m, j, |m|) == 0)
  {
    w := InDegrees(m);
    StartLayered(m, w);
    var k: nat := 0;
    var negative := IsNegative(w);
    while !negative
      invariant |w| == |m| && Layered(m, w, k)
      invariant negative <==> forall j :: 0 <= j < |m| ==> w[j] < 0
      invariant k == 0 ==> forall j :: 0 <= j < |m| ==> w[j] >= 0
      decreases Remaining(w)
    {
      var x :| 0 <= x < |m| && w[x] >= 0;
      ghost var z := Progress(m, rank, w, x);
      RoundShrinks(m, w, k, z);
      LevelLayered(m, w, k);
      w := LevelRound(m, w, k);
      k := k + 1;
      negative := IsNegative(w);
    }
    FirstLevel(m, w, k);
  }
}
