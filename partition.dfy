/**
 * The equivalence-class partition of discrete_math/discrete_math_lab_3-3.cpp.
 * `formationOfPartition` scans the points 0..9 in order; at each point still
 * unlabelled it opens a new class number k and writes k for every point that
 * point is related to. `factorSet` lists the classes, one per label, with the
 * points numbered from 1. For an equivalence relation the labels are exactly
 * the equivalence classes, numbered in the order of their smallest members.
 */
module Partition {
  import BinRelation

  type Relation = BinRelation.Relation

  /** `formationOfPartition` and its callers work on ten points. */
  const Points: nat := 10

  predicate TenPoints(m: Relation)
  {
    BinRelation.IsSquare(m) && |m| == Points
  }

  predicate Equivalence(m: Relation)
    requires BinRelation.IsSquare(m)
  {
    BinRelation.Reflexive(m) && BinRelation.Symmetric(m) && BinRelation.Transitive(m)
  }

  /** `isEquivalent`: reflexive, then symmetric, then transitive. */
  method IsEquivalent(m: Relation) returns (b: bool)
    requires BinRelation.IsSquare(m)
    ensures b <==> Equivalence(m)
  {
    var reflexive := BinRelation.IsReflection(m);
    if !reflexive {
      return false;
    }
    var symmetric := BinRelation.IsSymmetric(m);
    if !symmetric {
      return false;
    }
    b := BinRelation.IsTransitive(m);
  }

  // ---------------------------------------------------------------------
  // The scan of `formationOfPartition`, as a specification

  /** The labels after some rows, and the row that opened each class (class c at reps[c - 1]). */
  datatype Labelling = Labelling(labels: seq<int>, reps: seq<int>)

  /** Row r writes class c for every point it is related to. */
  function Relabel(m: Relation, r: nat, labels: seq<int>, c: int): (l: seq<int>)
    requires TenPoints(m) && r < Points && |labels| == Points
    ensures |l| == Points
    ensures forall j :: 0 <= j < Points ==> l[j] == if m[r][j] then c else labels[j]
  {
    seq(Points, j requires 0 <= j < Points => if m[r][j] then c else labels[j])
  }

  /** The labels and class openers after the first i rows of the scan. */
  function Scan(m: Relation, i: nat): (p: Labelling)
    requires TenPoints(m) && i <= Points
    ensures |p.labels| == Points
  {
    if i == 0 then
      Labelling(seq(Points, j => 0), [])
    else
      var p := Scan(m, i - 1);
      if p.labels[i - 1] == 0 then
        Labelling(Relabel(m, i - 1, p.labels, |p.reps| + 1), p.reps + [i - 1])
      else
        p
  }

  /** `formationOfPartition`: the result array holds the labels of the full scan. */
  method FormationOfPartition(m: Relation, resArray: array<int>)
    requires TenPoints(m) && resArray.Length == Points
    modifies resArray
    ensures resArray[..] == Scan(m, Points).labels
  {
    var k := 0;
    for i := 0 to Points
      invariant forall j :: 0 <= j < i ==> resArray[j] == 0
    {
      resArray[i] := 0;
    }
    assert resArray[..] == Scan(m, 0).labels;
    for i := 0 to Points
      invariant resArray[..] == Scan(m, i).labels && k == |Scan(m, i).reps|
    {
      if resArray[i] == 0 {
        k := k + 1;
        LabelRow(m, i, resArray, k);
      }
    }
  }

  /** The inner loop of the scan: every point row i relates to gets label k. */
  method LabelRow(m: Relation, i: nat, resArray: array<int>, k: int)
    requires TenPoints(m) && i < Points && resArray.Length == Points
    modifies resArray
    ensures resArray[..] == Relabel(m, i, old(resArray[..]), k)
  {
    for j := 0 to Points
      invariant forall j' :: 0 <= j' < Points ==>
                  resArray[j'] == if j' < j && m[i][j'] then k else old(resArray[j'])
    {
      if m[i][j] {
        resArray[j] := k;
      }
    }
  }

  // ---------------------------------------------------------------------
  // What the scan computes for an equivalence

  /** Some point carries label c. */
  ghost predicate Used(l: seq<int>, c: int)
  {
    exists j :: 0 <= j < |l| && l[j] == c
  }

  /** Some point before b carries label c. */
  ghost predicate UsedBefore(l: seq<int>, b: int, c: int)
  {
    exists a :: 0 <= a < b && a < |l| && l[a] == c
  }

  /** Labels lie in 0..k. */
  ghost predicate InRange(l: seq<int>, k: int)
  {
    forall j :: 0 <= j < |l| ==> 0 <= l[j] <= k
  }

  /** A point is still unlabelled exactly when none of the first i rows relates to it. */
  ghost predicate UnlabelledExactly(m: Relation, i: nat, l: seq<int>)
    requires TenPoints(m) && i <= Points && |l| == Points
  {
    forall j :: 0 <= j < Points ==> (l[j] == 0 <==> forall r :: 0 <= r < i ==> !m[r][j])
  }

  /** Two labelled points share a label exactly when they are related. */
  ghost predicate Consistent(m: Relation, l: seq<int>)
    requires TenPoints(m) && |l| == Points
  {
    forall a, b :: 0 <= a < Points && 0 <= b < Points && l[a] != 0 && l[b] != 0 ==> (l[a] == l[b] <==> m[a][b])
  }

  /** Class c + 1 was opened at row reps[c], before row i, which carries it; the openers increase. */
  ghost predicate Openers(i: nat, l: seq<int>, reps: seq<int>)
    requires i <= Points && |l| == Points
  {
    && (forall c :: 0 <= c < |reps| ==> 0 <= reps[c] < i && l[reps[c]] == c + 1)
    && (forall j :: 0 <= j < Points && 0 < l[j] <= |reps| ==> reps[l[j] - 1] <= j)
    && (forall c, c' :: 0 <= c < c' < |reps| ==> reps[c] < reps[c'])
  }

  /** The facts the scan keeps after i rows when m is an equivalence. */
  ghost predicate ScanInvariant(m: Relation, i: nat, p: Labelling)
    requires TenPoints(m) && i <= Points && |p.labels| == Points
  {
    && InRange(p.labels, |p.reps|)
    && UnlabelledExactly(m, i, p.labels)
    && Consistent(m, p.labels)
    && (forall j :: 0 <= j < i ==> p.labels[j] != 0)
    && Openers(i, p.labels, p.reps)
  }

  /** Row i relates to nothing labelled before it when it is itself unlabelled. */
  lemma FreshRowIsolated(m: Relation, i: nat, l: seq<int>)
    requires TenPoints(m) && Equivalence(m) && i < Points && |l| == Points
    requires UnlabelledExactly(m, i, l) && l[i] == 0
    ensures forall j :: 0 <= j < Points && l[j] != 0 ==> !m[i][j]
  {
    forall j | 0 <= j < Points && l[j] != 0
      ensures !m[i][j]
    {
      var r :| 0 <= r < i && m[r][j];
      var ij, ji, ri := m[i][j], m[j][i], m[r][i];
      assert !ri && ij == ji;
      assert ji ==> ri;
    }
  }

  /** Opening a class at row i keeps the labels consistent with the relation. */
  lemma OpenConsistent(m: Relation, i: nat, l: seq<int>, c: int)
    requires TenPoints(m) && Equivalence(m) && i < Points && |l| == Points
    requires Consistent(m, l) && (forall j :: 0 <= j < Points ==> l[j] < c)
    requires forall j :: 0 <= j < Points && l[j] != 0 ==> !m[i][j]
    ensures Consistent(m, Relabel(m, i, l, c))
  {
    var l' := Relabel(m, i, l, c);
    forall a, b | 0 <= a < Points && 0 <= b < Points && l'[a] != 0 && l'[b] != 0
      ensures l'[a] == l'[b] <==> m[a][b]
    {
      if m[a][b] {
        assert m[b][a];
        assert m[i][a] <==> m[i][b];
      }
      if m[i][a] && m[i][b] {
        assert m[a][i];
      }
    }
  }

  /** Opening a class at the unlabelled row i leaves unlabelled exactly the points no row up to i relates to. */
  lemma OpenUnlabelled(m: Relation, i: nat, l: seq<int>, c: int)
    requires TenPoints(m) && i < Points && |l| == Points && c != 0
    requires UnlabelledExactly(m, i, l)
    ensures UnlabelledExactly(m, i + 1, Relabel(m, i, l, c))
  {
  }

  /** Opening class k + 1 at row i: each opener, row i included, still carries its class. */
  lemma OpenCarried(m: Relation, i: nat, l: seq<int>, reps: seq<int>)
    requires TenPoints(m) && i < Points && |l| == Points && m[i][i]
    requires forall c :: 0 <= c < |reps| ==> 0 <= reps[c] < i && l[reps[c]] == c + 1
    requires forall j :: 0 <= j < Points && l[j] != 0 ==> !m[i][j]
    ensures var l', reps' := Relabel(m, i, l, |reps| + 1), reps + [i];
      forall c :: 0 <= c < |reps'| ==> 0 <= reps'[c] < i + 1 && l'[reps'[c]] == c + 1
  {
    var l', reps' := Relabel(m, i, l, |reps| + 1), reps + [i];
    forall c | 0 <= c < |reps'|
      ensures 0 <= reps'[c] < i + 1 && l'[reps'[c]] == c + 1
    {
      if c < |reps| {
        assert l[reps[c]] != 0;
        assert !m[i][reps[c]];
      }
    }
  }

  /** Opening class k + 1 at row i: every point comes no earlier than the opener of its class. */
  lemma OpenBelow(m: Relation, i: nat, l: seq<int>, reps: seq<int>)
    requires TenPoints(m) && i < Points && |l| == Points
    requires InRange(l, |reps|)
    requires forall j :: 0 <= j < Points && 0 < l[j] <= |reps| ==> reps[l[j] - 1] <= j
    requires forall j :: 0 <= j < i ==> l[j] != 0
    requires forall j :: 0 <= j < Points && l[j] != 0 ==> !m[i][j]
    ensures var l', reps' := Relabel(m, i, l, |reps| + 1), reps + [i];
      forall j :: 0 <= j < Points && 0 < l'[j] <= |reps'| ==> reps'[l'[j] - 1] <= j
  {
    var l', reps' := Relabel(m, i, l, |reps| + 1), reps + [i];
    forall j | 0 <= j < Points && 0 < l'[j] <= |reps'|
      ensures reps'[l'[j] - 1] <= j
    {
      if m[i][j] {
        assert l[j] == 0;
        assert i <= j;
      } else {
        assert l'[j] == l[j];
      }
    }
  }

  /** Opening class k + 1 at row i: the openers stay ordered and each still opens its class. */
  lemma OpenOpeners(m: Relation, i: nat, l: seq<int>, reps: seq<int>)
    requires TenPoints(m) && i < Points && |l| == Points && m[i][i]
    requires InRange(l, |reps|) && Openers(i, l, reps) && l[i] == 0
    requires forall j :: 0 <= j < i ==> l[j] != 0
    requires forall j :: 0 <= j < Points && l[j] != 0 ==> !m[i][j]
    ensures Openers(i + 1, Relabel(m, i, l, |reps| + 1), reps + [i])
  {
    OpenCarried(m, i, l, reps);
    OpenBelow(m, i, l, reps);
  }

  /** The scan keeps its invariant at a row that opens a class. */
  lemma ScanOpen(m: Relation, i: nat, l: seq<int>, reps: seq<int>)
    requires TenPoints(m) && Equivalence(m) && i < Points && |l| == Points
    requires ScanInvariant(m, i, Labelling(l, reps)) && l[i] == 0
    ensures ScanInvariant(m, i + 1, Labelling(Relabel(m, i, l, |reps| + 1), reps + [i]))
  {
    FreshRowIsolated(m, i, l);
    OpenConsistent(m, i, l, |reps| + 1);
    OpenUnlabelled(m, i, l, |reps| + 1);
    OpenOpeners(m, i, l, reps);
  }

  /** A labelled row relates only to labelled points, so no point becomes labelled by it. */
  lemma KeepUnlabelled(m: Relation, i: nat, l: seq<int>)
    requires TenPoints(m) && Equivalence(m) && i < Points && |l| == Points
    requires UnlabelledExactly(m, i, l) && l[i] != 0
    ensures UnlabelledExactly(m, i + 1, l)
  {
    forall j | 0 <= j < Points && l[j] == 0
      ensures !m[i][j]
    {
      var r :| 0 <= r < i && m[r][i];
      var ij, rj := m[i][j], m[r][j];
      assert !rj;
      assert ij ==> rj;
    }
  }

  /** The scan keeps its invariant at a row already labelled. */
  lemma ScanKeep(m: Relation, i: nat, l: seq<int>, reps: seq<int>)
    requires TenPoints(m) && Equivalence(m) && i < Points && |l| == Points
    requires ScanInvariant(m, i, Labelling(l, reps)) && l[i] != 0
    ensures ScanInvariant(m, i + 1, Labelling(l, reps))
  {
    KeepUnlabelled(m, i, l);
    OpenersLater(i, l, reps);
  }

  /** The openers recorded before row i are still the openers after it. */
  lemma OpenersLater(i: nat, l: seq<int>, reps: seq<int>)
    requires i < Points && |l| == Points && Openers(i, l, reps)
    ensures Openers(i + 1, l, reps)
  {
  }

  /** One row of the scan keeps the invariant: if it held before the row, it holds after. */
  lemma ScanStep(m: Relation, i: nat)
    requires TenPoints(m) && Equivalence(m) && i < Points
    ensures ScanInvariant(m, i, Scan(m, i)) ==> ScanInvariant(m, i + 1, Scan(m, i + 1))
  {
    var p := Scan(m, i);
    if ScanInvariant(m, i, p) {
      if p.labels[i] == 0 {
        ScanOpen(m, i, p.labels, p.reps);
      } else {
        ScanKeep(m, i, p.labels, p.reps);
      }
    }
  }

  /** The invariant holds after every prefix of the scan. */
  lemma {:induction false} ScanInvariantHolds(m: Relation, i: nat)
    requires TenPoints(m) && Equivalence(m) && i <= Points
    ensures ScanInvariant(m, i, Scan(m, i))
    decreases i
  {
    if i > 0 {
      ScanInvariantHolds(m, i - 1);
      ScanStep(m, i - 1);
    }
  }

  /**
   * For an equivalence, `formationOfPartition` labels every point with a
   * class number 1..k, every number is used, two points share a number
   * exactly when they are related, and each class is numbered after every
   * class whose smallest member comes first.
   */
  lemma PartitionIsEquivalenceClasses(m: Relation)
    requires TenPoints(m) && Equivalence(m)
    ensures var l, k := Scan(m, Points).labels, |Scan(m, Points).reps|;
      && (forall j :: 0 <= j < Points ==> 1 <= l[j] <= k)
      && (forall c :: 1 <= c <= k ==> Used(l, c))
      && (forall a, b :: 0 <= a < Points && 0 <= b < Points ==> (l[a] == l[b] <==> m[a][b]))
      && (forall b, c :: 0 <= b < Points && 1 <= c < l[b] ==> UsedBefore(l, b, c))
  {
    ScanInvariantHolds(m, Points);
    var p := Scan(m, Points);
    FinalUsed(p.labels, p.reps);
    FinalUsedBefore(p.labels, p.reps);
  }

  /**
   * Reflexivity alone is enough for every point to be labelled: a row that is
   * still unlabelled when reached relates to itself and so takes the class it
   * opens, and a positive label is only ever overwritten by another positive one.
   */
  lemma {:induction false} ReflexivePrefixLabelled(m: Relation, i: nat)
    requires TenPoints(m) && BinRelation.Reflexive(m) && i <= Points
    ensures forall j :: 0 <= j < Points ==> Scan(m, i).labels[j] >= 0
    ensures forall j :: 0 <= j < i ==> Scan(m, i).labels[j] >= 1
    decreases i
  {
    if i > 0 {
      ReflexivePrefixLabelled(m, i - 1);
      var p := Scan(m, i - 1);
      if p.labels[i - 1] == 0 {
        assert m[i - 1][i - 1];
      }
    }
  }

  /** For a reflexive relation `formationOfPartition` leaves no point with label 0. */
  lemma ReflexiveLabelsPositive(m: Relation)
    requires TenPoints(m) && BinRelation.Reflexive(m)
    ensures forall j :: 0 <= j < Points ==> Scan(m, Points).labels[j] >= 1
  {
    ReflexivePrefixLabelled(m, Points);
  }

  /** Once all ten rows are scanned, every class number is carried by its opener. */
  lemma FinalUsed(l: seq<int>, reps: seq<int>)
    requires |l| == Points && Openers(Points, l, reps)
    ensures forall c :: 1 <= c <= |reps| ==> Used(l, c)
  {
    forall c | 1 <= c <= |reps|
      ensures Used(l, c)
    {
      assert l[reps[c - 1]] == c;
    }
  }

  /** Once all ten rows are scanned, a smaller class number is carried by an earlier point. */
  lemma FinalUsedBefore(l: seq<int>, reps: seq<int>)
    requires |l| == Points && InRange(l, |reps|) && Openers(Points, l, reps)
    ensures forall b, c :: 0 <= b < Points && 1 <= c < l[b] ==> UsedBefore(l, b, c)
  {
    forall b, c | 0 <= b < Points && 1 <= c < l[b]
      ensures UsedBefore(l, b, c)
    {
      assert reps[c - 1] < reps[l[b] - 1] <= b;
      assert l[reps[c - 1]] == c;
    }
  }

  // ---------------------------------------------------------------------
  // factorSet

  /** The points, numbered from 1, that carry label c, in increasing order. */
  function ClassOf(s: seq<int>, c: int): (members: seq<int>)
    ensures forall x :: x in members <==> 1 <= x <= |s| && s[x - 1] == c
    ensures forall a, b :: 0 <= a < b < |members| ==> members[a] < members[b]
  {
    if s == [] then []
    else
      var front := ClassOf(s[..|s| - 1], c);
      assert forall a :: 0 <= a < |front| ==> front[a] in front && front[a] < |s|;
      if s[|s| - 1] == c then front + [|s|] else front
  }

  /** The largest label, as `max_element` finds it. */
  function MaxLabel(s: seq<int>): (mx: int)
    requires |s| >= 1
    ensures forall j :: 0 <= j < |s| ==> s[j] <= mx
    ensures Used(s, mx)
  {
    if |s| == 1 then s[0]
    else
      var front := MaxLabel(s[..|s| - 1]);
      if s[|s| - 1] > front then s[|s| - 1] else front
  }

  /** The inner loop of `factorSet`: the points carrying label c. */
  method ClassMembers(s: seq<int>, c: int) returns (members: seq<int>)
    ensures members == ClassOf(s, c)
  {
    members := [];
    for j := 0 to |s|
      invariant members == ClassOf(s[..j], c)
    {
      assert s[..j + 1][..j] == s[..j];
      if s[j] == c {
        members := members + [j + 1];
      }
    }
    assert s[..|s|] == s;
  }

  /** `factorSet`: one class per label 1..max, each listing its points from 1 upwards. */
  method FactorSet(s: seq<int>) returns (classes: seq<seq<int>>)
    requires |s| >= 1
    ensures |classes| == if MaxLabel(s) < 0 then 0 else MaxLabel(s)
    ensures forall c :: 0 <= c < |classes| ==> classes[c] == ClassOf(s, c + 1)
  {
    var mx := s[0];
    for j := 1 to |s|
      invariant mx == MaxLabel(s[..j])
    {
      assert s[..j + 1][..j] == s[..j];
      mx := if s[j] > mx then s[j] else mx;
    }
    assert s[..|s|] == s;
    assert mx == MaxLabel(s);
    classes := [];
    var i := 1;
    while i <= mx
      invariant 1 <= i <= (if mx >= 1 then mx + 1 else 1)
      invariant |classes| == i - 1
      invariant forall c :: 0 <= c < |classes| ==> classes[c] == ClassOf(s, c + 1)
    {
      var members := ClassMembers(s, i);
      classes := classes + [members];
      i := i + 1;
    }
  }

  /**
   * For an equivalence, the classes `factorSet` lists from the labels are
   * the equivalence classes, points numbered from 1: none is empty, and
   * every point lies in exactly one of them.
   */
  lemma FactorSetOfPartition(m: Relation, c: int, x: int)
    requires TenPoints(m) && Equivalence(m)
    requires 1 <= c <= MaxLabel(Scan(m, Points).labels)
    ensures ClassOf(Scan(m, Points).labels, c) != []
    ensures 1 <= x <= Points ==> (x in ClassOf(Scan(m, Points).labels, c) <==> Scan(m, Points).labels[x - 1] == c)
    ensures forall a, b :: a in ClassOf(Scan(m, Points).labels, c) && b in ClassOf(Scan(m, Points).labels, c) ==> m[a - 1][b - 1]
  {
    PartitionIsEquivalenceClasses(m);
    var l := Scan(m, Points).labels;
    var w :| 0 <= w < Points && l[w] == MaxLabel(l);
    assert Used(l, c);
    var j :| 0 <= j < Points && l[j] == c;
    assert j + 1 in ClassOf(l, c);
  }

  // ---------------------------------------------------------------------
  // The relation of the lab

  /** `myRelation`: both points below 3, both above 3, or the same point. */
  function MyRelation(x: int, y: int): bool
  {
    (x < 3 && y < 3) || (x > 3 && y > 3) || x == y
  }

  /** `myRelation` is an equivalence on the ten points. */
  lemma MyRelationIsEquivalence()
    ensures TenPoints(BinRelation.Tabulate(Points, MyRelation))
    ensures Equivalence(BinRelation.Tabulate(Points, MyRelation))
  {
  }
}
