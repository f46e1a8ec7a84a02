/**
 * The `BinMatrix<bool>` relation matrix of discreate_math_lab_3-2.cpp (the
 * same class, with the same predicates, reappears in
 * discrete_math/discrete_math_lab_3-3.cpp and
 * discrete_math/discrete_math_lab_3-4.cpp). A relation on the points
 * 0..size-1 is an n-by-n matrix of booleans: entry [i][j] says whether i is
 * related to j. The C++ class copies on assignment, so a matrix is a value
 * here. The predicates are the read-only loops of the class; the set
 * algebra builds fresh matrices; `algorithm1`, `algorithm2` and
 * `algorithm3` compute the transitive closure.
 */
module BinRelation {
  import opened Common

  type Relation = seq<seq<bool>>

  /** Every row is as long as the matrix is tall. */
  predicate IsSquare(m: Relation)
  {
    forall i :: 0 <= i < |m| ==> |m[i]| == |m|
  }

  predicate SameSize(a: Relation, b: Relation)
  {
    IsSquare(a) && IsSquare(b) && |a| == |b|
  }

  /** The n-by-n matrix with every entry false, as `resize` leaves it. */
  function Zero(n: nat): (m: Relation)
    ensures |m| == n && IsSquare(m)
    ensures forall i, j :: 0 <= i < n && 0 <= j < n ==> !m[i][j]
  {
    seq(n, i => seq(n, j => false))
  }

  /** The matrix of a relation given as a predicate on the points. */
  function Tabulate(n: nat, relation: (int, int) -> bool): (m: Relation)
    ensures |m| == n && IsSquare(m)
    ensures forall i, j :: 0 <= i < n && 0 <= j < n ==> (m[i][j] <==> relation(i, j))
  {
    seq(n, i => seq(n, j => relation(i, j)))
  }

  // ---------------------------------------------------------------------
  // Construction and element access

  /** The constructor: a zero size throws, any other size gives the all-false matrix. */
  function Create(size: nat): (r: Option<Relation>)
    ensures r.None? <==> size == 0
    ensures r.Some? ==> |r.value| == size && IsSquare(r.value) && r.value == Zero(size)
  {
    if size == 0 then None else Some(Zero(size))
  }

  /** `getElement`: an index outside the matrix throws out_of_range. */
  function GetElement(m: Relation, row: nat, col: nat): (r: Option<bool>)
    requires IsSquare(m)
    ensures r.None? <==> row >= |m| || col >= |m|
    ensures r.Some? ==> r.value == m[row][col]
  {
    if row >= |m| || col >= |m| then None else Some(m[row][col])
  }

  /** `setElement`: an index outside the matrix throws; otherwise one entry changes. */
  function SetElement(m: Relation, row: nat, col: nat, value: bool): (r: Option<Relation>)
    requires IsSquare(m)
    ensures r.None? <==> row >= |m| || col >= |m|
    ensures r.Some? ==> |r.value| == |m| && IsSquare(r.value)
    ensures r.Some? ==> forall i, j :: 0 <= i < |m| && 0 <= j < |m| ==>
              r.value[i][j] == if i == row && j == col then value else m[i][j]
  {
    if row >= |m| || col >= |m| then None else Some(m[row := m[row][col := value]])
  }

  /** `MakeRelationMatrix`: every entry of the result is set from the relation. */
  method MakeRelationMatrix(relation: (int, int) -> bool, n: nat) returns (result: Relation)
    ensures result == Tabulate(n, relation)
  {
    result := [];
    for i := 0 to n
      invariant |result| == i
      invariant forall r :: 0 <= r < i ==> result[r] == Tabulate(n, relation)[r]
    {
      var row := [];
      for j := 0 to n
        invariant row == Tabulate(n, relation)[i][..j]
      {
        row := row + [relation(i, j)];
      }
      result := result + [row];
    }
  }

  // ---------------------------------------------------------------------
  // Properties of a relation, as the class's predicates decide them

  predicate Reflexive(m: Relation)
    requires IsSquare(m)
  {
    forall i :: 0 <= i < |m| ==> m[i][i]
  }

  predicate AntiReflexive(m: Relation)
    requires IsSquare(m)
  {
    forall i :: 0 <= i < |m| ==> !m[i][i]
  }

  predicate Symmetric(m: Relation)
    requires IsSquare(m)
  {
    forall i, j :: 0 <= i < |m| && 0 <= j < |m| ==> m[i][j] == m[j][i]
  }

  /** No pair is related both ways; the diagonal is not exempt. */
  predicate AntiSymmetric(m: Relation)
    requires IsSquare(m)
  {
    forall i, j :: 0 <= i < |m| && 0 <= j < |m| ==> !(m[i][j] && m[j][i])
  }

  predicate Transitive(m: Relation)
    requires IsSquare(m)
  {
    forall i, j, k :: 0 <= i < |m| && 0 <= j < |m| && 0 <= k < |m| && m[i][j] && m[j][k] ==> m[i][k]
  }

  predicate AntiTransitive(m: Relation)
    requires IsSquare(m)
  {
    forall i, j, k :: 0 <= i < |m| && 0 <= j < |m| && 0 <= k < |m| ==> !(m[i][j] && m[j][k] && m[i][k])
  }

  /** Any two distinct points are comparable one way or the other. */
  predicate Full(m: Relation)
    requires IsSquare(m)
  {
    forall i, j :: 0 <= i < |m| && 0 <= j < |m| && i != j ==> m[i][j] || m[j][i]
  }

  /** `isReflection`: stops at the first unset diagonal entry. */
  method IsReflection(m: Relation) returns (b: bool)
    requires IsSquare(m)
    ensures b <==> Reflexive(m)
  {
    for i := 0 to |m|
      invariant forall i' :: 0 <= i' < i ==> m[i'][i']
    {
      if !m[i][i] {
        return false;
      }
    }
    return true;
  }

  /** `isAntiReflection`: stops at the first set diagonal entry. */
  method IsAntiReflection(m: Relation) returns (b: bool)
    requires IsSquare(m)
    ensures b <==> AntiReflexive(m)
  {
    for i := 0 to |m|
      invariant forall i' :: 0 <= i' < i ==> !m[i'][i']
    {
      if m[i][i] {
        return false;
      }
    }
    return true;
  }

  /** `isSymmetric`: stops at the first entry that differs from its mirror. */
  method IsSymmetric(m: Relation) returns (b: bool)
    requires IsSquare(m)
    ensures b <==> Symmetric(m)
  {
    for i := 0 to |m|
      invariant forall i', j :: 0 <= i' < i && 0 <= j < |m| ==> m[i'][j] == m[j][i']
    {
      for j := 0 to |m|
        invariant forall j' :: 0 <= j' < j ==> m[i][j'] == m[j'][i]
      {
        if m[i][j] != m[j][i] {
          return false;
        }
      }
    }
    return true;
  }

  /** `isAntiSymmetric`: rejects any pair set both ways, i == j included. */
  method IsAntiSymmetric(m: Relation) returns (b: bool)
    requires IsSquare(m)
    ensures b <==> AntiSymmetric(m)
  {
    for i := 0 to |m|
      invariant forall i', j :: 0 <= i' < i && 0 <= j < |m| ==> !(m[i'][j] && m[j][i'])
    {
      for j := 0 to |m|
        invariant forall j' :: 0 <= j' < j ==> !(m[i][j'] && m[j'][i])
      {
        if m[i][j] == m[j][i] && (m[i][j] && m[j][i]) {
          return false;
        }
      }
    }
    return true;
  }

  /** `isTransitive`: for each set (i, j), every k with (j, k) set needs (i, k) set. */
  method IsTransitive(m: Relation) returns (b: bool)
    requires IsSquare(m)
    ensures b <==> Transitive(m)
  {
    var n := |m|;
    for i := 0 to n
      invariant forall i', j, k :: 0 <= i' < i && 0 <= j < n && 0 <= k < n && m[i'][j] && m[j][k] ==> m[i'][k]
    {
      for j := 0 to n
        invariant forall j', k :: 0 <= j' < j && 0 <= k < n && m[i][j'] && m[j'][k] ==> m[i][k]
      {
        if m[i][j] {
          for k := 0 to n
            invariant forall k' :: 0 <= k' < k && m[j][k'] ==> m[i][k']
          {
            if m[j][k] && !m[i][k] {
              return false;
            }
          }
        }
      }
    }
    return true;
  }

  /** `isAntiTransitive`: for each set (i, j), no k may have both (i, k) and (j, k) set. */
  method IsAntiTransitive(m: Relation) returns (b: bool)
    requires IsSquare(m)
    ensures b <==> AntiTransitive(m)
  {
    var n := |m|;
    for i := 0 to n
      invariant forall i', j, k :: 0 <= i' < i && 0 <= j < n && 0 <= k < n ==> !(m[i'][j] && m[j][k] && m[i'][k])
    {
      for j := 0 to n
        invariant forall j', k :: 0 <= j' < j && 0 <= k < n ==> !(m[i][j'] && m[j'][k] && m[i][k])
      {
        if m[i][j] {
          for k := 0 to n
            invariant forall k' :: 0 <= k' < k ==> !(m[j][k'] && m[i][k'])
          {
            if m[i][k] && m[j][k] {
              return false;
            }
          }
        }
      }
    }
    return true;
  }

  /** `isFull`: only pairs with i != j are inspected. */
  method IsFull(m: Relation) returns (b: bool)
    requires IsSquare(m)
    ensures b <==> Full(m)
  {
    for i := 0 to |m|
      invariant forall i', j :: 0 <= i' < i && 0 <= j < |m| && i' != j ==> m[i'][j] || m[j][i']
    {
      for j := 0 to |m|
        invariant forall j' :: 0 <= j' < j && i != j' ==> m[i][j'] || m[j'][i]
      {
        if i != j {
          if !m[i][j] && !m[j][i] {
            return false;
          }
        }
      }
    }
    return true;
  }

  /** Because the diagonal is not exempt, an antisymmetric relation on a non-empty set is never reflexive. */
  lemma AntiSymmetricNotReflexive(m: Relation)
    requires IsSquare(m) && |m| > 0 && AntiSymmetric(m)
    ensures !Reflexive(m)
  {
    assert !m[0][0];
  }

  /** A symmetric relation is its own inverse. */
  lemma SymmetricIffSelfInverse(m: Relation)
    requires IsSquare(m)
    ensures Symmetric(m) <==> Inverse(m) == m
  {
    if Symmetric(m) {
      assert forall i :: 0 <= i < |m| ==> Inverse(m)[i] == m[i];
    }
    if Inverse(m) == m {
      forall i, j | 0 <= i < |m| && 0 <= j < |m| ensures m[i][j] == m[j][i] {
        assert Inverse(m)[i][j] == m[j][i];
      }
    }
  }

  /** A relation is transitive exactly when its square is contained in it. */
  lemma TransitiveIffSquareInside(m: Relation)
    requires IsSquare(m)
    ensures Transitive(m) <==> Subset(Compose(m, m), m)
  {
    if Subset(Compose(m, m), m) {
      forall i, j, k | 0 <= i < |m| && 0 <= j < |m| && 0 <= k < |m| && m[i][j] && m[j][k]
        ensures m[i][k]
      {
        assert Compose(m, m)[i][k];
      }
    }
  }

  // ---------------------------------------------------------------------
  // Set algebra on relations of one size

  predicate Subset(a: Relation, b: Relation)
    requires SameSize(a, b)
  {
    forall i, j :: 0 <= i < |a| && 0 <= j < |a| && a[i][j] ==> b[i][j]
  }

  function Union(a: Relation, b: Relation): (r: Relation)
    requires SameSize(a, b)
    ensures SameSize(r, a)
    ensures forall i, j :: 0 <= i < |a| && 0 <= j < |a| ==> (r[i][j] <==> a[i][j] || b[i][j])
  {
    seq(|a|, i requires 0 <= i < |a| => seq(|a|, j requires 0 <= j < |a| => a[i][j] || b[i][j]))
  }

  function Intersection(a: Relation, b: Relation): (r: Relation)
    requires SameSize(a, b)
    ensures SameSize(r, a)
    ensures forall i, j :: 0 <= i < |a| && 0 <= j < |a| ==> (r[i][j] <==> a[i][j] && b[i][j])
  {
    seq(|a|, i requires 0 <= i < |a| => seq(|a|, j requires 0 <= j < |a| => a[i][j] && b[i][j]))
  }

  function Difference(a: Relation, b: Relation): (r: Relation)
    requires SameSize(a, b)
    ensures SameSize(r, a)
    ensures forall i, j :: 0 <= i < |a| && 0 <= j < |a| ==> (r[i][j] <==> a[i][j] && !b[i][j])
  {
    seq(|a|, i requires 0 <= i < |a| => seq(|a|, j requires 0 <= j < |a| => a[i][j] && !b[i][j]))
  }

  function SymDifference(a: Relation, b: Relation): (r: Relation)
    requires SameSize(a, b)
    ensures SameSize(r, a)
    ensures forall i, j :: 0 <= i < |a| && 0 <= j < |a| ==> (r[i][j] <==> a[i][j] != b[i][j])
  {
    seq(|a|, i requires 0 <= i < |a| => seq(|a|, j requires 0 <= j < |a| => a[i][j] != b[i][j]))
  }

  /** The complement a relation is meant to have: every entry negated. */
  function Complement(a: Relation): (r: Relation)
    requires IsSquare(a)
    ensures SameSize(r, a)
    ensures forall i, j :: 0 <= i < |a| && 0 <= j < |a| ==> (r[i][j] <==> !a[i][j])
  {
    seq(|a|, i requires 0 <= i < |a| => seq(|a|, j requires 0 <= j < |a| => !a[i][j]))
  }

  /** The inverse relation: the transpose. */
  function Inverse(a: Relation): (r: Relation)
    requires IsSquare(a)
    ensures SameSize(r, a)
    ensures forall i, j :: 0 <= i < |a| && 0 <= j < |a| ==> r[i][j] == a[j][i]
  {
    seq(|a|, i requires 0 <= i < |a| => seq(|a|, j requires 0 <= j < |a| => a[j][i]))
  }

  /** Relational composition: i is related to j when some k has (i, k) in a and (k, j) in b. */
  function Compose(a: Relation, b: Relation): (r: Relation)
    requires SameSize(a, b)
    ensures SameSize(r, a)
    ensures forall i, j :: 0 <= i < |a| && 0 <= j < |a| ==>
              (r[i][j] <==> exists k :: 0 <= k < |a| && a[i][k] && b[k][j])
  {
    seq(|a|, i requires 0 <= i < |a| => seq(|a|, j requires 0 <= j < |a| =>
      exists k :: 0 <= k < |a| && a[i][k] && b[k][j]))
  }

  /** The matrix with every entry true. */
  function Universal(n: nat): (m: Relation)
    ensures |m| == n && IsSquare(m)
    ensures forall i, j :: 0 <= i < n && 0 <= j < n ==> m[i][j]
  {
    seq(n, i => seq(n, j => true))
  }

  /** Two relations of one size are equal when every entry agrees. */
  lemma SubsetAntisymmetric(a: Relation, b: Relation)
    requires SameSize(a, b) && Subset(a, b) && Subset(b, a)
    ensures a == b
  {
    assert forall i :: 0 <= i < |a| ==> a[i] == b[i];
  }

  // ---------------------------------------------------------------------
  // The class's comparisons and operations

  /** `IsSubset`: stops at the first entry set in S and unset in C (`S & ~C` on booleans). */
  method IsSubset(s: Relation, c: Relation) returns (b: bool)
    requires SameSize(s, c)
    ensures b <==> Subset(s, c)
  {
    for i := 0 to |s|
      invariant forall i', j :: 0 <= i' < i && 0 <= j < |s| && s[i'][j] ==> c[i'][j]
    {
      for j := 0 to |s|
        invariant forall j' :: 0 <= j' < j && s[i][j'] ==> c[i][j']
      {
        if s[i][j] && !c[i][j] {
          return false;
        }
      }
    }
    return true;
  }

  /** `IsEqual`: stops at the first differing entry. */
  method IsEqual(m1: Relation, m2: Relation) returns (b: bool)
    requires SameSize(m1, m2)
    ensures b <==> m1 == m2
  {
    for i := 0 to |m1|
      invariant forall i' :: 0 <= i' < i ==> m1[i'] == m2[i']
    {
      for j := 0 to |m1|
        invariant m1[i][..j] == m2[i][..j]
      {
        if m1[i][j] != m2[i][j] {
          return false;
        }
      }
      assert m1[i] == m1[i][..|m1|];
    }
    return true;
  }

  /** `IsProperSubset`: not equal, and a subset. */
  method IsProperSubset(m1: Relation, m2: Relation) returns (b: bool)
    requires SameSize(m1, m2)
    ensures b <==> Subset(m1, m2) && m1 != m2
  {
    var eq := IsEqual(m1, m2);
    if eq {
      return false;
    }
    b := IsSubset(m1, m2);
  }

  /** `unionMatrix`: a fresh matrix of OR-ed entries. */
  method UnionMatrix(m1: Relation, m2: Relation) returns (res: Relation)
    requires SameSize(m1, m2)
    ensures res == Union(m1, m2)
  {
    var n := |m1|;
    res := [];
    for i := 0 to n
      invariant |res| == i && forall r :: 0 <= r < i ==> res[r] == Union(m1, m2)[r]
    {
      var row := [];
      for j := 0 to n
        invariant row == Union(m1, m2)[i][..j]
      {
        row := row + [m1[i][j] || m2[i][j]];
      }
      res := res + [row];
    }
  }

  /** `intersectionMatrix`: matrices of different sizes throw invalid_argument. */
  method IntersectionMatrix(a: Relation, b: Relation) returns (result: Option<Relation>)
    requires IsSquare(a) && IsSquare(b)
    ensures result.None? <==> |a| != |b|
    ensures result.Some? ==> result.value == Intersection(a, b)
  {
    if |a| != |b| {
      return None;
    }
    var n := |a|;
    var res := [];
    for i := 0 to n
      invariant |res| == i && forall r :: 0 <= r < i ==> res[r] == Intersection(a, b)[r]
    {
      var row := [];
      for j := 0 to n
        invariant row == Intersection(a, b)[i][..j]
      {
        row := row + [a[i][j] && b[i][j]];
      }
      res := res + [row];
    }
    return Some(res);
  }

  /** `diffMatrix`: an entry of m1 survives where m2 is unset. */
  method DiffMatrix(m1: Relation, m2: Relation) returns (res: Relation)
    requires SameSize(m1, m2)
    ensures res == Difference(m1, m2)
  {
    var n := |m1|;
    res := [];
    for i := 0 to n
      invariant |res| == i && forall r :: 0 <= r < i ==> res[r] == Difference(m1, m2)[r]
    {
      var row := [];
      for j := 0 to n
        invariant row == Difference(m1, m2)[i][..j]
      {
        row := row + [if m2[i][j] then false else m1[i][j]];
      }
      res := res + [row];
    }
  }

  /** `symDiffMatrix`: an entry is set when exactly one operand has it (their sum is 1). */
  method SymDiffMatrix(m1: Relation, m2: Relation) returns (res: Relation)
    requires SameSize(m1, m2)
    ensures res == SymDifference(m1, m2)
  {
    var n := |m1|;
    res := [];
    for i := 0 to n
      invariant |res| == i && forall r :: 0 <= r < i ==> res[r] == SymDifference(m1, m2)[r]
    {
      var row := [];
      for j := 0 to n
        invariant row == SymDifference(m1, m2)[i][..j]
      {
        var sum := (if m1[i][j] then 1 else 0) + (if m2[i][j] then 1 else 0);
        row := row + [sum == 1];
      }
      res := res + [row];
    }
  }

  /**
   * `complMatrix` as written: it stores `~value` into a `bool`. Both 0 and 1
   * promote to an int whose bitwise complement (-1 or -2) is non-zero, so
   * every stored entry is true.
   */
  method ComplMatrix(m: Relation) returns (res: Relation)
    requires IsSquare(m)
    ensures res == Universal(|m|)
  {
    var n := |m|;
    res := [];
    for i := 0 to n
      invariant |res| == i && forall r :: 0 <= r < i ==> res[r] == Universal(n)[r]
    {
      var row := [];
      for j := 0 to n
        invariant row == Universal(n)[i][..j]
      {
        var promoted: bv32 := if m[i][j] then 1 else 0;
        row := row + [!promoted != 0];
      }
      res := res + [row];
    }
  }

  /** The stored complement overlaps the relation it should complement whenever that relation is not empty. */
  lemma ComplMatrixOverlaps(m: Relation, i: nat, j: nat)
    requires IsSquare(m) && i < |m| && j < |m| && m[i][j]
    ensures Intersection(m, Universal(|m|)) != Zero(|m|)
    ensures Intersection(m, Universal(|m|)) != Intersection(m, Complement(m))
  {
    assert Intersection(m, Universal(|m|))[i][j];
    assert !Zero(|m|)[i][j];
    assert !Intersection(m, Complement(m))[i][j];
  }

  /** The evidently intended complement: each entry negated. */
  method ComplementMatrix(m: Relation) returns (res: Relation)
    requires IsSquare(m)
    ensures res == Complement(m)
  {
    var n := |m|;
    res := [];
    for i := 0 to n
      invariant |res| == i && forall r :: 0 <= r < i ==> res[r] == Complement(m)[r]
    {
      var row := [];
      for j := 0 to n
        invariant row == Complement(m)[i][..j]
      {
        row := row + [!m[i][j]];
      }
      res := res + [row];
    }
  }

  /** A relation and its complement are disjoint and together cover every pair; complementing twice gives the relation back. */
  lemma ComplementLaws(m: Relation)
    requires IsSquare(m)
    ensures Intersection(m, Complement(m)) == Zero(|m|)
    ensures Union(m, Complement(m)) == Universal(|m|)
    ensures Complement(Complement(m)) == m
  {
    SubsetAntisymmetric(Intersection(m, Complement(m)), Zero(|m|));
    SubsetAntisymmetric(Union(m, Complement(m)), Universal(|m|));
    SubsetAntisymmetric(Complement(Complement(m)), m);
  }

  /** `inverseMatrix`: entry [i][j] of the result is entry [j][i] of the argument. */
  method InverseMatrix(m: Relation) returns (res: Relation)
    requires IsSquare(m)
    ensures res == Inverse(m)
  {
    var n := |m|;
    res := [];
    for i := 0 to n
      invariant |res| == i && forall r :: 0 <= r < i ==> res[r] == Inverse(m)[r]
    {
      var row := [];
      for j := 0 to n
        invariant row == Inverse(m)[i][..j]
      {
        row := row + [m[j][i]];
      }
      res := res + [row];
    }
  }

  /** Inverting twice gives the relation back. */
  lemma InverseInvolution(m: Relation)
    requires IsSquare(m)
    ensures Inverse(Inverse(m)) == m
  {
    SubsetAntisymmetric(Inverse(Inverse(m)), m);
  }

  /** The inner search of `compositeMatrix`: stops at the first k with a[i][k] and b[k][j]. */
  method ComposeEntry(a: Relation, b: Relation, i: nat, j: nat) returns (found: bool)
    requires SameSize(a, b) && i < |a| && j < |a|
    ensures found <==> exists k :: 0 <= k < |a| && a[i][k] && b[k][j]
  {
    for k := 0 to |a|
      invariant forall k' :: 0 <= k' < k ==> !(a[i][k'] && b[k'][j])
    {
      if a[i][k] && b[k][j] {
        return true;
      }
    }
    return false;
  }

  /** `compositeMatrix`: each entry of a zero matrix is set when its inner search succeeds. */
  method CompositeMatrix(a: Relation, b: Relation) returns (result: Relation)
    requires SameSize(a, b)
    ensures result == Compose(a, b)
  {
    var n := |a|;
    result := [];
    for i := 0 to n
      invariant |result| == i && forall r :: 0 <= r < i ==> result[r] == Compose(a, b)[r]
    {
      var row := [];
      for j := 0 to n
        invariant row == Compose(a, b)[i][..j]
      {
        var found := ComposeEntry(a, b, i, j);
        row := row + [found];
      }
      result := result + [row];
    }
  }

  /** Entry (i, j) of an n×n matrix is visited at step i * n + j + 1 of a row-major pass. */
  lemma RowMajorBound(i: nat, j: nat, n: nat)
    requires i < n && j < n
    ensures i * n + j + 1 <= n * n
  {
    assert i * n <= (n - 1) * n;
  }

  /** `IsSubsetComprasionCounter`: the same answer as `IsSubset`, counting one comparison per entry visited. */
  method IsSubsetCounter(s: Relation, c: Relation, compCounter: int) returns (b: bool, counter: int)
    requires SameSize(s, c)
    ensures b <==> Subset(s, c)
    ensures b ==> counter == compCounter + |s| * |s|
    ensures !b ==> compCounter < counter <= compCounter + |s| * |s|
  {
    var n := |s|;
    counter := compCounter;
    for i := 0 to n
      invariant counter == compCounter + i * n
      invariant forall i', j :: 0 <= i' < i && 0 <= j < n && s[i'][j] ==> c[i'][j]
    {
      for j := 0 to n
        invariant counter == compCounter + i * n + j
        invariant forall j' :: 0 <= j' < j && s[i][j'] ==> c[i][j']
      {
        counter := counter + 1;
        if s[i][j] && !c[i][j] {
          RowMajorBound(i, j, n);
          return false, counter;
        }
      }
    }
    return true, counter;
  }

  /** The inner search of `compositeMatrixComprasionCounter`: one comparison per k tried. */
  method ComposeEntryCounter(a: Relation, b: Relation, i: nat, j: nat, compCounter: int) returns (found: bool, counter: int)
    requires SameSize(a, b) && i < |a| && j < |a|
    ensures found <==> exists k :: 0 <= k < |a| && a[i][k] && b[k][j]
    ensures compCounter + 1 <= counter <= compCounter + |a|
  {
    counter := compCounter;
    for k := 0 to |a|
      invariant counter == compCounter + k
      invariant forall k' :: 0 <= k' < k ==> !(a[i][k'] && b[k'][j])
    {
      counter := counter + 1;
      if a[i][k] && b[k][j] {
        return true, counter;
      }
    }
    return false, counter;
  }

  /** One row of `compositeMatrixComprasionCounter`. */
  method CompositeRowCounter(a: Relation, b: Relation, i: nat, compCounter: int) returns (row: seq<bool>, counter: int)
    requires SameSize(a, b) && i < |a|
    ensures row == Compose(a, b)[i]
    ensures compCounter + |a| <= counter <= compCounter + |a| * |a|
  {
    var n := |a|;
    counter := compCounter;
    row := [];
    for j := 0 to n
      invariant row == Compose(a, b)[i][..j]
      invariant compCounter + j <= counter <= compCounter + j * n
    {
      var found;
      found, counter := ComposeEntryCounter(a, b, i, j, counter);
      row := row + [found];
    }
  }

  /** `compositeMatrixComprasionCounter`: the same matrix as `compositeMatrix`, with between 1 and n comparisons per entry. */
  method CompositeMatrixCounter(a: Relation, b: Relation, compCounter: int) returns (result: Relation, counter: int)
    requires SameSize(a, b)
    ensures result == Compose(a, b)
    ensures compCounter + |a| * |a| <= counter <= compCounter + |a| * (|a| * |a|)
  {
    var n := |a|;
    var sq := n * n;
    counter := compCounter;
    result := [];
    for i := 0 to n
      invariant |result| == i && forall r :: 0 <= r < i ==> result[r] == Compose(a, b)[r]
      invariant compCounter + i * n <= counter <= compCounter + i * sq
    {
      var row;
      row, counter := CompositeRowCounter(a, b, i, counter);
      result := result + [row];
      assert (i + 1) * n == i * n + n && (i + 1) * sq == i * sq + sq;
    }
  }

  // ---------------------------------------------------------------------
  // Transitive closure

  /** A walk of at least one step along the relation. */
  ghost predicate IsWalk(a: Relation, w: seq<int>)
    requires IsSquare(a)
  {
    && |w| >= 2
    && (forall i :: 0 <= i < |w| ==> 0 <= w[i] < |a|)
    && (forall i :: 0 <= i < |w| - 1 ==> a[w[i]][w[i + 1]])
  }

  /** Every vertex strictly inside the walk is below z. */
  ghost predicate InnerBelow(w: seq<int>, z: int)
  {
    forall i :: 0 < i < |w| - 1 ==> w[i] < z
  }

  /** y is reached from x by a walk. */
  ghost predicate Reaches(a: Relation, x: int, y: int)
    requires IsSquare(a)
  {
    exists w :: IsWalk(a, w) && w[0] == x && w[|w| - 1] == y
  }

  /** The transitive closure: the pairs joined by a walk. */
  ghost function Closure(a: Relation): (r: Relation)
    requires IsSquare(a)
    ensures SameSize(r, a)
    ensures forall x, y :: 0 <= x < |a| && 0 <= y < |a| ==> (r[x][y] <==> Reaches(a, x, y))
  {
    seq(|a|, x requires 0 <= x < |a| => seq(|a|, y requires 0 <= y < |a| => Reaches(a, x, y)))
  }

  /** The relation lies inside its closure. */
  lemma ClosureContains(a: Relation)
    requires IsSquare(a)
    ensures Subset(a, Closure(a))
  {
    forall x, y | 0 <= x < |a| && 0 <= y < |a| && a[x][y]
      ensures Reaches(a, x, y)
    {
      var w := [x, y];
      assert IsWalk(a, w);
    }
  }

  /** Two walks that meet join into one. */
  lemma WalkJoin(a: Relation, w1: seq<int>, w2: seq<int>)
    requires IsSquare(a) && IsWalk(a, w1) && IsWalk(a, w2) && w1[|w1| - 1] == w2[0]
    ensures IsWalk(a, w1 + w2[1..])
    ensures (w1 + w2[1..])[0] == w1[0] && (w1 + w2[1..])[|w1| + |w2| - 2] == w2[|w2| - 1]
  {
    var w := w1 + w2[1..];
    forall i | 0 <= i < |w| - 1
      ensures a[w[i]][w[i + 1]]
    {
      if i < |w1| - 1 {
        assert w[i] == w1[i] && w[i + 1] == w1[i + 1];
      } else {
        var k := i - |w1| + 1;
        assert w[i] == w2[k] && w[i + 1] == w2[k + 1];
      }
    }
  }

  /** The closure is transitive. */
  lemma ClosureTransitive(a: Relation)
    requires IsSquare(a)
    ensures Transitive(Closure(a))
  {
    var c := Closure(a);
    forall x, y, z | 0 <= x < |a| && 0 <= y < |a| && 0 <= z < |a| && c[x][y] && c[y][z]
      ensures c[x][z]
    {
      var w1 :| IsWalk(a, w1) && w1[0] == x && w1[|w1| - 1] == y;
      var w2 :| IsWalk(a, w2) && w2[0] == y && w2[|w2| - 1] == z;
      WalkJoin(a, w1, w2);
      assert IsWalk(a, w1 + w2[1..]);
    }
  }

  /** Composition is monotone in both arguments. */
  lemma ComposeMonotone(a: Relation, b: Relation, a': Relation, b': Relation)
    requires SameSize(a, b) && SameSize(a, a') && SameSize(a, b')
    requires Subset(a, a') && Subset(b, b')
    ensures Subset(Compose(a, b), Compose(a', b'))
  {
    forall i, j | 0 <= i < |a| && 0 <= j < |a| && Compose(a, b)[i][j]
      ensures Compose(a', b')[i][j]
    {
      var k :| 0 <= k < |a| && a[i][k] && b[k][j];
      assert a'[i][k] && b'[k][j];
    }
  }

  /** Composing two relations inside a transitive one stays inside it. */
  lemma ComposeWithin(x: Relation, y: Relation, t: Relation)
    requires SameSize(x, y) && SameSize(x, t) && Subset(x, t) && Subset(y, t) && Transitive(t)
    ensures Subset(Compose(x, y), t)
  {
    forall i, j | 0 <= i < |x| && 0 <= j < |x| && Compose(x, y)[i][j]
      ensures t[i][j]
    {
      var k :| 0 <= k < |x| && x[i][k] && y[k][j];
      assert t[i][k] && t[k][j];
    }
  }

  /** Every walk of a lies inside any c that contains a and absorbs one more step of a. */
  lemma {:induction false} WalkWithin(a: Relation, c: Relation, w: seq<int>)
    requires SameSize(a, c) && Subset(a, c) && Subset(Compose(c, a), c) && IsWalk(a, w)
    ensures c[w[0]][w[|w| - 1]]
    decreases |w|
  {
    if |w| > 2 {
      var u := w[..|w| - 1];
      assert IsWalk(a, u) by {
        forall i | 0 <= i < |u| - 1 ensures a[u[i]][u[i + 1]] {
          assert u[i] == w[i] && u[i + 1] == w[i + 1];
        }
      }
      WalkWithin(a, c, u);
      var k := w[|w| - 2];
      assert c[w[0]][k] && a[k][w[|w| - 1]];
      assert Compose(c, a)[w[0]][w[|w| - 1]];
    } else {
      assert a[w[0]][w[1]];
    }
  }

  /** The closure is the least relation containing a that absorbs one more step of a. */
  lemma ClosureLeast(a: Relation, c: Relation)
    requires SameSize(a, c) && Subset(a, c) && Subset(Compose(c, a), c)
    ensures Subset(Closure(a), c)
  {
    forall x, y | 0 <= x < |a| && 0 <= y < |a| && Closure(a)[x][y]
      ensures c[x][y]
    {
      var w :| IsWalk(a, w) && w[0] == x && w[|w| - 1] == y;
      WalkWithin(a, c, w);
    }
  }

  /** Characterisation used at the exit of the loops: C between a and its closure, closed under one more step. */
  lemma ClosureExact(a: Relation, c: Relation)
    requires SameSize(a, c) && Subset(a, c) && Subset(c, Closure(a)) && Subset(Compose(c, a), c)
    ensures c == Closure(a)
  {
    ClosureLeast(a, c);
    SubsetAntisymmetric(c, Closure(a));
  }

  /** The pairs still missing from C: the measure that the closure loops shrink. */
  ghost function Missing(c: Relation): set<(int, int)>
    requires IsSquare(c)
  {
    set i, j | 0 <= i < |c| && 0 <= j < |c| && !c[i][j] :: (i, j)
  }

  /** Adding S to C when S is not inside C removes at least one missing pair. */
  lemma MissingShrinks(c: Relation, s: Relation)
    requires SameSize(c, s) && !Subset(s, c)
    ensures Missing(Union(c, s)) < Missing(c)
  {
    var i, j :| 0 <= i < |c| && 0 <= j < |c| && s[i][j] && !c[i][j];
    assert (i, j) in Missing(c) - Missing(Union(c, s));
  }

  /** `algorithm1`: each round first lets C absorb S (C := C ∪ S) and then sets S := S∘C with the new C, until S lies inside C. */
  method Algorithm1(a: Relation) returns (c: Relation)
    requires IsSquare(a)
    ensures c == Closure(a)
  {
    ClosureContains(a);
    ClosureTransitive(a);
    c := a;
    var s := CompositeMatrix(a, a);
    ComposeWithin(a, a, Closure(a));
    var sub := IsSubset(s, c);
    while !sub
      invariant SameSize(a, c) && SameSize(a, s)
      invariant Subset(a, c) && Subset(c, Closure(a)) && Subset(s, Closure(a))
      invariant Subset(Compose(c, a), Union(c, s))
      invariant sub <==> Subset(s, c)
      decreases Missing(c)
    {
      MissingShrinks(c, s);
      Algorithm1Step(a, c, s);
      c := UnionMatrix(c, s);
      s := CompositeMatrix(s, c);
      sub := IsSubset(s, c);
    }
    ClosureExact(a, c);
  }

  /** One round of `algorithm1` keeps its invariant. */
  lemma Algorithm1Step(a: Relation, c: Relation, s: Relation)
    requires SameSize(a, c) && SameSize(a, s) && Subset(a, c) && Subset(c, Closure(a)) && Subset(s, Closure(a))
    requires Subset(Compose(c, a), Union(c, s))
    requires Transitive(Closure(a))
    ensures Subset(a, Union(c, s)) && Subset(Union(c, s), Closure(a))
    ensures Subset(Compose(s, Union(c, s)), Closure(a))
    ensures Subset(Compose(Union(c, s), a), Union(Union(c, s), Compose(s, Union(c, s))))
  {
    var c' := Union(c, s);
    var s' := Compose(s, c');
    ComposeWithin(s, c', Closure(a));
    forall i, j | 0 <= i < |a| && 0 <= j < |a| && Compose(c', a)[i][j]
      ensures c'[i][j] || s'[i][j]
    {
      var k :| 0 <= k < |a| && c'[i][k] && a[k][j];
      if c[i][k] {
        assert Compose(c, a)[i][j];
      } else {
        assert s[i][k] && c'[k][j];
      }
    }
  }

  /** `algorithm2`: C absorbs C∘C until C∘C lies inside C. */
  method Algorithm2(a: Relation) returns (c: Relation)
    requires IsSquare(a)
    ensures c == Closure(a)
  {
    ClosureContains(a);
    ClosureTransitive(a);
    c := a;
    var c2 := CompositeMatrix(c, c);
    var sub := IsSubset(c2, c);
    while !sub
      invariant SameSize(a, c) && c2 == Compose(c, c)
      invariant Subset(a, c) && Subset(c, Closure(a))
      invariant sub <==> Subset(c2, c)
      decreases Missing(c)
    {
      MissingShrinks(c, c2);
      Algorithm2Step(a, c);
      c := UnionMatrix(c, c2);
      c2 := CompositeMatrix(c, c);
      sub := IsSubset(c2, c);
    }
    Algorithm2Exit(a, c);
  }

  /** One round of `algorithm2` keeps C between a and its closure. */
  lemma Algorithm2Step(a: Relation, c: Relation)
    requires SameSize(a, c) && Subset(a, c) && Subset(c, Closure(a)) && Transitive(Closure(a))
    ensures Subset(a, Union(c, Compose(c, c))) && Subset(Union(c, Compose(c, c)), Closure(a))
  {
    ComposeWithin(c, c, Closure(a));
  }

  /** When `algorithm2` stops, C is the closure. */
  lemma Algorithm2Exit(a: Relation, c: Relation)
    requires SameSize(a, c) && Subset(a, c) && Subset(c, Closure(a)) && Subset(Compose(c, c), c)
    ensures c == Closure(a)
  {
    ComposeMonotone(c, a, c, c);
    ClosureExact(a, c);
  }

  /** `algorithm1Counter`: the matrix of `algorithm1`, counting compositions and comparisons. */
  method Algorithm1Counter(a: Relation, compositionCount: int, compCount: int)
    returns (c: Relation, compositions: int, comparisons: int)
    requires IsSquare(a)
    ensures c == Closure(a)
    ensures compositions >= compositionCount + 1
    ensures comparisons >= compCount + 2 * (|a| * |a|)
  {
    var sq: nat := |a| * |a|;
    ClosureContains(a);
    ClosureTransitive(a);
    c := a;
    var s;
    s, comparisons := CompositeMatrixCounter(a, a, compCount);
    compositions := compositionCount + 1;
    ComposeWithin(a, a, Closure(a));
    var sub;
    sub, comparisons := IsSubsetCounter(s, c, comparisons);
    while !sub
      invariant SameSize(a, c) && SameSize(a, s)
      invariant Subset(a, c) && Subset(c, Closure(a)) && Subset(s, Closure(a))
      invariant Subset(Compose(c, a), Union(c, s))
      invariant sub <==> Subset(s, c)
      invariant compositions >= compositionCount + 1
      invariant comparisons >= compCount + sq + (if sub then sq else 0)
      decreases Missing(c)
    {
      MissingShrinks(c, s);
      Algorithm1Step(a, c, s);
      c := UnionMatrix(c, s);
      s, comparisons := CompositeMatrixCounter(s, c, comparisons);
      compositions := compositions + 1;
      sub, comparisons := IsSubsetCounter(s, c, comparisons);
    }
    ClosureExact(a, c);
  }

  /** `algorithm2Counter`: the matrix of `algorithm2`, counting compositions and comparisons. */
  method Algorithm2Counter(a: Relation, compositionCount: int, comparisonCount: int)
    returns (c: Relation, compositions: int, comparisons: int)
    requires IsSquare(a)
    ensures c == Closure(a)
    ensures compositions >= compositionCount + 1
    ensures comparisons >= comparisonCount + 2 * (|a| * |a|)
  {
    var sq: nat := |a| * |a|;
    ClosureContains(a);
    ClosureTransitive(a);
    c := a;
    var c2;
    c2, comparisons := CompositeMatrixCounter(c, c, comparisonCount);
    compositions := compositionCount + 1;
    var sub;
    sub, comparisons := IsSubsetCounter(c2, c, comparisons);
    while !sub
      invariant SameSize(a, c) && c2 == Compose(c, c)
      invariant Subset(a, c) && Subset(c, Closure(a))
      invariant sub <==> Subset(c2, c)
      invariant compositions >= compositionCount + 1
      invariant comparisons >= comparisonCount + sq + (if sub then sq else 0)
      decreases Missing(c)
    {
      MissingShrinks(c, c2);
      Algorithm2Step(a, c);
      c := UnionMatrix(c, c2);
      c2, comparisons := CompositeMatrixCounter(c, c, comparisons);
      compositions := compositions + 1;
      sub, comparisons := IsSubsetCounter(c2, c, comparisons);
    }
    Algorithm2Exit(a, c);
  }

  /** One round z of Warshall's algorithm: x gains y when x reaches z and z reaches y. */
  function Round(c: Relation, z: nat): (r: Relation)
    requires IsSquare(c) && z < |c|
    ensures SameSize(r, c)
    ensures forall x, y :: 0 <= x < |c| && 0 <= y < |c| ==> (r[x][y] <==> c[x][y] || (c[x][z] && c[z][y]))
  {
    seq(|c|, x requires 0 <= x < |c| => seq(|c|, y requires 0 <= y < |c| => c[x][y] || (c[x][z] && c[z][y])))
  }

  /** The matrix after the first k rounds of Warshall's algorithm. */
  function Warshall(a: Relation, k: nat): (r: Relation)
    requires IsSquare(a) && k <= |a|
    ensures SameSize(r, a)
  {
    if k == 0 then a else Round(Warshall(a, k - 1), k - 1)
  }

  /** The pass over row x in round z of `algorithm3`; it reads row z while it may be writing it. */
  method WarshallRow(c: Relation, x: nat, z: nat) returns (c': Relation)
    requires IsSquare(c) && x < |c| && z < |c|
    ensures IsSquare(c') && |c'| == |c|
    ensures forall r :: 0 <= r < |c| && r != x ==> c'[r] == c[r]
    ensures forall y :: 0 <= y < |c| ==> (c'[x][y] <==> c[x][y] || c[z][y])
  {
    var n := |c|;
    c' := c;
    for y := 0 to n
      invariant IsSquare(c') && |c'| == n
      invariant forall r :: 0 <= r < n && r != x ==> c'[r] == c[r]
      invariant forall y' :: 0 <= y' < y ==> (c'[x][y'] <==> c[x][y'] || c[z][y'])
      invariant forall y' :: y <= y' < n ==> c'[x][y'] == c[x][y']
    {
      if c'[z][y] {
        c' := c'[x := c'[x][y := true]];
      }
    }
  }

  /** Round z of `algorithm3`, updating the rows in place one after another. */
  method WarshallRound(c: Relation, z: nat) returns (c': Relation)
    requires IsSquare(c) && z < |c|
    ensures c' == Round(c, z)
  {
    var n := |c|;
    c' := c;
    for x := 0 to n
      invariant IsSquare(c') && |c'| == n
      invariant forall r :: 0 <= r < x ==> c'[r] == Round(c, z)[r]
      invariant forall r :: x <= r < n ==> c'[r] == c[r]
    {
      assert c'[z] == c[z] by {
        if z < x {
          assert c'[z] == Round(c, z)[z];
        }
      }
      if c'[x][z] {
        c' := WarshallRow(c', x, z);
      }
      assert c'[x] == Round(c, z)[x];
    }
  }

  /** `algorithm3`: Warshall's algorithm on a copy of A. */
  method Algorithm3(a: Relation) returns (c: Relation)
    requires IsSquare(a)
    ensures c == Warshall(a, |a|)
    ensures c == Closure(a)
  {
    c := a;
    for z := 0 to |a|
      invariant c == Warshall(a, z)
    {
      c := WarshallRound(c, z);
    }
    WarshallIsClosure(a);
  }

  /** Round z of `algorithm3Counter`: one comparison per row tested, n more per row passed over. */
  method WarshallRoundCounter(c: Relation, z: nat, counter: int) returns (c': Relation, counter': int)
    requires IsSquare(c) && z < |c|
    ensures c' == Round(c, z)
    ensures counter + |c| <= counter' <= counter + |c| * (|c| + 1)
  {
    var n := |c|;
    c' := c;
    counter' := counter;
    for x := 0 to n
      invariant IsSquare(c') && |c'| == n
      invariant forall r :: 0 <= r < x ==> c'[r] == Round(c, z)[r]
      invariant forall r :: x <= r < n ==> c'[r] == c[r]
      invariant counter + x <= counter' <= counter + x * (n + 1)
    {
      assert c'[z] == c[z] by {
        if z < x {
          assert c'[z] == Round(c, z)[z];
        }
      }
      counter' := counter' + 1;
      if c'[x][z] {
        c' := WarshallRow(c', x, z);
        counter' := counter' + n;
      }
      assert c'[x] == Round(c, z)[x];
      assert (x + 1) * (n + 1) == x * (n + 1) + n + 1;
    }
  }

  /** `algorithm3Counter`: the matrix of `algorithm3`, with between n and n(n+1) comparisons per round. */
  method Algorithm3Counter(a: Relation, comprasionCounter: int) returns (c: Relation, counter: int)
    requires IsSquare(a)
    ensures c == Closure(a)
    ensures comprasionCounter + |a| * |a| <= counter <= comprasionCounter + |a| * (|a| * (|a| + 1))
  {
    var n := |a|;
    var perRound := n * (n + 1);
    c := a;
    counter := comprasionCounter;
    for z := 0 to n
      invariant c == Warshall(a, z)
      invariant comprasionCounter + z * n <= counter <= comprasionCounter + z * perRound
    {
      c, counter := WarshallRoundCounter(c, z, counter);
      assert (z + 1) * n == z * n + n && (z + 1) * perRound == z * perRound + perRound;
    }
    WarshallIsClosure(a);
  }

  /** A piece of a walk, two vertices or more, is a walk. */
  lemma SubWalk(a: Relation, w: seq<int>, i: nat, j: nat)
    requires IsSquare(a) && IsWalk(a, w) && i + 2 <= j <= |w|
    ensures IsWalk(a, w[i..j])
  {
    var u := w[i..j];
    forall k | 0 <= k < |u| - 1 ensures a[u[k]][u[k + 1]] {
      assert u[k] == w[i + k] && u[k + 1] == w[i + k + 1];
    }
  }

  /** A walk into z whose inner vertices are at most z, cut at its first visit of z. */
  lemma {:induction false} CutToEnd(a: Relation, w: seq<int>, z: int) returns (u: seq<int>)
    requires IsSquare(a) && IsWalk(a, w) && w[|w| - 1] == z && InnerBelow(w, z + 1)
    ensures IsWalk(a, u) && u[0] == w[0] && u[|u| - 1] == z && InnerBelow(u, z)
    decreases |w|
  {
    if InnerBelow(w, z) {
      u := w;
    } else {
      var i :| 0 < i < |w| - 1 && w[i] >= z;
      SubWalk(a, w, 0, i + 1);
      u := CutToEnd(a, w[..i + 1], z);
    }
  }

  /** A walk out of z whose inner vertices are at most z, cut at its last visit of z. */
  lemma {:induction false} CutFromStart(a: Relation, w: seq<int>, z: int) returns (u: seq<int>)
    requires IsSquare(a) && IsWalk(a, w) && w[0] == z && InnerBelow(w, z + 1)
    ensures IsWalk(a, u) && u[0] == z && u[|u| - 1] == w[|w| - 1] && InnerBelow(u, z)
    decreases |w|
  {
    if InnerBelow(w, z) {
      u := w;
    } else {
      var i :| 0 < i < |w| - 1 && w[i] >= z;
      SubWalk(a, w, i, |w|);
      u := CutFromStart(a, w[i..], z);
    }
  }

  /** A walk whose inner vertices are at most z and that visits z inside splits into two walks through z with inner vertices below z. */
  lemma SplitAt(a: Relation, w: seq<int>, z: int) returns (u: seq<int>, v: seq<int>)
    requires IsSquare(a) && IsWalk(a, w) && InnerBelow(w, z + 1) && !InnerBelow(w, z)
    ensures IsWalk(a, u) && u[0] == w[0] && u[|u| - 1] == z && InnerBelow(u, z)
    ensures IsWalk(a, v) && v[0] == z && v[|v| - 1] == w[|w| - 1] && InnerBelow(v, z)
  {
    var i :| 0 < i < |w| - 1 && w[i] >= z;
    SubWalk(a, w, 0, i + 1);
    u := CutToEnd(a, w[..i + 1], z);
    SubWalk(a, w, i, |w|);
    v := CutFromStart(a, w[i..], z);
  }

  /** After k rounds, the ends of every walk whose inner vertices are below k are related. */
  lemma {:induction false} WarshallComplete(a: Relation, k: nat, w: seq<int>)
    requires IsSquare(a) && k <= |a| && IsWalk(a, w) && InnerBelow(w, k)
    ensures Warshall(a, k)[w[0]][w[|w| - 1]]
    decreases k
  {
    if k == 0 {
      assert 0 <= w[1];
      assert a[w[0]][w[1]];
    } else {
      var z := k - 1;
      var c := Warshall(a, z);
      assert Warshall(a, k) == Round(c, z);
      if InnerBelow(w, z) {
        WarshallComplete(a, z, w);
      } else {
        var u, v := SplitAt(a, w, z);
        WarshallComplete(a, z, u);
        WarshallComplete(a, z, v);
        assert c[w[0]][z] && c[z][w[|w| - 1]];
      }
    }
  }

  /** A round grows its matrix and stays inside any transitive relation containing it. */
  lemma RoundWithin(c: Relation, z: nat, t: Relation)
    requires SameSize(c, t) && z < |c| && Subset(c, t) && Transitive(t)
    ensures Subset(c, Round(c, z)) && Subset(Round(c, z), t)
  {
    forall x, y | 0 <= x < |c| && 0 <= y < |c| && Round(c, z)[x][y]
      ensures t[x][y]
    {
      if !c[x][y] {
        assert t[x][z] && t[z][y];
      }
    }
  }

  /** Every round keeps the matrix between A and any transitive relation that contains A. */
  lemma {:induction false} WarshallWithin(a: Relation, k: nat, t: Relation)
    requires SameSize(a, t) && k <= |a| && Subset(a, t) && Transitive(t)
    ensures Subset(a, Warshall(a, k)) && Subset(Warshall(a, k), t)
    decreases k
  {
    if k > 0 {
      var c := Warshall(a, k - 1);
      WarshallWithin(a, k - 1, t);
      RoundWithin(c, k - 1, t);
      assert Warshall(a, k) == Round(c, k - 1);
    }
  }

  /** After all |A| rounds Warshall's algorithm yields the transitive closure. */
  lemma WarshallIsClosure(a: Relation)
    requires IsSquare(a)
    ensures Warshall(a, |a|) == Closure(a)
  {
    ClosureContains(a);
    ClosureTransitive(a);
    WarshallWithin(a, |a|, Closure(a));
    forall x, y | 0 <= x < |a| && 0 <= y < |a| && Closure(a)[x][y]
      ensures Warshall(a, |a|)[x][y]
    {
      var w :| IsWalk(a, w) && w[0] == x && w[|w| - 1] == y;
      assert InnerBelow(w, |a|);
      WarshallComplete(a, |a|, w);
    }
    SubsetAntisymmetric(Warshall(a, |a|), Closure(a));
  }

  /** The relation y - x == 1 used by the lab on ten points. */
  function Successor(n: nat): (m: Relation)
    ensures IsSquare(m) && |m| == n
    ensures forall x, y :: 0 <= x < n && 0 <= y < n ==> (m[x][y] <==> y - x == 1)
  {
    Tabulate(n, (x, y) => y - x == 1)
  }

  /** The closure of the successor relation is the strict order x < y. */
  lemma SuccessorClosure(n: nat, x: int, y: int)
    requires 0 <= x < n && 0 <= y < n
    ensures Closure(Successor(n))[x][y] <==> x < y
  {
    var a := Successor(n);
    if x < y {
      var w := seq(y - x + 1, i requires 0 <= i <= y - x => x + i);
      assert IsWalk(a, w);
      assert w[0] == x && w[|w| - 1] == y;
    } else if Reaches(a, x, y) {
      var w :| IsWalk(a, w) && w[0] == x && w[|w| - 1] == y;
      SuccessorWalk(n, w);
      assert false;
    }
  }

  /** Along a walk of the successor relation each vertex is the first one plus its position. */
  lemma {:induction false} SuccessorWalk(n: nat, w: seq<int>)
    requires IsWalk(Successor(n), w)
    ensures w[|w| - 1] == w[0] + |w| - 1
    decreases |w|
  {
    if |w| > 2 {
      SubWalk(Successor(n), w, 0, |w| - 1);
      SuccessorWalk(n, w[..|w| - 1]);
      assert Successor(n)[w[|w| - 2]][w[|w| - 1]];
    } else {
      assert Successor(n)[w[0]][w[1]];
    }
  }
}
