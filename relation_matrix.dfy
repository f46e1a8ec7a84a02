/**
 * The relation matrices of discrete_math_lab_3-1.cpp. A relation on the
 * points 0..9 is a 10-by-10 matrix of C++ `int`s; an entry counts as "related"
 * when it is non-zero, as C++ tests it in a condition. The lab has two API
 * styles: functions that return a fresh matrix (`unionMatrices`, ...) and
 * use the bitwise operators `|`, `&` and `~`, and procedures that overwrite
 * an out-parameter (`UnionMatrix`, ...) and store 0 or 1. An `int` is a
 * 32-bit two's-complement word, so an entry is a `bv32` here: the bitwise
 * operators are the native ones and `x + y == 1` wraps as the machine does.
 *
 * Every operation is tied to its meaning as a relation through `Truth`, the
 * boolean view of a matrix, and the set algebra of the BinRelation module.
 */
module IntRelations {
  import BinRelation

  /** The fixed number of points. */
  const N: nat := 10

  type Cell = bv32
  type Matrix = seq<seq<Cell>>

  /** An N-by-N matrix. */
  predicate Shaped(m: Matrix)
  {
    |m| == N && forall i :: 0 <= i < N ==> |m[i]| == N
  }

  /** Every entry is 0 or 1. */
  predicate Binary(m: Matrix)
    requires Shaped(m)
  {
    forall i, j :: 0 <= i < N && 0 <= j < N ==> m[i][j] == 0 || m[i][j] == 1
  }

  /** The relation a matrix stands for: an entry is related when it is non-zero. */
  function Truth(m: Matrix): (r: BinRelation.Relation)
    requires Shaped(m)
    ensures |r| == N && BinRelation.IsSquare(r)
    ensures forall i, j :: 0 <= i < N && 0 <= j < N ==> (r[i][j] <==> m[i][j] != 0)
  {
    seq(N, i requires 0 <= i < N => seq(N, j requires 0 <= j < N => m[i][j] != 0))
  }

  /** `createMatrix(N, N)`: all zeros. */
  function Zero(): (m: Matrix)
    ensures Shaped(m) && Binary(m)
    ensures forall i, j :: 0 <= i < N && 0 <= j < N ==> m[i][j] == 0
  {
    seq(N, i => seq(N, j => 0))
  }

  // ---------------------------------------------------------------------
  // The entrywise specifications of the two API styles

  /** Entry (i, j) is `m1[i][j] | m2[i][j]`. */
  function BitOr(m1: Matrix, m2: Matrix): (r: Matrix)
    requires Shaped(m1) && Shaped(m2)
    ensures Shaped(r)
  {
    seq(N, i requires 0 <= i < N => seq(N, j requires 0 <= j < N => m1[i][j] | m2[i][j]))
  }

  /** Entry (i, j) is `m1[i][j] & m2[i][j]`. */
  function BitAnd(m1: Matrix, m2: Matrix): (r: Matrix)
    requires Shaped(m1) && Shaped(m2)
    ensures Shaped(r)
  {
    seq(N, i requires 0 <= i < N => seq(N, j requires 0 <= j < N => m1[i][j] & m2[i][j]))
  }

  /** Entry (i, j) is `m1[i][j] & ~m2[i][j]`. */
  function BitAndNot(m1: Matrix, m2: Matrix): (r: Matrix)
    requires Shaped(m1) && Shaped(m2)
    ensures Shaped(r)
  {
    seq(N, i requires 0 <= i < N => seq(N, j requires 0 <= j < N => m1[i][j] & !m2[i][j]))
  }

  /** Entry (i, j) is 1 when exactly one operand is non-zero, tested with `||`, `&&` and `!`. */
  function LogicalXor(m1: Matrix, m2: Matrix): (r: Matrix)
    requires Shaped(m1) && Shaped(m2)
    ensures Shaped(r)
  {
    seq(N, i requires 0 <= i < N => seq(N, j requires 0 <= j < N =>
      if (m1[i][j] != 0 || m2[i][j] != 0) && !(m1[i][j] != 0 && m2[i][j] != 0) then 1 else 0))
  }

  /** Entry (i, j) is `~m[i][j]`. */
  function BitNot(m: Matrix): (r: Matrix)
    requires Shaped(m)
    ensures Shaped(r)
  {
    seq(N, i requires 0 <= i < N => seq(N, j requires 0 <= j < N => !m[i][j]))
  }

  /** Entry (i, j) is m[j][i]. */
  function Transpose(m: Matrix): (r: Matrix)
    requires Shaped(m)
    ensures Shaped(r)
    ensures forall i, j :: 0 <= i < N && 0 <= j < N ==> r[i][j] == m[j][i]
  {
    seq(N, i requires 0 <= i < N => seq(N, j requires 0 <= j < N => m[j][i]))
  }

  /** Some k has both m1[i][k] and m2[k][j] non-zero. */
  ghost predicate Joined(m1: Matrix, m2: Matrix, i: int, j: int)
    requires Shaped(m1) && Shaped(m2) && 0 <= i < N && 0 <= j < N
  {
    exists k :: 0 <= k < N && m1[i][k] != 0 && m2[k][j] != 0
  }

  /** Entry (i, j) is 1 when some k joins i to j, and 0 otherwise. */
  ghost function Product(m1: Matrix, m2: Matrix): (r: Matrix)
    requires Shaped(m1) && Shaped(m2)
    ensures Shaped(r)
  {
    seq(N, i requires 0 <= i < N => seq(N, j requires 0 <= j < N => if Joined(m1, m2, i, j) then 1 else 0))
  }

  /** Entry (i, j) is `(m1[i][j] || m2[i][j]) ? 1 : 0`. */
  function OrBit(m1: Matrix, m2: Matrix): (r: Matrix)
    requires Shaped(m1) && Shaped(m2)
    ensures Shaped(r)
  {
    seq(N, i requires 0 <= i < N => seq(N, j requires 0 <= j < N =>
      if m1[i][j] != 0 || m2[i][j] != 0 then 1 else 0))
  }

  /** Entry (i, j) is `(m1[i][j] && m2[i][j]) ? 1 : 0`. */
  function AndBit(m1: Matrix, m2: Matrix): (r: Matrix)
    requires Shaped(m1) && Shaped(m2)
    ensures Shaped(r)
  {
    seq(N, i requires 0 <= i < N => seq(N, j requires 0 <= j < N =>
      if m1[i][j] != 0 && m2[i][j] != 0 then 1 else 0))
  }

  /** Entry (i, j) is `m2[i][j] ? 0 : m1[i][j]`. */
  function Masked(m1: Matrix, m2: Matrix): (r: Matrix)
    requires Shaped(m1) && Shaped(m2)
    ensures Shaped(r)
  {
    seq(N, i requires 0 <= i < N => seq(N, j requires 0 <= j < N =>
      if m2[i][j] != 0 then 0 else m1[i][j]))
  }

  /** Entry (i, j) is `(m1[i][j] + m2[i][j] == 1) ? 1 : 0`, the sum wrapping at 32 bits. */
  function SumIsOne(m1: Matrix, m2: Matrix): (r: Matrix)
    requires Shaped(m1) && Shaped(m2)
    ensures Shaped(r)
  {
    seq(N, i requires 0 <= i < N => seq(N, j requires 0 <= j < N => SumTest(m1[i][j], m2[i][j])))
  }

  /** `(x + y == 1) ? 1 : 0` on 32-bit words. */
  function SumTest(x: Cell, y: Cell): Cell
  {
    if x + y == 1 then 1 else 0
  }

  /** Entry (i, j) is `!m[i][j]`: 1 for a zero entry, 0 otherwise. */
  function LogicalNot(m: Matrix): (r: Matrix)
    requires Shaped(m)
    ensures Shaped(r)
  {
    seq(N, i requires 0 <= i < N => seq(N, j requires 0 <= j < N => if m[i][j] == 0 then 1 else 0))
  }

  // ---------------------------------------------------------------------
  // The returning style

  /** `unionMatrices`. */
  method UnionMatrices(m1: Matrix, m2: Matrix) returns (result: Matrix)
    requires Shaped(m1) && Shaped(m2)
    ensures result == BitOr(m1, m2)
  {
    result := [];
    for i := 0 to N
      invariant |result| == i && forall r :: 0 <= r < i ==> result[r] == BitOr(m1, m2)[r]
    {
      var row := [];
      for j := 0 to N
        invariant row == BitOr(m1, m2)[i][..j]
      {
        row := row + [m1[i][j] | m2[i][j]];
      }
      result := result + [row];
    }
  }

  /** `intersectionMatrices`. */
  method IntersectionMatrices(m1: Matrix, m2: Matrix) returns (result: Matrix)
    requires Shaped(m1) && Shaped(m2)
    ensures result == BitAnd(m1, m2)
  {
    result := [];
    for i := 0 to N
      invariant |result| == i && forall r :: 0 <= r < i ==> result[r] == BitAnd(m1, m2)[r]
    {
      var row := [];
      for j := 0 to N
        invariant row == BitAnd(m1, m2)[i][..j]
      {
        row := row + [m1[i][j] & m2[i][j]];
      }
      result := result + [row];
    }
  }

  /** `differenceMatrices`. */
  method DifferenceMatrices(m1: Matrix, m2: Matrix) returns (result: Matrix)
    requires Shaped(m1) && Shaped(m2)
    ensures result == BitAndNot(m1, m2)
  {
    result := [];
    for i := 0 to N
      invariant |result| == i && forall r :: 0 <= r < i ==> result[r] == BitAndNot(m1, m2)[r]
    {
      var row := [];
      for j := 0 to N
        invariant row == BitAndNot(m1, m2)[i][..j]
      {
        row := row + [m1[i][j] & !m2[i][j]];
      }
      result := result + [row];
    }
  }

  /** `symDifferenceMatrices`. */
  method SymDifferenceMatrices(m1: Matrix, m2: Matrix) returns (result: Matrix)
    requires Shaped(m1) && Shaped(m2)
    ensures result == LogicalXor(m1, m2)
  {
    result := [];
    for i := 0 to N
      invariant |result| == i && forall r :: 0 <= r < i ==> result[r] == LogicalXor(m1, m2)[r]
    {
      var row := [];
      for j := 0 to N
        invariant row == LogicalXor(m1, m2)[i][..j]
      {
        var x, y := m1[i][j] != 0, m2[i][j] != 0;
        row := row + [if (x || y) && !(x && y) then 1 else 0];
      }
      result := result + [row];
    }
  }

  /** `complementMatrix`, as written with the bitwise `~`. */
  method ComplementMatrix(m: Matrix) returns (result: Matrix)
    requires Shaped(m)
    ensures result == BitNot(m)
  {
    result := [];
    for i := 0 to N
      invariant |result| == i && forall r :: 0 <= r < i ==> result[r] == BitNot(m)[r]
    {
      var row := [];
      for j := 0 to N
        invariant row == BitNot(m)[i][..j]
      {
        row := row + [!m[i][j]];
      }
      result := result + [row];
    }
  }

  /** `inverseMatrix`: walks the argument row by row and writes the result column by column. */
  method InverseMatrices(m: Matrix) returns (result: Matrix)
    requires Shaped(m)
    ensures result == Transpose(m)
  {
    result := Zero();
    for i := 0 to N
      invariant Shaped(result)
      invariant forall r, c :: 0 <= r < N && 0 <= c < i ==> result[r][c] == m[c][r]
      invariant forall r, c :: 0 <= r < N && i <= c < N ==> result[r][c] == 0
    {
      for j := 0 to N
        invariant Shaped(result)
        invariant forall r, c :: 0 <= r < N && 0 <= c < i ==> result[r][c] == m[c][r]
        invariant forall r :: 0 <= r < j ==> result[r][i] == m[i][r]
        invariant forall r :: j <= r < N ==> result[r][i] == 0
        invariant forall r, c :: 0 <= r < N && i < c < N ==> result[r][c] == 0
      {
        result := result[j := result[j][i := m[i][j]]];
      }
    }
    assert forall r :: 0 <= r < N ==> result[r] == Transpose(m)[r];
  }

  /** The inner search of `compositeMatrices`: stops at the first k joining i to j. */
  method JoinSearch(m1: Matrix, m2: Matrix, i: nat, j: nat) returns (found: bool)
    requires Shaped(m1) && Shaped(m2) && i < N && j < N
    ensures found <==> Joined(m1, m2, i, j)
  {
    for k := 0 to N
      invariant forall k' :: 0 <= k' < k ==> !(m1[i][k'] != 0 && m2[k'][j] != 0)
    {
      if m1[i][k] != 0 && m2[k][j] != 0 {
        return true;
      }
    }
    return false;
  }

  /** `compositeMatrices`: an entry becomes 1 at the first joining k. */
  method CompositeMatrices(m1: Matrix, m2: Matrix) returns (result: Matrix)
    requires Shaped(m1) && Shaped(m2)
    ensures result == Product(m1, m2)
  {
    result := [];
    for i := 0 to N
      invariant |result| == i && forall r :: 0 <= r < i ==> result[r] == Product(m1, m2)[r]
    {
      var row := [];
      for j := 0 to N
        invariant row == Product(m1, m2)[i][..j]
      {
        var found := JoinSearch(m1, m2, i, j);
        row := row + [if found then 1 else 0];
      }
      result := result + [row];
    }
  }

  // ---------------------------------------------------------------------
  // The out-parameter style: each procedure overwrites every entry of res

  /** The contents of an out-parameter matrix. */
  ghost function Contents(res: array2<Cell>): (m: Matrix)
    reads res
    requires res.Length0 == N && res.Length1 == N
    ensures Shaped(m)
  {
    seq(N, i requires 0 <= i < N reads res => seq(N, j requires 0 <= j < N reads res => res[i, j]))
  }

  /** `UnionMatrix`. */
  method UnionMatrix(m1: Matrix, m2: Matrix, res: array2<Cell>)
    requires Shaped(m1) && Shaped(m2) && res.Length0 == N && res.Length1 == N
    modifies res
    ensures Contents(res) == OrBit(m1, m2)
  {
    for i := 0 to N
      invariant forall r, c :: 0 <= r < i && 0 <= c < N ==> res[r, c] == OrBit(m1, m2)[r][c]
    {
      for j := 0 to N
        invariant forall r, c :: 0 <= r < N && 0 <= c < N && (r < i || (r == i && c < j)) ==> res[r, c] == OrBit(m1, m2)[r][c]
      {
        res[i, j] := if m1[i][j] != 0 || m2[i][j] != 0 then 1 else 0;
      }
    }
    SameContents(res, OrBit(m1, m2));
  }

  /** `IntersectionMatrix`. */
  method IntersectionMatrix(m1: Matrix, m2: Matrix, res: array2<Cell>)
    requires Shaped(m1) && Shaped(m2) && res.Length0 == N && res.Length1 == N
    modifies res
    ensures Contents(res) == AndBit(m1, m2)
  {
    for i := 0 to N
      invariant forall r, c :: 0 <= r < i && 0 <= c < N ==> res[r, c] == AndBit(m1, m2)[r][c]
    {
      for j := 0 to N
        invariant forall r, c :: 0 <= r < N && 0 <= c < N && (r < i || (r == i && c < j)) ==> res[r, c] == AndBit(m1, m2)[r][c]
      {
        res[i, j] := if m1[i][j] != 0 && m2[i][j] != 0 then 1 else 0;
      }
    }
    SameContents(res, AndBit(m1, m2));
  }

  /** `DiffMatrix`. */
  method DiffMatrix(m1: Matrix, m2: Matrix, res: array2<Cell>)
    requires Shaped(m1) && Shaped(m2) && res.Length0 == N && res.Length1 == N
    modifies res
    ensures Contents(res) == Masked(m1, m2)
  {
    for i := 0 to N
      invariant forall r, c :: 0 <= r < i && 0 <= c < N ==> res[r, c] == Masked(m1, m2)[r][c]
    {
      for j := 0 to N
        invariant forall r, c :: 0 <= r < N && 0 <= c < N && (r < i || (r == i && c < j)) ==> res[r, c] == Masked(m1, m2)[r][c]
      {
        res[i, j] := if m2[i][j] != 0 then 0 else m1[i][j];
      }
    }
    SameContents(res, Masked(m1, m2));
  }

  /** `SymDiffMatrix`. */
  method SymDiffMatrix(m1: Matrix, m2: Matrix, res: array2<Cell>)
    requires Shaped(m1) && Shaped(m2) && res.Length0 == N && res.Length1 == N
    modifies res
    ensures Contents(res) == SumIsOne(m1, m2)
  {
    for i := 0 to N
      invariant forall r, c :: 0 <= r < i && 0 <= c < N ==> res[r, c] == SumIsOne(m1, m2)[r][c]
    {
      for j := 0 to N
        invariant forall r, c :: 0 <= r < N && 0 <= c < N && (r < i || (r == i && c < j)) ==> res[r, c] == SumIsOne(m1, m2)[r][c]
      {
        res[i, j] := SumTest(m1[i][j], m2[i][j]);
      }
    }
    SameContents(res, SumIsOne(m1, m2));
  }

  /** `ComplMatrix`. */
  method ComplMatrix(m: Matrix, res: array2<Cell>)
    requires Shaped(m) && res.Length0 == N && res.Length1 == N
    modifies res
    ensures Contents(res) == LogicalNot(m)
  {
    for i := 0 to N
      invariant forall r, c :: 0 <= r < i && 0 <= c < N ==> res[r, c] == LogicalNot(m)[r][c]
    {
      for j := 0 to N
        invariant forall r, c :: 0 <= r < N && 0 <= c < N && (r < i || (r == i && c < j)) ==> res[r, c] == LogicalNot(m)[r][c]
      {
        res[i, j] := if m[i][j] == 0 then 1 else 0;
      }
    }
    SameContents(res, LogicalNot(m));
  }

  /** `InverseMatrix`. */
  method InverseMatrix(m: Matrix, res: array2<Cell>)
    requires Shaped(m) && res.Length0 == N && res.Length1 == N
    modifies res
    ensures Contents(res) == Transpose(m)
  {
    for i := 0 to N
      invariant forall r, c :: 0 <= r < i && 0 <= c < N ==> res[r, c] == m[c][r]
    {
      for j := 0 to N
        invariant forall r, c :: 0 <= r < N && 0 <= c < N && (r < i || (r == i && c < j)) ==> res[r, c] == m[c][r]
      {
        res[i, j] := m[j][i];
      }
    }
    SameContents(res, Transpose(m));
  }

  /** `CompositeMatrix`: the entry is cleared, then set by every joining k (no early exit). */
  method CompositeMatrix(m1: Matrix, m2: Matrix, res: array2<Cell>)
    requires Shaped(m1) && Shaped(m2) && res.Length0 == N && res.Length1 == N
    modifies res
    ensures Contents(res) == Product(m1, m2)
  {
    for i := 0 to N
      invariant forall r, c :: 0 <= r < i && 0 <= c < N ==> res[r, c] == Product(m1, m2)[r][c]
    {
      for j := 0 to N
        invariant forall r, c :: 0 <= r < N && 0 <= c < N && (r < i || (r == i && c < j)) ==> res[r, c] == Product(m1, m2)[r][c]
      {
        res[i, j] := 0;
        for k := 0 to N
          invariant forall r, c :: 0 <= r < N && 0 <= c < N && (r < i || (r == i && c < j)) ==> res[r, c] == Product(m1, m2)[r][c]
          invariant res[i, j] == if exists k' :: 0 <= k' < k && m1[i][k'] != 0 && m2[k'][j] != 0 then 1 else 0
        {
          if m1[i][k] != 0 && m2[k][j] != 0 {
            res[i, j] := 1;
          }
        }
      }
    }
    SameContents(res, Product(m1, m2));
  }

  /** An out-parameter whose every entry matches a matrix holds that matrix. */
  lemma SameContents(res: array2<Cell>, m: Matrix)
    requires res.Length0 == N && res.Length1 == N && Shaped(m)
    requires forall r, c :: 0 <= r < N && 0 <= c < N ==> res[r, c] == m[r][c]
    ensures Contents(res) == m
  {
    assert forall r :: 0 <= r < N ==> Contents(res)[r] == m[r];
  }

  // ---------------------------------------------------------------------
  // Comparisons

  /** `isSubset`: fails at an entry that is 1 in m1 and 0 in m2. */
  method IsSubsetOf(m1: Matrix, m2: Matrix) returns (b: bool)
    requires Shaped(m1) && Shaped(m2)
    ensures b <==> forall i, j :: 0 <= i < N && 0 <= j < N ==> !(m1[i][j] == 1 && m2[i][j] == 0)
  {
    for i := 0 to N
      invariant forall i', j :: 0 <= i' < i && 0 <= j < N ==> !(m1[i'][j] == 1 && m2[i'][j] == 0)
    {
      for j := 0 to N
        invariant forall j' :: 0 <= j' < j ==> !(m1[i][j'] == 1 && m2[i][j'] == 0)
      {
        if m1[i][j] == 1 && m2[i][j] == 0 {
          return false;
        }
      }
    }
    return true;
  }

  /** `isEqual` and `IsEqual` (the two are the same loop). */
  method IsEqual(m1: Matrix, m2: Matrix) returns (b: bool)
    requires Shaped(m1) && Shaped(m2)
    ensures b <==> m1 == m2
  {
    for i := 0 to N
      invariant forall i' :: 0 <= i' < i ==> m1[i'] == m2[i']
    {
      for j := 0 to N
        invariant m1[i][..j] == m2[i][..j]
      {
        if m1[i][j] != m2[i][j] {
          return false;
        }
      }
      assert m1[i] == m1[i][..N] && m2[i] == m2[i][..N];
    }
    return true;
  }

  /** `isProperSubset`: one pass that tracks both the subset test and the equality test. */
  method IsProperSubsetOf(m1: Matrix, m2: Matrix) returns (b: bool)
    requires Shaped(m1) && Shaped(m2)
    ensures b <==> (forall i, j :: 0 <= i < N && 0 <= j < N ==> !(m1[i][j] == 1 && m2[i][j] == 0)) && m1 != m2
  {
    var subset, equal := true, true;
    for i := 0 to N
      invariant subset <==> forall i', j :: 0 <= i' < i && 0 <= j < N ==> !(m1[i'][j] == 1 && m2[i'][j] == 0)
      invariant equal <==> forall i' :: 0 <= i' < i ==> m1[i'] == m2[i']
    {
      ghost var rowEqual := true;
      for j := 0 to N
        invariant subset <==> (forall i', j' :: 0 <= i' < i && 0 <= j' < N ==> !(m1[i'][j'] == 1 && m2[i'][j'] == 0))
                              && (forall j' :: 0 <= j' < j ==> !(m1[i][j'] == 1 && m2[i][j'] == 0))
        invariant rowEqual <==> m1[i][..j] == m2[i][..j]
        invariant equal <==> (forall i' :: 0 <= i' < i ==> m1[i'] == m2[i']) && rowEqual
      {
        if m1[i][j] == 1 && m2[i][j] == 0 {
          subset := false;
        }
        if m1[i][j] != m2[i][j] {
          equal := false;
          rowEqual := false;
        } else {
          assert m1[i][..j + 1] == m1[i][..j] + [m1[i][j]] && m2[i][..j + 1] == m2[i][..j] + [m2[i][j]];
        }
      }
      assert m1[i] == m1[i][..N] && m2[i] == m2[i][..N];
    }
    assert equal <==> m1 == m2;
    b := subset && !equal;
  }

  /** `IsSubset`: fails at an entry that is 1 in m1 and not 1 in m2. */
  method IsSubset(m1: Matrix, m2: Matrix) returns (b: bool)
    requires Shaped(m1) && Shaped(m2)
    ensures b <==> forall i, j :: 0 <= i < N && 0 <= j < N ==> !(m1[i][j] == 1 && m2[i][j] != 1)
  {
    for i := 0 to N
      invariant forall i', j :: 0 <= i' < i && 0 <= j < N ==> !(m1[i'][j] == 1 && m2[i'][j] != 1)
    {
      for j := 0 to N
        invariant forall j' :: 0 <= j' < j ==> !(m1[i][j'] == 1 && m2[i][j'] != 1)
      {
        if m1[i][j] == 1 && m2[i][j] != 1 {
          return false;
        }
      }
    }
    return true;
  }

  /** `IsProperSubset`: not equal, then a subset. */
  method IsProperSubset(m1: Matrix, m2: Matrix) returns (b: bool)
    requires Shaped(m1) && Shaped(m2)
    ensures b <==> m1 != m2 && forall i, j :: 0 <= i < N && 0 <= j < N ==> !(m1[i][j] == 1 && m2[i][j] != 1)
  {
    var eq := IsEqual(m1, m2);
    if eq {
      return false;
    }
    b := IsSubset(m1, m2);
  }

  /** On 0/1 matrices both subset tests mean inclusion of the related pairs. */
  lemma SubsetTestsAgree(m1: Matrix, m2: Matrix)
    requires Shaped(m1) && Shaped(m2) && Binary(m1) && Binary(m2)
    ensures (forall i, j :: 0 <= i < N && 0 <= j < N ==> !(m1[i][j] == 1 && m2[i][j] == 0))
            <==> BinRelation.Subset(Truth(m1), Truth(m2))
    ensures (forall i, j :: 0 <= i < N && 0 <= j < N ==> !(m1[i][j] == 1 && m2[i][j] != 1))
            <==> BinRelation.Subset(Truth(m1), Truth(m2))
  {
  }

  /** On 0/1 matrices, equal matrices are equal relations. */
  lemma EqualIffSameRelation(m1: Matrix, m2: Matrix)
    requires Shaped(m1) && Shaped(m2) && Binary(m1) && Binary(m2)
    ensures m1 == m2 <==> Truth(m1) == Truth(m2)
  {
    if Truth(m1) == Truth(m2) {
      forall i | 0 <= i < N ensures m1[i] == m2[i] {
        forall j | 0 <= j < N ensures m1[i][j] == m2[i][j] {
          assert Truth(m1)[i][j] == Truth(m2)[i][j];
        }
      }
    }
  }

  // ---------------------------------------------------------------------
  // What the operations mean as relations

  /** `|` on any entries is the union of the relations. */
  lemma BitOrIsUnion(m1: Matrix, m2: Matrix)
    requires Shaped(m1) && Shaped(m2)
    ensures Truth(BitOr(m1, m2)) == BinRelation.Union(Truth(m1), Truth(m2))
  {
    var r, u := Truth(BitOr(m1, m2)), BinRelation.Union(Truth(m1), Truth(m2));
    forall i, j | 0 <= i < N && 0 <= j < N ensures r[i][j] == u[i][j] {
      BitOrNonZero(m1[i][j], m2[i][j]);
    }
    BinRelation.SubsetAntisymmetric(r, u);
  }

  lemma BitOrNonZero(x: Cell, y: Cell)
    ensures (x | y != 0) <==> x != 0 || y != 0
  {
  }

  /** `&` and `& ~` on 0/1 entries are the intersection and the difference. */
  lemma BitAndIsIntersection(m1: Matrix, m2: Matrix)
    requires Shaped(m1) && Shaped(m2) && Binary(m1) && Binary(m2)
    ensures Truth(BitAnd(m1, m2)) == BinRelation.Intersection(Truth(m1), Truth(m2))
    ensures Truth(BitAndNot(m1, m2)) == BinRelation.Difference(Truth(m1), Truth(m2))
    ensures Binary(BitAnd(m1, m2)) && Binary(BitAndNot(m1, m2))
  {
    BinRelation.SubsetAntisymmetric(Truth(BitAnd(m1, m2)), BinRelation.Intersection(Truth(m1), Truth(m2)));
    BinRelation.SubsetAntisymmetric(Truth(BitAndNot(m1, m2)), BinRelation.Difference(Truth(m1), Truth(m2)));
  }

  /** Bitwise `&` is not intersection once an entry is neither 0 nor 1. */
  lemma BitAndNeedsBinary()
    ensures (1 as Cell) & (2 as Cell) == 0
  {
  }

  /** The logical symmetric difference is the symmetric difference of any relations, stored as 0/1. */
  lemma LogicalXorIsSymDifference(m1: Matrix, m2: Matrix)
    requires Shaped(m1) && Shaped(m2)
    ensures Truth(LogicalXor(m1, m2)) == BinRelation.SymDifference(Truth(m1), Truth(m2))
    ensures Binary(LogicalXor(m1, m2))
  {
    BinRelation.SubsetAntisymmetric(Truth(LogicalXor(m1, m2)), BinRelation.SymDifference(Truth(m1), Truth(m2)));
  }

  /** `~` turns 0 into -1 and 1 into -2: on a 0/1 matrix every entry becomes non-zero. */
  lemma BitNotIsUniversal(m: Matrix)
    requires Shaped(m) && Binary(m)
    ensures Truth(BitNot(m)) == BinRelation.Universal(N)
    ensures forall i, j :: 0 <= i < N && 0 <= j < N ==>
              BitNot(m)[i][j] == if m[i][j] == 0 then 0xFFFF_FFFF else 0xFFFF_FFFE
  {
    BinRelation.SubsetAntisymmetric(Truth(BitNot(m)), BinRelation.Universal(N));
  }

  /** The bitwise complement overlaps its argument at every related pair. */
  lemma BitNotOverlaps(m: Matrix, i: nat, j: nat)
    requires Shaped(m) && Binary(m) && i < N && j < N && m[i][j] == 1
    ensures Truth(BitAnd(m, BitNot(m)))[i][j] == false
    ensures BinRelation.Intersection(Truth(m), Truth(BitNot(m)))[i][j]
  {
    BitNotIsUniversal(m);
  }

  /** `!` is the complement of any relation, stored as 0/1. */
  lemma LogicalNotIsComplement(m: Matrix)
    requires Shaped(m)
    ensures Truth(LogicalNot(m)) == BinRelation.Complement(Truth(m))
    ensures Binary(LogicalNot(m))
  {
    BinRelation.SubsetAntisymmetric(Truth(LogicalNot(m)), BinRelation.Complement(Truth(m)));
  }

  /** The transpose is the inverse relation, and transposing twice gives the matrix back. */
  lemma TransposeIsInverse(m: Matrix)
    requires Shaped(m)
    ensures Truth(Transpose(m)) == BinRelation.Inverse(Truth(m))
    ensures Transpose(Transpose(m)) == m
  {
    BinRelation.SubsetAntisymmetric(Truth(Transpose(m)), BinRelation.Inverse(Truth(m)));
    assert forall i :: 0 <= i < N ==> Transpose(Transpose(m))[i] == m[i];
  }

  /** Both composition procedures compute the composition of the relations, stored as 0/1. */
  lemma ProductIsComposition(m1: Matrix, m2: Matrix)
    requires Shaped(m1) && Shaped(m2)
    ensures Truth(Product(m1, m2)) == BinRelation.Compose(Truth(m1), Truth(m2))
    ensures Binary(Product(m1, m2))
  {
    var t1, t2 := Truth(m1), Truth(m2);
    var p, c := Truth(Product(m1, m2)), BinRelation.Compose(t1, t2);
    forall i, j | 0 <= i < N && 0 <= j < N ensures p[i][j] == c[i][j] {
      if p[i][j] {
        var k :| 0 <= k < N && m1[i][k] != 0 && m2[k][j] != 0;
        assert t1[i][k] && t2[k][j];
      }
      if c[i][j] {
        var k :| 0 <= k < N && t1[i][k] && t2[k][j];
        assert Joined(m1, m2, i, j);
      }
    }
    BinRelation.SubsetAntisymmetric(p, c);
  }

  /** The out-parameter union, intersection and difference mean the set operations on any relations. */
  lemma OutParameterStyleMeaning(m1: Matrix, m2: Matrix)
    requires Shaped(m1) && Shaped(m2)
    ensures Truth(OrBit(m1, m2)) == BinRelation.Union(Truth(m1), Truth(m2))
    ensures Truth(AndBit(m1, m2)) == BinRelation.Intersection(Truth(m1), Truth(m2))
    ensures Truth(Masked(m1, m2)) == BinRelation.Difference(Truth(m1), Truth(m2))
    ensures Binary(OrBit(m1, m2)) && Binary(AndBit(m1, m2))
  {
    BinRelation.SubsetAntisymmetric(Truth(OrBit(m1, m2)), BinRelation.Union(Truth(m1), Truth(m2)));
    BinRelation.SubsetAntisymmetric(Truth(AndBit(m1, m2)), BinRelation.Intersection(Truth(m1), Truth(m2)));
    BinRelation.SubsetAntisymmetric(Truth(Masked(m1, m2)), BinRelation.Difference(Truth(m1), Truth(m2)));
  }

  /** `m1 + m2 == 1` is the symmetric difference on 0/1 matrices. */
  lemma SumIsOneIsSymDifference(m1: Matrix, m2: Matrix)
    requires Shaped(m1) && Shaped(m2) && Binary(m1) && Binary(m2)
    ensures Truth(SumIsOne(m1, m2)) == BinRelation.SymDifference(Truth(m1), Truth(m2))
    ensures SumIsOne(m1, m2) == LogicalXor(m1, m2)
  {
    BinRelation.SubsetAntisymmetric(Truth(SumIsOne(m1, m2)), BinRelation.SymDifference(Truth(m1), Truth(m2)));
    assert forall i :: 0 <= i < N ==> SumIsOne(m1, m2)[i] == LogicalXor(m1, m2)[i];
  }

  /** The sum test is not the symmetric difference once entries leave 0/1: 2 + (-1) wraps to 1. */
  lemma SumIsOneNeedsBinary()
    ensures (2 as Cell) + 0xFFFF_FFFF == 1
  {
  }

  /** On 0/1 matrices the two styles store the same matrices. */
  lemma StylesAgree(m1: Matrix, m2: Matrix)
    requires Shaped(m1) && Shaped(m2) && Binary(m1) && Binary(m2)
    ensures BitOr(m1, m2) == OrBit(m1, m2)
    ensures BitAnd(m1, m2) == AndBit(m1, m2)
    ensures BitAndNot(m1, m2) == Masked(m1, m2)
    ensures LogicalXor(m1, m2) == SumIsOne(m1, m2)
  {
    assert forall i :: 0 <= i < N ==> BitOr(m1, m2)[i] == OrBit(m1, m2)[i];
    assert forall i :: 0 <= i < N ==> BitAnd(m1, m2)[i] == AndBit(m1, m2)[i];
    assert forall i :: 0 <= i < N ==> BitAndNot(m1, m2)[i] == Masked(m1, m2)[i];
    SumIsOneIsSymDifference(m1, m2);
  }

  // ---------------------------------------------------------------------
  // Properties of a relation

  predicate Reflexive(m: Matrix)
    requires Shaped(m)
  {
    forall i :: 0 <= i < N ==> m[i][i] != 0
  }

  predicate AntiReflexive(m: Matrix)
    requires Shaped(m)
  {
    forall i :: 0 <= i < N ==> m[i][i] == 0
  }

  /** Entries equal to their mirror images, value for value. */
  predicate Symmetric(m: Matrix)
    requires Shaped(m)
  {
    forall i, j :: 0 <= i < N && 0 <= j < N ==> m[i][j] == m[j][i]
  }

  /** No pair, diagonal included, holds the same non-zero value both ways. */
  predicate AntiSymmetric(m: Matrix)
    requires Shaped(m)
  {
    forall i, j :: 0 <= i < N && 0 <= j < N ==> !(m[i][j] == m[j][i] && m[i][j] != 0 && m[j][i] != 0)
  }

  predicate Transitive(m: Matrix)
    requires Shaped(m)
  {
    forall i, j, k :: 0 <= i < N && 0 <= j < N && 0 <= k < N && m[i][k] != 0 && m[k][j] != 0 ==> m[i][j] != 0
  }

  predicate AntiTransitive(m: Matrix)
    requires Shaped(m)
  {
    forall i, j, k :: 0 <= i < N && 0 <= j < N && 0 <= k < N && m[i][k] != 0 && m[k][j] != 0 ==> m[i][j] == 0
  }

  /** Every pair is related one way or the other, the diagonal included. */
  predicate Full(m: Matrix)
    requires Shaped(m)
  {
    forall i, j :: 0 <= i < N && 0 <= j < N ==> m[i][j] != 0 || m[j][i] != 0
  }

  /** `isReflection`. */
  method IsReflection(m: Matrix) returns (b: bool)
    requires Shaped(m)
    ensures b <==> Reflexive(m)
  {
    for i := 0 to N
      invariant forall i' :: 0 <= i' < i ==> m[i'][i'] != 0
    {
      if m[i][i] == 0 {
        return false;
      }
    }
    return true;
  }

  /** `isAntiReflection`. */
  method IsAntiReflection(m: Matrix) returns (b: bool)
    requires Shaped(m)
    ensures b <==> AntiReflexive(m)
  {
    for i := 0 to N
      invariant forall i' :: 0 <= i' < i ==> m[i'][i'] == 0
    {
      if m[i][i] != 0 {
        return false;
      }
    }
    return true;
  }

  /** `isSymmetric`. */
  method IsSymmetric(m: Matrix) returns (b: bool)
    requires Shaped(m)
    ensures b <==> Symmetric(m)
  {
    for i := 0 to N
      invariant forall i', j :: 0 <= i' < i && 0 <= j < N ==> m[i'][j] == m[j][i']
    {
      for j := 0 to N
        invariant forall j' :: 0 <= j' < j ==> m[i][j'] == m[j'][i]
      {
        if m[i][j] != m[j][i] {
          return false;
        }
      }
    }
    return true;
  }

  /** `isAntiSymmetric`. */
  method IsAntiSymmetric(m: Matrix) returns (b: bool)
    requires Shaped(m)
    ensures b <==> AntiSymmetric(m)
  {
    for i := 0 to N
      invariant forall i', j :: 0 <= i' < i && 0 <= j < N ==> !(m[i'][j] == m[j][i'] && m[i'][j] != 0 && m[j][i'] != 0)
    {
      for j := 0 to N
        invariant forall j' :: 0 <= j' < j ==> !(m[i][j'] == m[j'][i] && m[i][j'] != 0 && m[j'][i] != 0)
      {
        if m[i][j] == m[j][i] && (m[i][j] != 0 && m[j][i] != 0) {
          return false;
        }
      }
    }
    return true;
  }

  /** `isTransitive`: the loops run over i, j and then the middle point k. */
  method IsTransitive(m: Matrix) returns (b: bool)
    requires Shaped(m)
    ensures b <==> Transitive(m)
  {
    for i := 0 to N
      invariant forall i', j, k :: 0 <= i' < i && 0 <= j < N && 0 <= k < N && m[i'][k] != 0 && m[k][j] != 0 ==> m[i'][j] != 0
    {
      for j := 0 to N
        invariant forall j', k :: 0 <= j' < j && 0 <= k < N && m[i][k] != 0 && m[k][j'] != 0 ==> m[i][j'] != 0
      {
        for k := 0 to N
          invariant forall k' :: 0 <= k' < k && m[i][k'] != 0 && m[k'][j] != 0 ==> m[i][j] != 0
        {
          if m[i][k] != 0 && m[k][j] != 0 {
            if m[i][j] == 0 {
              return false;
            }
          }
        }
      }
    }
    return true;
  }

  /** `isAntiTransitive`. */
  method IsAntiTransitive(m: Matrix) returns (b: bool)
    requires Shaped(m)
    ensures b <==> AntiTransitive(m)
  {
    for i := 0 to N
      invariant forall i', j, k :: 0 <= i' < i && 0 <= j < N && 0 <= k < N && m[i'][k] != 0 && m[k][j] != 0 ==> m[i'][j] == 0
    {
      for j := 0 to N
        invariant forall j', k :: 0 <= j' < j && 0 <= k < N && m[i][k] != 0 && m[k][j'] != 0 ==> m[i][j'] == 0
      {
        for k := 0 to N
          invariant forall k' :: 0 <= k' < k && m[i][k'] != 0 && m[k'][j] != 0 ==> m[i][j] == 0
        {
          if m[i][k] != 0 && m[k][j] != 0 && m[i][j] != 0 {
            return false;
          }
        }
      }
    }
    return true;
  }

  /** `isFull`. */
  method IsFull(m: Matrix) returns (b: bool)
    requires Shaped(m)
    ensures b <==> Full(m)
  {
    for i := 0 to N
      invariant forall i', j :: 0 <= i' < i && 0 <= j < N ==> m[i'][j] != 0 || m[j][i'] != 0
    {
      for j := 0 to N
        invariant forall j' :: 0 <= j' < j ==> m[i][j'] != 0 || m[j'][i] != 0
      {
        if !(m[i][j] != 0 || m[j][i] != 0) {
          return false;
        }
      }
    }
    return true;
  }

  /** Reflexivity and antireflexivity look only at whether the diagonal is non-zero. */
  lemma ReflexiveMeaning(m: Matrix)
    requires Shaped(m)
    ensures Reflexive(m) <==> BinRelation.Reflexive(Truth(m))
    ensures AntiReflexive(m) <==> BinRelation.AntiReflexive(Truth(m))
  {
  }

  /** On 0/1 matrices symmetry and antisymmetry of the values are those of the relation. */
  lemma SymmetryMeaning(m: Matrix)
    requires Shaped(m) && Binary(m)
    ensures Symmetric(m) <==> BinRelation.Symmetric(Truth(m))
    ensures AntiSymmetric(m) <==> BinRelation.AntiSymmetric(Truth(m))
  {
    var t := Truth(m);
    if BinRelation.Symmetric(t) {
      forall i, j | 0 <= i < N && 0 <= j < N ensures m[i][j] == m[j][i] {
        assert t[i][j] == t[j][i];
      }
    }
  }

  /** Transitivity and antitransitivity are those of the relation, for any entries. */
  lemma TransitiveMeaning(m: Matrix)
    requires Shaped(m)
    ensures Transitive(m) <==> BinRelation.Transitive(Truth(m))
  {
    var t := Truth(m);
    if Transitive(m) {
      forall i, j, k | 0 <= i < N && 0 <= j < N && 0 <= k < N && t[i][j] && t[j][k] ensures t[i][k] {
        assert m[i][j] != 0 && m[j][k] != 0;
      }
    }
    if BinRelation.Transitive(t) {
      forall i, j, k | 0 <= i < N && 0 <= j < N && 0 <= k < N && m[i][k] != 0 && m[k][j] != 0 ensures m[i][j] != 0 {
        assert t[i][k] && t[k][j];
      }
    }
  }

  lemma AntiTransitiveMeaning(m: Matrix)
    requires Shaped(m)
    ensures AntiTransitive(m) <==> BinRelation.AntiTransitive(Truth(m))
  {
    var t := Truth(m);
    if AntiTransitive(m) {
      forall i, j, k | 0 <= i < N && 0 <= j < N && 0 <= k < N && t[i][j] && t[j][k] ensures !t[i][k] {
        assert m[i][j] != 0 && m[j][k] != 0;
      }
    }
    if BinRelation.AntiTransitive(t) {
      forall i, j, k | 0 <= i < N && 0 <= j < N && 0 <= k < N && m[i][k] != 0 && m[k][j] != 0 ensures m[i][j] == 0 {
        assert t[i][k] && t[k][j];
      }
    }
  }

  /** `isFull` here demands the diagonal too: a full relation is reflexive and never antisymmetric. */
  lemma FullIsReflexive(m: Matrix)
    requires Shaped(m) && Full(m)
    ensures Reflexive(m)
    ensures !AntiSymmetric(m)
    ensures BinRelation.Full(Truth(m))
  {
    assert m[0][0] != 0;
  }

  // ---------------------------------------------------------------------
  // The relations of the lab

  /** `makeRelationMatrix`: 1 where the relation holds, 0 elsewhere. */
  method MakeRelationMatrix(relation: (int, int) -> bool) returns (matrix: Matrix)
    ensures Shaped(matrix) && Binary(matrix)
    ensures forall i, j :: 0 <= i < N && 0 <= j < N ==> (matrix[i][j] == 1 <==> relation(i, j))
  {
    matrix := Zero();
    for i := 0 to N
      invariant Shaped(matrix) && Binary(matrix)
      invariant forall r, c :: 0 <= r < N && 0 <= c < N ==> (matrix[r][c] == 1 <==> r < i && relation(r, c))
    {
      for j := 0 to N
        invariant Shaped(matrix) && Binary(matrix)
        invariant forall r, c :: 0 <= r < N && 0 <= c < N ==>
                    (matrix[r][c] == 1 <==> (r < i || (r == i && c < j)) && relation(r, c))
      {
        if relation(i, j) {
          matrix := matrix[i := matrix[i][j := 1]];
        }
      }
    }
  }

  /** `A_relation`: the points are more than 5 apart, tested on both sides. */
  function ARelation(x: int, y: int): bool
  {
    y > x + 5 || x > y + 5
  }

  /** `B_relation`: both points are even (only points 0..9 are ever passed, so the sign rule of `%` does not matter). */
  function BRelation(x: int, y: int): bool
  {
    x % 2 == 0 && y % 2 == 0
  }

  /** `C_relation`: the distance of the points exceeds 5. */
  function CRelation(x: int, y: int): bool
  {
    (if x - y < 0 then y - x else x - y) > 5
  }

  /** A and C are the same relation, so they have the same matrix. */
  lemma AEqualsC(x: int, y: int)
    ensures ARelation(x, y) <==> CRelation(x, y)
  {
  }

  /** B is an equivalence on the even points: symmetric and transitive, reflexive exactly on the even points. */
  lemma BRelationShape(x: int, y: int, z: int)
    ensures BRelation(x, y) ==> BRelation(y, x)
    ensures BRelation(x, y) && BRelation(y, z) ==> BRelation(x, z)
    ensures BRelation(x, x) <==> x % 2 == 0
  {
  }
}
