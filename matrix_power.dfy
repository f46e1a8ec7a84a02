/**
 * Counting walks with powers of the adjacency matrix, after the
 * `multiplyMatrices`, `powerMatrix` and `graphGetRoutesAmountMatrix`
 * functions of discrete_math/discrete_math_lab_4-1.cpp. Entry (i, j) of the L-th
 * power of a 0/1 adjacency matrix is the number of walks with L edges from
 * vertex i to vertex j, the same count the backtracking enumerator of the lab
 * produces (`RouteGraph.Walks`).
 */
module MatrixPower {
  import opened RouteGraph

  /** Row i of a times column j of b, over the first k terms. */
  function Dot(a: Matrix, b: Matrix, i: nat, j: nat, k: nat): int
    requires Square(a) && Square(b) && |a| == |b| && i < |a| && j < |a| && k <= |a|
  {
    if k == 0 then 0 else Dot(a, b, i, j, k - 1) + a[i][k - 1] * b[k - 1][j]
  }

  /** The matrix product. */
  function Mult(a: Matrix, b: Matrix): (c: Matrix)
    requires Square(a) && Square(b) && |a| == |b|
    ensures Square(c) && |c| == |a|
  {
    seq(|a|, i requires 0 <= i < |a| => seq(|a|, j requires 0 <= j < |a| => Dot(a, b, i, j, |a|)))
  }

  /** The n-by-n identity matrix. */
  function Identity(n: nat): (c: Matrix)
    ensures Square(c) && |c| == n
  {
    seq(n, i => seq(n, j => if i == j then 1 else 0))
  }

  /** The p-th power of a, by repeated multiplication on the left. */
  function Power(a: Matrix, p: nat): (c: Matrix)
    requires Square(a)
    ensures Square(c) && |c| == |a|
  {
    if p == 0 then Identity(|a|) else Mult(a, Power(a, p - 1))
  }

  /** The top-left n-by-n block. */
  function TopLeft(m: Matrix, n: nat): (c: Matrix)
    requires Square(m) && n <= |m|
    ensures Square(c) && |c| == n
  {
    seq(n, i requires 0 <= i < n => m[i][..n])
  }

  /** Every entry is 0 or 1, as in the adjacency matrices of the lab. */
  predicate Binary(g: Matrix)
  {
    forall i, j :: 0 <= i < |g| && 0 <= j < |g[i]| ==> g[i][j] == 0 || g[i][j] == 1
  }

  // ---------------------------------------------------------------------
  // Identity and associativity

  lemma {:induction false} DotIdentityLeft(a: Matrix, i: nat, j: nat, k: nat)
    requires Square(a) && i < |a| && j < |a| && k <= |a|
    ensures Dot(Identity(|a|), a, i, j, k) == if i < k then a[i][j] else 0
  {
    if k > 0 {
      DotIdentityLeft(a, i, j, k - 1);
    }
  }

  lemma {:induction false} DotIdentityRight(a: Matrix, i: nat, j: nat, k: nat)
    requires Square(a) && i < |a| && j < |a| && k <= |a|
    ensures Dot(a, Identity(|a|), i, j, k) == if j < k then a[i][j] else 0
  {
    if k > 0 {
      DotIdentityRight(a, i, j, k - 1);
    }
  }

  /** The identity is a unit of the product on both sides. */
  lemma IdentityUnit(a: Matrix)
    requires Square(a)
    ensures Mult(Identity(|a|), a) == a && Mult(a, Identity(|a|)) == a
  {
    var n := |a|;
    forall i, j | 0 <= i < n && 0 <= j < n
      ensures Mult(Identity(n), a)[i][j] == a[i][j] && Mult(a, Identity(n))[i][j] == a[i][j]
    {
      DotIdentityLeft(a, i, j, n);
      DotIdentityRight(a, i, j, n);
    }
    assert forall i :: 0 <= i < n ==> Mult(Identity(n), a)[i] == a[i];
    assert forall i :: 0 <= i < n ==> Mult(a, Identity(n))[i] == a[i];
  }

  /** The sum over t < q of (a times b)(i, t), taken over the first p terms, times c(t, j). */
  function LeftSum(a: Matrix, b: Matrix, c: Matrix, i: nat, j: nat, p: nat, q: nat): int
    requires Square(a) && Square(b) && Square(c) && |a| == |b| == |c|
    requires i < |a| && j < |a| && p <= |a| && q <= |a|
  {
    if q == 0 then 0 else LeftSum(a, b, c, i, j, p, q - 1) + Dot(a, b, i, q - 1, p) * c[q - 1][j]
  }

  /** The sum over s < p of a(i, s) times (b times c)(s, j), taken over the first q terms. */
  function RightSum(a: Matrix, b: Matrix, c: Matrix, i: nat, j: nat, p: nat, q: nat): int
    requires Square(a) && Square(b) && Square(c) && |a| == |b| == |c|
    requires i < |a| && j < |a| && p <= |a| && q <= |a|
  {
    if p == 0 then 0 else RightSum(a, b, c, i, j, p - 1, q) + a[i][p - 1] * Dot(b, c, p - 1, j, q)
  }

  lemma {:induction false} LeftSumEmpty(a: Matrix, b: Matrix, c: Matrix, i: nat, j: nat, q: nat)
    requires Square(a) && Square(b) && Square(c) && |a| == |b| == |c|
    requires i < |a| && j < |a| && q <= |a|
    ensures LeftSum(a, b, c, i, j, 0, q) == 0
  {
    if q > 0 {
      LeftSumEmpty(a, b, c, i, j, q - 1);
    }
  }

  lemma Distribute(x: int, y: int, z: int, w: int, u: int)
    ensures (x + y * z) * w == x * w + y * (z * w)
    ensures y * (u + z * w) == y * u + y * (z * w)
  {
  }

  /** One more term of the inner products adds a(i, p) times (b times c)(p, j). */
  lemma {:induction false} LeftSumStep(a: Matrix, b: Matrix, c: Matrix, i: nat, j: nat, p: nat, q: nat)
    requires Square(a) && Square(b) && Square(c) && |a| == |b| == |c|
    requires i < |a| && j < |a| && p < |a| && q <= |a|
    ensures LeftSum(a, b, c, i, j, p + 1, q) == LeftSum(a, b, c, i, j, p, q) + a[i][p] * Dot(b, c, p, j, q)
  {
    if q > 0 {
      LeftSumStep(a, b, c, i, j, p, q - 1);
      Distribute(Dot(a, b, i, q - 1, p), a[i][p], b[p][q - 1], c[q - 1][j], Dot(b, c, p, j, q - 1));
    }
  }

  /** The two orders of summing the triple products agree. */
  lemma {:induction false} SumsSwap(a: Matrix, b: Matrix, c: Matrix, i: nat, j: nat, p: nat, q: nat)
    requires Square(a) && Square(b) && Square(c) && |a| == |b| == |c|
    requires i < |a| && j < |a| && p <= |a| && q <= |a|
    ensures LeftSum(a, b, c, i, j, p, q) == RightSum(a, b, c, i, j, p, q)
  {
    if p == 0 {
      LeftSumEmpty(a, b, c, i, j, q);
    } else {
      SumsSwap(a, b, c, i, j, p - 1, q);
      LeftSumStep(a, b, c, i, j, p - 1, q);
    }
  }

  lemma {:induction false} DotOfLeftProduct(a: Matrix, b: Matrix, c: Matrix, i: nat, j: nat, q: nat)
    requires Square(a) && Square(b) && Square(c) && |a| == |b| == |c|
    requires i < |a| && j < |a| && q <= |a|
    ensures Dot(Mult(a, b), c, i, j, q) == LeftSum(a, b, c, i, j, |a|, q)
  {
    if q > 0 {
      DotOfLeftProduct(a, b, c, i, j, q - 1);
    }
  }

  lemma {:induction false} DotOfRightProduct(a: Matrix, b: Matrix, c: Matrix, i: nat, j: nat, p: nat)
    requires Square(a) && Square(b) && Square(c) && |a| == |b| == |c|
    requires i < |a| && j < |a| && p <= |a|
    ensures Dot(a, Mult(b, c), i, j, p) == RightSum(a, b, c, i, j, p, |a|)
  {
    if p > 0 {
      DotOfRightProduct(a, b, c, i, j, p - 1);
    }
  }

  /** The product is associative. */
  lemma MultAssociative(a: Matrix, b: Matrix, c: Matrix)
    requires Square(a) && Square(b) && Square(c) && |a| == |b| == |c|
    ensures Mult(Mult(a, b), c) == Mult(a, Mult(b, c))
  {
    var n := |a|;
    forall i, j | 0 <= i < n && 0 <= j < n
      ensures Mult(Mult(a, b), c)[i][j] == Mult(a, Mult(b, c))[i][j]
    {
      DotOfLeftProduct(a, b, c, i, j, n);
      DotOfRightProduct(a, b, c, i, j, n);
      SumsSwap(a, b, c, i, j, n, n);
    }
    assert forall i :: 0 <= i < n ==> Mult(Mult(a, b), c)[i] == Mult(a, Mult(b, c))[i];
  }

  /** The 2q-th power of a is the q-th power of a squared. */
  lemma {:induction false} PowerOfSquare(a: Matrix, q: nat)
    requires Square(a)
    ensures Power(Mult(a, a), q) == Power(a, 2 * q)
  {
    if q > 0 {
      PowerOfSquare(a, q - 1);
      MultAssociative(a, a, Power(a, 2 * q - 2));
    }
  }

  /** One round of square-and-multiply keeps result times base to the p the same. */
  lemma SquareAndMultiplyStep(result: Matrix, base: Matrix, p: nat)
    requires Square(result) && Square(base) && |result| == |base| && p > 0
    ensures var result' := if p % 2 == 1 then Mult(result, base) else result;
            Mult(result', Power(Mult(base, base), p / 2)) == Mult(result, Power(base, p))
  {
    var half := Power(Mult(base, base), p / 2);
    if p % 2 == 1 {
      assert half == Power(base, p - 1) by {
        PowerOfSquare(base, p / 2);
        assert 2 * (p / 2) == p - 1;
      }
      assert Power(base, p) == Mult(base, Power(base, p - 1));
      MultAssociative(result, base, Power(base, p - 1));
    } else {
      assert half == Power(base, p) by {
        PowerOfSquare(base, p / 2);
        assert 2 * (p / 2) == p;
      }
    }
  }

  // ---------------------------------------------------------------------
  // Powers count walks

  /** Column j of P summed over the given vertices (numbered from 1). */
  function ColumnSum(P: Matrix, vs: seq<int>, j: nat): int
    requires Square(P) && Vertices(vs, |P|) && j < |P|
  {
    if vs == [] then 0 else ColumnSum(P, vs[..|vs| - 1], j) + P[vs[|vs| - 1] - 1][j]
  }

  /** One more column adds P[k - 1][j] when k is a neighbour. */
  lemma NeighbourStep(g: Matrix, P: Matrix, i: nat, j: nat, k: nat)
    requires Square(g) && Square(P) && |P| == |g| && i < |g| && j < |g| && 0 < k <= |g|
    ensures ColumnSum(P, Adjacent(g, i + 1, k), j)
            == ColumnSum(P, Adjacent(g, i + 1, k - 1), j) + (if g[i][k - 1] != 0 then P[k - 1][j] else 0)
  {
    var front := Adjacent(g, i + 1, k - 1);
    if g[i][k - 1] != 0 {
      assert Adjacent(g, i + 1, k) == front + [k];
      assert (front + [k])[..|front|] == front;
    }
  }

  /** One more term of a dot product whose left entry is 0 or 1. */
  lemma DotStep(g: Matrix, P: Matrix, i: nat, j: nat, k: nat)
    requires Square(g) && Square(P) && |P| == |g| && i < |g| && j < |g| && 0 < k <= |g|
    requires g[i][k - 1] == 0 || g[i][k - 1] == 1
    ensures Dot(g, P, i, j, k) == Dot(g, P, i, j, k - 1) + (if g[i][k - 1] != 0 then P[k - 1][j] else 0)
  {
    var entry := g[i][k - 1];
    var x := P[k - 1][j];
    assert Dot(g, P, i, j, k) == Dot(g, P, i, j, k - 1) + entry * x;
    if entry != 0 {
      OneTimes(entry, x);
    }
  }

  /** For a 0/1 matrix, row i of g times column j of P sums column j of P over the neighbours of i among the first k vertices. */
  lemma {:induction false} DotSumsNeighbours(g: Matrix, P: Matrix, i: nat, j: nat, k: nat)
    requires Square(g) && Binary(g) && Square(P) && |P| == |g| && i < |g| && j < |g| && k <= |g|
    ensures Dot(g, P, i, j, k) == ColumnSum(P, Adjacent(g, i + 1, k), j)
  {
    if k > 0 {
      DotSumsNeighbours(g, P, i, j, k - 1);
      DotStep(g, P, i, j, k);
      NeighbourStep(g, P, i, j, k);
    }
  }

  /** When column j of P counts the walks with len edges to j, its sum over vertices is their walk sum. */
  lemma {:induction false} ColumnSumWalks(g: Matrix, P: Matrix, vs: seq<int>, j: nat, len: nat)
    requires Square(g) && Square(P) && |P| == |g| && j < |g| && Vertices(vs, |g|)
    requires forall t :: 0 <= t < |g| ==> P[t][j] == Walks(g, t, len, j)
    ensures ColumnSum(P, vs, j) == WalkSum(g, vs, len, j)
    decreases |vs|
  {
    if vs != [] {
      ColumnSumWalks(g, P, vs[..|vs| - 1], j, len);
    }
  }

  lemma OneTimes(e: int, x: int)
    requires e == 1
    ensures e * x == x
  {
  }

  /** Entry (i, j) of the L-th power of a 0/1 adjacency matrix counts the walks with L edges from i to j. */
  lemma {:induction false} PowerCountsWalks(g: Matrix, len: nat)
    requires Square(g) && Binary(g)
    ensures forall i, j :: 0 <= i < |g| && 0 <= j < |g| ==> Power(g, len)[i][j] == Walks(g, i, len, j)
  {
    if len > 0 {
      PowerCountsWalks(g, len - 1);
      forall i, j | 0 <= i < |g| && 0 <= j < |g|
        ensures Power(g, len)[i][j] == Walks(g, i, len, j)
      {
        PowerEntryStep(g, Power(g, len - 1), i, j, len);
      }
    }
  }

  /** The step of PowerCountsWalks for one entry: row i of g times a column that counts walks counts one edge more. */
  lemma PowerEntryStep(g: Matrix, P: Matrix, i: nat, j: nat, len: nat)
    requires Square(g) && Binary(g) && i < |g| && j < |g| && len > 0 && P == Power(g, len - 1)
    requires forall t :: 0 <= t < |g| ==> P[t][j] == Walks(g, t, len - 1, j)
    ensures Power(g, len)[i][j] == Walks(g, i, len, j)
  {
    var adj := Adjacent(g, i + 1, |g|);
    calc {
      Power(g, len)[i][j];
      Dot(g, P, i, j, |g|);
      { DotSumsNeighbours(g, P, i, j, |g|); }
      ColumnSum(P, adj, j);
      { ColumnSumWalks(g, P, adj, j, len - 1); }
      WalkSum(g, adj, len - 1, j);
      Walks(g, i, len, j);
    }
  }

  // ---------------------------------------------------------------------
  // The lab's functions

  /** The top-left n-by-n block of a two-dimensional array, as a matrix. */
  function Block(m: array2<int>, n: nat): (c: Matrix)
    requires n <= m.Length0 && n <= m.Length1
    reads m
    ensures Square(c) && |c| == n
    ensures forall i, j :: 0 <= i < n && 0 <= j < n ==> c[i][j] == m[i, j]
  {
    seq(n, i requires 0 <= i < n reads m => seq(n, j requires 0 <= j < n reads m => m[i, j]))
  }

  /**
   * `multiplyMatrices`: the products are summed into a scratch zero matrix,
   * which is then copied into the top-left block of the result. The result
   * may be the same array as either factor: the product is of the factors as
   * they were on entry.
   */
  method MultiplyMatrices(mat1: array2<int>, mat2: array2<int>, result: array2<int>, n: nat)
    requires n <= mat1.Length0 && n <= mat1.Length1 && n <= mat2.Length0 && n <= mat2.Length1
    requires n <= result.Length0 && n <= result.Length1
    modifies result
    ensures Block(result, n) == Mult(old(Block(mat1, n)), old(Block(mat2, n)))
    ensures forall i, j :: 0 <= i < result.Length0 && 0 <= j < result.Length1 && !(i < n && j < n) ==>
              result[i, j] == old(result[i, j])
  {
    var temp: Matrix := seq(n, _ => seq(n, _ => 0));
    for i := 0 to n
      modifies {}
      invariant Shaped(temp, n, n)
      invariant forall i', j :: 0 <= i' < i && 0 <= j < n ==> temp[i'][j] == Dot(Block(mat1, n), Block(mat2, n), i', j, n)
      invariant forall i', j :: i <= i' < n && 0 <= j < n ==> temp[i'][j] == 0
    {
      var row := ProductRow(mat1, mat2, i, n, temp[i]);
      temp := temp[i := row];
    }
    assert forall i :: 0 <= i < n ==> temp[i] == Mult(Block(mat1, n), Block(mat2, n))[i];
    CopyBlock(temp, result, n);
  }

  /** The j and k loops of `multiplyMatrices` for row i: entry j accumulates row i of mat1 times column j of mat2. */
  method ProductRow(mat1: array2<int>, mat2: array2<int>, i: nat, n: nat, zero: seq<int>) returns (row: seq<int>)
    requires n <= mat1.Length0 && n <= mat1.Length1 && n <= mat2.Length0 && n <= mat2.Length1 && i < n
    requires |zero| == n && forall j :: 0 <= j < n ==> zero[j] == 0
    ensures |row| == n && forall j :: 0 <= j < n ==> row[j] == Dot(Block(mat1, n), Block(mat2, n), i, j, n)
  {
    ghost var a, b := Block(mat1, n), Block(mat2, n);
    row := zero;
    for j := 0 to n
      invariant |row| == n
      invariant forall j' :: 0 <= j' < j ==> row[j'] == Dot(a, b, i, j', n)
      invariant forall j' :: j <= j' < n ==> row[j'] == 0
    {
      ghost var before := row;
      for k := 0 to n
        invariant |row| == n && row[j] == Dot(a, b, i, j, k)
        invariant forall j' :: 0 <= j' < n && j' != j ==> row[j'] == before[j']
      {
        row := row[j := row[j] + mat1[i, k] * mat2[k, j]];
      }
    }
  }

  /** The copy loop of `multiplyMatrices`: the scratch matrix overwrites the top-left block and nothing else. */
  method CopyBlock(temp: Matrix, result: array2<int>, n: nat)
    requires Shaped(temp, n, n) && n <= result.Length0 && n <= result.Length1
    modifies result
    ensures Block(result, n) == temp
    ensures forall i, j :: 0 <= i < result.Length0 && 0 <= j < result.Length1 && !(i < n && j < n) ==>
              result[i, j] == old(result[i, j])
  {
    for i := 0 to n
      invariant forall i', j :: 0 <= i' < i && 0 <= j < n ==> result[i', j] == temp[i'][j]
      invariant forall i', j :: 0 <= i' < result.Length0 && 0 <= j < result.Length1 && !(i' < i && j < n) ==>
                  result[i', j] == old(result[i', j])
    {
      for j := 0 to n
        invariant forall i', j' :: 0 <= i' < i && 0 <= j' < n ==> result[i', j'] == temp[i'][j']
        invariant forall j' :: 0 <= j' < j ==> result[i, j'] == temp[i][j']
        invariant forall i', j' :: 0 <= i' < result.Length0 && 0 <= j' < result.Length1 && !(i' < i && j' < n) && !(i' == i && j' < j) ==>
                    result[i', j'] == old(result[i', j'])
      {
        result[i, j] := temp[i][j];
      }
    }
    assert forall i :: 0 <= i < n ==> Block(result, n)[i] == temp[i];
  }

  /**
   * `powerMatrix`: square-and-multiply on the top-left n-by-n block, starting
   * from the identity; a power of zero or less leaves the identity. The
   * running product and the running square are each multiplied into
   * themselves, as in the lab, and the returned matrix is the n-by-n result
   * that replaces the caller's matrix.
   */
  method PowerMatrix(matrix: Matrix, n: nat, power: int) returns (r: Matrix)
    requires Square(matrix) && n <= |matrix|
    ensures r == Power(TopLeft(matrix, n), if power > 0 then power else 0)
  {
    var result := new int[n, n]((_, _) => 0);
    for i := 0 to n
      invariant forall i', j :: 0 <= i' < n && 0 <= j < n ==> result[i', j] == if i' == j && i' < i then 1 else 0
    {
      result[i, i] := 1;
    }
    assert Block(result, n) == Identity(n) by {
      assert forall i :: 0 <= i < n ==> Block(result, n)[i] == Identity(n)[i];
    }
    var m := |matrix|;
    var base := new int[m, m]((i, j) requires 0 <= i < m && 0 <= j < m => matrix[i][j]);
    assert Block(base, n) == TopLeft(matrix, n) by {
      assert forall i :: 0 <= i < n ==> Block(base, n)[i] == TopLeft(matrix, n)[i];
    }
    ghost var target := Power(TopLeft(matrix, n), if power > 0 then power else 0);
    IdentityUnit(target);
    var p := power;
    while p > 0
      invariant Mult(Block(result, n), Power(Block(base, n), if p > 0 then p else 0)) == target
      decreases p
    {
      SquareAndMultiplyStep(Block(result, n), Block(base, n), p);
      if p % 2 == 1 {
        MultiplyMatrices(result, base, result, n);
      }
      MultiplyMatrices(base, base, base, n);
      p := p / 2;
    }
    IdentityUnit(Block(result, n));
    r := Block(result, n);
  }

  /**
   * `graphGetRoutesAmountMatrix`: the printed table is the routeLength-th
   * power of the graph's first graphSize rows and columns; for a 0/1 graph
   * taken whole it counts the walks, as `graphGetRoutesAmountWrapper` does.
   */
  method RoutesAmountMatrix(graf: Matrix, graphSize: nat, routeLength: int) returns (table: Matrix)
    requires Square(graf) && graphSize <= |graf|
    ensures table == Power(TopLeft(graf, graphSize), if routeLength > 0 then routeLength else 0)
    ensures Binary(graf) && graphSize == |graf| && routeLength >= 0 ==>
              forall i, j :: 0 <= i < |graf| && 0 <= j < |graf| ==> table[i][j] == Walks(graf, i, routeLength, j)
  {
    table := PowerMatrix(graf, graphSize, routeLength);
    if Binary(graf) && graphSize == |graf| && routeLength >= 0 {
      assert TopLeft(graf, graphSize) == graf by {
        assert forall i :: 0 <= i < |graf| ==> graf[i][..graphSize] == graf[i];
      }
      PowerCountsWalks(graf, routeLength);
    }
  }
}
