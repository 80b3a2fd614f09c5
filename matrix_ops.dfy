/**
 * MatrixOps: the dense linear solver (LU decomposition with partial pivoting,
 * reordering of the right-hand side, forward and backward substitution) and the
 * small matrix and vector helpers, over 2-D and 1-D arrays of reals.
 *
 * Every exception the C# code throws becomes an Err of the Result it returns.
 */
module MatrixOps {
  import opened Wrappers
  import opened LinearAlgebra
  import opened LuFactorization

  // ---------------------------------------------------------------------------
  // Arrays seen as values

  function RowOf(a: array2<real>, r: nat): (row: Vector)
    requires r < a.Length0
    reads a
    ensures |row| == a.Length1 && forall c :: 0 <= c < a.Length1 ==> row[c] == a[r, c]
  {
    seq(a.Length1, c requires 0 <= c < a.Length1 reads a => a[r, c])
  }

  /** The contents of a 2-D array as a matrix of its rows. */
  function Rows(a: array2<real>): (m: Matrix)
    reads a
    ensures IsMatrix(m, a.Length0, a.Length1)
    ensures forall r :: 0 <= r < a.Length0 ==> m[r] == RowOf(a, r)
  {
    seq(a.Length0, r requires 0 <= r < a.Length0 reads a => RowOf(a, r))
  }

  /** The 2-D array a holds the matrix e, entry by entry. */
  ghost predicate Holds(a: array2<real>, e: Matrix)
    reads a
  {
    && IsMatrix(e, a.Length0, a.Length1)
    && forall r, c :: 0 <= r < a.Length0 && 0 <= c < a.Length1 ==> a[r, c] == e[r][c]
  }

  lemma HoldsRows(a: array2<real>, e: Matrix)
    requires Holds(a, e)
    ensures Rows(a) == e
  {
    forall r | 0 <= r < a.Length0 ensures Rows(a)[r] == e[r] {
    }
  }

  function Abs(x: real): (y: real)
    ensures 0.0 <= y && (y == x || y == -x)
  {
    if x < 0.0 then -x else x
  }

  /** Array.Clone of a 2-D array: a fresh array with the same entries. */
  method Clone(a: array2<real>) returns (b: array2<real>)
    ensures fresh(b) && b.Length0 == a.Length0 && b.Length1 == a.Length1
    ensures forall r, c :: 0 <= r < a.Length0 && 0 <= c < a.Length1 ==> b[r, c] == a[r, c]
  {
    b := new real[a.Length0, a.Length1];
    forall r, c | 0 <= r < a.Length0 && 0 <= c < a.Length1 {
      b[r, c] := a[r, c];
    }
  }

  // ---------------------------------------------------------------------------
  // Pivot search and row exchange

  /**
   * The row, among i .. size-1, whose entry in column i has the largest absolute value;
   * the first such row when several tie. The C# code rejects a maximum below
   * double.Epsilon, the smallest positive double: for a non-negative double that is
   * exactly the maximum being zero, so the column is rejected exactly when it is zero.
   */
  method Imax(i: int, elems: array2<real>, size: int) returns (r: Result<int>)
    requires 0 <= i < size <= elems.Length0 && i < elems.Length1
    ensures r.Ok? ==> i <= r.value < size && elems[r.value, i] != 0.0
    ensures r.Ok? ==> forall k :: i <= k < size ==> Abs(elems[k, i]) <= Abs(elems[r.value, i])
    ensures r.Ok? ==> forall k :: i <= k < r.value ==> Abs(elems[k, i]) < Abs(elems[r.value, i])
    ensures r.Err? <==> forall k :: i <= k < size ==> elems[k, i] == 0.0
    ensures r.Err? ==> r.error == SingularMatrix
  {
    var imax := i;
    var max := Abs(elems[i, i]);
    for ii := i to size
      invariant i <= imax < size && (imax == i || imax < ii)
      invariant max == Abs(elems[imax, i])
      invariant forall k :: i <= k < ii ==> Abs(elems[k, i]) <= max
      invariant forall k :: i <= k < imax ==> Abs(elems[k, i]) < max
    {
      var abs := Abs(elems[ii, i]);
      if abs > max {
        max := abs;
        imax := ii;
      }
    }
    if max == 0.0 {
      return Err(SingularMatrix);
    }
    return Ok(imax);
  }

  /** Exchanges p[i] with p[j] and row i with row j of elems; nothing else changes. */
  method SwapRows(p: array<int>, elems: array2<real>, i: int, j: int)
    requires 0 <= i < p.Length && 0 <= j < p.Length
    requires i < elems.Length0 && j < elems.Length0
    modifies p, elems
    ensures p[..] == Swap(old(p[..]), i, j)
    ensures forall r, c :: 0 <= r < elems.Length0 && 0 <= c < elems.Length1 ==>
      elems[r, c] == old(elems[if r == i then j else if r == j then i else r, c])
  {
    p[i], p[j] := p[j], p[i];
    for ii := 0 to elems.Length1
      invariant forall r, c :: 0 <= r < elems.Length0 && 0 <= c < elems.Length1 ==>
        elems[r, c] == old(elems[if c < ii && r == i then j else if c < ii && r == j then i else r, c])
      modifies elems
    {
      elems[i, ii], elems[j, ii] := elems[j, ii], elems[i, ii];
    }
  }

  // ---------------------------------------------------------------------------
  // LU decomposition

  /** The packed factors (multipliers below the diagonal, U on and above it) and the row order. */
  datatype Decomposition = Decomposition(lu: array2<real>, p: array<int>)

  /**
   * The elimination step of LUDecompose for pivot row i: every row ii below it gets its
   * multiplier elems[ii, i] / elems[i, i] in column i, and that multiple of row i is
   * subtracted from the rest of the row. Rows 0 .. i are left alone.
   */
  method EliminateColumn(elems: array2<real>, i: int, ghost e: Matrix)
    requires 0 <= i < elems.Length0 == elems.Length1 && Holds(elems, e) && e[i][i] != 0.0
    modifies elems
    ensures Holds(elems, EliminateBelow(e, i))
  {
    var size := elems.Length0;
    ghost var f := EliminateBelow(e, i);
    for ii := i + 1 to size
      invariant forall r, c :: 0 <= r < size && 0 <= c < size ==>
        elems[r, c] == (if r < ii then f[r][c] else e[r][c])
    {
      elems[ii, i] := elems[ii, i] / elems[i, i];
      for k := i + 1 to size
        invariant forall r, c :: 0 <= r < size && 0 <= c < size ==>
          elems[r, c] == (if r < ii || (r == ii && c < k) then f[r][c] else e[r][c])
      {
        elems[ii, k] := elems[ii, k] - elems[ii, i] * elems[i, k];
      }
    }
  }

  /**
   * lu and p hold a factorization of the square matrix a: with L the unit lower-triangular
   * and U the upper-triangular matrix packed in lu, L·U is a with row r replaced by row
   * p[r], p is a permutation of 0 .. |a|-1 and no pivot of U is zero.
   */
  ghost predicate ValidDecomposition(lu: array2<real>, p: array<int>, a: Matrix)
    reads lu, p
  {
    && lu.Length0 == |a| && lu.Length1 == |a| && p.Length == |a|
    && NonZeroDiagonal(Rows(lu))
    && IsPermutation(p[..], |a|)
    && MatMul(LowerOf(Rows(lu)), UpperOf(Rows(lu)), |a|) == Permute(a, p[..])
  }

  /**
   * One pass of the LUDecompose loop for column i: finds the pivot row, exchanges it
   * with row i (in elems and in p) and eliminates the entries below the pivot. On
   * success e' is the new content of elems and the factorization covers column i too;
   * the search fails only when column i is zero from row i down, and then a is singular.
   */
  method PivotAndEliminate(elems: array2<real>, p: array<int>, i: int, ghost e: Matrix, ghost a: Matrix)
    returns (r: Result<()>, ghost e': Matrix)
    requires 0 <= i < elems.Length0 == elems.Length1 == p.Length
    requires Holds(elems, e) && Factorizes(e, p[..], a, i)
    requires forall m :: 0 <= m < i ==> e[m][m] != 0.0
    modifies elems, p
    ensures r.Err? ==> r.error == SingularMatrix && Singular(a)
    ensures r.Ok? ==> Holds(elems, e') && Factorizes(e', p[..], a, i + 1)
    ensures r.Ok? ==> forall m :: 0 <= m <= i ==> e'[m][m] != 0.0
  {
    var size := elems.Length0;
    e' := e;
    var found := Imax(i, elems, size);
    if found.Err? {
      SingularAtColumn(e, p[..], a, i);
      return Err(found.error), e';
    }
    var imax := found.value;
    ghost var f := e;
    if imax != i {
      ghost var q := p[..];
      SwapRows(p, elems, i, imax);
      FactorizesAfterSwap(e, q, a, i, imax);
      f := Swap(e, i, imax);
    }
    assert forall m :: 0 <= m < i ==> f[m] == e[m];
    EliminateColumn(elems, i, f);
    FactorizesAfterElimination(f, p[..], a, i);
    e' := EliminateBelow(f, i);
    return Ok(()), e';
  }

  /**
   * LU decomposition with partial pivoting of a clone of matrix. On success, with L the
   * unit lower-triangular and U the upper-triangular matrix packed in lu, L·U is the
   * input with row r replaced by row p[r], p is a permutation and U has no zero pivot.
   * Fails on a non-square matrix, and when a pivot column is zero, which happens exactly
   * when the matrix is singular.
   */
  method LUDecompose(matrix: array2<real>) returns (r: Result<Decomposition>)
    ensures (r.Err? && r.error == ArgumentError) <==> matrix.Length0 != matrix.Length1
    ensures r.Err? ==> r.error == ArgumentError || r.error == SingularMatrix
    ensures r.Ok? ==> fresh(r.value.lu) && fresh(r.value.p)
    ensures r.Ok? ==> ValidDecomposition(r.value.lu, r.value.p, Rows(matrix))
    ensures (r.Err? && r.error == SingularMatrix) <==> Singular(Rows(matrix))
  {
    if matrix.Length0 != matrix.Length1 {
      NotSquareNotSingular(Rows(matrix), matrix.Length1);
      return Err(ArgumentError);
    }
    var size := matrix.Length0;
    var elems := Clone(matrix);
    var p := new int[size](k => k);
    ghost var a := Rows(matrix);
    ghost var e := a;
    assert p[..] == Identity(size);
    FactorizesInitially(a);
    assert Holds(elems, a);
    for i := 0 to size
      invariant fresh(elems) && fresh(p) && p.Length == size
      invariant elems.Length0 == size && elems.Length1 == size
      invariant Holds(elems, e) && Factorizes(e, p[..], a, i)
      invariant forall m :: 0 <= m < i ==> e[m][m] != 0.0
    {
      var step;
      step, e := PivotAndEliminate(elems, p, i, e, a);
      if step.Err? {
        assert Singular(Rows(matrix));
        return Err(step.error);
      }
    }
    FactorizationComplete(e, p[..], a);
    HoldsRows(elems, e);
    FactorsNonSingular(e, p[..], a);
    return Ok(Decomposition(elems, p));
  }

  // ---------------------------------------------------------------------------
  // Solving a·x == b

  /**
   * The right-hand side reordered like the rows of the factorized matrix: entry i is
   * rightPart[p[i]]. Fails on a length mismatch, and on an entry of p outside the
   * bounds of rightPart (the array indexer throws).
   */
  method TransformTheRightPart(rightPart: array<real>, p: array<int>) returns (r: Result<array<real>>)
    ensures (r.Err? && r.error == ArgumentError) <==> rightPart.Length != p.Length
    ensures (r.Err? && r.error == IndexOutOfRange) <==>
      rightPart.Length == p.Length && exists i :: 0 <= i < p.Length && !(0 <= p[i] < rightPart.Length)
    ensures r.Err? ==> r.error == ArgumentError || r.error == IndexOutOfRange
    ensures r.Ok? ==> fresh(r.value) && r.value[..] == Permute(rightPart[..], p[..])
  {
    if rightPart.Length != p.Length {
      return Err(ArgumentError);
    }
    var rp := new real[rightPart.Length];
    for i := 0 to rp.Length
      invariant forall k :: 0 <= k < i ==> 0 <= p[k] < rightPart.Length && rp[k] == rightPart[p[k]]
    {
      if !(0 <= p[i] < rightPart.Length) {
        return Err(IndexOutOfRange);
      }
      rp[i] := rightPart[p[i]];
    }
    return Ok(rp);
  }

  /**
   * Forward substitution with the unit lower-triangular factor packed in lu, then
   * backward substitution with the upper-triangular one, both in the one array y.
   * The pivots of lu are non-zero (LUDecompose guarantees it), so no division fails.
   */
  method ThereAndBackAgain(lu: array2<real>, rp: array<real>) returns (y: array<real>)
    requires lu.Length0 == lu.Length1 == rp.Length && NonZeroDiagonal(Rows(lu))
    ensures fresh(y) && y.Length == rp.Length
    ensures y[..] == BackSub(Rows(lu), ForwardSub(Rows(lu), rp[..], rp.Length), 0)
    ensures MatVec(LowerOf(Rows(lu)), MatVec(UpperOf(Rows(lu)), y[..])) == rp[..]
  {
    y := new real[rp.Length];
    ForwardPass(lu, rp, y);
    BackwardPass(lu, y);
    TriangularSolves(Rows(lu), rp[..]);
  }

  /**
   * The inner loop of both substitution passes: y[lo]·lu[i, lo] + ... + y[hi-1]·lu[i, hi-1],
   * summed from the left.
   */
  method RowDot(lu: array2<real>, i: int, y: array<real>, lo: int, hi: int) returns (sum: real)
    requires 0 <= i < lu.Length0 && 0 <= lo <= hi <= lu.Length1 && hi <= y.Length
    ensures sum == DotRange(RowOf(lu, i), y[..hi], lo, hi)
  {
    ghost var u, v := RowOf(lu, i), y[..hi];
    sum := 0.0;
    for ii := lo to hi
      invariant sum == DotRange(u, v, lo, ii)
    {
      assert y[ii] == v[ii] && lu[i, ii] == u[ii];
      sum := sum + y[ii] * lu[i, ii];
    }
  }

  /** The first loop of ThereAndBackAgain: y[i] = rp[i] - Σ_{ii<i} y[ii]·lu[i, ii], for i upwards. */
  method ForwardPass(lu: array2<real>, rp: array<real>, y: array<real>)
    requires lu.Length0 == lu.Length1 == rp.Length == y.Length && y != rp
    modifies y
    ensures y[..] == ForwardSub(Rows(lu), rp[..], rp.Length)
  {
    ghost var e := Rows(lu);
    ghost var b := rp[..];
    var n := rp.Length;
    for i := 0 to n
      invariant y[..i] == ForwardSub(e, b, i)
    {
      ghost var ys := y[..i];
      var sum := RowDot(lu, i, y, 0, i);
      assert e[i] == RowOf(lu, i);
      y[i] := rp[i] - sum;
      assert y[..i + 1] == ys + [b[i] - DotRange(e[i], ys, 0, i)];
    }
    assert y[..] == y[..n];
  }

  /** The second loop of ThereAndBackAgain: y[i] = (y[i] - Σ_{ii>i} y[ii]·lu[i, ii]) / lu[i, i], for i downwards. */
  method BackwardPass(lu: array2<real>, y: array<real>)
    requires lu.Length0 == lu.Length1 == y.Length && NonZeroDiagonal(Rows(lu))
    modifies y
    ensures y[..] == BackSub(Rows(lu), old(y[..]), 0)
  {
    ghost var e := Rows(lu);
    ghost var yf := y[..];
    var i := y.Length;
    while i > 0
      invariant 0 <= i <= y.Length && y[..] == BackSub(e, yf, i)
    {
      i := i - 1;
      assert lu[i, i] == RowOf(lu, i)[i] == e[i][i];
      BackRow(lu, y, i);
    }
  }

  /** One pass of the second loop of ThereAndBackAgain: row i of the backward substitution. */
  method BackRow(lu: array2<real>, y: array<real>, i: int)
    requires lu.Length0 == lu.Length1 == y.Length && 0 <= i < y.Length && lu[i, i] != 0.0
    modifies y
    ensures y[..] == BackStep(Rows(lu), old(y[..]), i)
  {
    var n := y.Length;
    ghost var e := Rows(lu);
    ghost var z := y[..];
    var sum := RowDot(lu, i, y, i + 1, n);
    assert e[i] == RowOf(lu, i) && y[..n] == z;
    y[i] := (y[i] - sum) / lu[i, i];
    assert y[..] == BackStep(e, z, i);
  }

  /**
   * Solves matrix·x == rightPart by LU decomposition. Fails when the row count differs
   * from the length of rightPart, when the matrix is not square, and when the pivot search
   * meets a zero column, which happens exactly when the matrix is singular; on success x
   * solves the system exactly.
   */
  method Solve(matrix: array2<real>, rightPart: array<real>) returns (r: Result<array<real>>)
    ensures (r.Err? && r.error == ArgumentError) <==>
      matrix.Length0 != rightPart.Length || matrix.Length0 != matrix.Length1
    ensures r.Err? ==> r.error == ArgumentError || r.error == SingularMatrix
    ensures r.Ok? ==> fresh(r.value)
    ensures r.Ok? ==> matrix.Length1 == matrix.Length0 == r.value.Length
    ensures r.Ok? ==> MatVec(Rows(matrix), r.value[..]) == rightPart[..]
    ensures (r.Err? && r.error == SingularMatrix) <==> matrix.Length0 == rightPart.Length && Singular(Rows(matrix))
  {
    if matrix.Length0 != rightPart.Length {
      return Err(ArgumentError);
    }
    var d :- LUDecompose(matrix);
    forall i | 0 <= i < d.p.Length ensures 0 <= d.p[i] < rightPart.Length {
      assert d.p[..][i] == d.p[i];
    }
    var rp := TransformTheRightPart(rightPart, d.p);
    assert rp.Ok?;
    var x := ThereAndBackAgain(d.lu, rp.value);
    FactorizationSolves(Rows(d.lu), d.p[..], Rows(matrix), rightPart[..]);
    return Ok(x);
  }

  // ---------------------------------------------------------------------------
  // Helpers

  /** kappa times every entry of massMatrix, in a clone; the argument is unchanged. */
  method Multiply(kappa: real, massMatrix: array2<real>) returns (result: array2<real>)
    ensures fresh(result) && result.Length0 == massMatrix.Length0 && result.Length1 == massMatrix.Length1
    ensures forall r, c :: 0 <= r < result.Length0 && 0 <= c < result.Length1 ==>
      result[r, c] == massMatrix[r, c] * kappa
  {
    result := Clone(massMatrix);
    for i := 0 to result.Length0
      invariant forall r, c :: 0 <= r < result.Length0 && 0 <= c < result.Length1 ==>
        result[r, c] == if r < i then massMatrix[r, c] * kappa else massMatrix[r, c]
    {
      for ii := 0 to result.Length1
        invariant forall r, c :: 0 <= r < result.Length0 && 0 <= c < result.Length1 ==>
          result[r, c] == if r < i || (r == i && c < ii) then massMatrix[r, c] * kappa else massMatrix[r, c]
      {
        result[i, ii] := result[i, ii] * kappa;
      }
    }
  }

  /** The product matrix·vector; fails when the column count differs from the length of vector. */
  method MultiplyByVector(matrix: array2<real>, vector: array<real>) returns (r: Result<array<real>>)
    ensures r.Err? <==> matrix.Length1 != vector.Length
    ensures r.Err? ==> r.error == ArgumentOutOfRange
    ensures r.Ok? ==> fresh(r.value) && r.value[..] == MatVec(Rows(matrix), vector[..])
  {
    if matrix.Length1 != vector.Length {
      return Err(ArgumentOutOfRange);
    }
    ghost var a, v := Rows(matrix), vector[..];
    var result := new real[matrix.Length0];
    for i := 0 to matrix.Length0
      invariant forall k :: 0 <= k < i ==> result[k] == Dot(a[k], v)
    {
      result[i] := RowDot(matrix, i, vector, 0, matrix.Length1);
      assert a[i] == RowOf(matrix, i) && vector[..matrix.Length1] == v;
    }
    return Ok(result);
  }

  /** The inner loop of MultiplyT: matrix[0, c]·vector[0] + ... , down column c. */
  method ColumnDot(matrix: array2<real>, c: int, vector: array<real>) returns (sum: real)
    requires 0 <= c < matrix.Length1 && matrix.Length0 == vector.Length
    ensures sum == Dot(Column(Rows(matrix), c), vector[..])
  {
    ghost var u, v := Column(Rows(matrix), c), vector[..];
    sum := 0.0;
    for ii := 0 to matrix.Length0
      invariant sum == DotRange(u, v, 0, ii)
    {
      assert matrix[ii, c] == u[ii] && vector[ii] == v[ii];
      sum := sum + matrix[ii, c] * vector[ii];
    }
  }

  /** The product transpose(matrix)·vector; fails when the row count differs from the length of vector. */
  method MultiplyT(matrix: array2<real>, vector: array<real>) returns (r: Result<array<real>>)
    ensures r.Err? <==> matrix.Length0 != vector.Length
    ensures r.Err? ==> r.error == ArgumentOutOfRange
    ensures r.Ok? ==> fresh(r.value) && r.value[..] == MatVec(Transpose(Rows(matrix), matrix.Length1), vector[..])
  {
    if matrix.Length0 != vector.Length {
      return Err(ArgumentOutOfRange);
    }
    ghost var at, v := Transpose(Rows(matrix), matrix.Length1), vector[..];
    var result := new real[matrix.Length1];
    for i := 0 to matrix.Length1
      invariant forall k :: 0 <= k < i ==> result[k] == Dot(at[k], v)
    {
      result[i] := ColumnDot(matrix, i, vector);
      assert at[i] == Column(Rows(matrix), i);
    }
    return Ok(result);
  }

  /** The entrywise sum; fails on a length mismatch. */
  method SumVectors(left: array<real>, right: array<real>) returns (r: Result<array<real>>)
    ensures r.Err? <==> left.Length != right.Length
    ensures r.Err? ==> r.error == ArgumentOutOfRange
    ensures r.Ok? ==> fresh(r.value) && r.value.Length == left.Length
    ensures r.Ok? ==> forall i :: 0 <= i < left.Length ==> r.value[i] == left[i] + right[i]
  {
    if left.Length != right.Length {
      return Err(ArgumentOutOfRange);
    }
    var result := new real[left.Length];
    for i := 0 to left.Length
      invariant forall k :: 0 <= k < i ==> result[k] == left[k] + right[k]
    {
      result[i] := left[i] + right[i];
    }
    return Ok(result);
  }

  /**
   * Despite its name, the entrywise DIFFERENCE stiffnessMatrix - newMass, in a clone of
   * stiffnessMatrix. Only the entries inside stiffnessMatrix's bounds are read from newMass,
   * so it fails (the array indexer throws) exactly when some such entry lies outside newMass.
   */
  method SumMatrix(stiffnessMatrix: array2<real>, newMass: array2<real>) returns (r: Result<array2<real>>)
    ensures r.Err? <==> OutgrowsArray(stiffnessMatrix, newMass)
    ensures r.Err? ==> r.error == IndexOutOfRange
    ensures r.Ok? ==> fresh(r.value)
    ensures r.Ok? ==> r.value.Length0 == stiffnessMatrix.Length0 && r.value.Length1 == stiffnessMatrix.Length1
    ensures r.Ok? ==> forall i, j :: 0 <= i < stiffnessMatrix.Length0 && 0 <= j < stiffnessMatrix.Length1 ==>
      r.value[i, j] == stiffnessMatrix[i, j] - newMass[i, j]
  {
    if OutgrowsArray(stiffnessMatrix, newMass) {
      return Err(IndexOutOfRange);
    }
    var result := Clone(stiffnessMatrix);
    for i := 0 to result.Length0
      invariant forall r, c :: 0 <= r < result.Length0 && 0 <= c < result.Length1 ==>
        result[r, c] == if r < i then stiffnessMatrix[r, c] - newMass[r, c] else stiffnessMatrix[r, c]
    {
      for ii := 0 to result.Length1
        invariant forall r, c :: 0 <= r < result.Length0 && 0 <= c < result.Length1 ==>
          result[r, c] == if r < i || (r == i && c < ii) then stiffnessMatrix[r, c] - newMass[r, c] else stiffnessMatrix[r, c]
      {
        result[i, ii] := result[i, ii] - newMass[i, ii];
      }
    }
    return Ok(result);
  }

  /** Some entry within the bounds of a lies outside the bounds of b. */
  predicate OutgrowsArray(a: array2<real>, b: array2<real>)
  {
    a.Length0 > 0 && a.Length1 > 0 && (b.Length0 < a.Length0 || b.Length1 < a.Length1)
  }

  /** The dynamic-stiffness matrix K - kappa²·M, entry by entry; K and M are unchanged. */
  method CommonMatrix(stiffnessMatrix: array2<real>, massMatrix: array2<real>, kappa: real)
    returns (r: Result<array2<real>>)
    ensures r.Err? <==> OutgrowsArray(stiffnessMatrix, massMatrix)
    ensures r.Err? ==> r.error == IndexOutOfRange
    ensures r.Ok? ==> fresh(r.value)
    ensures r.Ok? ==> r.value.Length0 == stiffnessMatrix.Length0 && r.value.Length1 == stiffnessMatrix.Length1
    ensures r.Ok? ==> forall i, j :: 0 <= i < stiffnessMatrix.Length0 && 0 <= j < stiffnessMatrix.Length1 ==>
      r.value[i, j] == stiffnessMatrix[i, j] - kappa * kappa * massMatrix[i, j]
  {
    var newMass := Multiply(kappa * kappa, massMatrix);
    r := SumMatrix(stiffnessMatrix, newMass);
  }
}
