/**
 * BoundaryValues: the linear shooting solver for y' = f(x, y) + g(x) on [x0, 1].
 *
 * Components named in the left conditions are fixed at x0; the others are free. One
 * Cauchy problem of the inhomogeneous system starts from the left conditions with the
 * free components at 0, and one Cauchy problem of the homogeneous system starts from
 * the unit vector of each free component. Their end states at x = 1 are combined so
 * that the combination meets the right conditions: the coefficients solve a square
 * linear system with one row per right condition.
 */
module BoundaryValues {
  import opened Wrappers
  import opened LinearAlgebra
  import MatrixOps
  import opened ButcherTableau
  import opened RungeKutta

  // ---------------------------------------------------------------------------
  // Initial vectors

  /** The components in [0, n) that no left condition fixes, in increasing order. */
  function FreeIndices(n: nat, left: map<int, real>): (free: seq<int>)
    ensures |free| <= n
    ensures forall m :: 0 <= m < |free| ==> 0 <= free[m] && free[m] < n && free[m] !in left
  {
    if n == 0 then []
    else if n - 1 in left then FreeIndices(n - 1, left)
    else FreeIndices(n - 1, left) + [n - 1]
  }

  /** The start of the inhomogeneous Cauchy problem: the left conditions, zero elsewhere. */
  function FirstVector(n: nat, left: map<int, real>): (y: seq<real>)
    ensures |y| == n
    ensures forall i :: 0 <= i < n && i in left ==> y[i] == left[i]
    ensures forall i :: 0 <= i < n && i !in left ==> y[i] == 0.0
  {
    seq(n, i requires 0 <= i < n => if i in left then left[i] else 0.0)
  }

  /** The start of a homogeneous Cauchy problem: 1 at component k, 0 elsewhere. */
  function UnitVector(n: nat, k: int): (e: seq<real>)
    ensures |e| == n
    ensures forall i :: 0 <= i < n ==> e[i] == if i == k then 1.0 else 0.0
  {
    seq(n, i requires 0 <= i < n => if i == k then 1.0 else 0.0)
  }

  // ---------------------------------------------------------------------------
  // The inhomogeneous system

  /** Equation f with the forcing term g added: (x, y) ↦ f(x, y) + g(x). */
  function AddForcing(f: Equation, g: real -> real): (h: Equation)
    ensures forall x, y :: h(x, y) == f(x, y) + g(x)
  {
    (x, y) => f(x, y) + g(x)
  }

  /** Every key of the forcing map names an equation of the system. */
  predicate ForcingFits(eqs: seq<Equation>, forcing: map<int, real -> real>)
  {
    forall k :: k in forcing ==> 0 <= k < |eqs|
  }

  /** The system with each forced equation replaced by its forced version. */
  function Forced(eqs: seq<Equation>, forcing: map<int, real -> real>): (s: seq<Equation>)
    requires ForcingFits(eqs, forcing)
    ensures |s| == |eqs|
    ensures forall k :: 0 <= k < |eqs| && k !in forcing ==> s[k] == eqs[k]
    ensures forall k, x, y :: 0 <= k < |eqs| && k in forcing ==> s[k](x, y) == eqs[k](x, y) + forcing[k](x)
  {
    seq(|eqs|, k requires 0 <= k < |eqs| => if k in forcing then AddForcing(eqs[k], forcing[k]) else eqs[k])
  }

  // ---------------------------------------------------------------------------
  // The linear system and the superposition

  /** solutions[i][c] exists. */
  predicate HasEntry(solutions: seq<seq<real>>, i: int, c: int)
  {
    0 <= i && i < |solutions| && 0 <= c && c < |solutions[i]|
  }

  /**
   * Every entry the linear system is built from exists: solutions[i][c] for the key c of
   * every right condition and every i in [0, |right|].
   */
  predicate Reaches(solutions: seq<seq<real>>, right: seq<(int, real)>)
  {
    && (|right| > 0 ==> |right| < |solutions|)
    && (forall k :: 0 <= k < |right| ==> 0 <= right[k].0)
    && (forall k, i :: 0 <= k < |right| && 0 <= i <= |right| ==> right[k].0 < |solutions[i]|)
  }

  /** Component c at the right end of the homogeneous solutions 1..n. */
  function Through(solutions: seq<seq<real>>, c: int, n: nat): (v: seq<real>)
    requires 0 <= c && n < |solutions| && forall i :: 1 <= i <= n ==> c < |solutions[i]|
    ensures |v| == n && forall i :: 0 <= i < n ==> v[i] == solutions[i + 1][c]
  {
    seq(n, i requires 0 <= i < n => solutions[i + 1][c])
  }

  /** Row k of the matrix: how each homogeneous solution moves the component of condition k. */
  function ShootingMatrix(solutions: seq<seq<real>>, right: seq<(int, real)>): (m: Matrix)
    requires Reaches(solutions, right)
    ensures IsMatrix(m, |right|, |right|)
    ensures forall k, i :: 0 <= k < |right| && 0 <= i < |right| ==> m[k][i] == solutions[i + 1][right[k].0]
  {
    seq(|right|, k requires 0 <= k < |right| => Through(solutions, right[k].0, |right|))
  }

  /** Entry k of the right-hand side: how far the inhomogeneous solution misses condition k. */
  function ShootingRhs(solutions: seq<seq<real>>, right: seq<(int, real)>): (v: seq<real>)
    requires Reaches(solutions, right)
    ensures |v| == |right|
    ensures forall k :: 0 <= k < |right| ==> v[k] == right[k].1 - solutions[0][right[k].0]
  {
    seq(|right|, k requires 0 <= k < |right| => right[k].1 - solutions[0][right[k].0])
  }

  /** All vectors 0..n have the length of the first. */
  predicate Aligned(vs: seq<seq<real>>, n: nat)
    requires n < |vs|
  {
    forall i :: 0 <= i <= n ==> |vs[i]| == |vs[0]|
  }

  /** vs[0] + coeffs[0]·vs[1] + ... + coeffs[n-1]·vs[n], component by component. */
  function Combination(vs: seq<seq<real>>, coeffs: seq<real>, n: nat): (y: seq<real>)
    requires n < |vs| && n <= |coeffs| && Aligned(vs, n)
    ensures |y| == |vs[0]|
  {
    if n == 0 then vs[0]
    else
      var prev := Combination(vs, coeffs, n - 1);
      seq(|prev|, j requires 0 <= j < |prev| => prev[j] + coeffs[n - 1] * vs[n][j])
  }

  // ---------------------------------------------------------------------------
  // The solver

  class BoundaryValueProblem {
    /** The homogeneous equations f. */
    const equations: seq<Equation>
    /** The forcing terms g, by equation. */
    const inhomogeneous: map<int, real -> real>
    /** Values of the components fixed at the left end. */
    const leftConditions: map<int, real>
    /** Values of the components required at x = 1, in the dictionary's enumeration order. */
    const rightConditions: seq<(int, real)>
    /** The left end x0 of the interval [x0, 1]. */
    const leftBoundary: real
    /** The tolerance each Cauchy problem is solved with. */
    const epsilon: real

    constructor(equations: seq<Equation>, leftConditions: map<int, real>, rightConditions: seq<(int, real)>,
                inhomogeneous: map<int, real -> real>, inner: real := 0.0, epsilon: real := 0.0000001)
      ensures this.equations == equations && this.leftConditions == leftConditions
      ensures this.rightConditions == rightConditions && this.inhomogeneous == inhomogeneous
      ensures this.leftBoundary == inner && this.epsilon == epsilon
    {
      this.equations := equations;
      this.leftConditions := leftConditions;
      this.rightConditions := rightConditions;
      this.inhomogeneous := inhomogeneous;
      this.leftBoundary := inner;
      this.epsilon := epsilon;
    }

    /** The number of free components, hence of homogeneous Cauchy problems. */
    function FreeCount(): nat
    {
      |FreeIndices(|equations|, leftConditions)|
    }

    /**
     * The initial vectors of the Cauchy problems: first the left conditions, then the unit
     * vector of every free component in increasing order.
     */
    method InitialConditions() returns (result: seq<seq<real>>)
      ensures |result| == 1 + FreeCount()
      ensures forall m :: 0 <= m < |result| ==> |result[m]| == |equations|
      ensures result[0] == FirstVector(|equations|, leftConditions)
      ensures forall m :: 0 <= m < FreeCount() ==>
                result[m + 1] == UnitVector(|equations|, FreeIndices(|equations|, leftConditions)[m])
    {
      var size := |equations|;
      var first: seq<real> := [];
      for i := 0 to |equations|
        invariant first == FirstVector(|equations|, leftConditions)[..i]
      {
        var newValue := if i in leftConditions then leftConditions[i] else 0.0;
        first := first + [newValue];
      }
      result := [first];
      for i := 0 to size
        invariant |result| == 1 + |FreeIndices(i, leftConditions)|
        invariant result[0] == FirstVector(size, leftConditions)
        invariant forall m :: 0 <= m < |result| ==> |result[m]| == size
        invariant forall m :: 0 <= m < |FreeIndices(i, leftConditions)| ==>
                    result[m + 1] == UnitVector(size, FreeIndices(i, leftConditions)[m])
      {
        if i in leftConditions {
          continue;
        }
        var zeros := seq(size, _ => 0.0);
        zeros := zeros[i := 1.0];
        assert zeros == UnitVector(size, i);
        result := result + [zeros];
      }
    }

    /**
     * The equations with every forcing term added. Fails as the list indexer does when
     * a key of the forcing map is not the index of an equation.
     */
    method InhomogeneousSystem() returns (r: Result<seq<Equation>>)
      ensures r.Err? <==> !ForcingFits(equations, inhomogeneous)
      ensures r.Err? ==> r.error == ArgumentOutOfRange
      ensures r.Ok? ==> ForcingFits(equations, inhomogeneous) && r.value == Forced(equations, inhomogeneous)
    {
      var system := equations;
      var keys := inhomogeneous.Keys;
      while keys != {}
        invariant keys <= inhomogeneous.Keys
        invariant forall k :: k in inhomogeneous && k !in keys ==> 0 <= k < |equations|
        invariant |system| == |equations|
        invariant forall k :: 0 <= k < |equations| ==>
                    system[k] == if k in inhomogeneous && k !in keys
                                 then AddForcing(equations[k], inhomogeneous[k]) else equations[k]
        decreases keys
      {
        assert (forall k :: k !in keys) ==> keys == {};
        var k :| k in keys;
        if !(0 <= k < |system|) {
          return Err(ArgumentOutOfRange);
        }
        system := system[k := AddForcing(equations[k], inhomogeneous[k])];
        keys := keys - {k};
      }
      assert forall k :: 0 <= k < |equations| ==> system[k] == Forced(equations, inhomogeneous)[k];
      return Ok(system);
    }

    /**
     * What the Cauchy problems return: one end state at x = 1 per initial vector, the first
     * from the inhomogeneous system, the others from the homogeneous one, all with the
     * Rkf78 pair and the problem's tolerance.
     */
    ghost predicate CauchySolutions(solutions: seq<seq<real>>)
    {
      var n := |equations|;
      var free := FreeIndices(n, leftConditions);
      && ForcingFits(equations, inhomogeneous)
      && |solutions| == 1 + |free|
      && (forall i :: 0 <= i < |solutions| ==> |solutions[i]| == n)
      && Integrates(Forced(equations, inhomogeneous), Rkf78(), epsilon, leftBoundary, 1.0,
                    FirstVector(n, leftConditions), solutions[0])
      && (forall m :: 0 <= m < |free| ==>
            Integrates(equations, Rkf78(), epsilon, leftBoundary, 1.0, UnitVector(n, free[m]), solutions[m + 1]))
    }

    /**
     * Solves every Cauchy problem from the left end to x = 1. Fails when the forcing map
     * does not fit the system, or when a step-size search runs out of fuel.
     */
    method CauchyProblemSolutions(fuel: nat) returns (r: Result<seq<seq<real>>>)
      ensures !ForcingFits(equations, inhomogeneous) ==> r == Err(ArgumentOutOfRange)
      ensures (r.Err? && r.error == ArgumentOutOfRange) <==> !ForcingFits(equations, inhomogeneous)
      ensures r.Err? ==> r.error == OutOfFuel || r.error == ArgumentOutOfRange
      ensures r.Ok? ==> CauchySolutions(r.value)
    {
      var conditions := InitialConditions();
      var size := |conditions|;
      var system :- InhomogeneousSystem();
      var odeSolver := new OdeSolver(system, Rkf78(), epsilon);
      var solution :- odeSolver.Solve(leftBoundary, 1.0, conditions[0], fuel);
      var solutions := [solution];
      solutions :- SolveHomogeneous(conditions, solutions, fuel);
      ghost var free := FreeIndices(|equations|, leftConditions);
      forall m | 0 <= m < |free|
        ensures Integrates(equations, Rkf78(), epsilon, leftBoundary, 1.0, UnitVector(|equations|, free[m]), solutions[m + 1])
      {
        assert conditions[m + 1] == UnitVector(|equations|, free[m]);
      }
      return Ok(solutions);
    }

    /**
     * The loop of CauchyProblemSolutions: appends to solutions the end state of the
     * homogeneous system from each initial vector after the first.
     */
    method SolveHomogeneous(conditions: seq<seq<real>>, solutions: seq<seq<real>>, fuel: nat) returns (r: Result<seq<seq<real>>>)
      requires |solutions| == 1 <= |conditions|
      requires forall m :: 0 <= m < |conditions| ==> |conditions[m]| == |equations|
      ensures r.Err? ==> r.error == OutOfFuel
      ensures r.Ok? ==> |r.value| == |conditions| && r.value[0] == solutions[0]
      ensures r.Ok? ==> forall m :: 1 <= m < |conditions| ==> |r.value[m]| == |equations|
      ensures r.Ok? ==> forall m :: 1 <= m < |conditions| ==>
                Integrates(equations, Rkf78(), epsilon, leftBoundary, 1.0, conditions[m], r.value[m])
    {
      var odeSolver := new OdeSolver(equations, Rkf78(), epsilon);
      var solutions := solutions;
      ghost var first := solutions[0];
      for i := 1 to |conditions|
        invariant |solutions| == i && solutions[0] == first
        invariant forall m :: 1 <= m < i ==> |solutions[m]| == |equations|
        invariant forall m :: 1 <= m < i ==>
                    Integrates(equations, Rkf78(), epsilon, leftBoundary, 1.0, conditions[m], solutions[m])
      {
        var initials := CopyOf(conditions[i], |equations|);
        assert initials == conditions[i];
        var solution :- odeSolver.Solve(leftBoundary, 1.0, initials, fuel);
        solutions := solutions + [solution];
      }
      return Ok(solutions);
    }

    /**
     * Builds the square system with one row per right condition and solves it for the
     * coefficients of the homogeneous solutions. Fails as the list indexer does when an
     * entry it reads does not exist, and as the linear solver does when the system is
     * singular.
     */
    method GetTheInitialConditions(solutions: seq<seq<real>>) returns (r: Result<array<real>>)
      ensures (r.Err? && r.error == ArgumentOutOfRange) <==> !Reaches(solutions, rightConditions)
      ensures r.Err? ==> r.error == ArgumentOutOfRange || r.error == SingularMatrix
      ensures r.Ok? ==> fresh(r.value) && r.value.Length == |rightConditions|
      ensures r.Ok? ==>
                && Reaches(solutions, rightConditions)
                && MatVec(ShootingMatrix(solutions, rightConditions), r.value[..]) == ShootingRhs(solutions, rightConditions)
    ensures (r.Err? && r.error == SingularMatrix) <==>
              Reaches(solutions, rightConditions) && Singular(ShootingMatrix(solutions, rightConditions))
    {
      var right := rightConditions;
      var size := |right|;
      var matrix := new real[size, size];
      var rightPart := new real[size];
      var counter := 0;
      while counter < size
        invariant 0 <= counter <= size
        invariant forall k, i :: 0 <= k < counter && 0 <= i <= size ==> HasEntry(solutions, i, right[k].0)
        invariant forall k :: 0 <= k < counter ==>
                    HasEntry(solutions, 0, right[k].0) && rightPart[k] == right[k].1 - solutions[0][right[k].0]
        invariant forall k, i :: 0 <= k < counter && 1 <= i <= size ==>
                    HasEntry(solutions, i, right[k].0) && matrix[k, i - 1] == solutions[i][right[k].0]
      {
        var (key, value) := right[counter];
        if !HasEntry(solutions, 0, key) {
          MissingEntry(solutions, right, counter, 0);
          return Err(ArgumentOutOfRange);
        }
        rightPart[counter] := value - solutions[0][key];
        var filled := FillRow(matrix, counter, solutions, key);
        if !filled {
          ghost var i :| 1 <= i <= size && !HasEntry(solutions, i, key);
          MissingEntry(solutions, right, counter, i);
          return Err(ArgumentOutOfRange);
        }
        counter := counter + 1;
      }
      ReachesFrom(solutions, right);
      assert MatrixOps.Rows(matrix) == ShootingMatrix(solutions, right) by {
        forall k | 0 <= k < size ensures MatrixOps.Rows(matrix)[k] == ShootingMatrix(solutions, right)[k] {
          assert MatrixOps.Rows(matrix)[k] == MatrixOps.RowOf(matrix, k);
          forall c | 0 <= c < size ensures matrix[k, c] == ShootingMatrix(solutions, right)[k][c] {
            assert matrix[k, (c + 1) - 1] == solutions[c + 1][right[k].0];
          }
        }
      }
      assert rightPart[..] == ShootingRhs(solutions, right);
      r := MatrixOps.Solve(matrix, rightPart);
    }

    /**
     * Solves the boundary value problem and returns the state at x = 1: the inhomogeneous
     * solution plus the homogeneous ones weighted by the coefficients of the linear
     * system. Fails when the forcing map does not fit, when a step-size search runs out
     * of fuel, when the system is singular, when a right condition names no component,
     * and when the free components are fewer (the matrix is read past the last solution)
     * or more (the coefficient array is read past its end) than the right conditions.
     */
    method Solve(fuel: nat) returns (r: Result<seq<real>>)
      ensures !ForcingFits(equations, inhomogeneous) ==> r == Err(ArgumentOutOfRange)
      ensures r.Err? ==> r.error != ArgumentError
      ensures r.Err? && r.error == IndexOutOfRange ==> FreeCount() > |rightConditions|
      ensures r.Ok? ==> |r.value| == |equations| && FreeCount() == |rightConditions|
      ensures r.Ok? ==> forall k :: 0 <= k < |rightConditions| ==>
                0 <= rightConditions[k].0 && rightConditions[k].0 < |equations| && r.value[rightConditions[k].0] == rightConditions[k].1
      ensures r.Ok? ==> exists solutions, coeffs ::
                Superposes(r.value, solutions, coeffs) && !Singular(ShootingMatrix(solutions, rightConditions))
      ensures r.Err? && r.error == ArgumentOutOfRange ==>
                || !ForcingFits(equations, inhomogeneous)
                || exists solutions :: CauchySolutions(solutions) && !Reaches(solutions, rightConditions)
      ensures r.Err? && r.error == SingularMatrix ==> exists solutions ::
                && CauchySolutions(solutions) && Reaches(solutions, rightConditions)
                && Singular(ShootingMatrix(solutions, rightConditions))
    {
      var solutions :- CauchyProblemSolutions(fuel);
      var initialConditions :- GetTheInitialConditions(solutions);
      ghost var coeffs := initialConditions[..];
      assert |solutions| > 1 ==> FreeIndices(|equations|, leftConditions)[0] < |solutions[0]|;
      assert Aligned(solutions, |solutions| - 1);
      var result :- Superpose(solutions, initialConditions);
      assert |solutions| - 1 == |rightConditions|;
      ShootingMeetsTargets(solutions, rightConditions, coeffs);
      assert Superposes(result, solutions, coeffs);
      return Ok(result);
    }

    /**
     * y is the superposition of end states of the Cauchy problems that meets the right
     * conditions: coeffs solves the linear system built from them.
     */
    ghost predicate Superposes(y: seq<real>, solutions: seq<seq<real>>, coeffs: seq<real>)
    {
      && CauchySolutions(solutions)
      && Reaches(solutions, rightConditions)
      && |coeffs| == |rightConditions| == |solutions| - 1
      && MatVec(ShootingMatrix(solutions, rightConditions), coeffs) == ShootingRhs(solutions, rightConditions)
      && y == Combination(solutions, coeffs, |coeffs|)
    }
  }

  /**
   * The inner loop of GetTheInitialConditions: row `row` of the matrix receives component
   * key of solutions 1..n, where n is the matrix's width. It stops, reporting false, at
   * the first of those entries that does not exist.
   */
  method FillRow(matrix: array2<real>, row: nat, solutions: seq<seq<real>>, key: int) returns (ok: bool)
    requires row < matrix.Length0
    modifies matrix
    ensures ok ==> forall i :: 1 <= i <= matrix.Length1 ==>
                     HasEntry(solutions, i, key) && matrix[row, i - 1] == solutions[i][key]
    ensures !ok ==> exists i :: 1 <= i <= matrix.Length1 && !HasEntry(solutions, i, key)
    ensures forall k, i :: 0 <= k < matrix.Length0 && 0 <= i < matrix.Length1 && k != row ==> matrix[k, i] == old(matrix[k, i])
  {
    for i := 0 to matrix.Length1
      invariant forall k, i' :: 0 <= k < matrix.Length0 && 0 <= i' < matrix.Length1 && k != row ==> matrix[k, i'] == old(matrix[k, i'])
      invariant forall i' :: 1 <= i' <= i ==> HasEntry(solutions, i', key) && matrix[row, i' - 1] == solutions[i'][key]
    {
      if !HasEntry(solutions, i + 1, key) {
        return false;
      }
      matrix[row, i] := solutions[i + 1][key];
    }
    return true;
  }

  /** A new list holding the first n entries of v, added one by one. */
  method CopyOf(v: seq<real>, n: nat) returns (w: seq<real>)
    requires n <= |v|
    ensures w == v[..n]
  {
    w := [];
    for ii := 0 to n
      invariant w == v[..ii]
    {
      w := w + [v[ii]];
    }
  }

  /**
   * The accumulation of Solve: vs[0] plus coefficients[i-1]·vs[i] for every i >= 1, with
   * the coefficient array read for each component. Reading past its end fails.
   */
  method Superpose(vs: seq<seq<real>>, coefficients: array<real>) returns (r: Result<seq<real>>)
    requires |vs| >= 1 && Aligned(vs, |vs| - 1)
    ensures r.Err? <==> |vs| - 1 > coefficients.Length && |vs[0]| > 0
    ensures r.Err? ==> r.error == IndexOutOfRange
    ensures r.Ok? ==> |r.value| == |vs[0]|
    ensures r.Ok? && |vs| - 1 <= coefficients.Length ==> r.value == Combination(vs, coefficients[..], |vs| - 1)
  {
    ghost var coeffs := coefficients[..];
    var result := vs[0];
    for i := 1 to |vs|
      invariant |result| == |vs[0]|
      invariant i - 1 <= coefficients.Length ==> result == Combination(vs, coeffs, i - 1)
      invariant i - 1 > coefficients.Length ==> |vs[0]| == 0
    {
      ghost var prev := result;
      for ii := 0 to |vs[i]|
        invariant ii > 0 ==> i - 1 < coefficients.Length
        invariant |result| == |prev|
        invariant forall j :: 0 <= j < ii ==> result[j] == prev[j] + coeffs[i - 1] * vs[i][j]
        invariant forall j :: ii <= j < |prev| ==> result[j] == prev[j]
      {
        if i - 1 >= coefficients.Length {
          return Err(IndexOutOfRange);
        }
        result := result[ii := result[ii] + coefficients[i - 1] * vs[i][ii]];
      }
      if i - 1 < coefficients.Length {
        assert Aligned(vs, i);
        assert forall j :: 0 <= j < |result| ==> result[j] == Combination(vs, coeffs, i)[j];
      }
    }
    return Ok(result);
  }

  // ---------------------------------------------------------------------------
  // Lemmas

  /** When every entry the system reads exists, the solutions reach the right conditions. */
  lemma ReachesFrom(solutions: seq<seq<real>>, right: seq<(int, real)>)
    requires forall k, i :: 0 <= k < |right| && 0 <= i <= |right| ==> HasEntry(solutions, i, right[k].0)
    ensures Reaches(solutions, right)
  {
    forall k, i | 0 <= k < |right| && 0 <= i <= |right|
      ensures HasEntry(solutions, i, right[k].0) && 0 <= right[k].0 < |solutions[i]|
    {
    }
    if |right| > 0 {
      assert HasEntry(solutions, |right|, right[0].0);
    }
  }

  /** One missing entry is enough for the solutions not to reach the right conditions. */
  lemma MissingEntry(solutions: seq<seq<real>>, right: seq<(int, real)>, k: nat, i: nat)
    requires k < |right| && i <= |right| && !HasEntry(solutions, i, right[k].0)
    ensures !Reaches(solutions, right)
  {
    var c := right[k].0;
    assert Reaches(solutions, right) ==> HasEntry(solutions, i, c);
  }

  /** The free indices are exactly the components no left condition fixes, each listed once, in increasing order. */
  lemma {:induction false} FreeIndicesComplete(n: nat, left: map<int, real>)
    ensures forall i :: 0 <= i < n && i !in left ==> i in FreeIndices(n, left)
    ensures forall m, m' :: 0 <= m < m' < |FreeIndices(n, left)| ==> FreeIndices(n, left)[m] < FreeIndices(n, left)[m']
  {
    if n > 0 {
      FreeIndicesComplete(n - 1, left);
    }
  }

  /** Component c of a combination is vs[0][c] plus the coefficients dotted with component c of the rest. */
  lemma {:induction false} CombinationEntry(vs: seq<seq<real>>, coeffs: seq<real>, n: nat, c: nat)
    requires n < |vs| && n <= |coeffs| && Aligned(vs, n) && c < |vs[0]|
    ensures Combination(vs, coeffs, n)[c] == vs[0][c] + DotRange(coeffs, Through(vs, c, n), 0, n)
  {
    if n > 0 {
      assert Aligned(vs, n - 1);
      CombinationEntry(vs, coeffs, n - 1, c);
      var t, t' := Through(vs, c, n), Through(vs, c, n - 1);
      DotRangeAgree(coeffs, t', coeffs, t, 0, n - 1);
      assert t[n - 1] == vs[n][c];
    }
  }

  /**
   * The shooting property: when the coefficients solve the linear system, the combination
   * of the end states takes the required value at the component of every right condition.
   */
  lemma ShootingMeetsTargets(solutions: seq<seq<real>>, right: seq<(int, real)>, coeffs: seq<real>)
    requires Reaches(solutions, right) && |coeffs| == |right| < |solutions| && Aligned(solutions, |right|)
    requires MatVec(ShootingMatrix(solutions, right), coeffs) == ShootingRhs(solutions, right)
    ensures forall k :: 0 <= k < |right| ==> Combination(solutions, coeffs, |right|)[right[k].0] == right[k].1
  {
    forall k | 0 <= k < |right|
      ensures Combination(solutions, coeffs, |right|)[right[k].0] == right[k].1
    {
      var c := right[k].0;
      var row := Through(solutions, c, |right|);
      assert ShootingMatrix(solutions, right)[k] == row;
      assert Dot(row, coeffs) == right[k].1 - solutions[0][c] by {
        assert MatVec(ShootingMatrix(solutions, right), coeffs)[k] == ShootingRhs(solutions, right)[k];
      }
      DotRangeCommutes(row, coeffs, 0, |right|);
      CombinationEntry(solutions, coeffs, |right|, c);
    }
  }

  /**
   * The initial vectors combined with coefficients coeffs give the left conditions at the
   * fixed components and coeffs[m] at the m-th free component: every superposition starts
   * on the left conditions, and the coefficients are its unknown initial values.
   */
  lemma CombinedStart(n: nat, left: map<int, real>, conditions: seq<seq<real>>, coeffs: seq<real>)
    requires |conditions| == 1 + |FreeIndices(n, left)| == 1 + |coeffs|
    requires conditions[0] == FirstVector(n, left)
    requires forall m :: 0 <= m < |coeffs| ==> conditions[m + 1] == UnitVector(n, FreeIndices(n, left)[m])
    ensures Aligned(conditions, |coeffs|)
    ensures forall i :: 0 <= i < n && i in left ==> Combination(conditions, coeffs, |coeffs|)[i] == left[i]
    ensures forall m :: 0 <= m < |coeffs| ==> Combination(conditions, coeffs, |coeffs|)[FreeIndices(n, left)[m]] == coeffs[m]
  {
    var free := FreeIndices(n, left);
    var count := |coeffs|;
    FreeIndicesComplete(n, left);
    assert Aligned(conditions, count) by {
      forall i | 0 <= i <= count ensures |conditions[i]| == |conditions[0]| {
        if i > 0 {
          assert conditions[(i - 1) + 1] == UnitVector(n, free[i - 1]);
        }
      }
    }
    var y := Combination(conditions, coeffs, count);
    forall i | 0 <= i < n && i in left
      ensures y[i] == left[i]
    {
      var u := Through(conditions, i, count);
      forall m | 0 <= m < count ensures u[m] == 0.0 {
        assert conditions[m + 1] == UnitVector(n, free[m]);
      }
      CombinationEntry(conditions, coeffs, count, i);
      DotRangeCommutes(coeffs, u, 0, count);
      DotRangeZero(u, coeffs, 0, count);
    }
    forall m0 | 0 <= m0 < count
      ensures y[free[m0]] == coeffs[m0]
    {
      var c := free[m0];
      var u := Through(conditions, c, count);
      forall m | 0 <= m < count ensures u[m] == if m == m0 then 1.0 else 0.0 {
        assert conditions[m + 1] == UnitVector(n, free[m]);
      }
      CombinationEntry(conditions, coeffs, count, c);
      DotRangeCommutes(coeffs, u, 0, count);
      DotUnitAt(u, u, coeffs, m0);
      DotRangeZero(u, coeffs, 0, m0);
    }
  }
}
