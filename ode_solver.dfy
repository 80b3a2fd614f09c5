/**
 * RungeKutta: the explicit embedded Runge–Kutta stepper. One step of size h from
 * (x, y0) builds the stage vectors from a Butcher tableau, forms two candidate states
 * from its two weight rows, and accepts the step when they are close enough; otherwise
 * h is halved. The equations are opaque functions of (x, y).
 */
module RungeKutta {
  import opened Wrappers
  import opened ButcherTableau

  /** The right-hand side f_j(x, y) of one equation of the system y' = f(x, y). */
  type Equation = (real, seq<real>) -> real

  /** double.Epsilon, the smallest positive double, as C# prints it. */
  const DoubleEpsilon: real := 4.9406564584124654e-324

  // ---------------------------------------------------------------------------
  // One step, as values

  /** One stage vector: h·f_j(x, y) for every equation j. */
  function Eval(eqs: seq<Equation>, x: real, y: seq<real>, h: real): (k: seq<real>)
    ensures |k| == |eqs| && forall j :: 0 <= j < |eqs| ==> k[j] == h * eqs[j](x, y)
  {
    seq(|eqs|, j requires 0 <= j < |eqs| => h * eqs[j](x, y))
  }

  /** y0j + row[1]·ks[0][j] + ... + row[count]·ks[count-1][j], added from the left. */
  function Accumulated(y0j: real, row: seq<real>, ks: seq<seq<real>>, j: nat, count: nat): real
    requires count < |row| && count <= |ks|
    requires forall m :: 0 <= m < count ==> j < |ks[m]|
  {
    if count == 0 then y0j
    else Accumulated(y0j, row, ks, j, count - 1) + row[count] * ks[count - 1][j]
  }

  /** y0 plus the stages ks weighted by row[1 ..], entry by entry. */
  function Combine(y0: seq<real>, row: seq<real>, ks: seq<seq<real>>): (y: seq<real>)
    requires |ks| < |row|
    requires forall m :: 0 <= m < |ks| ==> |y0| <= |ks[m]|
    ensures |y| == |y0|
  {
    seq(|y0|, j requires 0 <= j < |y0| => Accumulated(y0[j], row, ks, j, |ks|))
  }

  /** The abscissa x + c·h of the stage that row i of the tableau describes. */
  function StageX(t: Tableau, i: nat, x: real, h: real): real
    requires i < |t| && 0 < |t[i]|
  {
    x + t[i][0] * h
  }

  /** The first n stages of a step of size h from (x, y0). */
  function Stages(eqs: seq<Equation>, t: Tableau, x: real, y0: seq<real>, h: real, n: nat): (ks: seq<seq<real>>)
    requires WellFormed(t) && 1 <= n <= |t| - 1 && |y0| <= |eqs|
    ensures |ks| == n && forall m :: 0 <= m < n ==> |ks[m]| == |eqs|
  {
    if n == 1 then [Eval(eqs, x, y0, h)]
    else
      var ks := Stages(eqs, t, x, y0, h, n - 1);
      ks + [Eval(eqs, StageX(t, n - 2, x, h), Combine(y0, t[n - 2], ks), h)]
  }

  /** The state the step proposes: weights from row L-2 of the tableau. */
  function StepU(eqs: seq<Equation>, t: Tableau, x: real, y0: seq<real>, h: real): (u: seq<real>)
    requires WellFormed(t) && |y0| <= |eqs|
    ensures |u| == |y0|
  {
    Combine(y0, t[|t| - 2], Stages(eqs, t, x, y0, h, |t| - 1))
  }

  /** The embedded companion state, used only to estimate the error: weights from row L-1. */
  function StepUh(eqs: seq<Equation>, t: Tableau, x: real, y0: seq<real>, h: real): (uh: seq<real>)
    requires WellFormed(t) && |y0| <= |eqs|
    ensures |uh| == |y0|
  {
    Combine(y0, t[|t| - 1], Stages(eqs, t, x, y0, h, |t| - 1))
  }

  function Square(x: real): real
  {
    x * x
  }

  /** d[0]² + ... + d[n-1]², added from the left. */
  function SumSquares(d: seq<real>, n: nat): real
    requires n <= |d|
  {
    if n == 0 then 0.0 else SumSquares(d, n - 1) + Square(d[n - 1])
  }

  function Difference(u: seq<real>, v: seq<real>): (d: seq<real>)
    requires |u| == |v|
    ensures |d| == |u| && forall i :: 0 <= i < |u| ==> d[i] == u[i] - v[i]
  {
    seq(|u|, i requires 0 <= i < |u| => u[i] - v[i])
  }

  /** The squared Euclidean distance between the two candidate states of a step. */
  function Residual(eqs: seq<Equation>, t: Tableau, x: real, y0: seq<real>, h: real): real
    requires WellFormed(t) && |y0| <= |eqs|
  {
    SumSquares(Difference(StepU(eqs, t, x, y0, h), StepUh(eqs, t, x, y0, h)), |y0|)
  }

  /** sqrt(sq) > eps, for a squared norm sq, without the square root. */
  predicate Exceeds(sq: real, eps: real)
  {
    eps < 0.0 || sq > eps * eps
  }

  /** The step of size h from (x, y) passes the error test. */
  ghost predicate Accepts(eqs: seq<Equation>, t: Tableau, eps: real, x: real, y: seq<real>, h: real)
    requires WellFormed(t) && |y| <= |eqs|
  {
    !Exceeds(Residual(eqs, t, x, y, h), eps)
  }

  /** h is len halved k times. */
  predicate Halved(len: real, k: nat, h: real)
  {
    h * Pow2(k) == len
  }

  /** The interval length b - a halved k times. */
  function SizeAt(a: real, b: real, k: nat): real
  {
    (b - a) / Pow2(k)
  }

  function Pow2(k: nat): (p: real)
    ensures p >= 1.0
  {
    if k == 0 then 1.0 else 2.0 * Pow2(k - 1)
  }

  /** Step i of a trajectory moves from (xs[i], ys[i]) by hs[i] to the state the step proposes. */
  ghost predicate Moves(eqs: seq<Equation>, t: Tableau, xs: seq<real>, hs: seq<real>, ys: seq<seq<real>>, i: nat)
    requires WellFormed(t) && i < |hs| && |xs| == |ys| == |hs| + 1 && |ys[i]| <= |eqs|
  {
    xs[i + 1] == xs[i] + hs[i] && ys[i + 1] == StepU(eqs, t, xs[i], ys[i], hs[i])
  }

  /** Mesh points xs and states ys from (a, y0), each step of size hs[i] taken with the tableau t. */
  ghost predicate Trajectory(eqs: seq<Equation>, t: Tableau, a: real, y0: seq<real>,
                             xs: seq<real>, hs: seq<real>, ys: seq<seq<real>>)
    requires WellFormed(t) && |y0| <= |eqs|
  {
    && |xs| == |ys| == |hs| + 1
    && xs[0] == a && ys[0] == y0
    && (forall i :: 0 <= i < |ys| ==> |ys[i]| == |y0|)
    && (forall i :: 0 <= i < |hs| ==> Moves(eqs, t, xs, hs, ys, i))
  }

  /**
   * Every step size b - a halved k times, for lo <= k < hi, fails the error test at (x, y).
   */
  ghost predicate RejectedSizes(eqs: seq<Equation>, t: Tableau, eps: real, a: real, b: real,
                                x: real, y: seq<real>, lo: nat, hi: nat)
    requires WellFormed(t) && |y| <= |eqs|
  {
    forall k :: lo <= k < hi ==> Exceeds(Residual(eqs, t, x, y, SizeAt(a, b, k)), eps)
  }

  /**
   * The step control of step i of a run: its size hs[i] is b - a halved ks[i] times, it
   * lands no further than b, and the error test accepts it. It is the first size the
   * halving loop accepts: every size tried before it, from the size the previous step
   * took (b - a for the first step) on, fails the error test.
   */
  ghost predicate Controlled(eqs: seq<Equation>, t: Tableau, eps: real, a: real, b: real,
                             xs: seq<real>, hs: seq<real>, ks: seq<nat>, ys: seq<seq<real>>, i: nat)
    requires WellFormed(t) && i < |hs| && |xs| == |ys| == |hs| + 1 && |ks| == |hs|
    requires |ys[i]| <= |eqs|
  {
    && 0.0 < hs[i] && Halved(b - a, ks[i], hs[i])
    && xs[i + 1] <= b
    && Accepts(eqs, t, eps, xs[i], ys[i], hs[i])
    && RejectedSizes(eqs, t, eps, a, b, xs[i], ys[i], if i == 0 then 0 else ks[i - 1], ks[i])
  }

  /**
   * A run of the step loop from (a, y0) towards b: a trajectory whose every step starts
   * more than double.Epsilon short of b (the loop guard) and is controlled, with halving
   * counts ks that never decrease (h is only ever halved).
   */
  ghost predicate Run(eqs: seq<Equation>, t: Tableau, eps: real, a: real, b: real, y0: seq<real>,
                      xs: seq<real>, hs: seq<real>, ks: seq<nat>, ys: seq<seq<real>>)
    requires WellFormed(t) && |y0| <= |eqs|
  {
    && Trajectory(eqs, t, a, y0, xs, hs, ys)
    && (forall i :: 0 <= i < |hs| ==> b - xs[i] > DoubleEpsilon)
    && |ks| == |hs|
    && (forall i :: 0 <= i < |hs| ==> Controlled(eqs, t, eps, a, b, xs, hs, ks, ys, i))
    && (forall i, j :: 0 <= i < j < |ks| ==> ks[i] <= ks[j])
  }

  /**
   * y is a result Solve may return for the problem from (a, y0) to b: y0 itself when the
   * interval is empty or no wider than double.Epsilon, and otherwise the last state of a
   * run whose last mesh point lies within double.Epsilon of b.
   */
  ghost predicate Integrates(eqs: seq<Equation>, t: Tableau, eps: real, a: real, b: real, y0: seq<real>, y: seq<real>)
    requires WellFormed(t) && |y0| <= |eqs|
  {
    && (!(a < b && b - a > DoubleEpsilon) ==> y == y0)
    && (a < b ==>
          exists xs, hs, ks, ys ::
            && Run(eqs, t, eps, a, b, y0, xs, hs, ks, ys)
            && ys[|ys| - 1] == y
            && b - DoubleEpsilon <= xs[|xs| - 1] <= b)
  }

  // ---------------------------------------------------------------------------
  // The solver

  class OdeSolver {
    const equations: seq<Equation>
    const epsilon: real
    const butcherTableau: Tableau

    constructor(funcs: seq<Equation>, butcherTableau: Tableau, epsilon: real := 0.000001)
      ensures this.equations == funcs && this.butcherTableau == butcherTableau && this.epsilon == epsilon
    {
      this.equations := funcs;
      this.butcherTableau := butcherTableau;
      this.epsilon := epsilon;
    }

    /** The tableau's L-1 stage vectors for a step of size h from (a, initialConditions). */
    method EvaluateK(initialConditions: seq<real>, a: real, h: real) returns (result: seq<seq<real>>)
      requires WellFormed(butcherTableau) && |initialConditions| <= |equations|
      ensures result == Stages(equations, butcherTableau, a, initialConditions, h, |butcherTableau| - 1)
    {
      var t, y0 := butcherTableau, initialConditions;
      result := [Eval(equations, a, y0, h)];
      for i := 0 to |t| - 2
        invariant result == Stages(equations, t, a, y0, h, i + 1)
      {
        var xx := a + t[i][0] * h;
        assert xx == StageX(t, i, a, h);
        var uh := Intermediate(y0, t[i], result);
        StagesStep(equations, t, a, y0, h, i);
        result := result + [Eval(equations, xx, uh, h)];
      }
    }

    /** The two candidate states of a step: u from weight row L-2, uh from weight row L-1. */
    method EvaluateUh(initialConditions: seq<real>, a: real, h: real) returns (u: seq<real>, uh: seq<real>)
      requires WellFormed(butcherTableau) && |initialConditions| <= |equations|
      ensures u == StepU(equations, butcherTableau, a, initialConditions, h)
      ensures uh == StepUh(equations, butcherTableau, a, initialConditions, h)
    {
      var t, y0 := butcherTableau, initialConditions;
      u := y0;
      uh := y0;
      var k := EvaluateK(y0, a, h);
      var size := |t| - 1;
      for i := 0 to |y0|
        invariant |u| == |uh| == |y0|
        invariant forall ii :: 0 <= ii < i ==>
          u[ii] == Accumulated(y0[ii], t[size - 1], k, ii, |k|) && uh[ii] == Accumulated(y0[ii], t[size], k, ii, |k|)
        invariant forall ii :: i <= ii < |y0| ==> u[ii] == y0[ii] && uh[ii] == y0[ii]
      {
        var ui, uhi := WeighStages(u[i], t[size - 1], t[size], k, i);
        u, uh := u[i := ui], uh[i := uhi];
      }
      assert u == Combine(y0, t[size - 1], k);
      assert uh == Combine(y0, t[size], k);
    }

    /** The proposed state u of a step and the squared distance between the two candidate states. */
    method CalculateTheResidual(a: real, initialConditions: seq<real>, h: real) returns (r: real, u: seq<real>)
      requires WellFormed(butcherTableau) && |initialConditions| <= |equations|
      ensures u == StepU(equations, butcherTableau, a, initialConditions, h)
      ensures r == Residual(equations, butcherTableau, a, initialConditions, h)
    {
      var uh;
      u, uh := EvaluateUh(initialConditions, a, h);
      var difference := u;
      for i := 0 to |u|
        invariant |difference| == |u|
        invariant forall ii :: 0 <= ii < i ==> difference[ii] == u[ii] - uh[ii]
        invariant forall ii :: i <= ii < |u| ==> difference[ii] == u[ii]
      {
        difference := difference[i := difference[i] - uh[i]];
      }
      assert difference == Difference(u, uh);
      r := SumSquares(difference, |difference|);
    }

    /**
     * Integrates from a to b starting at initialConditions. While a < b and b - a exceeds
     * double.Epsilon, the step size is halved until the error test accepts the step, and
     * the step is taken. fuel bounds the number of residual evaluations.
     */
    method Solve(a: real, b: real, initialConditions: seq<real>, fuel: nat) returns (r: Result<seq<real>>)
      requires WellFormed(butcherTableau) && |initialConditions| <= |equations|
      ensures !(a < b && b - a > DoubleEpsilon) ==> r == Ok(initialConditions)
      ensures r.Err? ==> r.error == OutOfFuel
      ensures r.Ok? ==> |r.value| == |initialConditions|
      ensures r.Ok? ==> Integrates(equations, butcherTableau, epsilon, a, b, initialConditions, r.value)
    {
      var t, y0 := butcherTableau, initialConditions;
      var h := b - a;
      var x := a;
      var y := y0;
      var remaining := fuel;
      ghost var xs, hs, ks, ys := [a], [], [], [y0];
      ghost var m: nat := 1;
      ghost var halvings: nat := 0;
      GridStarts(a, b);
      while x < b && b - x > DoubleEpsilon
        invariant a <= x && |y| == |y0|
        invariant Run(equations, t, epsilon, a, b, y0, xs, hs, ks, ys)
        invariant xs[|xs| - 1] == x && ys[|ys| - 1] == y
        invariant a < b ==> x <= b && OnGrid(a, b, x, h, m, halvings)
        invariant halvings == if |ks| == 0 then 0 else ks[|ks| - 1]
        invariant !(a < b && b - a > DoubleEpsilon) ==> x == a && y == y0
        decreases remaining
      {
        var accepted, u;
        ghost var previous := halvings;
        accepted, h, u, remaining, m, halvings := AdaptStep(x, y, h, remaining, a, b, m, halvings);
        if !accepted {
          return Err(OutOfFuel);
        }
        GridAdvances(a, b, x, h, m, halvings);
        RunExtends(equations, t, epsilon, a, b, y0, xs, hs, ks, ys, x, y, h, previous, halvings, u);
        xs, hs, ks, ys := xs + [x + h], hs + [h], ks + [halvings], ys + [u];
        x := x + h;
        y := u;
        m := m - 1;
      }
      assert a < b ==> b - DoubleEpsilon <= xs[|xs| - 1] <= b;
      assert Integrates(equations, t, epsilon, a, b, y0, y);
      return Ok(y);
    }

    /**
     * The inner loop of Solve: from (x, y), halves h until the error test accepts the step,
     * spending one unit of fuel per residual evaluation. h0 is b - a halved k0 times; when
     * the loop succeeds, h is b - a halved k >= k0 times, every size b - a halved k0 .. k-1
     * times failed the test, and u is the state the accepted step proposes. The mesh
     * bookkeeping (m, k) of Solve is carried along.
     */
    method AdaptStep(x: real, y: seq<real>, h0: real, fuel: nat, ghost a: real, ghost b: real, ghost m0: nat, ghost k0: nat)
      returns (accepted: bool, h: real, u: seq<real>, left: nat, ghost m: nat, ghost k: nat)
      requires WellFormed(butcherTableau) && |y| <= |equations|
      requires OnGrid(a, b, x, h0, m0, k0)
      ensures accepted ==> left < fuel && k0 <= k && OnGrid(a, b, x, h, m, k)
      ensures accepted ==> RejectedSizes(equations, butcherTableau, epsilon, a, b, x, y, k0, k)
      ensures accepted ==> !Exceeds(Residual(equations, butcherTableau, x, y, h), epsilon)
      ensures accepted ==> u == StepU(equations, butcherTableau, x, y, h)
    {
      h, u, m, k := h0, y, m0, k0;
      if fuel == 0 {
        return false, h, u, 0, m, k;
      }
      left := fuel - 1;
      var res;
      res, u := CalculateTheResidual(x, y, h);
      while Exceeds(res, epsilon)
        invariant left < fuel && k0 <= k && OnGrid(a, b, x, h, m, k)
        invariant RejectedSizes(equations, butcherTableau, epsilon, a, b, x, y, k0, k)
        invariant u == StepU(equations, butcherTableau, x, y, h) && res == Residual(equations, butcherTableau, x, y, h)
        decreases left
      {
        if left == 0 {
          return false, h, u, 0, m, k;
        }
        left := left - 1;
        RejectedExtends(equations, butcherTableau, epsilon, a, b, x, y, k0, k, h);
        GridHalves(a, b, x, h, m, k);
        h := h / 2.0;
        m, k := 2 * m, k + 1;
        res, u := CalculateTheResidual(x, y, h);
      }
      accepted := true;
    }
  }

  /**
   * Entry i of the two candidate states: y0i plus the stages weighted by row and by
   * rowH, added in the same order for both.
   */
  method WeighStages(y0i: real, row: seq<real>, rowH: seq<real>, ks: seq<seq<real>>, i: nat)
    returns (u: real, uh: real)
    requires |ks| < |row| == |rowH| == |ks| + 1
    requires forall m :: 0 <= m < |ks| ==> i < |ks[m]|
    ensures u == Accumulated(y0i, row, ks, i, |ks|) && uh == Accumulated(y0i, rowH, ks, i, |ks|)
  {
    u, uh := y0i, y0i;
    for j := 1 to |rowH|
      invariant u == Accumulated(y0i, row, ks, i, j - 1) && uh == Accumulated(y0i, rowH, ks, i, j - 1)
    {
      u := u + row[j] * ks[j - 1][i];
      uh := uh + rowH[j] * ks[j - 1][i];
    }
  }

  /** The state at which a stage is evaluated: y0 plus the earlier stages weighted by row. */
  method Intermediate(y0: seq<real>, row: seq<real>, ks: seq<seq<real>>) returns (uh: seq<real>)
    requires |ks| < |row|
    requires forall m :: 0 <= m < |ks| ==> |y0| <= |ks[m]|
    ensures uh == Combine(y0, row, ks)
  {
    uh := y0;
    for j := 0 to |uh|
      invariant |uh| == |y0|
      invariant forall jj :: 0 <= jj < j ==> uh[jj] == Accumulated(y0[jj], row, ks, jj, |ks|)
      invariant forall jj :: j <= jj < |y0| ==> uh[jj] == y0[jj]
    {
      ghost var before := uh;
      for k := 0 to |ks|
        invariant uh == before[j := Accumulated(y0[j], row, ks, j, k)]
      {
        assert Accumulated(y0[j], row, ks, j, k + 1) == Accumulated(y0[j], row, ks, j, k) + row[k + 1] * ks[k][j];
        uh := uh[j := uh[j] + row[k + 1] * ks[k][j]];
      }
    }
  }

  // ---------------------------------------------------------------------------
  // Lemmas

  /** Stage i+1 is evaluated at the state row i of the tableau combines from the stages before it. */
  lemma StagesStep(eqs: seq<Equation>, t: Tableau, x: real, y0: seq<real>, h: real, i: nat)
    requires WellFormed(t) && i + 2 < |t| && |y0| <= |eqs|
    ensures Stages(eqs, t, x, y0, h, i + 2)
         == Stages(eqs, t, x, y0, h, i + 1) + [Eval(eqs, StageX(t, i, x, h), Combine(y0, t[i], Stages(eqs, t, x, y0, h, i + 1)), h)]
  {
  }

  /** An accepted step from the end (x, y) of a run extends the run. */
  lemma RunExtends(eqs: seq<Equation>, t: Tableau, eps: real, a: real, b: real, y0: seq<real>,
                   xs: seq<real>, hs: seq<real>, ks: seq<nat>, ys: seq<seq<real>>,
                   x: real, y: seq<real>, h: real, k0: nat, k: nat, u: seq<real>)
    requires WellFormed(t) && |y0| <= |eqs|
    requires Run(eqs, t, eps, a, b, y0, xs, hs, ks, ys)
    requires xs[|xs| - 1] == x && ys[|ys| - 1] == y && b - x > DoubleEpsilon
    requires k0 == (if |ks| == 0 then 0 else ks[|ks| - 1]) && k0 <= k
    requires 0.0 < h && Halved(b - a, k, h) && x + h <= b
    requires RejectedSizes(eqs, t, eps, a, b, x, y, k0, k)
    requires !Exceeds(Residual(eqs, t, x, y, h), eps) && u == StepU(eqs, t, x, y, h)
    ensures Run(eqs, t, eps, a, b, y0, xs + [x + h], hs + [h], ks + [k], ys + [u])
  {
    var n := |hs|;
    var xs', hs', ks', ys' := xs + [x + h], hs + [h], ks + [k], ys + [u];
    forall i | 0 <= i < n + 1
      ensures Moves(eqs, t, xs', hs', ys', i) && Controlled(eqs, t, eps, a, b, xs', hs', ks', ys', i)
    {
      if i < n {
        assert Moves(eqs, t, xs, hs, ys, i) && Controlled(eqs, t, eps, a, b, xs, hs, ks, ys, i);
        assert xs'[i] == xs[i] && xs'[i + 1] == xs[i + 1] && ys'[i] == ys[i] && ys'[i + 1] == ys[i + 1];
      }
    }
    assert Trajectory(eqs, t, a, y0, xs', hs', ys');
  }

  /**
   * The size the halving loop takes is determined: when the sizes from lo up to k1 and
   * to k2 are rejected and the ones halved k1 and k2 times accepted, k1 == k2.
   */
  lemma FirstAccepted(eqs: seq<Equation>, t: Tableau, eps: real, a: real, b: real, x: real, y: seq<real>,
                      lo: nat, k1: nat, h1: real, k2: nat, h2: real)
    requires WellFormed(t) && |y| <= |eqs| && lo <= k1 && lo <= k2
    requires RejectedSizes(eqs, t, eps, a, b, x, y, lo, k1) && RejectedSizes(eqs, t, eps, a, b, x, y, lo, k2)
    requires Halved(b - a, k1, h1) && !Exceeds(Residual(eqs, t, x, y, h1), eps)
    requires Halved(b - a, k2, h2) && !Exceeds(Residual(eqs, t, x, y, h2), eps)
    ensures k1 == k2 && h1 == h2
  {
    HalvedQuotient(a, b, k1, h1);
    HalvedQuotient(a, b, k2, h2);
  }

  /** Two runs from (a, y0) towards b agree on their first n steps. */
  lemma {:induction false} RunsAgree(eqs: seq<Equation>, t: Tableau, eps: real, a: real, b: real, y0: seq<real>,
                                     xs: seq<real>, hs: seq<real>, ks: seq<nat>, ys: seq<seq<real>>,
                                     xs': seq<real>, hs': seq<real>, ks': seq<nat>, ys': seq<seq<real>>, n: nat)
    requires WellFormed(t) && |y0| <= |eqs|
    requires Run(eqs, t, eps, a, b, y0, xs, hs, ks, ys) && Run(eqs, t, eps, a, b, y0, xs', hs', ks', ys')
    requires n <= |hs| && n <= |hs'|
    ensures xs[n] == xs'[n] && ys[n] == ys'[n]
    ensures forall i :: 0 <= i < n ==> ks[i] == ks'[i]
  {
    if n > 0 {
      var i := n - 1;
      RunsAgree(eqs, t, eps, a, b, y0, xs, hs, ks, ys, xs', hs', ks', ys', i);
      assert Controlled(eqs, t, eps, a, b, xs, hs, ks, ys, i) && Controlled(eqs, t, eps, a, b, xs', hs', ks', ys', i);
      assert Moves(eqs, t, xs, hs, ys, i) && Moves(eqs, t, xs', hs', ys', i);
      var lo := if i == 0 then 0 else ks[i - 1];
      FirstAccepted(eqs, t, eps, a, b, xs[i], ys[i], lo, ks[i], hs[i], ks'[i], hs'[i]);
    }
  }

  /**
   * Integrates admits one result only: two runs from (a, y0) take the same steps, and
   * both stop at the first mesh point within double.Epsilon of b.
   */
  lemma IntegratesUnique(eqs: seq<Equation>, t: Tableau, eps: real, a: real, b: real, y0: seq<real>,
                         y: seq<real>, y': seq<real>)
    requires WellFormed(t) && |y0| <= |eqs|
    requires Integrates(eqs, t, eps, a, b, y0, y) && Integrates(eqs, t, eps, a, b, y0, y')
    ensures y == y'
  {
    if a < b && b - a > DoubleEpsilon {
      var xs, hs, ks, ys :| Run(eqs, t, eps, a, b, y0, xs, hs, ks, ys) && ys[|ys| - 1] == y && b - DoubleEpsilon <= xs[|xs| - 1] <= b;
      var xs', hs', ks', ys' :| Run(eqs, t, eps, a, b, y0, xs', hs', ks', ys') && ys'[|ys'| - 1] == y' && b - DoubleEpsilon <= xs'[|xs'| - 1] <= b;
      var n, n' := |hs|, |hs'|;
      RunsAgree(eqs, t, eps, a, b, y0, xs, hs, ks, ys, xs', hs', ks', ys', if n <= n' then n else n');
      assert n == n';
    }
  }

  /** d is m whole steps of size h. */
  predicate Multiple(d: real, m: nat, h: real)
  {
    d == m as real * h
  }
  /**
   * x lies on the mesh of step h towards b: h is b - a halved k times and b - x is
   * m whole steps.
   */
  ghost predicate OnGrid(a: real, b: real, x: real, h: real, m: nat, k: nat)
  {
    0.0 < h && Multiple(b - x, m, h) && Halved(b - a, k, h)
  }
  lemma GridStarts(a: real, b: real)
    ensures a < b ==> OnGrid(a, b, a, b - a, 1, 0)
  {
  }
  lemma GridHalves(a: real, b: real, x: real, h: real, m: nat, k: nat)
    requires OnGrid(a, b, x, h, m, k)
    ensures OnGrid(a, b, x, h / 2.0, 2 * m, k + 1)
  {
    HalvedAgain(b - a, k, h);
    assert (2 * m) as real * (h / 2.0) == m as real * h;
  }

  /** A rejected size b - a halved hi times extends the rejected range by one. */
  lemma RejectedExtends(eqs: seq<Equation>, t: Tableau, eps: real, a: real, b: real,
                        x: real, y: seq<real>, lo: nat, hi: nat, h: real)
    requires WellFormed(t) && |y| <= |eqs| && lo <= hi
    requires RejectedSizes(eqs, t, eps, a, b, x, y, lo, hi)
    requires Halved(b - a, hi, h) && Exceeds(Residual(eqs, t, x, y, h), eps)
    ensures RejectedSizes(eqs, t, eps, a, b, x, y, lo, hi + 1)
  {
    HalvedQuotient(a, b, hi, h);
  }

  /** The only h with h·2^k == b - a is (b - a) / 2^k. */
  lemma HalvedQuotient(a: real, b: real, k: nat, h: real)
    requires Halved(b - a, k, h)
    ensures h == SizeAt(a, b, k)
  {
  }

  lemma HalvedAgain(len: real, k: nat, h: real)
    requires Halved(len, k, h)
    ensures Halved(len, k + 1, h / 2.0)
  {
    var p := Pow2(k);
    assert Pow2(k + 1) == 2.0 * p;
    assert (h / 2.0) * (2.0 * p) == h * p;
  }
  lemma PositiveFactor(m: real, h: real, q: real)
    requires 0.0 < h && q == m * h && 0.0 < q
    ensures 0.0 < m
  {
  }
  /** A point short of b on the mesh is at least one step from b, and the step lands on the mesh. */
  lemma GridAdvances(a: real, b: real, x: real, h: real, m: nat, k: nat)
    requires OnGrid(a, b, x, h, m, k) && x < b
    ensures m >= 1 && x + h <= b && OnGrid(a, b, x + h, h, m - 1, k)
  {
    PositiveFactor(m as real, h, b - x);
    assert (m - 1) as real * h == m as real * h - h;
    ProductNonNegative((m - 1) as real, h, (m - 1) as real * h);
  }

  lemma {:induction false} SumSquaresVanishes(d: seq<real>, n: nat)
    requires n <= |d|
    ensures SumSquares(d, n) >= 0.0
    ensures SumSquares(d, n) == 0.0 <==> forall i :: 0 <= i < n ==> d[i] == 0.0
  {
    if n > 0 {
      SumSquaresVanishes(d, n - 1);
      SquareSign(d[n - 1]);
      if SumSquares(d, n - 1) != 0.0 {
        var i :| 0 <= i < n - 1 && d[i] != 0.0;
      }
    }
  }

  lemma SquareSign(x: real)
    ensures Square(x) >= 0.0
    ensures x != 0.0 ==> Square(x) > 0.0
  {
    if x > 0.0 {
      ProductPositive(x, x, Square(x));
    } else if x < 0.0 {
      ProductPositive(-x, -x, Square(x));
    }
  }

  lemma ProductPositive(a: real, b: real, q: real)
    requires 0.0 < a && 0.0 < b && q == a * b
    ensures 0.0 < q
  {
  }

  /** The residual of a step is non-negative, and zero exactly when the two candidate states agree. */
  lemma ResidualZero(eqs: seq<Equation>, t: Tableau, x: real, y0: seq<real>, h: real)
    requires WellFormed(t) && |y0| <= |eqs|
    ensures Residual(eqs, t, x, y0, h) >= 0.0
    ensures Residual(eqs, t, x, y0, h) == 0.0 <==> StepU(eqs, t, x, y0, h) == StepUh(eqs, t, x, y0, h)
  {
    ResidualVanishes(StepU(eqs, t, x, y0, h), StepUh(eqs, t, x, y0, h));
  }

  /**
   * Comparing the squared norm with eps² is the test sqrt(sq) > eps of the source: for a
   * norm n >= 0, Exceeds(n², eps) holds exactly when n > eps.
   */
  lemma ExceedsIsNormTest(n: real, eps: real)
    requires n >= 0.0
    ensures Exceeds(Square(n), eps) <==> n > eps
  {
    if eps >= 0.0 {
      assert Square(n) - eps * eps == (n - eps) * (n + eps);
      if n > eps {
        ProductPositive(n - eps, n + eps, Square(n) - eps * eps);
      } else {
        ProductNonNegative(eps - n, n + eps, eps * eps - Square(n));
      }
    }
  }

  lemma ProductNonNegative(a: real, b: real, q: real)
    requires 0.0 <= a && 0.0 <= b && q == a * b
    ensures 0.0 <= q
  {
    if a > 0.0 && b > 0.0 {
      ProductPositive(a, b, q);
    }
  }

  /** The squared distance of two states is non-negative, and zero exactly when they are equal. */
  lemma ResidualVanishes(u: seq<real>, v: seq<real>)
    requires |u| == |v|
    ensures SumSquares(Difference(u, v), |u|) >= 0.0
    ensures SumSquares(Difference(u, v), |u|) == 0.0 <==> u == v
  {
    var d := Difference(u, v);
    SumSquaresVanishes(d, |u|);
    if forall i :: 0 <= i < |u| ==> d[i] == 0.0 {
      assert forall i :: 0 <= i < |u| ==> u[i] == v[i];
    }
  }
  // ---------------------------------------------------------------------------
  // Consistent tableaux integrate constant fields exactly

  /** Every equation is the constant c[j], whatever (x, y). */
  ghost predicate ConstantField(eqs: seq<Equation>, c: seq<real>)
  {
    |c| == |eqs| && forall j, x, y :: 0 <= j < |eqs| ==> eqs[j](x, y) == c[j]
  }

  /** With every stage equal to v in entry j, the weighted sum is y0j + (row[1] + ... + row[count])·v. */
  lemma {:induction false} AccumulatedConstant(y0j: real, row: seq<real>, ks: seq<seq<real>>, j: nat, count: nat, v: real)
    requires count < |row| && count <= |ks|
    requires forall m :: 0 <= m < count ==> j < |ks[m]| && ks[m][j] == v
    ensures Accumulated(y0j, row, ks, j, count) == y0j + RowSum(row, 1, count + 1) * v
  {
    if count > 0 {
      AccumulatedConstant(y0j, row, ks, j, count - 1, v);
      var s := RowSum(row, 1, count);
      assert RowSum(row, 1, count + 1) == s + row[count];
      assert (s + row[count]) * v == s * v + row[count] * v;
    }
  }

  /** On a constant field every stage is h·c. */
  lemma {:induction false} StagesConstant(eqs: seq<Equation>, t: Tableau, x: real, y0: seq<real>, h: real, n: nat, c: seq<real>)
    requires WellFormed(t) && 1 <= n <= |t| - 1 && |y0| <= |eqs| && ConstantField(eqs, c)
    ensures forall m, j :: 0 <= m < n && 0 <= j < |eqs| ==> Stages(eqs, t, x, y0, h, n)[m][j] == h * c[j]
  {
    if n > 1 {
      StagesConstant(eqs, t, x, y0, h, n - 1, c);
    }
  }

  /**
   * A consistent tableau integrates a constant field exactly: both candidate states are
   * y0 + h·c, so the residual is zero and every step passes the error test.
   */
  lemma ConstantFieldStep(eqs: seq<Equation>, t: Tableau, x: real, y0: seq<real>, h: real, c: seq<real>)
    requires WellFormed(t) && Consistent(t) && |y0| <= |eqs| && ConstantField(eqs, c)
    ensures forall j :: 0 <= j < |y0| ==> StepU(eqs, t, x, y0, h)[j] == y0[j] + h * c[j]
    ensures StepU(eqs, t, x, y0, h) == StepUh(eqs, t, x, y0, h)
    ensures Residual(eqs, t, x, y0, h) == 0.0
  {
    var ks := Stages(eqs, t, x, y0, h, |t| - 1);
    StagesConstant(eqs, t, x, y0, h, |t| - 1, c);
    forall j | 0 <= j < |y0|
      ensures StepU(eqs, t, x, y0, h)[j] == y0[j] + h * c[j]
      ensures StepUh(eqs, t, x, y0, h)[j] == y0[j] + h * c[j]
    {
      AccumulatedConstant(y0[j], t[|t| - 2], ks, j, |ks|, h * c[j]);
      AccumulatedConstant(y0[j], t[|t| - 1], ks, j, |ks|, h * c[j]);
    }
    ResidualZero(eqs, t, x, y0, h);
  }

  /**
   * On a constant field a trajectory of a consistent tableau stays on the exact solution:
   * the state at mesh point xs[i] is y0 + (xs[i] - a)·c.
   */
  lemma {:induction false} TrajectoryOnConstantField(eqs: seq<Equation>, t: Tableau, a: real, y0: seq<real>,
                                                    xs: seq<real>, hs: seq<real>, ys: seq<seq<real>>, c: seq<real>, i: nat)
    requires WellFormed(t) && Consistent(t) && |y0| <= |eqs| && ConstantField(eqs, c)
    requires Trajectory(eqs, t, a, y0, xs, hs, ys) && i < |ys|
    ensures forall j :: 0 <= j < |y0| ==> ys[i][j] == y0[j] + (xs[i] - a) * c[j]
  {
    if i > 0 {
      TrajectoryOnConstantField(eqs, t, a, y0, xs, hs, ys, c, i - 1);
      assert Moves(eqs, t, xs, hs, ys, i - 1);
      ConstantFieldAdvance(eqs, t, xs[i - 1], ys[i - 1], hs[i - 1], xs[i], a, y0, c);
    }
  }

  /** One step on a constant field moves a state on the exact solution to the exact solution. */
  lemma ConstantFieldAdvance(eqs: seq<Equation>, t: Tableau, x: real, y: seq<real>, h: real, x': real,
                             a: real, y0: seq<real>, c: seq<real>)
    requires WellFormed(t) && Consistent(t) && |y| == |y0| <= |eqs| && ConstantField(eqs, c)
    requires x' == x + h
    requires forall j :: 0 <= j < |y0| ==> y[j] == y0[j] + (x - a) * c[j]
    ensures forall j :: 0 <= j < |y0| ==> StepU(eqs, t, x, y, h)[j] == y0[j] + (x' - a) * c[j]
  {
    ConstantFieldStep(eqs, t, x, y, h, c);
    forall j | 0 <= j < |y0|
      ensures StepU(eqs, t, x, y, h)[j] == y0[j] + (x' - a) * c[j]
    {
      Distributes(x - a, h, x' - a, c[j]);
    }
  }

  lemma Distributes(d: real, s: real, e: real, c: real)
    requires e == d + s
    ensures e * c == d * c + s * c
  {
  }

  /** y is the exact solution y0 + (x - a)·c of the constant field c, taken at x. */
  ghost predicate OnLine(y: seq<real>, y0: seq<real>, a: real, c: seq<real>, x: real)
    requires |c| >= |y0|
  {
    |y| == |y0| && forall j :: 0 <= j < |y0| ==> y[j] == y0[j] + (x - a) * c[j]
  }

  /**
   * What Solve returns on a constant field with a consistent tableau is the exact solution
   * y0 + (x - a)·c at its last mesh point x, which lies within double.Epsilon of b.
   */
  lemma SolveOnConstantField(eqs: seq<Equation>, t: Tableau, eps: real, a: real, b: real, y0: seq<real>, y: seq<real>, c: seq<real>)
    requires WellFormed(t) && Consistent(t) && |y0| <= |eqs| && ConstantField(eqs, c)
    requires Integrates(eqs, t, eps, a, b, y0, y) && a < b
    ensures exists x :: b - DoubleEpsilon <= x <= b && OnLine(y, y0, a, c, x)
  {
    var xs, hs, ks, ys :| Run(eqs, t, eps, a, b, y0, xs, hs, ks, ys) && ys[|ys| - 1] == y && b - DoubleEpsilon <= xs[|xs| - 1] <= b;
    var n := |ys| - 1;
    TrajectoryOnConstantField(eqs, t, a, y0, xs, hs, ys, c, n);
    assert b - DoubleEpsilon <= xs[n] <= b && OnLine(y, y0, a, c, xs[n]);
  }
}
