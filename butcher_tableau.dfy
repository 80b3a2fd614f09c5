/**
 * ButcherTableau: the constant tables of the explicit embedded Runge–Kutta methods.
 *
 * A table with L rows is read by the stepper as follows. Row i < L-2 describes stage
 * i+1: its abscissa c followed by the i+1 coefficients of the stages before it. The
 * last two rows each hold a leading 0 followed by the L-1 weights of the two embedded
 * solutions, one weight per stage. Entries are the exact rationals the C# source
 * writes as quotients of double literals.
 */
module ButcherTableau {

  type Tableau = seq<seq<real>>

  /** The shape the stepper indexes by: row i < L-2 has i+2 entries, the last two rows L entries. */
  predicate WellFormed(t: Tableau)
  {
    && |t| >= 2
    && (forall i :: 0 <= i < |t| - 2 ==> |t[i]| == i + 2)
    && |t[|t| - 2]| == |t|
    && |t[|t| - 1]| == |t|
  }

  /** row[lo] + ... + row[hi-1], added from the left. */
  function RowSum(row: seq<real>, lo: nat, hi: nat): real
    requires lo <= hi <= |row|
    decreases hi - lo
  {
    if lo == hi then 0.0 else RowSum(row, lo, hi - 1) + row[hi - 1]
  }

  /**
   * The consistency conditions of a Runge–Kutta method: each stage row's coefficients
   * add up to its abscissa, and each row of weights adds up to 1.
   */
  predicate Consistent(t: Tableau)
    requires WellFormed(t)
  {
    && (forall i :: 0 <= i < |t| - 2 ==> RowSum(t[i], 1, i + 2) == t[i][0])
    && RowSum(t[|t| - 2], 1, |t|) == 1.0
    && RowSum(t[|t| - 1], 1, |t|) == 1.0
  }

  /** Heun's method with its embedded Euler step (plate/OdeSolver/ButcherTableau.cs:8-12). */
  function Heun(): (t: Tableau)
    ensures |t| == 3 && WellFormed(t) && Consistent(t)
  {
    [ [1.0, 1.0],
      [0.0, 0.5, 0.5],
      [0.0, 1.0, 0.0] ]
  }

  /** The Bogacki–Shampine 3(2) pair. */
  function BogackiShampine(): (t: Tableau)
    ensures |t| == 5 && WellFormed(t) && Consistent(t)
  {
    [ [0.5, 0.5],
      [0.75, 0.0, 0.75],
      [1.0, 2.0 / 9.0, 1.0 / 3.0, 4.0 / 9.0],
      [0.0, 2.0 / 9.0, 1.0 / 3.0, 4.0 / 9.0, 0.0],
      [0.0, 7.0 / 24.0, 0.25, 1.0 / 3.0, 0.125] ]
  }

  /** The Cash–Karp 5(4) pair. */
  function CashCarp(): (t: Tableau)
    ensures |t| == 7 && WellFormed(t) && Consistent(t)
  {
    [ [0.2, 0.2],
      [0.3, 3.0 / 40.0, 9.0 / 40.0],
      [0.6, 0.3, -0.9, 1.2],
      [1.0, -11.0 / 54.0, 2.5, -70.0 / 27.0, 35.0 / 27.0],
      [0.875, 1631.0 / 55296.0, 175.0 / 512.0, 575.0 / 13824.0, 44275.0 / 110592.0, 253.0 / 4096.0],
      [0.0, 37.0 / 378.0, 0.0, 250.0 / 621.0, 125.0 / 594.0, 0.0, 512.0 / 1771.0],
      [0.0, 2825.0 / 27648.0, 0.0, 18575.0 / 48384.0, 13525.0 / 55296.0, 277.0 / 14336.0, 0.25] ]
  }

  /** The Runge–Kutta–Fehlberg 4(5) pair. */
  function RungeKuttaFeldberg(): (t: Tableau)
    ensures |t| == 7 && WellFormed(t) && Consistent(t)
  {
    [ [0.25, 0.25],
      [0.375, 0.09375, 0.28125],
      [12.0 / 13.0, 1932.0 / 2197.0, -7200.0 / 2197.0, 7296.0 / 2197.0],
      [1.0, 439.0 / 216.0, -8.0, 3680.0 / 513.0, -845.0 / 4104.0],
      [0.5, -8.0 / 27.0, 2.0, -3544.0 / 2565.0, 1859.0 / 4104.0, -11.0 / 40.0],
      [0.0, 16.0 / 135.0, 0.0, 6656.0 / 12825.0, 28561.0 / 56430.0, -9.0 / 50.0, 2.0 / 55.0],
      [0.0, 25.0 / 216.0, 0.0, 1408.0 / 2565.0, 2197.0 / 4104.0, -0.2, 0.0] ]
  }

  /** The Dormand–Prince 5(4) pair. */
  function DormandPrince(): (t: Tableau)
    ensures |t| == 8 && WellFormed(t) && Consistent(t)
  {
    [ [0.2, 0.2],
      [0.3, 0.075, 0.225],
      [0.8, 44.0 / 45.0, -56.0 / 15.0, 32.0 / 9.0],
      [8.0 / 9.0, 19372.0 / 6561.0, -25360.0 / 2187.0, 64448.0 / 6561.0, -212.0 / 729.0],
      [1.0, 9017.0 / 3168.0, -355.0 / 33.0, 46732.0 / 5247.0, 49.0 / 176.0, -5103.0 / 18656.0],
      [1.0, 35.0 / 384.0, 0.0, 500.0 / 1113.0, 125.0 / 192.0, -2187.0 / 6784.0, 11.0 / 84.0],
      [0.0, 35.0 / 384.0, 0.0, 500.0 / 1113.0, 125.0 / 192.0, -2187.0 / 6784.0, 11.0 / 84.0, 0.0],
      [0.0, 5179.0 / 57600.0, 0.0, 7571.0 / 16695.0, 393.0 / 640.0, -92097.0 / 339200.0, 187.0 / 2100.0, 0.025] ]
  }

  /**
   * The 7(8) pair the boundary-value solver integrates with. Its coefficients are
   * rounded ratios, so the consistency conditions hold only approximately.
   */
  function Rkf78(): (t: Tableau)
    ensures |t| == 14 && WellFormed(t)
  {
    [ [1.0 / 18.0, 1.0 / 18.0],
      [1.0 / 12.0, 1.0 / 48.0, 1.0 / 16.0],
      [0.125, 0.03125, 0.0, 0.09375],
      [0.3125, 0.3125, 0.0, -1.171875, 1.171875],
      [0.375, 0.0375, 0.0, 0.0, 0.1875, 0.15],
      [0.1475, 29443841.0 / 614563906.0, 0.0, 0.0,
        77736538.0 / 692538347.0, -28693883.0 / 1125000000.0,
        23124283.0 / 1800000000.0],
      [93.0 / 200.0, 16016141.0 / 946692911.0, 0.0, 0.0,
        61564180.0 / 158732637.0, 22789713.0 / 633445777.0,
        545815736.0 / 2771057229.0, -180193667.0 / 1043307555.0],
      [5490023248.0 / 9719169821.0, 39632708.0 / 573591083.0, 0.0, 0.0,
        -433636366.0 / 683701615.0, -421739975.0 / 2616292301.0,
        100302831.0 / 723423059.0, 790204164.0 / 839813087.0,
        800635310.0 / 3783071287.0],
      [13.0 / 20.0, 246121993.0 / 1340847787.0, 0.0, 0.0,
        -37695042795.0 / 15268766246.0, -309121744.0 / 1061227803.0,
        -12992083.0 / 490766935.0, 6005943493.0 / 2108947869.0,
        393006217.0 / 1396673457.0, 123872331.0 / 1001029789.0],
      [1201146811.0 / 1299019798.0, -1028468189.0 / 846180014.0, 0.0,
        0.0, 8478235783.0 / 508512852.0, 1311729495.0 / 1432422823.0,
        -10304129995.0 / 1701304382.0, -48777925059.0 / 3047939560.0,
        15336726248.0 / 1032824649.0, -45442868181.0 / 3398467696.0,
        3065993473.0 / 597172653.0],
      [1.0, 185892177.0 / 718116043.0, 0.0, 0.0,
        -3185094517.0 / 667107341.0, -477755414.0 / 1098053517.0,
        -703635378.0 / 230739211.0, 5731566787.0 / 1027545527.0,
        5232866602.0 / 850066563.0, -4093664535.0 / 808688257.0,
        3962137247.0 / 1805957418.0, 65686358.0 / 487910083.0],
      [1.0, 403863854.0 / 491063109.0, 0.0, 0.0,
        -5068492393.0 / 434740067.0, -411421997.0 / 543043805.0,
        652783627.0 / 914296604.0, 11173962825.0 / 925320556.0,
        -13158990841.0 / 6184727034.0, 3936647629.0 / 1978049680.0,
        -160528059.0 / 685178525.0, 248638103.0 / 1413531060.0, 0.0],
      [0.0, 14005451.0 / 335480064.0, 0.0, 0.0, 0.0, 0.0,
        -59238493.0 / 1068277825.0, 181606767.0 / 758867731.0,
        561292985.0 / 797845732.0, -1041891430.0 / 1371343529.0,
        760417239.0 / 1151165299.0, 118820643.0 / 751138087.0,
        -528747749.0 / 2220607170.0, 0.25],
      [0.0, 13451932.0 / 455176623.0, 0.0, 0.0, 0.0, 0.0,
        -808719846.0 / 976000145.0, 1757004468.0 / 5645159321.0,
        656045339.0 / 265891186.0, -3867574721.0 / 1518517206.0,
        465885868.0 / 322736535.0, 53011238.0 / 667516719.0, 2.0 / 45.0, 0.0] ]
  }
}
