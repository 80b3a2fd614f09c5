# plate: the numerical engine, modelled in Dafny

This project models the numerical core of the `plate` program. The core has four parts.

- **Dense linear solver** (`MatrixOps`, over 2-D and 1-D arrays of reals).
  - LU decomposition with partial pivoting on a clone of the matrix, with the row order kept in a permutation array.
  - The permutation is applied to the right-hand side, followed by forward and backward substitution.
  - Small helpers: matrix·vector, transpose·vector, vector sum, scaling, and the dynamic-stiffness matrix K − κ²M.
- **Adaptive embedded Runge–Kutta integrator** (`RungeKutta.OdeSolver`).
  - It builds the stages `k` of one step from a Butcher tableau, then forms the two embedded solutions `u` and `uh`.
  - It accepts a step once the Euclidean norm of `u − uh` is within the tolerance, and halves the step until then.
- **Butcher tableaux** (`ButcherTableau`): the six constant tables, with their shape and, where the entries are exact, their consistency conditions.
- **Linear shooting solver** (`BoundaryValues.BoundaryValueProblem`) for a linear system `y' = f(x, y) + g(x)` on `[x0, 1]`.
  - It integrates one inhomogeneous Cauchy problem from the left conditions, plus one homogeneous problem per free left component.
  - It assembles a square system from the right conditions and solves it with `MatrixOps.Solve`.
  - The solution weights a superposition of the end states.

Doubles are modelled as exact reals. A C# exception becomes the `Err` of a `Result`:

| C# exception | Model |
|---|---|
| `ArgumentException` (shape errors) | `ArgumentError` |
| `ArgumentException` from the pivot search | `SingularMatrix` |
| `ArgumentOutOfRangeException` (a `List` indexer or an explicit throw) | `ArgumentOutOfRange` |
| `IndexOutOfRangeException` (an array indexer) | `IndexOutOfRange` |

The main results proved are these.

- **Exact solve.** `MatrixOps.Solve` returns an x with `A·x == b` whenever it succeeds. It fails only on a shape error or a zero pivot column, and the pivot search meets a zero column exactly when A is singular (some non-zero z has `A·z == 0`).
- **LU decomposition.** `LUDecompose` produces a unit-lower L and an upper U with `L·U == P·A`, a permutation P, and non-zero pivots.
- **Integrator behaviour.**
  - The integrator returns its input unchanged when `b − a` is not above `double.Epsilon`.
  - Every result it returns comes from a run of accepted steps. The steps are halvings of `b − a` that never pass `b`, and each has a residual within the tolerance.
  - Each step is the first size the halving loop accepts, starting from the size of the previous step, so the result is determined by the inputs (`IntegratesUnique`).
  - On a constant field, the integrator is exact.
- **Shooting solver.** When the shooting solver succeeds, its result meets every right-boundary condition, and it is a superposition of genuine Cauchy solutions. The combined initial vector meets every left condition. It fails with `SingularMatrix` only when the shooting matrix is singular.

The Dafny modules follow the source files:

| Dafny file | Source file or part |
|---|---|
| `wrappers.dfy` | the error type |
| `linear_algebra.dfy` | vectors, matrices, dot products, permutations |
| `lu_factorization.dfy` | the algebra of the packed LU factors and the substitutions |
| `matrix_ops.dfy` | `plate/MatrixOps.cs` |
| `butcher_tableau.dfy` | `plate/OdeSolver/ButcherTableau.cs` |
| `ode_solver.dfy` | `plate/OdeSolver/OdeSolver.cs` |
| `boundary_value_problem.dfy` | `plate/BoundaryValueProblem/BoundaryValueProblem.cs` |

## Model

| member | source | states |
|---|---|---|
| MatrixOps.Clone | plate/MatrixOps.cs:93 | `Array.Clone`: a fresh array of the same shape with equal entries |
| MatrixOps.Imax | plate/MatrixOps.cs:130-149 | On success: the first row in [i, size) whose column-i entry has the largest absolute value, and that entry is non-zero. Fails with SingularMatrix exactly when the column is zero from row i down |
| MatrixOps.SwapRows | plate/MatrixOps.cs:121-128 | p[i] and p[j] are exchanged, and rows i and j of elems are exchanged; every other entry of both arrays is unchanged |
| MatrixOps.EliminateColumn | plate/MatrixOps.cs:102-109 | elems afterwards holds `EliminateBelow(e, i)`: each row below i holds its multiplier in column i and has that multiple of row i subtracted to the right of it; rows 0..i are untouched |
| MatrixOps.PivotAndEliminate | plate/MatrixOps.cs:97-109 | One pass of the decomposition loop keeps the loop invariant: elems holds a matrix that, with p, factorizes the input through column i+1, with pivots 0..i non-zero. Fails only with SingularMatrix, and then the input is singular |
| MatrixOps.LUDecompose | plate/MatrixOps.cs:86-112 | Fails with ArgumentError exactly on a non-square matrix, and with SingularMatrix exactly when the input is singular (some non-zero z has matrix·z == 0). On success it returns fresh arrays in which L·U equals the input with row r replaced by row p[r], p is a permutation of 0..n-1, and no pivot is zero. The input is not modified |
| MatrixOps.TransformTheRightPart | plate/MatrixOps.cs:66-78 | Fails with ArgumentError exactly on a length mismatch, and with IndexOutOfRange exactly when some p[i] is outside rightPart. Otherwise entry i of the fresh result is rightPart[p[i]] |
| MatrixOps.RowDot | plate/MatrixOps.cs:38-42 | The inner sum of a substitution pass: the dot product of row i of lu with y over columns lo..hi-1 |
| MatrixOps.ForwardPass | plate/MatrixOps.cs:36-44 | y afterwards holds the forward substitution `ForwardSub` of rp through the unit lower-triangular factor |
| MatrixOps.BackRow | plate/MatrixOps.cs:48-53 | Row i of the backward pass replaces y[i] by (y[i] − Σ_{k>i} lu[i,k]·y[k]) / lu[i,i]; every other entry is unchanged |
| MatrixOps.BackwardPass | plate/MatrixOps.cs:46-54 | y afterwards holds the backward substitution `BackSub` of its old contents through the upper-triangular factor |
| MatrixOps.ThereAndBackAgain | plate/MatrixOps.cs:33-56 | Given non-zero pivots, the fresh result y satisfies L·(U·y) == rp |
| MatrixOps.Solve | plate/MatrixOps.cs:16-25 | Fails with ArgumentError exactly when the row count differs from the length of the right-hand side or the matrix is not square, and otherwise with SingularMatrix exactly when the matrix is singular. On success the fresh x satisfies matrix·x == rightPart exactly |
| MatrixOps.Multiply | plate/MatrixOps.cs:170-181 | A fresh array of the same shape holding every entry times kappa |
| MatrixOps.MultiplyByVector | plate/MatrixOps.cs:183-198 | Fails with ArgumentOutOfRange exactly when the column count differs from the length of vector; otherwise the fresh result is matrix·vector |
| MatrixOps.ColumnDot | plate/MatrixOps.cs:209-212 | The inner sum of MultiplyT: the dot product of column c of matrix with vector |
| MatrixOps.MultiplyT | plate/MatrixOps.cs:200-215 | Fails with ArgumentOutOfRange exactly when the row count differs from the length of vector; otherwise the fresh result is transpose(matrix)·vector |
| MatrixOps.SumVectors | plate/MatrixOps.cs:217-229 | Fails with ArgumentOutOfRange exactly on a length mismatch; otherwise a fresh array of the entrywise sums |
| MatrixOps.SumMatrix | plate/MatrixOps.cs:157-168 | Despite its name it gives the entrywise difference, in a fresh clone. It fails with IndexOutOfRange exactly when some entry inside the first matrix lies outside the second |
| MatrixOps.CommonMatrix | plate/MatrixOps.cs:151-155 | The entrywise K − κ²·M in a fresh array. It fails exactly when M is smaller than a non-empty K |
| LuFactorization.EliminateBelow | plate/MatrixOps.cs:102-109 | The elimination step keeps the matrix square and leaves rows 0..i unchanged |
| LuFactorization.FactorizesInitially | plate/MatrixOps.cs:93-94 | The clone of the input, with the identity permutation, is a factorization through column 0 |
| LuFactorization.ReconAfterSwap | plate/MatrixOps.cs:98-101 | Exchanging rows i and j (j >= i) of the working matrix exchanges the corresponding reconstructed rows |
| LuFactorization.FactorizesAfterSwap | plate/MatrixOps.cs:98-101 | Exchanging rows i and j of the working matrix and of p keeps the factorization through column i |
| LuFactorization.ReconAfterElimination | plate/MatrixOps.cs:102-109 | Eliminating below pivot i leaves every reconstructed entry (L·U over the first i+1 columns plus the remaining block) unchanged |
| LuFactorization.FactorizesAfterElimination | plate/MatrixOps.cs:102-109 | With a non-zero pivot, elimination extends the factorization from column i to column i+1 |
| LuFactorization.FactorizationComplete | plate/MatrixOps.cs:95-111 | After the last column, L·U equals the permuted input |
| LuFactorization.ForwardSubPrefix | plate/MatrixOps.cs:36-44 | The forward pass never revises an entry it has already written |
| LuFactorization.LowerRow | plate/MatrixOps.cs:39-43 | Row i of L·y is y[i] plus the multipliers of row i times y[0..i) |
| LuFactorization.UpperRow | plate/MatrixOps.cs:49-53 | Row i of U·x is lu[i,i]·x[i] plus the rest of row i times x(i..n) |
| LuFactorization.ForwardSubRow | plate/MatrixOps.cs:39-43 | Each forward-pass entry solves its row: y[i] + Σ_{k<i} lu[i,k]·y[k] == rp[i] |
| LuFactorization.ForwardSubSolves | plate/MatrixOps.cs:36-44 | The forward pass solves L·y == rp |
| LuFactorization.BackSubEntries | plate/MatrixOps.cs:46-54 | After rows n-1 down to i are processed, entries below i are unchanged and entry k >= i is final |
| LuFactorization.BackSubTail | plate/MatrixOps.cs:49-52 | Row i of the backward pass reads only entries that are already final |
| LuFactorization.BackSubDiagonal | plate/MatrixOps.cs:53 | The final entry i is (y[i] − Σ_{k>i} lu[i,k]·x[k]) / lu[i,i] |
| LuFactorization.BackSubRow | plate/MatrixOps.cs:48-53 | Each backward-pass entry solves its row: lu[i,i]·x[i] + Σ_{k>i} lu[i,k]·x[k] == y[i] |
| LuFactorization.BackSubSolvesRow | plate/MatrixOps.cs:48-53 | Row i of U·x equals y[i] |
| LuFactorization.BackSubSolves | plate/MatrixOps.cs:46-54 | With non-zero pivots, the backward pass solves U·x == y |
| LuFactorization.TriangularSolves | plate/MatrixOps.cs:33-56 | The two passes together solve L·(U·x) == rp |
| LuFactorization.FactorizationSolves | plate/MatrixOps.cs:16-25 | If L·U is the input permuted by p, then substituting the permuted right-hand side gives an exact solution of the original system |
| LuFactorization.NullVector | plate/MatrixOps.cs:142-145 | The witness of singularity built when the pivot search fails at column i: length n, 1 at i, 0 after i |
| LuFactorization.UpperTimesNull | plate/MatrixOps.cs:142-145 | Rows 0..i−1 of U send NullVector(e, i) to zero |
| LuFactorization.RowTimesNull | plate/MatrixOps.cs:142-145 | When column i of the working matrix is zero from row i down, every row of the permuted input sends NullVector(e, i) to zero |
| LuFactorization.SingularAtColumn | plate/MatrixOps.cs:142-145 | If the pivot search throws at column i (after non-zero pivots 0..i−1, column i is zero from row i down), the input is singular |
| LuFactorization.LowerKernelPrefix | plate/MatrixOps.cs:36-44 | If L·w == 0 for the unit lower-triangular L, then w is zero on every prefix |
| LuFactorization.UpperKernelSuffix | plate/MatrixOps.cs:46-54 | If U·z == 0 and no pivot is zero, then z is zero on every suffix |
| LuFactorization.FactorsKernel | plate/MatrixOps.cs:86-112 | With a completed factorization L·U == P·A and non-zero pivots, A·z == 0 forces z == 0 |
| LuFactorization.FactorsNonSingular | plate/MatrixOps.cs:86-112 | A completed factorization with non-zero pivots shows that the input is not singular |
| LinearAlgebra.IdentityIsPermutation | plate/MatrixOps.cs:94 | The initial p, 0..n-1, is a permutation |
| LinearAlgebra.SwapIsPermutation | plate/MatrixOps.cs:123 | Exchanging two entries of a permutation gives a permutation |
| LinearAlgebra.MatVecAssoc | plate/MatrixOps.cs:33-56 | (A·B)·x == A·(B·x), which turns L·U·x into L·(U·x) |
| LinearAlgebra.PermutedSystem | plate/MatrixOps.cs:23-24 | If the p-permuted system holds row by row, the original system holds |
| LinearAlgebra.PermutedKernel | plate/MatrixOps.cs:94-110 | A vector the matrix sends to zero is also sent to zero by the matrix with its rows reordered by a permutation |
| LinearAlgebra.NotSquareNotSingular | plate/MatrixOps.cs:88-91 | Only a square matrix can be singular, so the shape error and the singular-matrix error never overlap |
| LinearAlgebra.TransposeIsAdjoint | plate/MatrixOps.cs:200-215 | ⟨A·x, y⟩ == ⟨x, Aᵀ·y⟩: MultiplyT is the adjoint of MultiplyByVector |
| ButcherTableau.Heun | plate/OdeSolver/ButcherTableau.cs:8-12 | Three rows in the shape the stepper reads; each stage row sums to its abscissa and both weight rows sum to 1 |
| ButcherTableau.BogackiShampine | plate/OdeSolver/ButcherTableau.cs:17-23 | Five rows, well formed and consistent |
| ButcherTableau.CashCarp | plate/OdeSolver/ButcherTableau.cs:28-39 | Seven rows, well formed and consistent |
| ButcherTableau.RungeKuttaFeldberg | plate/OdeSolver/ButcherTableau.cs:44-53 | Seven rows, well formed and consistent |
| ButcherTableau.DormandPrince | plate/OdeSolver/ButcherTableau.cs:58-73 | Eight rows, well formed and consistent |
| ButcherTableau.Rkf78 | plate/OdeSolver/ButcherTableau.cs:78-123 | Fourteen rows in the shape the stepper reads |
| RungeKutta.OdeSolver.constructor | plate/OdeSolver/OdeSolver.cs:15-21 | Stores the equations, the tableau and the tolerance; the tolerance defaults to 0.1e-5 |
| RungeKutta.Stages | plate/OdeSolver/OdeSolver.cs:106-127 | Stages 0..n-1 of a step: exactly n vectors, each with one entry per equation |
| RungeKutta.StagesStep | plate/OdeSolver/OdeSolver.cs:113-125 | The stage recurrence: stage i+1 is h·f at x + T[i][0]·h and at y0 plus the row-i combination of the earlier stages |
| RungeKutta.OdeSolver.EvaluateK | plate/OdeSolver/OdeSolver.cs:106-127 | The stage list equals `Stages` for all L−1 stages of the tableau |
| RungeKutta.Intermediate | plate/OdeSolver/OdeSolver.cs:116-123 | The intermediate state y0 + Σ_m T[i][m+1]·k[m], entry by entry |
| RungeKutta.WeighStages | plate/OdeSolver/OdeSolver.cs:91-95 | Entry i of u and of uh: y0[i] plus the weights of rows L−2 and L−1 times the stages |
| RungeKutta.StepU | plate/OdeSolver/OdeSolver.cs:82-97 | The solution weighted by row L−2 has one entry per component of y0 |
| RungeKutta.StepUh | plate/OdeSolver/OdeSolver.cs:82-97 | The solution weighted by row L−1 has one entry per component of y0 |
| RungeKutta.OdeSolver.EvaluateUh | plate/OdeSolver/OdeSolver.cs:82-97 | u and uh are the solutions weighted by rows L−2 and L−1 |
| RungeKutta.Difference | plate/OdeSolver/OdeSolver.cs:64-68 | The entrywise difference u − uh |
| RungeKutta.OdeSolver.CalculateTheResidual | plate/OdeSolver/OdeSolver.cs:60-70 | Returns the squared norm of u − uh together with u |
| RungeKutta.SumSquaresVanishes | plate/OdeSolver/OdeSolver.cs:69 | A sum of squares is non-negative, and it is zero exactly when every term is zero |
| RungeKutta.ResidualVanishes | plate/OdeSolver/OdeSolver.cs:64-69 | The squared norm of u − v is non-negative, and it is zero exactly when u == v |
| RungeKutta.ResidualZero | plate/OdeSolver/OdeSolver.cs:60-70 | The residual of a step is non-negative, and it is zero exactly when the two embedded solutions agree |
| RungeKutta.ExceedsIsNormTest | plate/OdeSolver/OdeSolver.cs:40 | Comparing the squared norm with ε² is the C# test sqrt(Σd²) > ε, for every ε including negative ones |
| RungeKutta.GridHalves | plate/OdeSolver/OdeSolver.cs:42 | Halving h keeps b − x a whole number of steps |
| RungeKutta.GridAdvances | plate/OdeSolver/OdeSolver.cs:45 | While x < b, a step lands at or before b, and b − x stays a whole number of steps |
| RungeKutta.OdeSolver.AdaptStep | plate/OdeSolver/OdeSolver.cs:38-44 | When a step is accepted: with h0 = (b − a)/2^k0, h is (b − a)/2^k for some k >= k0; every size (b − a)/2^j with k0 <= j < k has a residual above the tolerance and h does not; u is the accepted step's solution; the grid invariant is kept |
| RungeKutta.RunExtends | plate/OdeSolver/OdeSolver.cs:36-46 | Appending a step (a += h, state := u) taken while b − x > double.Epsilon, whose size is the first one accepted from the previous step's size on, to a valid run gives a valid run |
| RungeKutta.OdeSolver.Solve | plate/OdeSolver/OdeSolver.cs:32-49 | Returns the initial conditions unchanged when b − a is not above double.Epsilon. Otherwise its result has the input's length and ends a run of steps, each taken while b − x > double.Epsilon: the size of each step is the first of the previous size, its half, its quarter, … (b − a, … for the first step) whose residual is within the tolerance, and the step stays within [a, b]; the run stops within double.Epsilon of b |
| RungeKutta.RejectedExtends | plate/OdeSolver/OdeSolver.cs:40-44 | A size (b − a)/2^hi whose residual exceeds the tolerance extends the range of rejected sizes lo..hi−1 by one |
| RungeKutta.FirstAccepted | plate/OdeSolver/OdeSolver.cs:40-44 | The inner loop's choice is determined: two halving counts from the same start that are each the first accepted one are equal, and so are their step sizes |
| RungeKutta.RunsAgree | plate/OdeSolver/OdeSolver.cs:36-47 | Two runs from the same (a, y0) towards b agree on every mesh point, state and halving count up to the shorter one's length |
| RungeKutta.IntegratesUnique | plate/OdeSolver/OdeSolver.cs:32-49 | At most one result satisfies the integrator's specification, so what Solve returns is determined by its inputs |
| RungeKutta.AccumulatedConstant | plate/OdeSolver/OdeSolver.cs:91-95 | With all stages equal to v, the weighted entry is y0 + (row sum)·v |
| RungeKutta.StagesConstant | plate/OdeSolver/OdeSolver.cs:106-127 | On a constant field c, every stage is h·c |
| RungeKutta.ConstantFieldStep | plate/OdeSolver/OdeSolver.cs:82-97 | With a consistent tableau, a step on a constant field is exact, y0 + h·c; the two embedded solutions agree and the residual is 0 |
| RungeKutta.ConstantFieldAdvance | plate/OdeSolver/OdeSolver.cs:45-46 | A step from the exact line y0 + (x − a)·c lands on that line at x + h |
| RungeKutta.TrajectoryOnConstantField | plate/OdeSolver/OdeSolver.cs:36-47 | Every state of a run on a constant field lies on the exact line y0 + (x − a)·c |
| RungeKutta.SolveOnConstantField | plate/OdeSolver/OdeSolver.cs:32-49 | With a consistent tableau on a constant field, the integrator's result is the exact solution at a point within double.Epsilon of b |
| BoundaryValues.FreeIndices | plate/BoundaryValueProblem/BoundaryValueProblem.cs:43-49 | The free components: indices in [0, N) that are not left keys |
| BoundaryValues.FreeIndicesComplete | plate/BoundaryValueProblem/BoundaryValueProblem.cs:43-49 | Every index in [0, N) that is not a left key is free, and the free indices are strictly increasing |
| BoundaryValues.FirstVector | plate/BoundaryValueProblem/BoundaryValueProblem.cs:36-41 | Length N; component i is leftConditions[i] for a key and 0 otherwise |
| BoundaryValues.UnitVector | plate/BoundaryValueProblem/BoundaryValueProblem.cs:46-47 | Length N, with 1 at k and 0 everywhere else |
| BoundaryValues.AddForcing | plate/BoundaryValueProblem/BoundaryValueProblem.cs:138 | The forced equation (x, y) ↦ f(x, y) + g(x) |
| BoundaryValues.Forced | plate/BoundaryValueProblem/BoundaryValueProblem.cs:131-141 | Same length as the equations; entry k is f_k + g_k for a forced k and f_k otherwise |
| BoundaryValues.BoundaryValueProblem.constructor | plate/BoundaryValueProblem/BoundaryValueProblem.cs:151-162 | Stores its arguments; the left boundary defaults to 0 and the tolerance to 0.1e-6 |
| BoundaryValues.BoundaryValueProblem.InitialConditions | plate/BoundaryValueProblem/BoundaryValueProblem.cs:32-51 | 1 + (number of free components) vectors of length N: first the left conditions padded with 0, then one unit vector per free component, in increasing order |
| BoundaryValues.BoundaryValueProblem.InhomogeneousSystem | plate/BoundaryValueProblem/BoundaryValueProblem.cs:131-141 | Fails with ArgumentOutOfRange exactly when a forcing key is not an equation index; otherwise returns the forced system |
| BoundaryValues.BoundaryValueProblem.SolveHomogeneous | plate/BoundaryValueProblem/BoundaryValueProblem.cs:67-77 | Keeps the first solution and appends, for each further initial vector, an end state of the homogeneous system integrated from the left boundary to 1 |
| BoundaryValues.CopyOf | plate/BoundaryValueProblem/BoundaryValueProblem.cs:70-74 | The first n components of a vector |
| BoundaryValues.BoundaryValueProblem.CauchyProblemSolutions | plate/BoundaryValueProblem/BoundaryValueProblem.cs:59-79 | Fails only with ArgumentOutOfRange or OutOfFuel, and with ArgumentOutOfRange exactly when the forcing does not fit (its key lookup is the only read that can go out of range). Result 0 is an end state at 1 of the forced system from the first vector; result m+1 is one of the homogeneous system from the unit vector of free component m |
| BoundaryValues.Through | plate/BoundaryValueProblem/BoundaryValueProblem.cs:99 | Component c of solutions 1..n |
| BoundaryValues.ShootingMatrix | plate/BoundaryValueProblem/BoundaryValueProblem.cs:97-100 | A |right|×|right| matrix whose entry (k, i) is solutions[i+1][key_k] |
| BoundaryValues.ShootingRhs | plate/BoundaryValueProblem/BoundaryValueProblem.cs:96 | Entry k is target_k − solutions[0][key_k] |
| BoundaryValues.FillRow | plate/BoundaryValueProblem/BoundaryValueProblem.cs:97-100 | Either every solutions[i+1][key] exists and row `row` holds them, or some of them is out of range; other rows are unchanged |
| BoundaryValues.MissingEntry | plate/BoundaryValueProblem/BoundaryValueProblem.cs:96-99 | An out-of-range read during assembly means the solutions do not reach every right key |
| BoundaryValues.ReachesFrom | plate/BoundaryValueProblem/BoundaryValueProblem.cs:94-100 | If every read of the assembly is in range, the solutions reach every right key |
| BoundaryValues.BoundaryValueProblem.GetTheInitialConditions | plate/BoundaryValueProblem/BoundaryValueProblem.cs:88-104 | Fails with ArgumentOutOfRange exactly when some read solutions[i][key] is out of range, and with SingularMatrix exactly when every read is in range and the shooting matrix is singular. On success the fresh coefficient vector solves ShootingMatrix·x == ShootingRhs exactly |
| BoundaryValues.Combination | plate/BoundaryValueProblem/BoundaryValueProblem.cs:116-123 | The superposition solutions[0] + Σ_{i≤n} coeffs[i−1]·solutions[i] has the length of solutions[0] |
| BoundaryValues.CombinationEntry | plate/BoundaryValueProblem/BoundaryValueProblem.cs:116-123 | Component c of the superposition is solutions[0][c] + ⟨coeffs, (solutions[i+1][c])_i⟩ |
| BoundaryValues.Superpose | plate/BoundaryValueProblem/BoundaryValueProblem.cs:116-123 | Fails with IndexOutOfRange exactly when there are more homogeneous solutions than coefficients and the vectors are non-empty; otherwise returns the superposition |
| BoundaryValues.ShootingMeetsTargets | plate/BoundaryValueProblem/BoundaryValueProblem.cs:94-124 | If the coefficients solve the shooting system, the superposition takes the value target_k at every right key |
| BoundaryValues.CombinedStart | plate/BoundaryValueProblem/BoundaryValueProblem.cs:36-49 | The same superposition of the initial vectors meets every left condition, and takes coefficient m at free component m |
| BoundaryValues.BoundaryValueProblem.Solve | plate/BoundaryValueProblem/BoundaryValueProblem.cs:112-125 | Never fails with ArgumentError. It always fails with ArgumentOutOfRange when the forcing does not fit, and fails with ArgumentOutOfRange only then or when genuine Cauchy end states do not reach some right-condition key. It fails with IndexOutOfRange only when there are more free components than right conditions, and fails with SingularMatrix only when the shooting matrix of genuine Cauchy end states is singular. On success: there are exactly as many free components as right conditions; the result has N components and meets every right condition exactly; and it is the superposition of genuine Cauchy end states with coefficients that solve the shooting system, whose matrix is not singular |

## Left out

- `Norm` and `Normalize` (plate/MatrixOps.cs:236-265) are not modelled: they need `Math.Sqrt`. `Normalize` returns `[1.0]` for a vector of norm below `double.Epsilon`.
- Square roots: the residual is kept as the squared norm and compared with ε² (negative ε always counts as exceeded), which `ExceedsIsNormTest` shows equals the C# test `sqrt(...) > ε`.
- Floating point: doubles are exact reals, so rounding, overflow, infinities and NaN are not modelled. This also means no accuracy or convergence claim is made about the Runge–Kutta methods.
  - `Imax`'s test `max < double.Epsilon` is modelled as `max == 0`. For a non-negative double the two tests agree.
  - The integrator's loop test `|b − a| > double.Epsilon` is kept, with `DoubleEpsilon` as a positive constant.
- RungeKutta.OdeSolver.Solve: the halving loop of the source need not terminate for an arbitrary right-hand side. The model bounds the number of residual evaluations by a `fuel` argument, and fails with `OutOfFuel` when it runs out, an error the C# code does not have. The BVP's `CauchyProblemSolutions` and `Solve` pass the same fuel on.
- RungeKutta.OdeSolver.Solve, EvaluateK, EvaluateUh, CalculateTheResidual: require at most as many components as equations (with more components the C# list indexer throws), and a tableau of exactly the shape the six tables have: stage row i has i + 2 entries and both weight rows have L entries. The C# code reads only part of that shape. A stage row that is too short throws there. But longer stage rows, a shorter last weight row, or a second-to-last weight row longer than the last one are read without error, and ignore the extra entries. Such tableaux are not covered by the model.
- MatrixOps.ThereAndBackAgain: requires non-zero pivots, which `LUDecompose` guarantees. A zero pivot would divide by zero, giving an infinity in C#.
- `Rkf78` is rounded, and its consistency sums are not exact, so only its shape is proved.
- Equations are opaque functions `(real, seq<real>) -> real`. C# closure capture (the inhomogeneous lambda reads `_equations` when called) is not modelled; the forced equation is built from the same function values.
- Dictionary enumeration order: the right conditions are a sequence in the dictionary's enumeration order. Duplicate keys are not excluded; they would make the shooting system singular. The inhomogeneous map is visited in an arbitrary order, which the result does not depend on.
- BoundaryValues.BoundaryValueProblem.Solve: the C# accumulates into the list `solutions[0]` in place, which aliases the first Cauchy solution. The model works on sequence values, so the aliasing is not modelled; the result is the same.
- Several loops of the source are separate methods here:
  - `PivotAndEliminate`, `RowDot`, `BackRow` and `ColumnDot` in MatrixOps;
  - `AdaptStep`, `WeighStages` and `Intermediate` in the integrator;
  - `SolveHomogeneous`, `FillRow`, `CopyOf` and `Superpose` in the BVP.
  `MultiplyByVector` and `MultiplyT` accumulate each entry in a local sum before storing it. The fresh result array cannot alias the inputs, so this is unobservable.
- `MatrixOps.MultiplyByVector` is the second C# overload of `Multiply`.
- plate/Tikz.cs (LaTeX file output), plate/Program.cs (the concrete plate equations and console output) and plate/OdeSolver/IODESolver.cs (an interface without behaviour) are not part of this model.
- The C# integrator does not check that stage values stay finite (there is no divergence error), and it does not compare the length of the state with the number of equations; the model adds neither check.
- The C# code throws `ArgumentException` both for a shape error and for a zero pivot column. The model tells the two apart as `ArgumentError` and `SingularMatrix`.
