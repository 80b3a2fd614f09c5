/**
 * The algebra behind MatrixOps.LUDecompose and MatrixOps.ThereAndBackAgain,
 * stated on matrices as values.
 *
 * A square working matrix e holds both factors: the strict lower part holds the
 * multipliers of the unit lower-triangular L, the diagonal and upper part hold U.
 * While column i is being processed, e also holds a trailing block (rows and
 * columns >= i) that is still to be eliminated; Recon(e, i, r, c) is entry (r, c)
 * of the matrix the working state stands for, and Factorizes says that it equals
 * the input matrix with its rows reordered by p.
 */
module LuFactorization {
  import opened LinearAlgebra

  predicate IsSquare(e: Matrix)
  {
    IsMatrix(e, |e|, |e|)
  }

  /** Entry (r, m) of the unit lower-triangular factor kept below the diagonal of e. */
  function LowerEntry(e: Matrix, r: nat, m: nat): real
    requires IsSquare(e) && r < |e| && m < |e|
  {
    if m < r then e[r][m] else if m == r then 1.0 else 0.0
  }

  /** Entry (m, c) of the upper-triangular factor kept on and above the diagonal of e. */
  function UpperEntry(e: Matrix, m: nat, c: nat): real
    requires IsSquare(e) && m < |e| && c < |e|
  {
    if m <= c then e[m][c] else 0.0
  }

  function LowerOf(e: Matrix): (l: Matrix)
    requires IsSquare(e)
    ensures IsSquare(l) && |l| == |e|
  {
    seq(|e|, r requires 0 <= r < |e| => seq(|e|, m requires 0 <= m < |e| => LowerEntry(e, r, m)))
  }

  function UpperOf(e: Matrix): (u: Matrix)
    requires IsSquare(e)
    ensures IsSquare(u) && |u| == |e|
  {
    seq(|e|, m requires 0 <= m < |e| => seq(|e|, c requires 0 <= c < |e| => UpperEntry(e, m, c)))
  }

  /**
   * Entry (r, c) of the matrix represented by the working state after i columns:
   * the first i terms of L·U plus, in the trailing block, the not yet eliminated entry.
   */
  function Recon(e: Matrix, i: nat, r: nat, c: nat): real
    requires IsSquare(e) && i <= |e| && r < |e| && c < |e|
  {
    DotRange(LowerOf(e)[r], Column(UpperOf(e), c), 0, i) + (if i <= r && i <= c then e[r][c] else 0.0)
  }

  /** After i columns, the working state e stands for the rows of a reordered by p. */
  ghost predicate Factorizes(e: Matrix, p: seq<int>, a: Matrix, i: nat)
  {
    && IsSquare(e) && IsSquare(a) && |a| == |e| && i <= |e|
    && IsPermutation(p, |e|)
    && forall r, c :: 0 <= r < |e| && 0 <= c < |e| ==> Recon(e, i, r, c) == a[p[r]][c]
  }

  /** Row r > i after eliminating column i with the pivot e[i][i]. */
  function EliminatedEntry(e: Matrix, i: nat, r: nat, c: nat): real
    requires IsSquare(e) && i < |e| && r < |e| && c < |e| && e[i][i] != 0.0
  {
    if c < i then e[r][c]
    else if c == i then e[r][i] / e[i][i]
    else e[r][c] - (e[r][i] / e[i][i]) * e[i][c]
  }

  /** One elimination step: every row below the pivot row gets its multiplier and its updated tail. */
  function EliminateBelow(e: Matrix, i: nat): (e': Matrix)
    requires IsSquare(e) && i < |e| && e[i][i] != 0.0
    ensures IsSquare(e') && |e'| == |e|
    ensures forall r :: 0 <= r <= i ==> e'[r] == e[r]
  {
    seq(|e|, r requires 0 <= r < |e| =>
      if r <= i then e[r] else seq(|e|, c requires 0 <= c < |e| => EliminatedEntry(e, i, r, c)))
  }

  // ---------------------------------------------------------------------------
  // The factorization invariant

  lemma FactorizesInitially(a: Matrix)
    requires IsSquare(a)
    ensures Factorizes(a, Identity(|a|), a, 0)
  {
    IdentityIsPermutation(|a|);
  }

  lemma ReconAfterSwap(e: Matrix, i: nat, j: nat, r: nat, c: nat, s: nat)
    requires IsSquare(e) && i <= j < |e| && r < |e| && c < |e|
    requires s == (if r == i then j else if r == j then i else r)
    ensures Recon(Swap(e, i, j), i, r, c) == Recon(e, i, s, c)
  {
    var e' := Swap(e, i, j);
    var l', u' := LowerOf(e')[r], Column(UpperOf(e'), c);
    var l, u := LowerOf(e)[s], Column(UpperOf(e), c);
    forall k | 0 <= k < i ensures l'[k] * u'[k] == l[k] * u[k] {
      assert l'[k] == LowerEntry(e', r, k) && l[k] == LowerEntry(e, s, k);
      assert u'[k] == UpperEntry(e', k, c) && u[k] == UpperEntry(e, k, c);
    }
    DotRangeAgree(l', u', l, u, 0, i);
  }

  /** Exchanging two rows at or below the pivot row, in e and in p, keeps the invariant. */
  lemma FactorizesAfterSwap(e: Matrix, p: seq<int>, a: Matrix, i: nat, j: nat)
    requires Factorizes(e, p, a, i) && i <= j < |e|
    ensures Factorizes(Swap(e, i, j), Swap(p, i, j), a, i)
  {
    SwapIsPermutation(p, |e|, i, j);
    var e', p' := Swap(e, i, j), Swap(p, i, j);
    forall r, c | 0 <= r < |e| && 0 <= c < |e| ensures Recon(e', i, r, c) == a[p'[r]][c] {
      var s := if r == i then j else if r == j then i else r;
      ReconAfterSwap(e, i, j, r, c, s);
    }
  }

  lemma ReconAfterElimination(e: Matrix, i: nat, r: nat, c: nat)
    requires IsSquare(e) && i < |e| && e[i][i] != 0.0 && r < |e| && c < |e|
    ensures Recon(EliminateBelow(e, i), i + 1, r, c) == Recon(e, i, r, c)
  {
    var e' := EliminateBelow(e, i);
    var l', u' := LowerOf(e')[r], Column(UpperOf(e'), c);
    var l, u := LowerOf(e)[r], Column(UpperOf(e), c);
    forall k | 0 <= k < i ensures l'[k] * u'[k] == l[k] * u[k] {
      assert l'[k] == LowerEntry(e', r, k) && l[k] == LowerEntry(e, r, k);
      assert u'[k] == UpperEntry(e', k, c) && u[k] == UpperEntry(e, k, c);
    }
    DotRangeAgree(l', u', l, u, 0, i);
    assert DotRange(l', u', 0, i + 1) == DotRange(l, u, 0, i) + l'[i] * u'[i];
    assert l'[i] == LowerEntry(e', r, i) && u'[i] == UpperEntry(e, i, c);
    if r > i {
      var m := e[r][i] / e[i][i];
      assert l'[i] == m;
      if c == i {
        assert m * e[i][i] == e[r][i];
      } else if c > i {
        assert e'[r][c] == e[r][c] - m * e[i][c];
      }
    }
  }

  /** Eliminating below a non-zero pivot moves the invariant on to the next column. */
  lemma FactorizesAfterElimination(e: Matrix, p: seq<int>, a: Matrix, i: nat)
    requires Factorizes(e, p, a, i) && i < |e| && e[i][i] != 0.0
    ensures Factorizes(EliminateBelow(e, i), p, a, i + 1)
  {
    forall r, c | 0 <= r < |e| && 0 <= c < |e|
      ensures Recon(EliminateBelow(e, i), i + 1, r, c) == a[p[r]][c]
    {
      ReconAfterElimination(e, i, r, c);
    }
  }

  /** Once every column is processed, L·U is the input with its rows reordered by p. */
  lemma FactorizationComplete(e: Matrix, p: seq<int>, a: Matrix)
    requires Factorizes(e, p, a, |e|)
    ensures MatMul(LowerOf(e), UpperOf(e), |e|) == Permute(a, p)
  {
    var lu, pa := MatMul(LowerOf(e), UpperOf(e), |e|), Permute(a, p);
    forall r | 0 <= r < |e| ensures lu[r] == pa[r] {
      forall c | 0 <= c < |e| ensures lu[r][c] == pa[r][c] {
        assert Recon(e, |e|, r, c) == a[p[r]][c];
      }
    }
  }

  // ---------------------------------------------------------------------------
  // Triangular solves

  /** The first i entries of the forward pass: y[i] = rp[i] - Σ_{m<i} e[i][m]·y[m]. */
  function ForwardSub(e: Matrix, rp: Vector, i: nat): (y: Vector)
    requires IsSquare(e) && |rp| == |e| && i <= |e|
    ensures |y| == i
  {
    if i == 0 then []
    else
      var ys := ForwardSub(e, rp, i - 1);
      ys + [rp[i - 1] - DotRange(e[i - 1], ys, 0, i - 1)]
  }

  lemma {:induction false} ForwardSubPrefix(e: Matrix, rp: Vector, i: nat, j: nat)
    requires IsSquare(e) && |rp| == |e| && i <= j <= |e|
    ensures ForwardSub(e, rp, j)[..i] == ForwardSub(e, rp, i)
    decreases j
  {
    if i < j {
      ForwardSubPrefix(e, rp, i, j - 1);
      assert ForwardSub(e, rp, j)[..j - 1] == ForwardSub(e, rp, j - 1);
    }
  }

  /** Row i of the unit lower-triangular product reads only the multipliers left of the diagonal. */
  lemma LowerRow(e: Matrix, y: Vector, i: nat)
    requires IsSquare(e) && |y| == |e| && i < |e|
    ensures Dot(LowerOf(e)[i], y) == y[i] + DotRange(e[i], y, 0, i)
  {
    var l := LowerOf(e)[i];
    forall k | 0 <= k < |e| ensures l[k] == LowerEntry(e, i, k) {
    }
    DotUnitAt(l, e[i], y, i);
  }

  /** Row i of the upper-triangular product reads only the entries from the diagonal on. */
  lemma UpperRow(e: Matrix, x: Vector, i: nat)
    requires IsSquare(e) && |x| == |e| && i < |e|
    ensures Dot(UpperOf(e)[i], x) == e[i][i] * x[i] + DotRange(e[i], x, i + 1, |e|)
  {
    var u := UpperOf(e)[i];
    forall k | 0 <= k < |e| ensures u[k] == UpperEntry(e, i, k) {
    }
    DotSupportedFrom(u, e[i], x, i);
    DotRangeSplit(e[i], x, i, i + 1, |e|);
  }

  lemma {:induction false} ForwardSubRow(e: Matrix, rp: Vector, i: nat)
    requires IsSquare(e) && |rp| == |e| && i < |e|
    ensures var y := ForwardSub(e, rp, |e|); y[i] + DotRange(e[i], y, 0, i) == rp[i]
  {
    var y := ForwardSub(e, rp, |e|);
    ForwardSubPrefix(e, rp, i, |e|);
    ForwardSubPrefix(e, rp, i + 1, |e|);
    var ys := ForwardSub(e, rp, i);
    assert y[i] == ForwardSub(e, rp, i + 1)[i];
    DotRangeAgree(e[i], y, e[i], ys, 0, i);
  }

  /** The forward pass solves the unit lower-triangular system L·y == rp. */
  lemma ForwardSubSolves(e: Matrix, rp: Vector)
    requires IsSquare(e) && |rp| == |e|
    ensures MatVec(LowerOf(e), ForwardSub(e, rp, |e|)) == rp
  {
    var y := ForwardSub(e, rp, |e|);
    forall i | 0 <= i < |e| ensures MatVec(LowerOf(e), y)[i] == rp[i] {
      LowerRow(e, y, i);
      ForwardSubRow(e, rp, i);
    }
  }

  predicate NonZeroDiagonal(e: Matrix)
    requires IsSquare(e)
  {
    forall m :: 0 <= m < |e| ==> e[m][m] != 0.0
  }

  /**
   * The vector the backward pass leaves after it has processed rows |e|-1 down to i:
   * entries below i still hold y, entry m >= i holds (y[m] - Σ_{k>m} e[m][k]·x[k]) / e[m][m].
   */
  function BackSub(e: Matrix, y: Vector, i: nat): (x: Vector)
    requires IsSquare(e) && NonZeroDiagonal(e) && |y| == |e| && i <= |e|
    ensures |x| == |e|
    decreases |e| - i
  {
    if i == |e| then y else BackStep(e, BackSub(e, y, i + 1), i)
  }

  /** Row i of the backward pass: x[i] = (z[i] - Σ_{k>i} e[i][k]·z[k]) / e[i][i]. */
  function BackStep(e: Matrix, z: Vector, i: nat): (x: Vector)
    requires IsSquare(e) && |z| == |e| && i < |e| && e[i][i] != 0.0
    ensures |x| == |e|
  {
    z[i := (z[i] - DotRange(e[i], z, i + 1, |e|)) / e[i][i]]
  }

  lemma {:induction false} BackSubEntries(e: Matrix, y: Vector, i: nat)
    requires IsSquare(e) && NonZeroDiagonal(e) && |y| == |e| && i <= |e|
    ensures forall k :: 0 <= k < i ==> BackSub(e, y, i)[k] == y[k]
    ensures forall k :: i <= k < |e| ==> BackSub(e, y, i)[k] == BackSub(e, y, k)[k]
    decreases |e| - i
  {
    if i < |e| {
      BackSubEntries(e, y, i + 1);
    }
  }

  /** The finished vector agrees with the partial one on every entry already computed. */
  lemma {:induction false} BackSubTail(e: Matrix, y: Vector, i: nat)
    requires IsSquare(e) && NonZeroDiagonal(e) && |y| == |e| && i < |e|
    ensures DotRange(e[i], BackSub(e, y, 0), i + 1, |e|) == DotRange(e[i], BackSub(e, y, i + 1), i + 1, |e|)
  {
    var x := BackSub(e, y, 0);
    var z := BackSub(e, y, i + 1);
    BackSubEntries(e, y, 0);
    BackSubEntries(e, y, i + 1);
    forall k | i + 1 <= k < |e| ensures e[i][k] * x[k] == e[i][k] * z[k] {
      assert x[k] == BackSub(e, y, k)[k] == z[k];
    }
    DotRangeAgree(e[i], x, e[i], z, i + 1, |e|);
  }

  /** Entry i of the finished vector is the quotient the backward pass computes for row i. */
  lemma {:induction false} BackSubDiagonal(e: Matrix, y: Vector, i: nat)
    requires IsSquare(e) && NonZeroDiagonal(e) && |y| == |e| && i < |e|
    ensures BackSub(e, y, 0)[i] == (y[i] - DotRange(e[i], BackSub(e, y, i + 1), i + 1, |e|)) / e[i][i]
  {
    BackSubEntries(e, y, 0);
    BackSubEntries(e, y, i + 1);
    var z := BackSub(e, y, i + 1);
    assert z[i] == y[i];
    assert BackSub(e, y, i) == BackStep(e, z, i);
  }

  lemma {:induction false} BackSubRow(e: Matrix, y: Vector, x: Vector, i: nat)
    requires IsSquare(e) && NonZeroDiagonal(e) && |y| == |e| && i < |e|
    requires x == BackSub(e, y, 0)
    ensures e[i][i] * x[i] + DotRange(e[i], x, i + 1, |e|) == y[i]
  {
    BackSubTail(e, y, i);
    BackSubDiagonal(e, y, i);
    CancelQuotient(e[i][i], x[i], y[i], DotRange(e[i], x, i + 1, |e|));
  }

  lemma CancelQuotient(p: real, xi: real, yi: real, d: real)
    requires p != 0.0 && xi == (yi - d) / p
    ensures p * xi + d == yi
  {
  }

  lemma {:induction false} BackSubSolvesRow(e: Matrix, y: Vector, x: Vector, i: nat)
    requires IsSquare(e) && NonZeroDiagonal(e) && |y| == |e| && i < |e|
    requires x == BackSub(e, y, 0)
    ensures Dot(UpperOf(e)[i], x) == y[i]
  {
    UpperRow(e, x, i);
    BackSubRow(e, y, x, i);
  }

  /** The backward pass solves the upper-triangular system U·x == y. */
  lemma BackSubSolves(e: Matrix, y: Vector)
    requires IsSquare(e) && NonZeroDiagonal(e) && |y| == |e|
    ensures MatVec(UpperOf(e), BackSub(e, y, 0)) == y
  {
    var x := BackSub(e, y, 0);
    var u := UpperOf(e);
    forall i | 0 <= i < |e| ensures MatVec(u, x)[i] == y[i] {
      BackSubSolvesRow(e, y, x, i);
    }
  }

  /** Both passes together solve L·(U·x) == rp. */
  lemma TriangularSolves(e: Matrix, rp: Vector)
    requires IsSquare(e) && NonZeroDiagonal(e) && |rp| == |e|
    ensures MatVec(LowerOf(e), MatVec(UpperOf(e), BackSub(e, ForwardSub(e, rp, |e|), 0))) == rp
  {
    BackSubSolves(e, ForwardSub(e, rp, |e|));
    ForwardSubSolves(e, rp);
  }

  /**
   * A factorization L·U of the rows of a reordered by p solves a·x == b: reorder b by p,
   * then run the forward and the backward pass.
   */
  lemma {:induction false} FactorizationSolves(e: Matrix, p: seq<int>, a: Matrix, b: Vector)
    requires IsSquare(e) && NonZeroDiagonal(e) && IsSquare(a) && |a| == |e| && |b| == |a|
    requires IsPermutation(p, |e|)
    requires MatMul(LowerOf(e), UpperOf(e), |e|) == Permute(a, p)
    ensures MatVec(a, BackSub(e, ForwardSub(e, Permute(b, p), |e|), 0)) == b
  {
    var x := BackSub(e, ForwardSub(e, Permute(b, p), |e|), 0);
    TriangularSolves(e, Permute(b, p));
    MatVecAssoc(LowerOf(e), UpperOf(e), |e|, x);
    PermutedSystem(a, x, b, p);
  }

  // ---------------------------------------------------------------------------
  // Singularity

  /** The leading i×i block of e. */
  function LeadingBlock(e: Matrix, i: nat): (b: Matrix)
    requires IsSquare(e) && i <= |e|
    ensures IsSquare(b) && |b| == i
    ensures forall r, c :: 0 <= r < i && 0 <= c < i ==> b[r][c] == e[r][c]
  {
    seq(i, r requires 0 <= r < i => e[r][..i])
  }

  /**
   * The vector that is 1 at i and 0 after i, and whose entries before i solve the
   * leading triangular block of e against minus column i.
   */
  function NullVector(e: Matrix, i: nat): (z: Vector)
    requires IsSquare(e) && i < |e| && forall m :: 0 <= m < i ==> e[m][m] != 0.0
    ensures |z| == |e| && z[i] == 1.0 && forall c :: i < c < |e| ==> z[c] == 0.0
  {
    var b := LeadingBlock(e, i);
    BackSub(b, seq(i, m requires 0 <= m < i => -e[m][i]), 0) + [1.0] + Zeros(|e| - i - 1)
  }

  /** The first i rows of U send NullVector(e, i) to zero. */
  lemma UpperTimesNull(e: Matrix, i: nat, m: nat)
    requires IsSquare(e) && i < |e| && forall k :: 0 <= k < i ==> e[k][k] != 0.0
    requires m < i
    ensures Dot(UpperOf(e)[m], NullVector(e, i)) == 0.0
  {
    var n := |e|;
    var b := LeadingBlock(e, i);
    var y := seq(i, k requires 0 <= k < i => -e[k][i]);
    var x := BackSub(b, y, 0);
    var z := NullVector(e, i);
    var u, ub := UpperOf(e)[m], UpperOf(b)[m];
    BackSubSolves(b, y);
    assert Dot(ub, x) == -e[m][i] by {
      assert MatVec(UpperOf(b), x)[m] == y[m];
    }
    forall c | 0 <= c < i ensures u[c] * z[c] == ub[c] * x[c] {
      assert u[c] == UpperEntry(e, m, c) && ub[c] == UpperEntry(b, m, c);
      assert z[c] == x[c];
    }
    DotRangeAgree(u, z, ub, x, 0, i);
    DotRangeSplit(u, z, 0, i, n);
    DotRangeSplit(u, z, i, i + 1, n);
    assert u[i] == e[m][i];
    DotRangeZeroRight(u, z, i + 1, n);
  }

  /** Row r of the reordered input sends NullVector(e, i) to zero. */
  lemma RowTimesNull(e: Matrix, p: seq<int>, a: Matrix, i: nat, r: nat)
    requires Factorizes(e, p, a, i) && i < |e| && r < |e|
    requires forall m :: 0 <= m < i ==> e[m][m] != 0.0
    requires forall k :: i <= k < |e| ==> e[k][i] == 0.0
    ensures Dot(a[p[r]], NullVector(e, i)) == 0.0
  {
    var n := |e|;
    var z := NullVector(e, i);
    var l, u := LowerOf(e)[r], UpperOf(e);
    var s := RowTimesPrefix(l, u, n, i);
    var tail := seq(n, c requires 0 <= c < n => if i <= r && i <= c then e[r][c] else 0.0);
    forall c | 0 <= c < n ensures a[p[r]][c] == s[c] + 1.0 * tail[c] {
      assert Recon(e, i, r, c) == a[p[r]][c];
    }
    DotRangeAffine(a[p[r]], s, 1.0, tail, z, 0, n);
    RowTimesPrefixAssoc(l, u, n, z, i);
    forall m | 0 <= m < i ensures MatVec(u, z)[m] == 0.0 {
      UpperTimesNull(e, i, m);
    }
    DotRangeZeroRight(l, MatVec(u, z), 0, i);
    forall c | 0 <= c < n ensures tail[c] * z[c] == Zeros(n)[c] * z[c] {
    }
    DotRangeAgree(tail, z, Zeros(n), z, 0, n);
    DotRangeZero(Zeros(n), z, 0, n);
  }

  /**
   * When, after i columns with non-zero pivots, no row from i down has a non-zero entry
   * in column i, the input is singular.
   */
  lemma SingularAtColumn(e: Matrix, p: seq<int>, a: Matrix, i: nat)
    requires Factorizes(e, p, a, i) && i < |e|
    requires forall m :: 0 <= m < i ==> e[m][m] != 0.0
    requires forall k :: i <= k < |e| ==> e[k][i] == 0.0
    ensures Singular(a)
  {
    var n := |e|;
    var z := NullVector(e, i);
    forall q | 0 <= q < n ensures MatVec(a, z)[q] == 0.0 {
      assert q in p;
      var r :| 0 <= r < n && p[r] == q;
      RowTimesNull(e, p, a, i, r);
    }
    assert MatVec(a, z) == Zeros(n);
    assert z[i] != Zeros(n)[i];
  }

  lemma {:induction false} LowerKernelPrefix(e: Matrix, w: Vector, k: nat)
    requires IsSquare(e) && |w| == |e| && k <= |e| && MatVec(LowerOf(e), w) == Zeros(|e|)
    ensures forall m :: 0 <= m < k ==> w[m] == 0.0
  {
    if k > 0 {
      LowerKernelPrefix(e, w, k - 1);
      LowerRow(e, w, k - 1);
      DotRangeZeroRight(e[k - 1], w, 0, k - 1);
      assert MatVec(LowerOf(e), w)[k - 1] == 0.0;
    }
  }

  lemma {:induction false} UpperKernelSuffix(e: Matrix, z: Vector, k: nat)
    requires IsSquare(e) && NonZeroDiagonal(e) && |z| == |e| && k <= |e| && MatVec(UpperOf(e), z) == Zeros(|e|)
    ensures forall m :: k <= m < |e| ==> z[m] == 0.0
    decreases |e| - k
  {
    if k < |e| {
      UpperKernelSuffix(e, z, k + 1);
      UpperRow(e, z, k);
      DotRangeZeroRight(e[k], z, k + 1, |e|);
      assert MatVec(UpperOf(e), z)[k] == 0.0;
      ZeroFactor(e[k][k], z[k]);
    }
  }

  lemma ZeroFactor(d: real, x: real)
    requires d != 0.0 && d * x == 0.0
    ensures x == 0.0
  {
  }

  /**
   * A factorization L·U, with no zero pivot, of the rows of a reordered by p shows that a
   * is not singular: a·z == 0 forces U·z == 0 and then z == 0.
   */
  lemma FactorsNonSingular(e: Matrix, p: seq<int>, a: Matrix)
    requires IsSquare(e) && NonZeroDiagonal(e) && IsSquare(a) && |a| == |e|
    requires IsPermutation(p, |e|)
    requires MatMul(LowerOf(e), UpperOf(e), |e|) == Permute(a, p)
    ensures !Singular(a)
  {
    forall z | |z| == |e| && MatVec(a, z) == Zeros(|e|) ensures z == Zeros(|e|) {
      FactorsKernel(e, p, a, z);
    }
  }

  lemma FactorsKernel(e: Matrix, p: seq<int>, a: Matrix, z: Vector)
    requires IsSquare(e) && NonZeroDiagonal(e) && IsSquare(a) && |a| == |e|
    requires IsPermutation(p, |e|)
    requires MatMul(LowerOf(e), UpperOf(e), |e|) == Permute(a, p)
    requires |z| == |e| && MatVec(a, z) == Zeros(|e|)
    ensures z == Zeros(|e|)
  {
    var n := |e|;
    var l, u := LowerOf(e), UpperOf(e);
    PermutedKernel(a, p, z);
    MatVecAssoc(l, u, n, z);
    LowerKernelPrefix(e, MatVec(u, z), n);
    assert MatVec(u, z) == Zeros(n);
    UpperKernelSuffix(e, z, 0);
  }
}
