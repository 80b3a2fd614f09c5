/**
 * Dense vectors and matrices over exact reals, stored row by row, with the
 * reference definitions (dot product, matrix-vector and matrix-matrix product,
 * transpose, row permutation) that the array code of MatrixOps is proved against.
 */
module LinearAlgebra {

  type Vector = seq<real>
  type Matrix = seq<seq<real>>

  /** `m` has `rows` rows of `cols` entries each. */
  predicate IsMatrix(m: Matrix, rows: nat, cols: nat)
  {
    |m| == rows && forall r :: 0 <= r < rows ==> |m[r]| == cols
  }

  /** Sum of u[k] * v[k] over lo <= k < hi, accumulated in increasing k. */
  function DotRange(u: Vector, v: Vector, lo: nat, hi: nat): real
    requires lo <= hi <= |u| && hi <= |v|
    decreases hi - lo
  {
    if lo == hi then 0.0 else DotRange(u, v, lo, hi - 1) + u[hi - 1] * v[hi - 1]
  }

  function Dot(u: Vector, v: Vector): real
    requires |u| == |v|
  {
    DotRange(u, v, 0, |u|)
  }

  function Zeros(n: nat): (z: Vector)
    ensures |z| == n && forall k :: 0 <= k < n ==> z[k] == 0.0
  {
    seq(n, _ => 0.0)
  }

  /** The product a·x of an |a|-row matrix with a vector. */
  function MatVec(a: Matrix, x: Vector): (y: Vector)
    requires forall r :: 0 <= r < |a| ==> |a[r]| == |x|
    ensures |y| == |a|
  {
    seq(|a|, r requires 0 <= r < |a| => Dot(a[r], x))
  }

  /** The square matrix a sends some non-zero vector to zero. */
  ghost predicate Singular(a: Matrix)
  {
    && IsMatrix(a, |a|, |a|)
    && exists z :: |z| == |a| && z != Zeros(|a|) && MatVec(a, z) == Zeros(|a|)
  }

  /** Only a square matrix can be singular. */
  lemma NotSquareNotSingular(a: Matrix, cols: nat)
    requires IsMatrix(a, |a|, cols) && cols != |a|
    ensures !Singular(a)
  {
    if |a| > 0 {
      assert |a[0]| != |a|;
    } else {
      forall z | |z| == 0 ensures z == Zeros(0) {
      }
    }
  }

  function Column(m: Matrix, c: nat): (col: Vector)
    requires forall r :: 0 <= r < |m| ==> c < |m[r]|
    ensures |col| == |m| && forall r :: 0 <= r < |m| ==> col[r] == m[r][c]
  {
    seq(|m|, r requires 0 <= r < |m| => m[r][c])
  }

  /** The transpose of a matrix with `cols` columns. */
  function Transpose(m: Matrix, cols: nat): (t: Matrix)
    requires IsMatrix(m, |m|, cols)
    ensures IsMatrix(t, cols, |m|)
    ensures forall c, r :: 0 <= c < cols && 0 <= r < |m| ==> t[c][r] == m[r][c]
  {
    seq(cols, c requires 0 <= c < cols => Column(m, c))
  }

  /** The product a·b, where b has `cols` columns. */
  function MatMul(a: Matrix, b: Matrix, cols: nat): (ab: Matrix)
    requires IsMatrix(b, |b|, cols)
    requires forall r :: 0 <= r < |a| ==> |a[r]| == |b|
    ensures IsMatrix(ab, |a|, cols)
  {
    seq(|a|, r requires 0 <= r < |a| => seq(cols, c requires 0 <= c < cols => Dot(a[r], Column(b, c))))
  }

  /** The rows (or entries) of `s` taken in the order `p` lists them: result[i] == s[p[i]]. */
  function Permute<T>(s: seq<T>, p: seq<int>): (t: seq<T>)
    requires forall i :: 0 <= i < |p| ==> 0 <= p[i] < |s|
    ensures |t| == |p| && forall i :: 0 <= i < |p| ==> t[i] == s[p[i]]
  {
    seq(|p|, i requires 0 <= i < |p| => s[p[i]])
  }

  /** p lists each of 0 .. n-1 exactly once. */
  ghost predicate IsPermutation(p: seq<int>, n: nat)
  {
    && |p| == n
    && (forall i :: 0 <= i < n ==> 0 <= p[i] < n)
    && (forall i, j :: 0 <= i < j < n ==> p[i] != p[j])
    && (forall r :: 0 <= r < n ==> r in p)
  }

  function Identity(n: nat): (p: seq<int>)
    ensures |p| == n && forall i :: 0 <= i < n ==> p[i] == i
  {
    seq(n, i => i)
  }

  /** s with the entries at i and j exchanged. */
  function Swap<T>(s: seq<T>, i: nat, j: nat): (t: seq<T>)
    requires i < |s| && j < |s|
    ensures |t| == |s|
  {
    s[i := s[j]][j := s[i]]
  }

  lemma IdentityIsPermutation(n: nat)
    ensures IsPermutation(Identity(n), n)
  {
    var p := Identity(n);
    forall r | 0 <= r < n ensures r in p {
      assert p[r] == r;
    }
  }

  /** Exchanging two entries of a permutation gives a permutation. */
  lemma SwapIsPermutation(p: seq<int>, n: nat, i: nat, j: nat)
    requires IsPermutation(p, n) && i < n && j < n
    ensures IsPermutation(Swap(p, i, j), n)
  {
    var q := Swap(p, i, j);
    forall r | 0 <= r < n ensures r in q {
      assert r in p;
      var k :| 0 <= k < n && p[k] == r;
      if k == i {
        assert q[j] == r;
      } else if k == j {
        assert q[i] == r;
      } else {
        assert q[k] == r;
      }
    }
  }

  // ---------------------------------------------------------------------------
  // Facts about DotRange

  lemma {:induction false} DotRangeSplit(u: Vector, v: Vector, lo: nat, mid: nat, hi: nat)
    requires lo <= mid <= hi <= |u| && hi <= |v|
    ensures DotRange(u, v, lo, hi) == DotRange(u, v, lo, mid) + DotRange(u, v, mid, hi)
    decreases hi
  {
    if mid < hi {
      DotRangeSplit(u, v, lo, mid, hi - 1);
    }
  }

  /** DotRange reads only the entries in [lo, hi). */
  lemma {:induction false} DotRangeAgree(u: Vector, v: Vector, u': Vector, v': Vector, lo: nat, hi: nat)
    requires lo <= hi <= |u| && hi <= |v| && hi <= |u'| && hi <= |v'|
    requires forall k :: lo <= k < hi ==> u[k] * v[k] == u'[k] * v'[k]
    ensures DotRange(u, v, lo, hi) == DotRange(u', v', lo, hi)
    decreases hi - lo
  {
    if lo < hi {
      DotRangeAgree(u, v, u', v', lo, hi - 1);
    }
  }

  lemma {:induction false} DotRangeZero(u: Vector, v: Vector, lo: nat, hi: nat)
    requires lo <= hi <= |u| && hi <= |v|
    requires forall k :: lo <= k < hi ==> u[k] == 0.0
    ensures DotRange(u, v, lo, hi) == 0.0
    decreases hi - lo
  {
    if lo < hi {
      DotRangeZero(u, v, lo, hi - 1);
    }
  }

  lemma {:induction false} DotRangeZeroRight(u: Vector, v: Vector, lo: nat, hi: nat)
    requires lo <= hi <= |u| && hi <= |v|
    requires forall k :: lo <= k < hi ==> v[k] == 0.0
    ensures DotRange(u, v, lo, hi) == 0.0
    decreases hi - lo
  {
    if lo < hi {
      DotRangeZeroRight(u, v, lo, hi - 1);
    }
  }

  /** DotRange is linear in its first argument: (u + s·w)·x == u·x + s·(w·x). */
  lemma {:induction false} DotRangeAffine(t: Vector, u: Vector, s: real, w: Vector, x: Vector, lo: nat, hi: nat)
    requires lo <= hi <= |t| && hi <= |u| && hi <= |w| && hi <= |x|
    requires forall k :: lo <= k < hi ==> t[k] == u[k] + s * w[k]
    ensures DotRange(t, x, lo, hi) == DotRange(u, x, lo, hi) + s * DotRange(w, x, lo, hi)
    decreases hi - lo
  {
    if lo < hi {
      DotRangeAffine(t, u, s, w, x, lo, hi - 1);
      var k := hi - 1;
      calc {
        t[k] * x[k];
        (u[k] + s * w[k]) * x[k];
        u[k] * x[k] + s * (w[k] * x[k]);
      }
    }
  }

  lemma {:induction false} DotRangeCommutes(u: Vector, v: Vector, lo: nat, hi: nat)
    requires lo <= hi <= |u| && hi <= |v|
    ensures DotRange(u, v, lo, hi) == DotRange(v, u, lo, hi)
    decreases hi - lo
  {
    if lo < hi {
      DotRangeCommutes(u, v, lo, hi - 1);
    }
  }

  /** A row that is zero before i and agrees with w from i on: its product reads w[i..] only. */
  lemma DotSupportedFrom(u: Vector, w: Vector, x: Vector, i: nat)
    requires |u| == |w| == |x| && i <= |u|
    requires forall k :: 0 <= k < i ==> u[k] == 0.0
    requires forall k :: i <= k < |u| ==> u[k] == w[k]
    ensures Dot(u, x) == DotRange(w, x, i, |u|)
  {
    DotRangeSplit(u, x, 0, i, |u|);
    DotRangeZero(u, x, 0, i);
    DotRangeAgree(u, x, w, x, i, |u|);
  }

  /** A row that agrees with w before i, is 1 at i and 0 after: its product is w[..i]·x[..i] + x[i]. */
  lemma DotUnitAt(u: Vector, w: Vector, x: Vector, i: nat)
    requires |u| == |w| == |x| && i < |u|
    requires forall k :: 0 <= k < i ==> u[k] == w[k]
    requires u[i] == 1.0
    requires forall k :: i < k < |u| ==> u[k] == 0.0
    ensures Dot(u, x) == DotRange(w, x, 0, i) + x[i]
  {
    DotRangeSplit(u, x, 0, i + 1, |u|);
    DotRangeZero(u, x, i + 1, |u|);
    DotRangeAgree(u, x, w, x, 0, i);
  }

  // ---------------------------------------------------------------------------
  // Associativity of the products

  /** Partial sums of the row vector l·b over the first k rows of b. */
  function RowTimesPrefix(l: Vector, b: Matrix, cols: nat, k: nat): (s: Vector)
    requires k <= |l| && k <= |b| && IsMatrix(b, |b|, cols)
    ensures |s| == cols
  {
    seq(cols, c requires 0 <= c < cols => DotRange(l, Column(b, c), 0, k))
  }

  /** Exchanging the order of a double sum: (l·b)·x == l·(b·x), row by row of b. */
  lemma {:induction false} RowTimesPrefixAssoc(l: Vector, b: Matrix, cols: nat, x: Vector, k: nat)
    requires k <= |l| && k <= |b| && IsMatrix(b, |b|, cols) && |x| == cols
    ensures DotRange(RowTimesPrefix(l, b, cols, k), x, 0, cols) == DotRange(l, MatVec(b, x), 0, k)
  {
    var s := RowTimesPrefix(l, b, cols, k);
    if k == 0 {
      DotRangeZero(s, x, 0, cols);
    } else {
      var s' := RowTimesPrefix(l, b, cols, k - 1);
      RowTimesPrefixAssoc(l, b, cols, x, k - 1);
      forall c | 0 <= c < cols ensures s[c] == s'[c] + l[k - 1] * b[k - 1][c] {
        assert Column(b, c)[k - 1] == b[k - 1][c];
      }
      DotRangeAffine(s, s', l[k - 1], b[k - 1], x, 0, cols);
    }
  }

  /** (a·b)·x == a·(b·x). */
  lemma MatVecAssoc(a: Matrix, b: Matrix, cols: nat, x: Vector)
    requires IsMatrix(b, |b|, cols) && |x| == cols
    requires forall r :: 0 <= r < |a| ==> |a[r]| == |b|
    ensures MatVec(MatMul(a, b, cols), x) == MatVec(a, MatVec(b, x))
  {
    var ab := MatMul(a, b, cols);
    forall r | 0 <= r < |a| ensures MatVec(ab, x)[r] == MatVec(a, MatVec(b, x))[r] {
      assert ab[r] == RowTimesPrefix(a[r], b, cols, |b|);
      RowTimesPrefixAssoc(a[r], b, cols, x, |b|);
    }
  }

  /** The transpose is the adjoint: (a·x)·y == x·(aᵀ·y). */
  lemma TransposeIsAdjoint(a: Matrix, cols: nat, x: Vector, y: Vector)
    requires IsMatrix(a, |a|, cols) && |x| == cols && |y| == |a|
    ensures Dot(MatVec(a, x), y) == Dot(x, MatVec(Transpose(a, cols), y))
  {
    var at := Transpose(a, cols);
    var s := RowTimesPrefix(y, a, cols, |a|);
    RowTimesPrefixAssoc(y, a, cols, x, |a|);
    forall c | 0 <= c < cols ensures s[c] == MatVec(at, y)[c] {
      DotRangeCommutes(y, Column(a, c), 0, |a|);
      assert at[c] == Column(a, c);
    }
    assert s == MatVec(at, y);
    DotRangeCommutes(s, x, 0, cols);
    DotRangeCommutes(y, MatVec(a, x), 0, |a|);
  }

  /** A vector a sends to zero is sent to zero by a with its rows reordered too. */
  lemma PermutedKernel(a: Matrix, p: seq<int>, z: Vector)
    requires forall r :: 0 <= r < |a| ==> |a[r]| == |z|
    requires IsPermutation(p, |a|) && MatVec(a, z) == Zeros(|a|)
    ensures MatVec(Permute(a, p), z) == Zeros(|a|)
  {
    forall r | 0 <= r < |a| ensures MatVec(Permute(a, p), z)[r] == 0.0 {
      assert MatVec(a, z)[p[r]] == 0.0;
    }
  }

  /** Reordering the equations of a system by a permutation does not change its solutions. */
  lemma PermutedSystem(a: Matrix, x: Vector, b: Vector, p: seq<int>)
    requires forall r :: 0 <= r < |a| ==> |a[r]| == |x|
    requires |b| == |a| && IsPermutation(p, |a|)
    requires MatVec(Permute(a, p), x) == Permute(b, p)
    ensures MatVec(a, x) == b
  {
    forall r | 0 <= r < |a| ensures MatVec(a, x)[r] == b[r] {
      assert r in p;
      var i :| 0 <= i < |p| && p[i] == r;
      assert MatVec(Permute(a, p), x)[i] == Dot(a[r], x);
    }
  }
}
