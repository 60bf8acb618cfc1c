/**
 Vectors and matrices of exact numbers, shared by the Gauss-Jordan solver,
 the polynomials and the scheme builder: sums and dot products, unit vectors,
 identity, matrix products, and the kernel (null space) of a matrix.

 The C++ code uses fixed-size `std::array`s; here a vector is a `seq<real>`
 and a matrix a sequence of rows, with the sizes stated by `IsMatrix`.
 */
module Matrices {

  type Vector = seq<real>
  type Matrix = seq<Vector>

  /** A has m rows, each of length n. */
  predicate IsMatrix(A: Matrix, m: nat, n: nat) {
    |A| == m && forall i :: 0 <= i < m ==> |A[i]| == n
  }

  function RealAbs(x: real): real {
    if x < 0.0 then -x else x
  }

  function Zeros(n: nat): (z: Vector)
    ensures |z| == n && forall k :: 0 <= k < n ==> z[k] == 0.0
  {
    seq(n, _ => 0.0)
  }

  /** The k-th standard basis vector of length n. */
  function Unit(n: nat, i: nat): (e: Vector)
    ensures |e| == n && forall k :: 0 <= k < n ==> e[k] == if k == i then 1.0 else 0.0
  {
    seq(n, k => if k == i then 1.0 else 0.0)
  }

  function Identity(n: nat): (I: Matrix)
    ensures IsMatrix(I, n, n) && forall i :: 0 <= i < n ==> I[i] == Unit(n, i)
    ensures forall i, k :: 0 <= i < n && 0 <= k < n ==> I[i][k] == if i == k then 1.0 else 0.0
  {
    seq(n, i requires 0 <= i < n => Unit(n, i))
  }

  function ZeroMatrix(m: nat, n: nat): (Z: Matrix)
    ensures IsMatrix(Z, m, n)
    ensures forall i, k :: 0 <= i < m && 0 <= k < n ==> Z[i][k] == 0.0
  {
    seq(m, _ => Zeros(n))
  }

  /** Dot product, accumulated from the first entry to the last. */
  function Dot(u: Vector, v: Vector): real
    requires |u| == |v|
    decreases |u|
  {
    if |u| == 0 then 0.0 else Dot(u[..|u| - 1], v[..|v| - 1]) + u[|u| - 1] * v[|v| - 1]
  }

  function Column(A: Matrix, c: nat): (col: Vector)
    requires forall i :: 0 <= i < |A| ==> c < |A[i]|
    ensures |col| == |A| && forall i :: 0 <= i < |A| ==> col[i] == A[i][c]
  {
    seq(|A|, i requires 0 <= i < |A| => A[i][c])
  }

  /** Row vector times matrix: entry k is the dot product of v with column k of B. */
  function VecMat(v: Vector, B: Matrix, p: nat): (w: Vector)
    requires IsMatrix(B, |v|, p)
    ensures |w| == p && forall k :: 0 <= k < p ==> w[k] == Dot(v, Column(B, k))
  {
    seq(p, k requires 0 <= k < p => Dot(v, Column(B, k)))
  }

  function MatVec(A: Matrix, x: Vector): (y: Vector)
    requires IsMatrix(A, |A|, |x|)
    ensures |y| == |A| && forall i :: 0 <= i < |A| ==> y[i] == Dot(A[i], x)
  {
    seq(|A|, i requires 0 <= i < |A| => Dot(A[i], x))
  }

  /** Matrix product of an m x n matrix A with an n x p matrix B. */
  function MatMul(A: Matrix, B: Matrix, p: nat): (C: Matrix)
    requires IsMatrix(A, |A|, |B|) && IsMatrix(B, |B|, p)
    ensures IsMatrix(C, |A|, p)
    ensures forall i, k :: 0 <= i < |A| && 0 <= k < p ==> C[i][k] == Dot(A[i], Column(B, k))
  {
    seq(|A|, i requires 0 <= i < |A| => VecMat(A[i], B, p))
  }

  /** x is in the kernel (null space) of A: every row of A is orthogonal to x. */
  ghost predicate IsKernel(A: Matrix, x: Vector) {
    forall i :: 0 <= i < |A| ==> |A[i]| == |x| && Dot(A[i], x) == 0.0
  }

  /** A and B (with n columns) have the same kernel: the homogeneous systems have the same solutions. */
  ghost predicate SameKernel(A: Matrix, B: Matrix, n: nat) {
    forall x: Vector :: |x| == n ==> (IsKernel(A, x) <==> IsKernel(B, x))
  }

  /** A square matrix is nonsingular when A x == 0 has only the zero solution. */
  ghost predicate Nonsingular(A: Matrix) {
    IsMatrix(A, |A|, |A|) && forall x: Vector :: |x| == |A| && IsKernel(A, x) ==> x == Zeros(|A|)
  }

  // ---------------------------------------------------------------------------
  // Dot-product algebra

  /** The dot product is linear in its left argument. */
  lemma {:induction false} DotLinearLeft(u: Vector, v: Vector, w: Vector, x: Vector, a: real, b: real)
    requires |u| == |v| == |w| == |x|
    requires forall k :: 0 <= k < |w| ==> w[k] == a * u[k] + b * v[k]
    ensures Dot(w, x) == a * Dot(u, x) + b * Dot(v, x)
    decreases |w|
  {
    if |w| > 0 {
      var n := |w| - 1;
      DotLinearLeft(u[..n], v[..n], w[..n], x[..n], a, b);
    }
  }

  /** The dot product is linear in its right argument. */
  lemma {:induction false} DotLinearRight(u: Vector, x: Vector, y: Vector, z: Vector, a: real, b: real)
    requires |u| == |x| == |y| == |z|
    requires forall k :: 0 <= k < |z| ==> z[k] == a * x[k] + b * y[k]
    ensures Dot(u, z) == a * Dot(u, x) + b * Dot(u, y)
    decreases |z|
  {
    if |z| > 0 {
      var n := |z| - 1;
      DotLinearRight(u[..n], x[..n], y[..n], z[..n], a, b);
    }
  }

  /** Dot product of the row u - a v. */
  lemma {:induction false} DotSubScaledLeft(u: Vector, v: Vector, w: Vector, x: Vector, a: real)
    requires |u| == |v| == |w| == |x|
    requires forall k :: 0 <= k < |w| ==> w[k] == u[k] - v[k] * a
    ensures Dot(w, x) == Dot(u, x) - a * Dot(v, x)
    decreases |w|
  {
    if |w| > 0 {
      var n := |w| - 1;
      DotSubScaledLeft(u[..n], v[..n], w[..n], x[..n], a);
    }
  }

  /** Dot product of the row a u. */
  lemma {:induction false} DotScaleLeft(u: Vector, w: Vector, x: Vector, a: real)
    requires |u| == |w| == |x|
    requires forall k :: 0 <= k < |w| ==> w[k] == a * u[k]
    ensures Dot(w, x) == a * Dot(u, x)
    decreases |w|
  {
    if |w| > 0 {
      var n := |w| - 1;
      DotScaleLeft(u[..n], w[..n], x[..n], a);
    }
  }

  /** Negating the right argument negates the dot product. */
  lemma {:induction false} DotNegRight(u: Vector, x: Vector, z: Vector)
    requires |u| == |x| == |z|
    requires forall k :: 0 <= k < |z| ==> z[k] == -x[k]
    ensures Dot(u, z) == -Dot(u, x)
    decreases |z|
  {
    if |z| > 0 {
      var n := |z| - 1;
      DotNegRight(u[..n], x[..n], z[..n]);
    }
  }

  /** Dot(u, x) - Dot(u, y) == Dot(u, x - y). */
  lemma {:induction false} DotSubRight(u: Vector, x: Vector, y: Vector, z: Vector)
    requires |u| == |x| == |y| == |z|
    requires forall k :: 0 <= k < |z| ==> z[k] == x[k] - y[k]
    ensures Dot(u, x) - Dot(u, y) == Dot(u, z)
    decreases |z|
  {
    if |z| > 0 {
      var n := |z| - 1;
      DotSubRight(u[..n], x[..n], y[..n], z[..n]);
    }
  }

  /** The dot product of two concatenations is the sum of the blockwise dot products. */
  lemma {:induction false} DotAppend(u1: Vector, u2: Vector, v1: Vector, v2: Vector)
    requires |u1| == |v1| && |u2| == |v2|
    ensures Dot(u1 + u2, v1 + v2) == Dot(u1, v1) + Dot(u2, v2)
    decreases |u2|
  {
    if |u2| == 0 {
      assert u1 + u2 == u1 && v1 + v2 == v1;
    } else {
      var n := |u2| - 1;
      assert (u1 + u2)[..|u1| + n] == u1 + u2[..n];
      assert (v1 + v2)[..|v1| + n] == v1 + v2[..n];
      DotAppend(u1, u2[..n], v1, v2[..n]);
    }
  }

  /** A zero last entry of v drops the last term. */
  lemma {:induction false} DotDropLast(u: Vector, v: Vector)
    requires |u| == |v| > 0 && v[|v| - 1] == 0.0
    ensures Dot(u, v) == Dot(u[..|u| - 1], v[..|v| - 1])
  {
  }

  /** A zero first entry of u drops the first term. */
  lemma {:induction false} DotDropFirst(u: Vector, v: Vector)
    requires |u| == |v| > 0 && u[0] == 0.0
    ensures Dot(u, v) == Dot(u[1..], v[1..])
  {
    assert u == [u[0]] + u[1..] && v == [v[0]] + v[1..];
    DotAppend([u[0]], u[1..], [v[0]], v[1..]);
    assert Dot([u[0]], [v[0]]) == 0.0 by {
      assert [u[0]][..0] == [];
    }
  }

  /** A zero first entry of v drops the first term. */
  lemma {:induction false} DotDropFirstRight(u: Vector, v: Vector)
    requires |u| == |v| > 0 && v[0] == 0.0
    ensures Dot(u, v) == Dot(u[1..], v[1..])
  {
    assert u == [u[0]] + u[1..] && v == [v[0]] + v[1..];
    DotAppend([u[0]], u[1..], [v[0]], v[1..]);
    assert Dot([u[0]], [v[0]]) == 0.0 by {
      assert [u[0]][..0] == [];
    }
  }

  /** A dot product whose terms all vanish is zero. */
  lemma {:induction false} DotNoTerms(u: Vector, v: Vector)
    requires |u| == |v|
    requires forall k :: 0 <= k < |u| ==> u[k] * v[k] == 0.0
    ensures Dot(u, v) == 0.0
    decreases |u|
  {
    if |u| > 0 {
      var n := |u| - 1;
      DotNoTerms(u[..n], v[..n]);
    }
  }

  /** A dot product with a single nonvanishing term p is that term. */
  lemma {:induction false} DotOneTerm(u: Vector, v: Vector, p: nat)
    requires |u| == |v| && p < |u|
    requires forall k :: 0 <= k < |u| && k != p ==> u[k] * v[k] == 0.0
    ensures Dot(u, v) == u[p] * v[p]
    decreases |u|
  {
    var n := |u| - 1;
    if p == n {
      DotNoTerms(u[..n], v[..n]);
    } else {
      DotOneTerm(u[..n], v[..n], p);
    }
  }

  /** Dotting with the k-th unit vector picks entry k. */
  lemma {:induction false} DotUnit(u: Vector, k: nat)
    requires k < |u|
    ensures Dot(u, Unit(|u|, k)) == u[k] && Dot(Unit(|u|, k), u) == u[k]
  {
    var e := Unit(|u|, k);
    forall j | 0 <= j < |u| && j != k
      ensures u[j] * e[j] == 0.0 && e[j] * u[j] == 0.0
    {
      assert e[j] == 0.0;
    }
    DotOneTerm(u, e, k);
    DotOneTerm(e, u, k);
  }

  /** A square matrix is the identity exactly when row r is the r-th unit vector for every r. */
  lemma {:induction false} RowsOfIdentity(C: Matrix, n: nat)
    requires |C| == n
    ensures C == Identity(n) <==> forall r :: 0 <= r < n ==> C[r] == Unit(n, r)
  {
    if forall r :: 0 <= r < n ==> C[r] == Unit(n, r) {
      assert forall r :: 0 <= r < n ==> C[r] == Identity(n)[r];
    }
  }

  /** Products that are entrywise equal to the identity are the identity. */
  lemma {:induction false} IdentityProduct(A: Matrix, B: Matrix, n: nat)
    requires IsMatrix(A, n, n) && IsMatrix(B, n, n)
    requires forall i, k :: 0 <= i < n && 0 <= k < n ==> Dot(A[i], Column(B, k)) == if i == k then 1.0 else 0.0
    ensures MatMul(A, B, n) == Identity(n)
  {
    var C := MatMul(A, B, n);
    forall i | 0 <= i < n
      ensures C[i] == Identity(n)[i]
    {
    }
  }
}
