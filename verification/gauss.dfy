/**
 Gauss-Jordan elimination of an M x N matrix (column sweep with partial
 pivoting, giving the reduced row-echelon form), and the two operations built
 on it: solving A x = b and inverting A, both by reducing an augmented matrix.

 Every step of the sweep is an invertible row operation (scaling a row by a
 nonzero pivot, swapping two rows, subtracting a multiple of the pivot row),
 so the reduced matrix has the same kernel as the input; together with the
 echelon shape this is what makes the solution and the inverse correct.
 */
module Gauss {
  import opened Matrices

  // ---------------------------------------------------------------------------
  // Row operations

  /** `swap_array(A[i], A[k])`: rows i and k exchanged, all other rows untouched. */
  function SwapRows(A: Matrix, i: nat, k: nat): (B: Matrix)
    requires i < |A| && k < |A|
    ensures |B| == |A| && B[i] == A[k] && B[k] == A[i]
    ensures forall t :: 0 <= t < |A| && t != i && t != k ==> B[t] == A[t]
  {
    A[i := A[k]][k := A[i]]
  }

  /** Row k divided entrywise by the pivot value kv; the other rows are untouched. */
  function ScaleRow(A: Matrix, k: nat, kv: real): (B: Matrix)
    requires k < |A| && kv != 0.0
    ensures |B| == |A| && |B[k]| == |A[k]|
    ensures forall c :: 0 <= c < |A[k]| ==> B[k][c] * kv == A[k][c]
    ensures forall t :: 0 <= t < |A| && t != k ==> B[t] == A[t]
  {
    A[k := seq(|A[k]|, c requires 0 <= c < |A[k]| => A[k][c] / kv)]
  }

  /** Every row i other than r loses A[i][j] times row r; row r is kept. */
  function EliminateColumn(A: Matrix, n: nat, r: nat, j: nat): (B: Matrix)
    requires IsMatrix(A, |A|, n) && r < |A| && j < n
    ensures IsMatrix(B, |A|, n) && B[r] == A[r]
    ensures forall i, c :: 0 <= i < |A| && i != r && 0 <= c < n ==> B[i][c] == A[i][c] - A[r][c] * A[i][j]
    ensures A[r][j] == 1.0 ==> forall i :: 0 <= i < |A| ==> B[i][j] == if i == r then 1.0 else 0.0
  {
    seq(|A|, i requires 0 <= i < |A| =>
      if i == r then A[r] else seq(n, c requires 0 <= c < n => A[i][c] - A[r][c] * A[i][j]))
  }

  lemma {:induction false} SwapKeepsKernel(A: Matrix, n: nat, i: nat, k: nat)
    requires IsMatrix(A, |A|, n) && i < |A| && k < |A|
    ensures IsMatrix(SwapRows(A, i, k), |A|, n) && SameKernel(SwapRows(A, i, k), A, n)
  {
    var B := SwapRows(A, i, k);
    forall x: Vector | |x| == n
      ensures IsKernel(B, x) <==> IsKernel(A, x)
    {
      if IsKernel(A, x) {
        assert forall t :: 0 <= t < |B| ==> Dot(B[t], x) == 0.0 by {
          forall t | 0 <= t < |B| ensures Dot(B[t], x) == 0.0 {
            if t == i { assert B[t] == A[k]; } else if t == k { assert B[t] == A[i]; }
          }
        }
      }
      if IsKernel(B, x) {
        assert forall t :: 0 <= t < |A| ==> Dot(A[t], x) == 0.0 by {
          forall t | 0 <= t < |A| ensures Dot(A[t], x) == 0.0 {
            if t == i { assert A[t] == B[k]; } else if t == k { assert A[t] == B[i]; }
          }
        }
      }
    }
  }

  lemma {:induction false} ScaleKeepsKernel(A: Matrix, n: nat, k: nat, kv: real)
    requires IsMatrix(A, |A|, n) && k < |A| && kv != 0.0
    ensures IsMatrix(ScaleRow(A, k, kv), |A|, n) && SameKernel(ScaleRow(A, k, kv), A, n)
  {
    var B := ScaleRow(A, k, kv);
    var s := 1.0 / kv;
    forall c | 0 <= c < n ensures B[k][c] == s * A[k][c] {
      assert B[k][c] * kv == A[k][c];
    }
    forall x: Vector | |x| == n
      ensures IsKernel(B, x) <==> IsKernel(A, x)
    {
      DotScaleLeft(A[k], B[k], x, s);
      var d := Dot(A[k], x);
      assert Dot(B[k], x) == d / kv;
      assert Dot(B[k], x) == 0.0 <==> d == 0.0;
    }
  }

  lemma {:induction false} EliminateKeepsKernel(A: Matrix, n: nat, r: nat, j: nat)
    requires IsMatrix(A, |A|, n) && r < |A| && j < n
    ensures IsMatrix(EliminateColumn(A, n, r, j), |A|, n) && SameKernel(EliminateColumn(A, n, r, j), A, n)
  {
    forall x: Vector | |x| == n
      ensures IsKernel(EliminateColumn(A, n, r, j), x) <==> IsKernel(A, x)
    {
      EliminateKernelAt(A, n, r, j, x);
    }
  }

  /** Eliminating column j neither adds nor removes the kernel vector x. */
  lemma {:induction false} EliminateKernelAt(A: Matrix, n: nat, r: nat, j: nat, x: Vector)
    requires IsMatrix(A, |A|, n) && r < |A| && j < n && |x| == n
    ensures IsKernel(EliminateColumn(A, n, r, j), x) <==> IsKernel(A, x)
  {
    var B := EliminateColumn(A, n, r, j);
    forall i | 0 <= i < |A| && i != r
      ensures Dot(B[i], x) == Dot(A[i], x) - A[i][j] * Dot(A[r], x)
    {
      EliminatedRowEntries(A, B, n, r, j, i);
      EliminatedRowDot(A, B, n, r, j, i, x);
    }
    if IsKernel(A, x) {
      forall i | 0 <= i < |A| && i != r ensures Dot(B[i], x) == 0.0 {
        var a := A[i][j];
        assert Dot(A[r], x) == 0.0 && Dot(A[i], x) == 0.0;
        assert a * 0.0 == 0.0;
      }
    }
    if IsKernel(B, x) {
      assert Dot(A[r], x) == 0.0 by { assert B[r] == A[r]; }
      forall i | 0 <= i < |A| && i != r ensures Dot(A[i], x) == 0.0 {
        var a := A[i][j];
        assert Dot(B[i], x) == 0.0;
        assert a * 0.0 == 0.0;
      }
    }
  }

  /** Row i of the eliminated matrix dotted with x. */
  lemma {:induction false} EliminatedRowDot(A: Matrix, B: Matrix, n: nat, r: nat, j: nat, i: nat, x: Vector)
    requires IsMatrix(A, |A|, n) && r < |A| && j < n && i < |A| && i != r && |x| == n
    requires |B| == |A| && |B[i]| == n
    requires forall k :: 0 <= k < n ==> B[i][k] == A[i][k] - A[r][k] * A[i][j]
    ensures Dot(B[i], x) == Dot(A[i], x) - A[i][j] * Dot(A[r], x)
  {
    var a := A[i][j];
    var u, v, w := A[i], A[r], B[i];
    assert forall k :: 0 <= k < |w| ==> w[k] == u[k] - v[k] * a;
    DotSubScaledLeft(u, v, w, x, a);
  }

  lemma {:induction false} EliminatedRowEntries(A: Matrix, B: Matrix, n: nat, r: nat, j: nat, i: nat)
    requires IsMatrix(A, |A|, n) && r < |A| && j < n && i < |A| && i != r
    requires B == EliminateColumn(A, n, r, j)
    ensures |B[i]| == n && forall k :: 0 <= k < n ==> B[i][k] == A[i][k] - A[r][k] * A[i][j]
  {
  }

  lemma {:induction false} SameKernelTransitive(A: Matrix, B: Matrix, C: Matrix, n: nat)
    requires SameKernel(A, B, n) && SameKernel(B, C, n)
    ensures SameKernel(A, C, n)
  {
  }

  // ---------------------------------------------------------------------------
  // The sweep

  /**
   The partial-pivoting search of `gauss`: among rows r..M-1, the first row k
   whose entry in column j has the largest magnitude (the strict `>` keeps the
   earliest of equal magnitudes).
   */
  method SelectPivot(A: Matrix, n: nat, r: nat, j: nat) returns (k: nat, kv: real)
    requires IsMatrix(A, |A|, n) && r < |A| && j < n
    ensures r <= k < |A| && kv == A[k][j]
    ensures forall i :: r <= i < |A| ==> RealAbs(A[i][j]) <= RealAbs(kv)
    ensures forall i :: r <= i < k ==> RealAbs(A[i][j]) < RealAbs(kv)
  {
    k := r;
    kv := A[k][j];
    var i := k + 1;
    while i < |A|
      invariant r <= k < i <= |A| && kv == A[k][j]
      invariant forall t :: r <= t < i ==> RealAbs(A[t][j]) <= RealAbs(kv)
      invariant forall t :: r <= t < k ==> RealAbs(A[t][j]) < RealAbs(kv)
    {
      if RealAbs(A[i][j]) > RealAbs(kv) {
        k := i;
        kv := A[i][j];
      }
      i := i + 1;
    }
  }

  /**
   A is in reduced row-echelon form as far as its first `cols` columns go, with
   pivot columns `pivots` (row t has its leading 1 in column pivots[t]):
   pivot columns strictly increase, each pivot column is the unit vector of its
   row, a pivot row is zero left of its pivot, and the rows below the last pivot
   row are zero in the first `cols` columns.
   */
  ghost predicate Rref(A: Matrix, n: nat, pivots: seq<nat>, cols: nat) {
    && IsMatrix(A, |A|, n) && cols <= n && |pivots| <= |A|
    && (forall t :: 0 <= t < |pivots| ==> pivots[t] < cols)
    && (forall s, t :: 0 <= s < t < |pivots| ==> pivots[s] < pivots[t])
    && (forall t, i :: 0 <= t < |pivots| && 0 <= i < |A| ==> A[i][pivots[t]] == if i == t then 1.0 else 0.0)
    && (forall t, c :: 0 <= t < |pivots| && 0 <= c < pivots[t] ==> A[t][c] == 0.0)
    && (forall i, c :: |pivots| <= i < |A| && 0 <= c < cols ==> A[i][c] == 0.0)
  }

  /** One nonzero-pivot step: normalise row k, swap it into row r, eliminate column j from the other rows. */
  ghost function PivotStep(A: Matrix, n: nat, r: nat, j: nat, k: nat, kv: real): Matrix
    requires IsMatrix(A, |A|, n) && r < |A| && k < |A| && j < n && kv != 0.0
  {
    var A1 := ScaleRow(A, k, kv);
    var A2 := if k != r then SwapRows(A1, k, r) else A1;
    EliminateColumn(A2, n, r, j)
  }

  lemma {:induction false} PivotStepKeepsRref(A: Matrix, n: nat, pivots: seq<nat>, j: nat, k: nat, kv: real)
    requires Rref(A, n, pivots, j) && j < n && |pivots| <= k < |A|
    requires kv == A[k][j] && kv != 0.0
    ensures IsMatrix(PivotStep(A, n, |pivots|, j, k, kv), |A|, n)
    ensures Rref(PivotStep(A, n, |pivots|, j, k, kv), n, pivots + [j], j + 1)
    ensures SameKernel(PivotStep(A, n, |pivots|, j, k, kv), A, n)
  {
    var r := |pivots|;
    PivotStepKernel(A, n, r, j, k, kv);
    PivotStepColumns(A, n, r, j, k, kv);
    RrefExtend(A, PivotStep(A, n, r, j, k, kv), n, pivots, j);
  }

  /** The three row operations of a pivot step keep the kernel. */
  lemma {:induction false} PivotStepKernel(A: Matrix, n: nat, r: nat, j: nat, k: nat, kv: real)
    requires IsMatrix(A, |A|, n) && r < |A| && k < |A| && j < n && kv != 0.0
    ensures IsMatrix(PivotStep(A, n, r, j, k, kv), |A|, n)
    ensures SameKernel(PivotStep(A, n, r, j, k, kv), A, n)
  {
    var A1 := ScaleRow(A, k, kv);
    var A2 := if k != r then SwapRows(A1, k, r) else A1;
    var A3 := EliminateColumn(A2, n, r, j);
    ScaleKeepsKernel(A, n, k, kv);
    if k != r {
      SwapKeepsKernel(A1, n, k, r);
    }
    EliminateKeepsKernel(A2, n, r, j);
    SameKernelTransitive(A3, A2, A1, n);
    SameKernelTransitive(A3, A1, A, n);
  }

  /**
   When rows r.. are zero left of column j, a pivot step taking its pivot from
   one of those rows leaves the columns left of j alone and turns column j
   into the unit column of row r.
   */
  lemma {:induction false} PivotStepColumns(A: Matrix, n: nat, r: nat, j: nat, k: nat, kv: real)
    requires IsMatrix(A, |A|, n) && r <= k < |A| && j < n && kv == A[k][j] && kv != 0.0
    requires forall i, c :: r <= i < |A| && 0 <= c < j ==> A[i][c] == 0.0
    ensures IsMatrix(PivotStep(A, n, r, j, k, kv), |A|, n)
    ensures forall i, c :: 0 <= i < |A| && 0 <= c < j ==> PivotStep(A, n, r, j, k, kv)[i][c] == A[i][c]
    ensures forall i :: 0 <= i < |A| ==> PivotStep(A, n, r, j, k, kv)[i][j] == if i == r then 1.0 else 0.0
  {
    var A1 := ScaleRow(A, k, kv);
    var A2 := if k != r then SwapRows(A1, k, r) else A1;
    var A3 := EliminateColumn(A2, n, r, j);
    assert A3 == PivotStep(A, n, r, j, k, kv);
    assert A2[r] == A1[k];
    ScaledPivotRow(A, n, r, j, k, kv);
    forall i, c | 0 <= i < |A| && 0 <= c < j
      ensures A3[i][c] == A[i][c]
    {
      if i == r {
        assert A3[r] == A2[r];
      } else {
        var a := A2[i][j];
        assert A3[i][c] == A2[i][c] - 0.0 * a;
        if i == k {
          assert A2[k] == A1[r] == A[r];
        } else {
          assert A2[i] == A[i];
        }
      }
    }
  }

  /** The new pivot row is the old row k divided by kv: 1 in column j, zero before it. */
  lemma {:induction false} ScaledPivotRow(A: Matrix, n: nat, r: nat, j: nat, k: nat, kv: real)
    requires IsMatrix(A, |A|, n) && r <= k < |A| && j < n && kv == A[k][j] && kv != 0.0
    requires forall i, c :: r <= i < |A| && 0 <= c < j ==> A[i][c] == 0.0
    ensures ScaleRow(A, k, kv)[k][j] == 1.0
    ensures forall c :: 0 <= c < j ==> ScaleRow(A, k, kv)[k][c] == 0.0
  {
    var A1 := ScaleRow(A, k, kv);
    assert A1[k][j] == 1.0 by {
      assert j < |A[k]|;
      assert A1[k][j] * kv == A[k][j];
      assert A1[k][j] * kv == 1.0 * kv;
      CancelNonzero(A1[k][j], 1.0, kv);
    }
    forall c | 0 <= c < j ensures A1[k][c] == 0.0 {
      assert A1[k][c] * kv == 0.0 * kv;
      CancelNonzero(A1[k][c], 0.0, kv);
    }
  }

  lemma {:induction false} CancelNonzero(x: real, y: real, d: real)
    requires d != 0.0 && x * d == y * d
    ensures x == y
  {
    assert (x - y) * d == 0.0;
  }

  /** Appending a pivot in column j whose column is the next unit column, with columns left of j unchanged. */
  lemma {:induction false} RrefExtend(A: Matrix, B: Matrix, n: nat, pivots: seq<nat>, j: nat)
    requires Rref(A, n, pivots, j) && j < n && |pivots| < |A| && IsMatrix(B, |A|, n)
    requires forall i, c :: 0 <= i < |A| && 0 <= c < j ==> B[i][c] == A[i][c]
    requires forall i :: 0 <= i < |A| ==> B[i][j] == if i == |pivots| then 1.0 else 0.0
    ensures Rref(B, n, pivots + [j], j + 1)
  {
    var r := |pivots|;
    var pivots' := pivots + [j];
    forall t | 0 <= t < r ensures pivots'[t] == pivots[t] < j {
    }
    assert forall t, i :: 0 <= t < |pivots'| && 0 <= i < |B| ==> B[i][pivots'[t]] == if i == t then 1.0 else 0.0 by {
      forall t, i | 0 <= t < |pivots'| && 0 <= i < |B|
        ensures B[i][pivots'[t]] == if i == t then 1.0 else 0.0
      {
        if t < r {
          assert B[i][pivots[t]] == A[i][pivots[t]];
        }
      }
    }
    assert forall t, c :: 0 <= t < |pivots'| && 0 <= c < pivots'[t] ==> B[t][c] == 0.0 by {
      forall t, c | 0 <= t < |pivots'| && 0 <= c < pivots'[t]
        ensures B[t][c] == 0.0
      {
      }
    }
  }

  lemma {:induction false} SkipKeepsRref(A: Matrix, n: nat, pivots: seq<nat>, j: nat)
    requires Rref(A, n, pivots, j) && j < n
    requires forall i :: |pivots| <= i < |A| ==> A[i][j] == 0.0
    ensures Rref(A, n, pivots, j + 1)
  {
  }

  /**
   The row operations of one pivot step, in the order the elimination loop
   performs them. They keep the shape and the kernel; when the pivot `kv` is
   the entry of a candidate row `k >= r` and the columns before `j` are zero
   below row `r`, column `j` becomes the unit vector of row `r` and the earlier
   columns are left as they were.
   */
  method ApplyPivot(A: Matrix, n: nat, r: nat, j: nat, k: nat, kv: real) returns (B: Matrix)
    requires IsMatrix(A, |A|, n) && r < |A| && k < |A| && j < n && kv != 0.0
    ensures IsMatrix(B, |A|, n) && SameKernel(B, A, n)
    ensures r <= k && kv == A[k][j] && (forall i, c :: r <= i < |A| && 0 <= c < j ==> A[i][c] == 0.0) ==>
      (forall i :: 0 <= i < |A| ==> B[i][j] == if i == r then 1.0 else 0.0) &&
      (forall i, c :: 0 <= i < |A| && 0 <= c < j ==> B[i][c] == A[i][c])
    ensures B == PivotStep(A, n, r, j, k, kv)
  {
    B := ScaleRow(A, k, kv);
    if k != r {
      B := SwapRows(B, k, r);
    }
    B := EliminateColumn(B, n, r, j);
    assert B == PivotStep(A, n, r, j, k, kv);
    PivotStepKernel(A, n, r, j, k, kv);
    PivotStepEffect(A, n, r, j, k, kv);
  }

  /** PivotStepColumns, stated for every candidate row with the conditions as a hypothesis. */
  lemma {:induction false} PivotStepEffect(A: Matrix, n: nat, r: nat, j: nat, k: nat, kv: real)
    requires IsMatrix(A, |A|, n) && r < |A| && k < |A| && j < n && kv != 0.0
    ensures IsMatrix(PivotStep(A, n, r, j, k, kv), |A|, n)
    ensures r <= k && kv == A[k][j] && (forall i, c :: r <= i < |A| && 0 <= c < j ==> A[i][c] == 0.0) ==>
      (forall i :: 0 <= i < |A| ==> PivotStep(A, n, r, j, k, kv)[i][j] == if i == r then 1.0 else 0.0) &&
      (forall i, c :: 0 <= i < |A| && 0 <= c < j ==> PivotStep(A, n, r, j, k, kv)[i][c] == A[i][c])
  {
    PivotStepKernel(A, n, r, j, k, kv);
    if r <= k && kv == A[k][j] && (forall i, c :: r <= i < |A| && 0 <= c < j ==> A[i][c] == 0.0) {
      PivotStepColumns(A, n, r, j, k, kv);
    }
  }

  /** When the largest candidate in column j is zero, the whole column below the pivot rows is zero. */
  lemma {:induction false} ZeroPivotColumn(A: Matrix, n: nat, pivots: seq<nat>, j: nat, k: nat)
    requires IsMatrix(A, |A|, n) && |pivots| <= k < |A| && j < n && A[k][j] == 0.0
    requires forall i :: |pivots| <= i < |A| ==> RealAbs(A[i][j]) <= RealAbs(A[k][j])
    ensures forall i :: |pivots| <= i < |A| ==> A[i][j] == 0.0
  {
  }

  /**
   One pass of the column sweep over column j with r = |pivots| rows already
   reduced: pick the pivot; if it is nonzero, normalise it, swap it into row r
   and clear the rest of column j (`found`); otherwise move on.
   */
  method SweepColumn(A: Matrix, n: nat, ghost pivots: seq<nat>, r: nat, j: nat)
    returns (B: Matrix, found: bool, ghost pivots': seq<nat>)
    requires Rref(A, n, pivots, j) && j < n && r == |pivots| < |A|
    ensures |B| == |A| && Rref(B, n, pivots', j + 1) && SameKernel(B, A, n)
    ensures pivots' == if found then pivots + [j] else pivots
    ensures !found ==> B == A && forall i :: r <= i < |A| ==> A[i][j] == 0.0
  {
    var k, kv := SelectPivot(A, n, r, j);
    if kv != 0.0 {
      B := ApplyPivot(A, n, r, j, k, kv);
      PivotStepKeepsRref(A, n, pivots, j, k, kv);
      found, pivots' := true, pivots + [j];
    } else {
      ZeroPivotColumn(A, n, pivots, j, k);
      SkipKeepsRref(A, n, pivots, j);
      B, found, pivots' := A, false, pivots;
    }
  }

  /** Once every row holds a pivot, the remaining columns keep the echelon form. */
  lemma {:induction false} FullRankRref(A: Matrix, n: nat, pivots: seq<nat>, j: nat)
    requires Rref(A, n, pivots, j) && |pivots| == |A| && j <= n
    ensures Rref(A, n, pivots, n)
  {
  }

  /**
   `gauss`: Gauss-Jordan elimination. The result has the shape of the input, is
   in reduced row-echelon form (with pivot columns `pivots`), and has the same
   kernel as the input.
   */
  method Gauss(A0: Matrix, n: nat) returns (A: Matrix, ghost pivots: seq<nat>)
    requires IsMatrix(A0, |A0|, n)
    ensures IsMatrix(A, |A0|, n)
    ensures Rref(A, n, pivots, n)
    ensures SameKernel(A, A0, n)
  {
    A := A0;
    pivots := [];
    var r: nat := 0;
    var j: nat := 0;
    while j < n && r < |A|
      invariant |A| == |A0| && j <= n && r == |pivots|
      invariant Rref(A, n, pivots, j)
      invariant SameKernel(A, A0, n)
    {
      ghost var before := A;
      var found;
      A, found, pivots := SweepColumn(A, n, pivots, r, j);
      SameKernelTransitive(A, before, A0, n);
      if found {
        r := r + 1;
      }
      j := j + 1;
    }
    if r == |A| {
      FullRankRref(A, n, pivots, j);
    }
  }

  // ---------------------------------------------------------------------------
  // Augmented systems

  /** [A | B]: the rows of A extended by the rows of B. */
  function Augment(A: Matrix, B: Matrix, n: nat, p: nat): (AB: Matrix)
    requires IsMatrix(A, |A|, n) && IsMatrix(B, |A|, p)
    ensures IsMatrix(AB, |A|, n + p) && forall i :: 0 <= i < |A| ==> AB[i] == A[i] + B[i]
  {
    seq(|A|, i requires 0 <= i < |A| => A[i] + B[i])
  }

  /** b as a one-column matrix. */
  function ColumnMatrix(b: Vector): (B: Matrix)
    ensures IsMatrix(B, |b|, 1) && forall i :: 0 <= i < |b| ==> B[i] == [b[i]]
  {
    seq(|b|, i requires 0 <= i < |b| => [b[i]])
  }

  /**
   In a reduced [A | B] with nonsingular A, a column d left of which every
   column is a unit column has a nonzero entry from the diagonal down:
   otherwise (-R[0][d], ..., -R[d-1][d], 1, 0, ..., 0) would be a nonzero
   kernel vector of A.
   */
  lemma {:induction false} PivotCandidate(A: Matrix, B: Matrix, p: nat, R: Matrix, d: nat) returns (i: nat)
    requires Nonsingular(A) && IsMatrix(B, |A|, p)
    requires IsMatrix(R, |A|, |A| + p) && SameKernel(R, Augment(A, B, |A|, p), |A| + p)
    requires d < |A|
    requires forall i, t :: 0 <= i < |A| && 0 <= t < d ==> R[i][t] == if i == t then 1.0 else 0.0
    ensures d <= i < |A| && R[i][d] != 0.0
  {
    if forall i :: d <= i < |A| ==> R[i][d] == 0.0 {
      var y := DependentColumnKernel(A, B, p, R, d);
      KernelVectorIsZero(A, y);
      assert false;
    }
    i :| d <= i < |A| && R[i][d] != 0.0;
  }

  /** A column d of a reduced [A | B] as in PivotCandidate but vanishing from the diagonal down gives a kernel vector of A with entry d equal to 1. */
  lemma {:induction false} DependentColumnKernel(A: Matrix, B: Matrix, p: nat, R: Matrix, d: nat) returns (y: Vector)
    requires IsMatrix(A, |A|, |A|) && IsMatrix(B, |A|, p)
    requires IsMatrix(R, |A|, |A| + p) && SameKernel(R, Augment(A, B, |A|, p), |A| + p)
    requires d < |A|
    requires forall i, t :: 0 <= i < |A| && 0 <= t < d ==> R[i][t] == if i == t then 1.0 else 0.0
    requires forall i :: d <= i < |A| ==> R[i][d] == 0.0
    ensures |y| == |A| && IsKernel(A, y) && y[d] == 1.0
  {
    var N := |A|;
    var AB := Augment(A, B, N, p);
    var x := DependentVector(R, N + p, d);
    forall i | 0 <= i < N
      ensures |R[i]| == N + p && Dot(R[i], x) == 0.0
    {
      DependentRowDot(R[i], x, i, d);
    }
    KernelShared(R, AB, N + p, x);
    LeftBlockKernel(A, B, AB, p, x);
    y := x[..N];
  }

  /** The vector (-R[0][d], ..., -R[d-1][d], 1, 0, ..., 0) of length n. */
  function DependentVector(R: Matrix, n: nat, d: nat): (x: Vector)
    requires d < n && d <= |R| && forall i :: 0 <= i < d ==> |R[i]| == n
    ensures |x| == n && x[d] == 1.0
    ensures forall t :: 0 <= t < d ==> x[t] == -R[t][d]
    ensures forall t :: d < t < n ==> x[t] == 0.0
  {
    seq(n, k requires 0 <= k < n => if k < d then -R[k][d] else if k == d then 1.0 else 0.0)
  }

  /** Every kernel vector of a nonsingular matrix is zero. */
  lemma {:induction false} KernelVectorIsZero(A: Matrix, y: Vector)
    requires Nonsingular(A) && |y| == |A| && IsKernel(A, y)
    ensures forall d :: 0 <= d < |y| ==> y[d] == 0.0
  {
    assert y == Zeros(|A|);
  }

  /** A row that is e_i in its first d entries is orthogonal to the dependent-column vector of column d. */
  lemma {:induction false} DependentRowDot(row: Vector, x: Vector, i: nat, d: nat)
    requires |row| == |x| && d < |x|
    requires forall t :: 0 <= t < d ==> row[t] == if i == t then 1.0 else 0.0
    requires forall t :: d < t < |x| ==> x[t] == 0.0
    requires x[d] == 1.0
    requires i < d ==> x[i] == -row[d]
    requires i >= d ==> row[d] == 0.0
    ensures Dot(row, x) == 0.0
  {
    var n := |x|;
    var r1, r2, x1, x2 := row[..d], row[d..], x[..d], x[d..];
    assert row == r1 + r2 && x == x1 + x2;
    DotAppend(r1, r2, x1, x2);
    assert x2 == Unit(n - d, 0);
    DotUnit(r2, 0);
    if i < d {
      assert r1 == Unit(d, i);
      DotUnit(x1, i);
    } else {
      forall t | 0 <= t < d ensures r1[t] * x1[t] == 0.0 {
        assert r1[t] == 0.0;
      }
      DotNoTerms(r1, x1);
    }
  }


  /** A kernel vector of [A | B] that is zero on the B block restricts to a kernel vector of A. */
  lemma {:induction false} LeftBlockKernel(A: Matrix, B: Matrix, AB: Matrix, p: nat, x: Vector)
    requires IsMatrix(A, |A|, |A|) && IsMatrix(B, |A|, p) && AB == Augment(A, B, |A|, p)
    requires |x| == |A| + p && IsKernel(AB, x)
    requires forall k :: |A| <= k < |x| ==> x[k] == 0.0
    ensures IsKernel(A, x[..|A|])
  {
    var N := |A|;
    var y, z := x[..N], x[N..];
    assert x == y + z;
    forall i | 0 <= i < N
      ensures Dot(A[i], y) == 0.0
    {
      assert Dot(AB[i], x) == 0.0;
      DotAppend(A[i], B[i], y, z);
      DotNoTerms(B[i], z);
    }
  }

  /** The pivots of a reduced [A | B] with nonsingular A sit on the diagonal of the A block. */
  lemma {:induction false} PivotsOnDiagonal(A: Matrix, B: Matrix, p: nat, R: Matrix, pivots: seq<nat>, c: nat)
    requires Nonsingular(A) && IsMatrix(B, |A|, p) && |R| == |A|
    requires Rref(R, |A| + p, pivots, |A| + p) && SameKernel(R, Augment(A, B, |A|, p), |A| + p)
    requires c <= |A|
    ensures c <= |pivots| && forall t :: 0 <= t < c ==> pivots[t] == t
    decreases c
  {
    if c > 0 {
      var d := c - 1;
      PivotsOnDiagonal(A, B, p, R, pivots, d);
      UnitColumnsBefore(R, |A| + p, pivots, d);
      var i := PivotCandidate(A, B, p, R, d);
      PivotOnDiagonal(R, |A| + p, pivots, d, i);
    }
  }

  /**
   With pivots 0..d-1 on the diagonal, a nonzero entry of column d in row d
   or below means column d holds the next pivot.
   */
  lemma {:induction false} PivotOnDiagonal(R: Matrix, n: nat, pivots: seq<nat>, d: nat, i: nat)
    requires Rref(R, n, pivots, n) && d < n && d <= |pivots|
    requires forall t :: 0 <= t < d ==> pivots[t] == t
    requires d <= i < |R| && R[i][d] != 0.0
    ensures d < |pivots| && pivots[d] == d
  {
    assert i < |pivots|;
    assert pivots[i] <= d;
    assert pivots[d] >= d by {
      if d > 0 { assert pivots[d - 1] == d - 1 < pivots[d]; }
    }
    assert pivots[d] <= pivots[i];
  }

  /** With pivots 0..d-1 on the diagonal, the first d columns are unit columns. */
  lemma {:induction false} UnitColumnsBefore(R: Matrix, n: nat, pivots: seq<nat>, d: nat)
    requires Rref(R, n, pivots, n) && d <= |pivots| && d <= n
    requires forall t :: 0 <= t < d ==> pivots[t] == t
    ensures forall i, t :: 0 <= i < |R| && 0 <= t < d ==> R[i][t] == if i == t then 1.0 else 0.0
  {
    forall i, t | 0 <= i < |R| && 0 <= t < d
      ensures R[i][t] == if i == t then 1.0 else 0.0
    {
      assert R[i][pivots[t]] == if i == t then 1.0 else 0.0;
    }
  }

  /** For nonsingular A, the A block of a reduced [A | B] is the identity. */
  lemma {:induction false} LeftBlockIsIdentity(A: Matrix, B: Matrix, p: nat, R: Matrix, pivots: seq<nat>)
    requires Nonsingular(A) && IsMatrix(B, |A|, p) && |R| == |A|
    requires Rref(R, |A| + p, pivots, |A| + p) && SameKernel(R, Augment(A, B, |A|, p), |A| + p)
    ensures forall i, c :: 0 <= i < |A| && 0 <= c < |A| ==> R[i][c] == if i == c then 1.0 else 0.0
  {
    PivotsOnDiagonal(A, B, p, R, pivots, |A|);
    UnitColumnsBefore(R, |A| + p, pivots, |A|);
  }

  // ---------------------------------------------------------------------------
  // gauss_solve

  /**
   `gauss_solve`: reduce [A | b] and read solution[i] = R[i][N] / R[i][i].
   For nonsingular A the diagonal is 1 and the result solves A x = b exactly.
   */
  method GaussSolve(A: Matrix, b: Vector) returns (x: Vector)
    requires Nonsingular(A) && |b| == |A|
    ensures |x| == |A| && MatVec(A, x) == b
  {
    var N := |A|;
    var R, pivots := Gauss(Augment(A, ColumnMatrix(b), N, 1), N + 1);
    LeftBlockIsIdentity(A, ColumnMatrix(b), 1, R, pivots);
    x := seq(N, i requires 0 <= i < N => R[i][N] / R[i][i]);
    SolutionFromReduction(A, b, R, x);
  }

  lemma {:induction false} SolutionFromReduction(A: Matrix, b: Vector, R: Matrix, x: Vector)
    requires IsMatrix(A, |A|, |A|) && |b| == |A| && IsMatrix(R, |A|, |A| + 1)
    requires SameKernel(R, Augment(A, ColumnMatrix(b), |A|, 1), |A| + 1)
    requires forall i, c :: 0 <= i < |A| && 0 <= c < |A| ==> R[i][c] == if i == c then 1.0 else 0.0
    requires |x| == |A| && forall i :: 0 <= i < |A| ==> x[i] == R[i][|A|]
    ensures MatVec(A, x) == b
  {
    var N := |A|;
    var AB := Augment(A, ColumnMatrix(b), N, 1);
    SolvedRowsDot(R, x);
    KernelShared(R, AB, N + 1, x + [-1.0]);
    AugmentedKernel(A, b, x);
  }

  /** Every row (e_i | x_i) of a reduced [I | x] is orthogonal to (x, -1). */
  lemma {:induction false} SolvedRowsDot(R: Matrix, x: Vector)
    requires IsMatrix(R, |x|, |x| + 1)
    requires forall i, c :: 0 <= i < |x| && 0 <= c < |x| ==> R[i][c] == if i == c then 1.0 else 0.0
    requires forall i :: 0 <= i < |x| ==> x[i] == R[i][|x|]
    ensures forall i :: 0 <= i < |R| ==> |R[i]| == |x| + 1 && Dot(R[i], x + [-1.0]) == 0.0
  {
    forall i | 0 <= i < |x|
      ensures Dot(R[i], x + [-1.0]) == 0.0
    {
      assert R[i] == Unit(|x|, i) + [x[i]];
      SolvedRowDot(x, i);
    }
  }

  /** (x, -1) in the kernel of [A | b] means A x = b. */
  lemma {:induction false} AugmentedKernel(A: Matrix, b: Vector, x: Vector)
    requires IsMatrix(A, |A|, |A|) && |b| == |A| && |x| == |A|
    requires IsKernel(Augment(A, ColumnMatrix(b), |A|, 1), x + [-1.0])
    ensures MatVec(A, x) == b
  {
    var AB := Augment(A, ColumnMatrix(b), |A|, 1);
    forall i | 0 <= i < |A|
      ensures Dot(A[i], x) == b[i]
    {
      assert AB[i] == A[i] + [b[i]];
      assert Dot(AB[i], x + [-1.0]) == 0.0;
      DotAppend(A[i], [b[i]], x, [-1.0]);
    }
  }

  /** A reduced row (e_i | x_i) is orthogonal to (x, -1). */
  lemma {:induction false} SolvedRowDot(x: Vector, i: nat)
    requires i < |x|
    ensures Dot(Unit(|x|, i) + [x[i]], x + [-1.0]) == 0.0
  {
    DotAppend(Unit(|x|, i), [x[i]], x, [-1.0]);
    DotUnit(x, i);
  }

  /** A kernel vector of one of two matrices with the same kernel is a kernel vector of the other. */
  lemma {:induction false} KernelShared(A: Matrix, B: Matrix, n: nat, x: Vector)
    requires SameKernel(A, B, n) && |x| == n
    requires forall i :: 0 <= i < |A| ==> |A[i]| == n && Dot(A[i], x) == 0.0
    ensures IsKernel(B, x)
  {
    assert IsKernel(A, x);
  }

  /** A nonsingular system has at most one solution, so `gauss_solve` returns the solution. */
  lemma {:induction false} SolutionUnique(A: Matrix, x: Vector, y: Vector)
    requires Nonsingular(A) && |x| == |A| && |y| == |A|
    requires MatVec(A, x) == MatVec(A, y)
    ensures x == y
  {
    var z := seq(|A|, k requires 0 <= k < |A| => x[k] - y[k]);
    forall r | 0 <= r < |A|
      ensures Dot(A[r], z) == 0.0
    {
      assert Dot(A[r], x) == MatVec(A, x)[r] == MatVec(A, y)[r] == Dot(A[r], y);
      DotSubRight(A[r], x, y, z);
    }
    KernelVectorIsZero(A, z);
    forall k | 0 <= k < |A| ensures x[k] == y[k] {
      assert z[k] == 0.0;
    }
  }

  // ---------------------------------------------------------------------------
  // gauss_inv

  /**
   `gauss_inv`: reduce [A | I] and return the right block. For nonsingular A it
   is the two-sided inverse.
   */
  method GaussInv(A: Matrix) returns (inv: Matrix)
    requires IsMatrix(A, |A|, |A|)
    ensures IsMatrix(inv, |A|, |A|)
    ensures Nonsingular(A) ==> MatMul(inv, A, |A|) == Identity(|A|) && MatMul(A, inv, |A|) == Identity(|A|)
  {
    var N := |A|;
    var R, pivots := Gauss(Augment(A, Identity(N), N, N), N + N);
    inv := seq(N, i requires 0 <= i < N => R[i][N..]);
    if Nonsingular(A) {
      LeftBlockIsIdentity(A, Identity(N), N, R, pivots);
      InverseFromReduction(A, R, inv);
    }
  }

  lemma {:induction false} InverseFromReduction(A: Matrix, R: Matrix, inv: Matrix)
    requires IsMatrix(A, |A|, |A|) && IsMatrix(R, |A|, |A| + |A|)
    requires SameKernel(R, Augment(A, Identity(|A|), |A|, |A|), |A| + |A|)
    requires forall i, c :: 0 <= i < |A| && 0 <= c < |A| ==> R[i][c] == if i == c then 1.0 else 0.0
    requires IsMatrix(inv, |A|, |A|) && forall i :: 0 <= i < |A| ==> inv[i] == R[i][|A|..]
    ensures MatMul(inv, A, |A|) == Identity(|A|) && MatMul(A, inv, |A|) == Identity(|A|)
  {
    var N := |A|;
    var AI := Augment(A, Identity(N), N, N);
    forall i | 0 <= i < N ensures R[i] == Unit(N, i) + inv[i] {
      assert R[i] == R[i][..N] + R[i][N..];
      assert R[i][..N] == Unit(N, i);
    }
    forall i | 0 <= i < N ensures AI[i] == A[i] + Unit(N, i) {
      assert AI[i] == A[i] + Identity(N)[i];
    }
    forall c | 0 <= c < N
      ensures forall i :: 0 <= i < N ==> Dot(inv[i], Column(A, c)) == if i == c then 1.0 else 0.0
    {
      LeftInverseColumn(A, AI, R, inv, c);
    }
    IdentityProduct(inv, A, N);
    forall k | 0 <= k < N
      ensures forall i :: 0 <= i < N ==> Dot(A[i], Column(inv, k)) == if i == k then 1.0 else 0.0
    {
      RightInverseColumn(A, AI, R, inv, k);
    }
    IdentityProduct(A, inv, N);
  }

  /** Column c of inv A: the kernel vector (e_c, -A e_c) of [A | I] is a kernel vector of [I | inv]. */
  lemma {:induction false} LeftInverseColumn(A: Matrix, AI: Matrix, R: Matrix, inv: Matrix, c: nat)
    requires IsMatrix(A, |A|, |A|) && |R| == |A| && |AI| == |A| && c < |A| && IsMatrix(inv, |A|, |A|)
    requires SameKernel(R, AI, |A| + |A|)
    requires forall i :: 0 <= i < |A| ==> AI[i] == A[i] + Unit(|A|, i)
    requires forall i :: 0 <= i < |A| ==> R[i] == Unit(|A|, i) + inv[i]
    ensures forall i :: 0 <= i < |A| ==> Dot(inv[i], Column(A, c)) == if i == c then 1.0 else 0.0
  {
    var N := |A|;
    var col := Column(A, c);
    var neg := seq(N, k requires 0 <= k < N => -col[k]);
    var x := Unit(N, c) + neg;
    LeftKernelVector(A, AI, neg, c);
    KernelShared(AI, R, N + N, x);
    LeftInverseRows(R, inv, col, neg, c);
  }

  /** Rows (e_i | w_i) orthogonal to (e_c, -v) have w_i . v == delta(i, c). */
  lemma {:induction false} LeftInverseRows(R: Matrix, inv: Matrix, v: Vector, neg: Vector, c: nat)
    requires IsMatrix(inv, |v|, |v|) && |R| == |v| && |neg| == |v| && c < |v|
    requires forall i :: 0 <= i < |v| ==> R[i] == Unit(|v|, i) + inv[i]
    requires forall k :: 0 <= k < |v| ==> neg[k] == -v[k]
    requires IsKernel(R, Unit(|v|, c) + neg)
    ensures forall i :: 0 <= i < |v| ==> Dot(inv[i], v) == if i == c then 1.0 else 0.0
  {
    var N := |v|;
    forall i | 0 <= i < N
      ensures Dot(inv[i], v) == if i == c then 1.0 else 0.0
    {
      var w := inv[i];
      assert R[i] == Unit(N, i) + w;
      UnitBlockRowDot(w, v, neg, i, c);
      assert Dot(R[i], Unit(N, c) + neg) == 0.0;
    }
  }

  /** (e_c, -A e_c) is orthogonal to every row of [A | I]. */
  lemma {:induction false} LeftKernelVector(A: Matrix, AI: Matrix, neg: Vector, c: nat)
    requires IsMatrix(A, |A|, |A|) && |AI| == |A| && c < |A| && |neg| == |A|
    requires forall i :: 0 <= i < |A| ==> AI[i] == A[i] + Unit(|A|, i)
    requires forall k :: 0 <= k < |A| ==> neg[k] == -A[k][c]
    ensures forall i :: 0 <= i < |AI| ==> |AI[i]| == |A| + |A| && Dot(AI[i], Unit(|A|, c) + neg) == 0.0
  {
    var N := |A|;
    forall i | 0 <= i < N
      ensures Dot(AI[i], Unit(N, c) + neg) == 0.0
    {
      var a := A[i];
      assert AI[i] == a + Unit(N, i) && neg[i] == -a[c];
      IdentityBlockKernelRow(a, neg, i, c);
    }
  }

  /** Column k of A inv: the kernel vector (-inv e_k, e_k) of [I | inv] is a kernel vector of [A | I]. */
  lemma {:induction false} RightInverseColumn(A: Matrix, AI: Matrix, R: Matrix, inv: Matrix, k: nat)
    requires IsMatrix(A, |A|, |A|) && |R| == |A| && |AI| == |A| && k < |A| && IsMatrix(inv, |A|, |A|)
    requires SameKernel(R, AI, |A| + |A|)
    requires forall i :: 0 <= i < |A| ==> AI[i] == A[i] + Unit(|A|, i)
    requires forall i :: 0 <= i < |A| ==> R[i] == Unit(|A|, i) + inv[i]
    ensures forall i :: 0 <= i < |A| ==> Dot(A[i], Column(inv, k)) == if i == k then 1.0 else 0.0
  {
    var N := |A|;
    var col := Column(inv, k);
    var neg := seq(N, c requires 0 <= c < N => -col[c]);
    var y := neg + Unit(N, k);
    forall i | 0 <= i < N
      ensures Dot(R[i], y) == 0.0
    {
      var w := inv[i];
      assert R[i] == Unit(N, i) + w && neg[i] == -w[k];
      UnitBlockKernelRow(w, neg, i, k);
    }
    KernelShared(R, AI, N + N, y);
    forall i | 0 <= i < N
      ensures Dot(A[i], col) == if i == k then 1.0 else 0.0
    {
      var a := A[i];
      assert AI[i] == a + Unit(N, i);
      IdentityBlockRowDot(a, col, neg, i, k);
      assert Dot(AI[i], y) == 0.0;
    }
  }

  /** (a | e_i) is orthogonal to (e_c, z) when z_i == -a_c. */
  lemma {:induction false} IdentityBlockKernelRow(a: Vector, z: Vector, i: nat, c: nat)
    requires |a| == |z| && i < |a| && c < |a| && z[i] == -a[c]
    ensures Dot(a + Unit(|a|, i), Unit(|a|, c) + z) == 0.0
  {
    DotAppend(a, Unit(|a|, i), Unit(|a|, c), z);
    DotUnit(a, c);
    DotUnit(z, i);
  }

  /** (e_i | w) is orthogonal to (z, e_k) when z_i == -w_k. */
  lemma {:induction false} UnitBlockKernelRow(w: Vector, z: Vector, i: nat, k: nat)
    requires |w| == |z| && i < |w| && k < |w| && z[i] == -w[k]
    ensures Dot(Unit(|w|, i) + w, z + Unit(|w|, k)) == 0.0
  {
    DotAppend(Unit(|w|, i), w, z, Unit(|w|, k));
    DotUnit(z, i);
    DotUnit(w, k);
  }

  /** (e_i | w) . (e_c, -v) == delta(i, c) - w . v */
  lemma {:induction false} UnitBlockRowDot(w: Vector, v: Vector, z: Vector, i: nat, c: nat)
    requires |w| == |v| == |z| && i < |w| && c < |w|
    requires forall k :: 0 <= k < |z| ==> z[k] == -v[k]
    ensures Dot(Unit(|w|, i) + w, Unit(|w|, c) + z) == (if i == c then 1.0 else 0.0) - Dot(w, v)
  {
    DotAppend(Unit(|w|, i), w, Unit(|w|, c), z);
    DotUnit(Unit(|w|, c), i);
    DotNegRight(w, v, z);
  }

  /** (a | e_i) . (-v, e_k) == delta(i, k) - a . v */
  lemma {:induction false} IdentityBlockRowDot(a: Vector, v: Vector, z: Vector, i: nat, k: nat)
    requires |a| == |v| == |z| && i < |a| && k < |a|
    requires forall c :: 0 <= c < |z| ==> z[c] == -v[c]
    ensures Dot(a + Unit(|a|, i), z + Unit(|a|, k)) == (if i == k then 1.0 else 0.0) - Dot(a, v)
  {
    DotAppend(a, Unit(|a|, i), z, Unit(|a|, k));
    DotUnit(Unit(|a|, k), i);
    DotNegRight(a, v, z);
  }
}
