/**
 The worked examples of the repository's test programs, stated as proved
 facts: the 3 x 3 system of the Gauss-Jordan test, the three-point finite
 difference scheme, the cubic Hermite spline and the second-order finite
 volume scheme.
 */
module Scenarios {
  import opened Matrices
  import opened Polynomials
  import opened Schemes
  import Gauss

  lemma {:induction false} Dot3(u: Vector, v: Vector)
    requires |u| == |v| == 3
    ensures Dot(u, v) == u[0] * v[0] + u[1] * v[1] + u[2] * v[2]
  {
    var u1, v1 := u[..1], v[..1];
    var u2, v2 := u[..2], v[..2];
    assert u2[..1] == u1 && v2[..1] == v1;
    assert u1[..0] == [] && v1[..0] == [];
    assert Dot(u1, v1) == u[0] * v[0];
    assert Dot(u2, v2) == Dot(u1, v1) + u[1] * v[1];
    assert Dot(u, v) == Dot(u2, v2) + u[2] * v[2];
  }

  lemma {:induction false} Dot4(u: Vector, v: Vector)
    requires |u| == |v| == 4
    ensures Dot(u, v) == u[0] * v[0] + u[1] * v[1] + u[2] * v[2] + u[3] * v[3]
  {
    Dot3(u[..3], v[..3]);
    assert Dot(u, v) == Dot(u[..3], v[..3]) + u[3] * v[3];
  }

  lemma {:induction false} PowSmall(x: real)
    ensures Pow(x, 1) == x && Pow(x, 2) == x * x && Pow(x, 3) == x * x * x
  {
    assert Pow(x, 1) == x;
    assert Pow(x, 2) == x * x;
  }

  lemma {:induction false} Powers3(x: real)
    ensures Powers(x, 3) == [1.0, x, x * x]
  {
    PowSmall(x);
  }

  lemma {:induction false} Powers4(x: real)
    ensures Powers(x, 4) == [1.0, x, x * x, x * x * x]
  {
    PowSmall(x);
  }

  lemma {:induction false} SlopePowers4(x: real)
    ensures SlopePowers(x, 4) == [0.0, 1.0, 2.0 * x, 3.0 * (x * x)]
  {
    PowSmall(x);
  }

  lemma {:induction false} MonomialIntegrals3(a: real, b: real)
    ensures MonomialIntegrals(a, b, 3) == [b - a, (b * b - a * a) / 2.0, (b * b * b - a * a * a) / 3.0]
  {
    var w := MonomialIntegrals(a, b, 3);
    PowSmall(a);
    PowSmall(b);
    assert w[0] * 1.0 == b - a;
    assert w[1] * 2.0 == b * b - a * a;
    assert w[2] * 3.0 == b * b * b - a * a * a;
  }

  /** Column c of a right inverse of M solves M x = e_c. */
  lemma {:induction false} RightInverseColumns(M: Matrix, inv: Matrix, n: nat)
    requires IsMatrix(M, n, n) && IsMatrix(inv, n, n)
    requires MatMul(M, inv, n) == Identity(n)
    ensures forall c :: 0 <= c < n ==> MatVec(M, Column(inv, c)) == Unit(n, c)
  {
    forall c | 0 <= c < n ensures MatVec(M, Column(inv, c)) == Unit(n, c) {
      forall r | 0 <= r < n ensures MatVec(M, Column(inv, c))[r] == Unit(n, c)[r] {
        assert MatMul(M, inv, n)[r][c] == Dot(M[r], Column(inv, c));
      }
    }
  }

  // ---------------------------------------------------------------------------
  // The system of the Gauss-Jordan test, also the three-point scheme's matrix

  /** Rows [1, x, x^2] at x = -1, 0, 1. */
  const ThreePoint: Matrix := [[1.0, -1.0, 1.0], [1.0, 0.0, 0.0], [1.0, 1.0, 1.0]]

  /** Its inverse, column i holding the weights of the i-th point. */
  const ThreePointInverse: Matrix := [[0.0, 1.0, 0.0], [-0.5, 0.0, 0.5], [0.5, -1.0, 0.5]]

  lemma {:induction false} ThreePointNonsingular()
    ensures Nonsingular(ThreePoint)
  {
    forall x: Vector | |x| == 3 && IsKernel(ThreePoint, x)
      ensures x == Zeros(3)
    {
      var e := MatVec(ThreePoint, x);
      assert e == Zeros(3);
      ThreePointColumn(x, e);
    }
  }

  /** `gauss_solve(A, {1, 0, 2})` is (0, 1/2, 3/2) and `gauss_inv(A)` is the inverse above. */
  method GaussExample() returns (x: Vector, inv: Matrix)
    ensures x == [0.0, 0.5, 1.5]
    ensures inv == ThreePointInverse
  {
    ThreePointNonsingular();
    x := Gauss.GaussSolve(ThreePoint, [1.0, 0.0, 2.0]);
    ThreePointSolution(x);
    inv := Gauss.GaussInv(ThreePoint);
    IsThreePointInverse(inv);
  }

  lemma {:induction false} ThreePointSolution(x: Vector)
    requires |x| == 3 && MatVec(ThreePoint, x) == [1.0, 0.0, 2.0]
    ensures x == [0.0, 0.5, 1.5]
  {
    ThreePointColumn(x, [1.0, 0.0, 2.0]);
  }


  /** The three-point system solved by hand: the solution in terms of the right-hand side. */
  lemma {:induction false} ThreePointColumn(v: Vector, e: Vector)
    requires |v| == 3 && MatVec(ThreePoint, v) == e
    ensures v[0] == e[1] && v[1] == (e[2] - e[0]) / 2.0 && v[2] == (e[0] + e[2]) / 2.0 - e[1]
  {
    Dot3(ThreePoint[0], v);
    Dot3(ThreePoint[1], v);
    Dot3(ThreePoint[2], v);
  }

  /** Any right inverse of the three-point matrix is the inverse above. */
  lemma {:induction false} IsThreePointInverse(inv: Matrix)
    requires IsMatrix(inv, 3, 3)
    requires Nonsingular(ThreePoint) ==> MatMul(ThreePoint, inv, 3) == Identity(3)
    ensures inv == ThreePointInverse
  {
    ThreePointNonsingular();
    ThreePointRightInverse(inv);
  }

  /** Solving the three columns of M X = I one by one. */
  lemma {:induction false} ThreePointRightInverse(inv: Matrix)
    requires IsMatrix(inv, 3, 3) && MatMul(ThreePoint, inv, 3) == Identity(3)
    ensures inv == ThreePointInverse
  {
    RightInverseColumns(ThreePoint, inv, 3);
    ThreePointColumn(Column(inv, 0), Unit(3, 0));
    ThreePointColumn(Column(inv, 1), Unit(3, 1));
    ThreePointColumn(Column(inv, 2), Unit(3, 2));
    assert inv[0] == ThreePointInverse[0] by {
      assert inv[0][0] == Column(inv, 0)[0] && inv[0][1] == Column(inv, 1)[0] && inv[0][2] == Column(inv, 2)[0];
    }
    assert inv[1] == ThreePointInverse[1] by {
      assert inv[1][0] == Column(inv, 0)[1] && inv[1][1] == Column(inv, 1)[1] && inv[1][2] == Column(inv, 2)[1];
    }
    assert inv[2] == ThreePointInverse[2] by {
      assert inv[2][0] == Column(inv, 0)[2] && inv[2][1] == Column(inv, 1)[2] && inv[2][2] == Column(inv, 2)[2];
    }
    assert inv == [inv[0], inv[1], inv[2]];
  }

  // ---------------------------------------------------------------------------
  // Three-point finite differences

  const ThreePointValues: seq<Constraint> := [PointValue(-1.0), PointValue(0.0), PointValue(1.0)]

  lemma {:induction false} ThreePointBuild()
    ensures Build(2, ThreePointValues).matrix == ThreePoint
  {
    var M := Build(2, ThreePointValues).matrix;
    BuildMonomialRows(2, ThreePointValues);
    Powers3(-1.0);
    Powers3(0.0);
    Powers3(1.0);
    assert M == [Powers(-1.0, 3), Powers(0.0, 3), Powers(1.0, 3)];
  }

  /**
   The scheme from the values at -1, 0 and 1: its derivative at 0 has the
   central-difference weights (-1/2, 0, 1/2) and its second derivative the
   weights (1, -2, 1).
   */
  method CentralDifferences() returns (S: Polynomial)
    ensures S.coeffs == ThreePointInverse
    ensures ValueAt(Derivate(S, 1), 0.0) == [-0.5, 0.0, 0.5]
    ensures ValueAt(Derivate(S, 2), 0.0) == [1.0, -2.0, 1.0]
  {
    ThreePointBuild();
    S := Solve(Build(2, ThreePointValues));
    IsThreePointInverse(S.coeffs);
    DerivativesAtZero(S);
  }

  lemma {:induction false} DerivativesAtZero(S: Polynomial)
    requires S.coeffs == ThreePointInverse
    ensures ValueAt(Derivate(S, 1), 0.0) == [-0.5, 0.0, 0.5]
    ensures ValueAt(Derivate(S, 2), 0.0) == [1.0, -2.0, 1.0]
  {
    var D1 := DeriveOnce(S);
    var D2 := DeriveOnce(D1);
    assert Derivate(S, 1) == D1;
    assert Derivate(S, 2) == D2;
    ValueAtZero(D1);
    ValueAtZero(D2);
    assert D1.coeffs[0] == [-0.5, 0.0, 0.5] by {
      assert D1.coeffs[0][0] == S.coeffs[1][0] && D1.coeffs[0][1] == S.coeffs[1][1] && D1.coeffs[0][2] == S.coeffs[1][2];
    }
    assert D2.coeffs[0] == [1.0, -2.0, 1.0] by {
      assert D2.coeffs[0][0] == D1.coeffs[1][0] == 2.0 * S.coeffs[2][0];
      assert D2.coeffs[0][1] == D1.coeffs[1][1] == 2.0 * S.coeffs[2][1];
      assert D2.coeffs[0][2] == D1.coeffs[1][2] == 2.0 * S.coeffs[2][2];
    }
  }


  // ---------------------------------------------------------------------------
  // Cubic Hermite spline

  const HermiteConstraints: seq<Constraint> := [PointValue(0.0), PointValue(1.0), Slope(0.0), Slope(1.0)]

  const HermiteMatrix: Matrix := [[1.0, 0.0, 0.0, 0.0], [1.0, 1.0, 1.0, 1.0], [0.0, 1.0, 0.0, 0.0], [0.0, 1.0, 2.0, 3.0]]

  /** The Hermite basis 1 - 3x^2 + 2x^3, 3x^2 - 2x^3, x - 2x^2 + x^3 and x^3 - x^2, one column each. */
  const HermiteBasis: Matrix := [[1.0, 0.0, 0.0, 0.0], [0.0, 0.0, 1.0, 0.0], [-3.0, 3.0, -2.0, -1.0], [2.0, -2.0, 1.0, 1.0]]

  /**
   The Hermite equations give the Hermite matrix, and its slope rows are
   `P.derivate()(0)` and `P.derivate()(1)` exactly as the code computes them.
   */
  lemma {:induction false} HermiteBuild()
    ensures Build(3, HermiteConstraints).matrix == HermiteMatrix
    ensures HermiteMatrix[2] == ValueAt(Derivate(GetPolynomial(3), 1), 0.0)
    ensures HermiteMatrix[3] == ValueAt(Derivate(GetPolynomial(3), 1), 1.0)
  {
    BuildRows(3, HermiteConstraints);
    SlopeAsWritten(GetPolynomial(3), 0.0);
    SlopeAsWritten(GetPolynomial(3), 1.0);
    var M := Build(3, HermiteConstraints).matrix;
    BuildMonomialRows(3, HermiteConstraints);
    Powers4(0.0);
    Powers4(1.0);
    SlopePowers4(0.0);
    SlopePowers4(1.0);
    assert M == [Powers(0.0, 4), Powers(1.0, 4), SlopePowers(0.0, 4), SlopePowers(1.0, 4)];
  }

  lemma {:induction false} HermiteNonsingular()
    ensures Nonsingular(HermiteMatrix)
  {
    forall x: Vector | |x| == 4 && IsKernel(HermiteMatrix, x)
      ensures x == Zeros(4)
    {
      var e := MatVec(HermiteMatrix, x);
      assert e == Zeros(4);
      HermiteColumn(x, e);
    }
  }

  /** The values at 0 and 1 and the slopes at 0 and 1 give the cubic Hermite basis. */
  method CubicHermite() returns (S: Polynomial)
    ensures S.coeffs == HermiteBasis
  {
    HermiteBuild();
    S := Solve(Build(3, HermiteConstraints));
    IsHermiteBasis(S.coeffs);
  }

  lemma {:induction false} HermiteColumn(v: Vector, e: Vector)
    requires |v| == 4 && MatVec(HermiteMatrix, v) == e
    ensures v[0] == e[0] && v[1] == e[2]
    ensures v[2] == 3.0 * (e[1] - e[0] - e[2]) - (e[3] - e[2]) && v[3] == (e[3] - e[2]) - 2.0 * (e[1] - e[0] - e[2])
  {
    Dot4(HermiteMatrix[0], v);
    Dot4(HermiteMatrix[1], v);
    Dot4(HermiteMatrix[2], v);
    Dot4(HermiteMatrix[3], v);
  }

  /** Any right inverse of the Hermite matrix is the Hermite basis. */
  lemma {:induction false} IsHermiteBasis(inv: Matrix)
    requires IsMatrix(inv, 4, 4)
    requires Nonsingular(HermiteMatrix) ==> MatMul(HermiteMatrix, inv, 4) == Identity(4)
    ensures inv == HermiteBasis
  {
    HermiteNonsingular();
    HermiteRightInverse(inv);
  }

  /** Solving the four columns of M X = I one by one. */
  lemma {:induction false} HermiteRightInverse(inv: Matrix)
    requires IsMatrix(inv, 4, 4) && MatMul(HermiteMatrix, inv, 4) == Identity(4)
    ensures inv == HermiteBasis
  {
    RightInverseColumns(HermiteMatrix, inv, 4);
    HermiteColumn(Column(inv, 0), Unit(4, 0));
    HermiteColumn(Column(inv, 1), Unit(4, 1));
    HermiteColumn(Column(inv, 2), Unit(4, 2));
    HermiteColumn(Column(inv, 3), Unit(4, 3));
    assert inv[0] == HermiteBasis[0] by {
      assert inv[0][0] == Column(inv, 0)[0] && inv[0][1] == Column(inv, 1)[0] && inv[0][2] == Column(inv, 2)[0] && inv[0][3] == Column(inv, 3)[0];
    }
    assert inv[1] == HermiteBasis[1] by {
      assert inv[1][0] == Column(inv, 0)[1] && inv[1][1] == Column(inv, 1)[1] && inv[1][2] == Column(inv, 2)[1] && inv[1][3] == Column(inv, 3)[1];
    }
    assert inv[2] == HermiteBasis[2] by {
      assert inv[2][0] == Column(inv, 0)[2] && inv[2][1] == Column(inv, 1)[2] && inv[2][2] == Column(inv, 2)[2] && inv[2][3] == Column(inv, 3)[2];
    }
    assert inv[3] == HermiteBasis[3] by {
      assert inv[3][0] == Column(inv, 0)[3] && inv[3][1] == Column(inv, 1)[3] && inv[3][2] == Column(inv, 2)[3] && inv[3][3] == Column(inv, 3)[3];
    }
    assert inv == [inv[0], inv[1], inv[2], inv[3]];
  }

  // ---------------------------------------------------------------------------
  // Second-order finite volumes

  const CellAverages: seq<Constraint> := [CellIntegral(-1.5, -0.5), CellIntegral(-0.5, 0.5), CellIntegral(0.5, 1.5)]

  /** The integrals of 1, x and x^2 over the cells around -1, 0 and 1. */
  const CellMatrix: Matrix := [[1.0, -1.0, 13.0 / 12.0], [1.0, 0.0, 1.0 / 12.0], [1.0, 1.0, 13.0 / 12.0]]

  const CellInverse: Matrix := [[-1.0 / 24.0, 13.0 / 12.0, -1.0 / 24.0], [-0.5, 0.0, 0.5], [0.5, -1.0, 0.5]]

  lemma {:induction false} CellBuild()
    ensures Build(2, CellAverages).matrix == CellMatrix
  {
    var M := Build(2, CellAverages).matrix;
    BuildMonomialRows(2, CellAverages);
    MonomialIntegrals3(-1.5, -0.5);
    MonomialIntegrals3(-0.5, 0.5);
    MonomialIntegrals3(0.5, 1.5);
    assert M == [MonomialIntegrals(-1.5, -0.5, 3), MonomialIntegrals(-0.5, 0.5, 3), MonomialIntegrals(0.5, 1.5, 3)];
  }

  lemma {:induction false} CellNonsingular()
    ensures Nonsingular(CellMatrix)
  {
    forall x: Vector | |x| == 3 && IsKernel(CellMatrix, x)
      ensures x == Zeros(3)
    {
      var e := MatVec(CellMatrix, x);
      assert e == Zeros(3);
      CellColumn(x, e);
    }
  }

  /**
   The scheme from the averages over three unit cells: the integrals over the
   two halves of the middle cell have weights (1/16, 1/2, -1/16) and
   (-1/16, 1/2, 1/16).
   */
  method FiniteVolumes() returns (S: Polynomial, left: Vector, right: Vector)
    ensures S.coeffs == CellInverse
    ensures left == [1.0 / 16.0, 0.5, -1.0 / 16.0]
    ensures right == [-1.0 / 16.0, 0.5, 1.0 / 16.0]
  {
    CellBuild();
    S := Solve(Build(2, CellAverages));
    IsCellInverse(S.coeffs);
    left := Integrate(S, -0.5, 0.0);
    right := Integrate(S, 0.0, 0.5);
    HalfCells(S);
  }

  lemma {:induction false} CellColumn(v: Vector, e: Vector)
    requires |v| == 3 && MatVec(CellMatrix, v) == e
    ensures v[0] == e[1] - (e[0] + e[2] - 2.0 * e[1]) / 24.0 && v[1] == (e[2] - e[0]) / 2.0
    ensures v[2] == (e[0] + e[2] - 2.0 * e[1]) / 2.0
  {
    Dot3(CellMatrix[0], v);
    Dot3(CellMatrix[1], v);
    Dot3(CellMatrix[2], v);
  }

  /** Any right inverse of the cell matrix is the inverse above. */
  lemma {:induction false} IsCellInverse(inv: Matrix)
    requires IsMatrix(inv, 3, 3)
    requires Nonsingular(CellMatrix) ==> MatMul(CellMatrix, inv, 3) == Identity(3)
    ensures inv == CellInverse
  {
    CellNonsingular();
    CellRightInverse(inv);
  }

  /** Solving the three columns of M X = I one by one. */
  lemma {:induction false} CellRightInverse(inv: Matrix)
    requires IsMatrix(inv, 3, 3) && MatMul(CellMatrix, inv, 3) == Identity(3)
    ensures inv == CellInverse
  {
    RightInverseColumns(CellMatrix, inv, 3);
    CellColumn(Column(inv, 0), Unit(3, 0));
    CellColumn(Column(inv, 1), Unit(3, 1));
    CellColumn(Column(inv, 2), Unit(3, 2));
    assert inv[0] == CellInverse[0] by {
      assert inv[0][0] == Column(inv, 0)[0] && inv[0][1] == Column(inv, 1)[0] && inv[0][2] == Column(inv, 2)[0];
    }
    assert inv[1] == CellInverse[1] by {
      assert inv[1][0] == Column(inv, 0)[1] && inv[1][1] == Column(inv, 1)[1] && inv[1][2] == Column(inv, 2)[1];
    }
    assert inv[2] == CellInverse[2] by {
      assert inv[2][0] == Column(inv, 0)[2] && inv[2][1] == Column(inv, 1)[2] && inv[2][2] == Column(inv, 2)[2];
    }
    assert inv == [inv[0], inv[1], inv[2]];
  }

  /** The integral of each polynomial of a degree-2 grid over [a, b], written out. */
  lemma {:induction false} IntegrateQuadratic(S: Polynomial, a: real, b: real)
    requires S.Valid() && S.Degree() == 2
    ensures forall i :: 0 <= i < S.Width() ==>
      Integrate(S, a, b)[i] == (b - a) * S.coeffs[0][i] + (b * b - a * a) / 2.0 * S.coeffs[1][i] + (b * b * b - a * a * a) / 3.0 * S.coeffs[2][i]
  {
    IntegrateClosedForm(S, a, b);
    var w := MonomialIntegrals(a, b, 3);
    MonomialIntegrals3(a, b);
    forall i | 0 <= i < S.Width()
      ensures Integrate(S, a, b)[i] == w[0] * S.coeffs[0][i] + w[1] * S.coeffs[1][i] + w[2] * S.coeffs[2][i]
    {
      Dot3(w, Column(S.coeffs, i));
    }
  }

  lemma {:induction false} HalfCells(S: Polynomial)
    requires S.coeffs == CellInverse
    ensures Integrate(S, -0.5, 0.0) == [1.0 / 16.0, 0.5, -1.0 / 16.0]
    ensures Integrate(S, 0.0, 0.5) == [-1.0 / 16.0, 0.5, 1.0 / 16.0]
  {
    IntegrateQuadratic(S, -0.5, 0.0);
    IntegrateQuadratic(S, 0.0, 0.5);
    var left, right := Integrate(S, -0.5, 0.0), Integrate(S, 0.0, 0.5);
    assert left == [left[0], left[1], left[2]];
    assert right == [right[0], right[1], right[2]];
  }

}
