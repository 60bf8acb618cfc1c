/**
 The scheme builder: a square linear system whose row r is one constraint
 (a point value, a slope or a cell integral) evaluated on the monomial grid
 [1, x, ..., x^Order]. Inverting the system gives the grid of Order + 1
 polynomials in which polynomial i meets constraint r with value 1 when
 r == i and 0 otherwise, so the value of any constraint on that grid is the
 vector of weights of a numerical scheme.
 */
module Schemes {
  import opened Matrices
  import opened Polynomials
  import Gauss

  /** `PolynomialScheme<Order>`: the rows filled so far and the next row to fill. */
  datatype Scheme = Scheme(order: nat, matrix: Matrix, index: nat) {
    predicate Valid() {
      IsMatrix(matrix, order + 1, order + 1) && index <= order + 1
    }
  }

  /** A default-constructed scheme: every entry is the rational 0/1 and no row is filled. */
  function Fresh(order: nat): (S: Scheme)
    ensures S.Valid() && S.order == order && S.index == 0
    ensures forall r, c :: 0 <= r <= order && 0 <= c <= order ==> S.matrix[r][c] == 0.0
  {
    Scheme(order, ZeroMatrix(order + 1, order + 1), 0)
  }

  /** `get_polynomial()`: the grid whose polynomial i is the monomial x^i. */
  function GetPolynomial(order: nat): (G: Polynomial)
    ensures G.Valid() && HasShape(G, order, order + 1)
    ensures forall d, i :: 0 <= d <= order && 0 <= i <= order ==> G.coeffs[d][i] == if d == i then 1.0 else 0.0
  {
    Polynomial(Identity(order + 1))
  }

  /** Evaluating the monomial grid gives the powers [1, x, ..., x^order]. */
  lemma {:induction false} GetPolynomialValue(order: nat, x: real)
    ensures ValueAt(GetPolynomial(order), x) == Powers(x, order + 1)
  {
    var G := GetPolynomial(order);
    forall i | 0 <= i <= order
      ensures ValueAt(G, x)[i] == Powers(x, order + 1)[i]
    {
      MonomialColumn(order, i);
      DotUnit(Powers(x, order + 1), i);
    }
  }

  /** The coefficient column of polynomial j of the monomial grid is the j-th unit vector. */
  lemma {:induction false} MonomialColumn(order: nat, j: nat)
    requires j <= order
    ensures Column(GetPolynomial(order).coeffs, j) == Unit(order + 1, j)
  {
  }

  /**
   `add_eqn(coeffs)`: row `index` becomes `coeffs` and the index moves on; the
   scheme it is called on is left as it was. Writing past the last row is
   undefined behaviour in the source, so the row must exist.
   */
  function AddEqn(S: Scheme, coeffs: Vector): (S': Scheme)
    requires S.Valid() && S.index <= S.order && |coeffs| == S.order + 1
    ensures S'.Valid() && S'.order == S.order && S'.index == S.index + 1
    ensures S'.matrix[S.index] == coeffs
    ensures forall r :: 0 <= r <= S.order && r != S.index ==> S'.matrix[r] == S.matrix[r]
  {
    Scheme(S.order, S.matrix[S.index := coeffs], S.index + 1)
  }

  /**
   `solve()`: the coefficient grid is the inverse of the matrix. For a
   nonsingular matrix the grid times the matrix and the matrix times the grid
   are both the identity.
   */
  method Solve(S: Scheme) returns (P: Polynomial)
    requires S.Valid()
    ensures P.Valid() && HasShape(P, S.order, S.order + 1)
    ensures Nonsingular(S.matrix) ==> MatMul(S.matrix, P.coeffs, S.order + 1) == Identity(S.order + 1)
    ensures Nonsingular(S.matrix) ==> MatMul(P.coeffs, S.matrix, S.order + 1) == Identity(S.order + 1)
  {
    var inv := Gauss.GaussInv(S.matrix);
    P := Polynomial(inv);
  }

  // ---------------------------------------------------------------------------
  // Constraints

  /** The three kinds of equation the schemes are built from. */
  datatype Constraint =
    | PointValue(x: real)             // P(x)
    | Slope(x: real)                  // P.derivate()(x)
    | CellIntegral(a: real, b: real)  // P.integrate(a, b)

  /** The constraint evaluated on every polynomial of the grid. */
  function Apply(c: Constraint, P: Polynomial): (v: Vector)
    requires P.Valid()
    ensures |v| == P.Width()
  {
    match c
    case PointValue(x) => ValueAt(P, x)
    case Slope(x) => ValueAt(DerivateExact(P, 1), x)
    case CellIntegral(a, b) => Integrate(P, a, b)
  }

  /** Entry e is the slope of x^e at x: e x^(e-1), and 0 for the constant. */
  function SlopePowers(x: real, m: nat): (row: Vector)
    ensures |row| == m
    ensures forall e :: 0 <= e < m ==> row[e] == if e == 0 then 0.0 else e as real * Pow(x, e - 1)
  {
    seq(m, e requires 0 <= e < m => if e == 0 then 0.0 else e as real * Pow(x, e - 1))
  }

  /** The slope of polynomial i at x is the sum over e of coeffs[e][i] e x^(e-1). */
  lemma {:induction false} SlopeValue(P: Polynomial, x: real, i: nat)
    requires P.Valid() && i < P.Width()
    ensures ValueAt(DerivateExact(P, 1), x)[i] == Dot(SlopePowers(x, P.Degree() + 1), Column(P.coeffs, i))
  {
    DerivativeValue(P, x, i);
    DotDropFirst(SlopePowers(x, P.Degree() + 1), Column(P.coeffs, i));
    SlopeShift(P, x, i, Powers(x, P.Degree() + 1)[..P.Degree()], Column(DeriveOnce(P).coeffs, i)[..P.Degree()],
      SlopePowers(x, P.Degree() + 1)[1..], Column(P.coeffs, i)[1..]);
  }

  /** The top slot of one differentiation step is zero, so its term drops out of the value. */
  lemma {:induction false} DerivativeValue(P: Polynomial, x: real, i: nat)
    requires P.Valid() && i < P.Width()
    ensures ValueAt(DerivateExact(P, 1), x)[i]
         == Dot(Powers(x, P.Degree() + 1)[..P.Degree()], Column(DeriveOnce(P).coeffs, i)[..P.Degree()])
  {
    assert DerivateExact(P, 1) == DeriveOnce(P);
    DotDropLast(Powers(x, P.Degree() + 1), Column(DeriveOnce(P).coeffs, i));
  }

  /** The sum of the derivative's terms below the top slot is the shifted sum of slope terms. */
  lemma {:induction false} SlopeShift(P: Polynomial, x: real, i: nat, pw: Vector, dcol: Vector, sp: Vector, pcol: Vector)
    requires P.Valid() && i < P.Width()
    requires pw == Powers(x, P.Degree() + 1)[..P.Degree()]
    requires dcol == Column(DeriveOnce(P).coeffs, i)[..P.Degree()]
    requires sp == SlopePowers(x, P.Degree() + 1)[1..]
    requires pcol == Column(P.coeffs, i)[1..]
    ensures Dot(pw, dcol) == Dot(sp, pcol)
  {
    SlopeTerms(P, x, i, pw, dcol, sp, pcol);
    DotTermwise(pw, dcol, sp, pcol);
  }

  /** Term d of the shifted sums: x^d ((d+1) c[d+1]) == ((d+1) x^d) c[d+1]. */
  lemma {:induction false} SlopeTerms(P: Polynomial, x: real, i: nat, pw: Vector, dcol: Vector, sp: Vector, pcol: Vector)
    requires P.Valid() && i < P.Width()
    requires pw == Powers(x, P.Degree() + 1)[..P.Degree()]
    requires dcol == Column(DeriveOnce(P).coeffs, i)[..P.Degree()]
    requires sp == SlopePowers(x, P.Degree() + 1)[1..]
    requires pcol == Column(P.coeffs, i)[1..]
    ensures |pw| == |dcol| == |sp| == |pcol| == P.Degree()
    ensures forall d :: 0 <= d < |pw| ==> pw[d] * dcol[d] == sp[d] * pcol[d]
  {
    forall d | 0 <= d < |pw|
      ensures pw[d] * dcol[d] == sp[d] * pcol[d]
    {
      assert pw[d] == Pow(x, d);
      assert dcol[d] == (d + 1) as real * P.coeffs[d + 1][i];
      assert sp[d] == (d + 1) as real * Pow(x, d);
      assert pcol[d] == P.coeffs[d + 1][i];
      SlopeTerm(Pow(x, d), (d + 1) as real, P.coeffs[d + 1][i]);
    }
  }

  lemma {:induction false} SlopeTerm(p: real, f: real, c: real)
    ensures p * (f * c) == (f * p) * c
  {
  }

  /** On the monomial grid the slope constraint is the row of slopes of the monomials. */
  lemma {:induction false} MonomialSlopes(order: nat, x: real)
    ensures Apply(Slope(x), GetPolynomial(order)) == SlopePowers(x, order + 1)
  {
    forall e | 0 <= e <= order ensures Apply(Slope(x), GetPolynomial(order))[e] == SlopePowers(x, order + 1)[e] {
      MonomialSlope(order, x, e);
    }
  }

  /**
   For degree 2 or more the slope constraint is `P.derivate()(x)` exactly as
   the code computes it.
   */
  lemma {:induction false} SlopeAsWritten(P: Polynomial, x: real)
    requires P.Valid() && P.Degree() >= 2
    ensures Apply(Slope(x), P) == ValueAt(Derivate(P, 1), x)
  {
    DerivateAgreesAboveOne(P, 1);
  }

  /**
   At order 1 the two differ: `derivate()` of the linear grid is the zero
   polynomial, so its slope row is [0, 0], while the slope of x is 1.
   */
  lemma {:induction false} SlopeAtOrderOne(x: real)
    ensures ValueAt(Derivate(GetPolynomial(1), 1), x) == [0.0, 0.0]
    ensures Apply(Slope(x), GetPolynomial(1)) == [0.0, 1.0]
  {
    var Z := Derivate(GetPolynomial(1), 1);
    assert Z == ZeroPolynomial(1, 2);
    forall i | 0 <= i < 2 ensures ValueAt(Z, x)[i] == 0.0 {
      var col := Column(Z.coeffs, i);
      assert col[0] == 0.0 && col[1] == 0.0;
      DotNoTerms(Powers(x, 2), col);
    }
    MonomialSlopes(1, x);
    assert SlopePowers(x, 2)[1] == 1.0 * Pow(x, 0);
  }

  lemma {:induction false} MonomialSlope(order: nat, x: real, e: nat)
    requires e <= order
    ensures ValueAt(DerivateExact(GetPolynomial(order), 1), x)[e] == SlopePowers(x, order + 1)[e]
  {
    var G := GetPolynomial(order);
    SlopeValue(G, x, e);
    assert G.Degree() == order;
    MonomialColumn(order, e);
    DotUnit(SlopePowers(x, order + 1), e);
  }

  /** On the monomial grid the integral constraint is the row of integrals of the monomials. */
  lemma {:induction false} MonomialCellIntegrals(order: nat, a: real, b: real)
    ensures Apply(CellIntegral(a, b), GetPolynomial(order)) == MonomialIntegrals(a, b, order + 1)
  {
    var m := order + 1;
    IntegrateClosedForm(GetPolynomial(order), a, b);
    forall e | 0 <= e < m ensures Apply(CellIntegral(a, b), GetPolynomial(order))[e] == MonomialIntegrals(a, b, m)[e] {
      MonomialColumn(order, e);
      DotUnit(MonomialIntegrals(a, b, m), e);
    }
  }

  /** The constraint on the monomials 1, x, ..., x^(m-1): their values, their slopes or their integrals. */
  function MonomialRow(c: Constraint, m: nat): (row: Vector)
    ensures |row| == m
  {
    match c
    case PointValue(x) => Powers(x, m)
    case Slope(x) => SlopePowers(x, m)
    case CellIntegral(a, b) => MonomialIntegrals(a, b, m)
  }

  /** Row r of a scheme's matrix, the constraint on the monomial grid, is the constraint on the monomials. */
  lemma {:induction false} MonomialGridRow(c: Constraint, order: nat)
    ensures Apply(c, GetPolynomial(order)) == MonomialRow(c, order + 1)
  {
    match c
    case PointValue(x) => GetPolynomialValue(order, x);
    case Slope(x) => MonomialSlopes(order, x);
    case CellIntegral(a, b) => MonomialCellIntegrals(order, a, b);
  }

  /**
   Every constraint is linear in the coefficients: on any grid it is the dot
   product of the constraint on the monomial grid with the coefficient column.
   */
  lemma {:induction false} ApplyIsLinear(c: Constraint, P: Polynomial, i: nat)
    requires P.Valid() && i < P.Width()
    ensures Apply(c, P)[i] == Dot(MonomialRow(c, P.Degree() + 1), Column(P.coeffs, i))
    ensures Apply(c, P)[i] == Dot(Apply(c, GetPolynomial(P.Degree())), Column(P.coeffs, i))
  {
    MonomialGridRow(c, P.Degree());
    match c
    case PointValue(x) =>
    case Slope(x) =>
      SlopeValue(P, x, i);
    case CellIntegral(a, b) =>
      IntegrateClosedForm(P, a, b);
  }

  // ---------------------------------------------------------------------------
  // Building and solving a scheme

  /** The scheme after `add_eqn` of each constraint, in order, evaluated on the monomial grid. */
  function Build(order: nat, cs: seq<Constraint>): (S: Scheme)
    requires |cs| <= order + 1
    ensures S.Valid() && S.order == order && S.index == |cs|
    decreases |cs|
  {
    if |cs| == 0 then Fresh(order)
    else AddEqn(Build(order, cs[..|cs| - 1]), Apply(cs[|cs| - 1], GetPolynomial(order)))
  }

  /** Row r of the built matrix is constraint r on the monomial grid; the unfilled rows stay zero. */
  lemma {:induction false} BuildRows(order: nat, cs: seq<Constraint>)
    requires |cs| <= order + 1
    ensures forall r :: 0 <= r < |cs| ==> Build(order, cs).matrix[r] == Apply(cs[r], GetPolynomial(order))
    ensures forall r, k :: |cs| <= r <= order && 0 <= k <= order ==> Build(order, cs).matrix[r][k] == 0.0
    decreases |cs|
  {
    if |cs| > 0 {
      var n := |cs| - 1;
      BuildRows(order, cs[..n]);
      forall r | 0 <= r < n
        ensures Build(order, cs).matrix[r] == Apply(cs[r], GetPolynomial(order))
      {
        assert cs[..n][r] == cs[r];
      }
    }
  }

  /** Row r of the built matrix is constraint r on the monomials. */
  lemma {:induction false} BuildMonomialRows(order: nat, cs: seq<Constraint>)
    requires |cs| <= order + 1
    ensures forall r :: 0 <= r < |cs| ==> Build(order, cs).matrix[r] == MonomialRow(cs[r], order + 1)
  {
    BuildRows(order, cs);
    forall r | 0 <= r < |cs| ensures Build(order, cs).matrix[r] == MonomialRow(cs[r], order + 1) {
      MonomialGridRow(cs[r], order);
    }
  }

  /**
   A grid of the scheme's shape inverts the matrix of constraints cs exactly
   when each polynomial i meets constraint r with value 1 if r == i and 0
   otherwise.
   */
  lemma {:induction false} CardinalIffInverse(order: nat, cs: seq<Constraint>, P: Polynomial)
    requires |cs| == order + 1 && HasShape(P, order, order + 1)
    ensures P.Valid()
    ensures MatMul(Build(order, cs).matrix, P.coeffs, order + 1) == Identity(order + 1)
        <==> forall r :: 0 <= r <= order ==> Apply(cs[r], P) == Unit(order + 1, r)
  {
    ShapeIsValid(P, order, order + 1);
    var C := MatMul(Build(order, cs).matrix, P.coeffs, order + 1);
    ProductRows(order, cs, P);
    RowsOfIdentity(C, order + 1);
    if C == Identity(order + 1) {
      forall r | 0 <= r <= order ensures Apply(cs[r], P) == Unit(order + 1, r) {
        assert C[r] == Unit(order + 1, r);
      }
    }
    if forall r :: 0 <= r <= order ==> Apply(cs[r], P) == Unit(order + 1, r) {
      forall r | 0 <= r <= order ensures C[r] == Unit(order + 1, r) {
        assert C[r] == Apply(cs[r], P);
      }
    }
  }

  /** Row r of the matrix times the grid is constraint r evaluated on the grid. */
  lemma {:induction false} ProductRows(order: nat, cs: seq<Constraint>, P: Polynomial)
    requires |cs| == order + 1 && HasShape(P, order, order + 1)
    ensures P.Valid()
    ensures forall r :: 0 <= r <= order ==> MatMul(Build(order, cs).matrix, P.coeffs, order + 1)[r] == Apply(cs[r], P)
  {
    ShapeIsValid(P, order, order + 1);
    BuildRows(order, cs);
    forall r | 0 <= r <= order
      ensures MatMul(Build(order, cs).matrix, P.coeffs, order + 1)[r] == Apply(cs[r], P)
    {
      forall i | 0 <= i <= order
        ensures MatMul(Build(order, cs).matrix, P.coeffs, order + 1)[r][i] == Apply(cs[r], P)[i]
      {
        ApplyIsLinear(cs[r], P, i);
      }
    }
  }

  /**
   `add_eqn` of every constraint followed by `solve()`: for a nonsingular
   system, polynomial i of the result meets constraint r with value 1 if
   r == i and 0 otherwise.
   */
  method BuildAndSolve(order: nat, cs: seq<Constraint>) returns (P: Polynomial)
    requires |cs| == order + 1
    ensures P.Valid() && HasShape(P, order, order + 1)
    ensures Nonsingular(Build(order, cs).matrix) ==> forall r :: 0 <= r <= order ==> Apply(cs[r], P) == Unit(order + 1, r)
  {
    P := Solve(Build(order, cs));
    CardinalIffInverse(order, cs, P);
  }

  /** A nonsingular system has at most one inverse grid: the scheme's polynomials are unique. */
  lemma {:induction false} InverseUnique(M: Matrix, P: Matrix, Q: Matrix)
    requires Nonsingular(M)
    requires IsMatrix(P, |M|, |M|) && IsMatrix(Q, |M|, |M|)
    requires MatMul(M, P, |M|) == Identity(|M|) && MatMul(M, Q, |M|) == Identity(|M|)
    ensures P == Q
  {
    var n := |M|;
    forall d | 0 <= d < n
      ensures P[d] == Q[d]
    {
      forall c | 0 <= c < n
        ensures P[d][c] == Q[d][c]
      {
        InverseColumnUnique(M, P, Q, c);
        assert Column(P, c)[d] == Column(Q, c)[d];
      }
    }
  }

  /** Column c of an inverse solves M x == e_c, and that solution is unique. */
  lemma {:induction false} InverseColumnUnique(M: Matrix, P: Matrix, Q: Matrix, c: nat)
    requires Nonsingular(M) && c < |M|
    requires IsMatrix(P, |M|, |M|) && IsMatrix(Q, |M|, |M|)
    requires MatMul(M, P, |M|) == Identity(|M|) && MatMul(M, Q, |M|) == Identity(|M|)
    ensures Column(P, c) == Column(Q, c)
  {
    DifferenceInKernel(M, P, Q, c);
    Gauss.KernelVectorIsZero(M, ColumnDifference(P, Q, c));
    forall k | 0 <= k < |M| ensures P[k][c] == Q[k][c] {
      assert ColumnDifference(P, Q, c)[k] == 0.0;
    }
  }

  /** Column c of P minus column c of Q. */
  function ColumnDifference(P: Matrix, Q: Matrix, c: nat): (z: Vector)
    requires |P| == |Q| && forall k :: 0 <= k < |P| ==> c < |P[k]| && c < |Q[k]|
    ensures |z| == |P| && forall k :: 0 <= k < |P| ==> z[k] == P[k][c] - Q[k][c]
  {
    seq(|P|, k requires 0 <= k < |P| => P[k][c] - Q[k][c])
  }

  /** Two right inverses differ by a kernel vector in every column. */
  lemma {:induction false} DifferenceInKernel(M: Matrix, P: Matrix, Q: Matrix, c: nat)
    requires IsMatrix(M, |M|, |M|) && c < |M|
    requires IsMatrix(P, |M|, |M|) && IsMatrix(Q, |M|, |M|)
    requires MatMul(M, P, |M|) == Identity(|M|) && MatMul(M, Q, |M|) == Identity(|M|)
    ensures IsKernel(M, ColumnDifference(P, Q, c))
  {
    var n := |M|;
    forall r | 0 <= r < n
      ensures Dot(M[r], ColumnDifference(P, Q, c)) == 0.0
    {
      assert Dot(M[r], Column(P, c)) == MatMul(M, P, n)[r][c] == Identity(n)[r][c];
      assert Dot(M[r], Column(Q, c)) == MatMul(M, Q, n)[r][c] == Identity(n)[r][c];
      DotSubRight(M[r], Column(P, c), Column(Q, c), ColumnDifference(P, Q, c));
    }
  }

  /** For a nonsingular system, only one grid meets every constraint with the values 1 and 0. */
  lemma {:induction false} CardinalUnique(order: nat, cs: seq<Constraint>, P: Polynomial, Q: Polynomial)
    requires |cs| == order + 1 && Nonsingular(Build(order, cs).matrix)
    requires HasShape(P, order, order + 1) && HasShape(Q, order, order + 1)
    requires P.Valid() && Q.Valid()
    requires forall r :: 0 <= r <= order ==> Apply(cs[r], P) == Unit(order + 1, r)
    requires forall r :: 0 <= r <= order ==> Apply(cs[r], Q) == Unit(order + 1, r)
    ensures P == Q
  {
    CardinalIffInverse(order, cs, P);
    CardinalIffInverse(order, cs, Q);
    InverseUnique(Build(order, cs).matrix, P.coeffs, Q.coeffs);
  }
}
