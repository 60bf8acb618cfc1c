/**
 A grid of N polynomials of a common degree sharing one coefficient table:
 slot d holds the N coefficients of x^d. Operations: evaluation (one value
 per polynomial), repeated differentiation with the fixed capacity of the
 table, the primitive (one more slot, zero constant term) and the definite
 integral between two bounds.
 */
module Polynomials {
  import opened Matrices

  datatype Polynomial = Polynomial(coeffs: Matrix) {
    /** At least one slot, and every slot holds the same number of coefficients. */
    predicate Valid() {
      |coeffs| > 0 && forall d :: 0 <= d < |coeffs| ==> |coeffs[d]| == |coeffs[0]|
    }

    function Degree(): nat
      requires |coeffs| > 0
    {
      |coeffs| - 1
    }

    /** The number N of polynomials in the grid. */
    function Width(): nat
      requires |coeffs| > 0
    {
      |coeffs[0]|
    }
  }

  /** The polynomial grid has the given degree and width. */
  predicate HasShape(P: Polynomial, degree: nat, n: nat) {
    IsMatrix(P.coeffs, degree + 1, n)
  }

  lemma {:induction false} ShapeIsValid(P: Polynomial, degree: nat, n: nat)
    requires HasShape(P, degree, n)
    ensures P.Valid() && P.Degree() == degree && P.Width() == n
  {
  }

  /** `Polynomial(value)`: every coefficient of every slot set to `value`. */
  function Constant(degree: nat, n: nat, value: real): (P: Polynomial)
    ensures HasShape(P, degree, n) && P.Valid()
    ensures forall d, i :: 0 <= d <= degree && 0 <= i < n ==> P.coeffs[d][i] == value
  {
    Polynomial(seq(degree + 1, _ => seq(n, _ => value)))
  }

  /** The all-zero grid of the given shape. */
  function ZeroPolynomial(degree: nat, n: nat): (P: Polynomial)
    ensures HasShape(P, degree, n) && P.Valid()
    ensures forall d :: 0 <= d <= degree ==> P.coeffs[d] == Zeros(n)
  {
    Constant(degree, n, 0.0)
  }

  /** The coefficient of x^e in polynomial i, zero above the degree. */
  function Coeff(P: Polynomial, e: nat, i: nat): real
    requires P.Valid() && i < P.Width()
  {
    if e <= P.Degree() then P.coeffs[e][i] else 0.0
  }

  // ---------------------------------------------------------------------------
  // Evaluation

  /** x^d, built as the evaluation loop builds it: one factor x per step. */
  function Pow(x: real, d: nat): real {
    if d == 0 then 1.0 else Pow(x, d - 1) * x
  }

  /** The row [1, x, ..., x^(m-1)]. */
  function Powers(x: real, m: nat): (row: Vector)
    ensures |row| == m && forall d :: 0 <= d < m ==> row[d] == Pow(x, d)
  {
    seq(m, d requires 0 <= d < m => Pow(x, d))
  }

  /** The values of the N polynomials at x: entry i is the sum over d of coeffs[d][i] x^d. */
  function ValueAt(P: Polynomial, x: real): (v: Vector)
    requires P.Valid()
    ensures |v| == P.Width()
  {
    seq(P.Width(), i requires 0 <= i < P.Width() => Dot(Powers(x, P.Degree() + 1), Column(P.coeffs, i)))
  }

  /**
   `operator()`: start from slot 0 and add coeffs[degree] times the running
   power of x, slot by slot. Computes exactly the sum of coeffs[d][i] x^d.
   */
  method Evaluate(P: Polynomial, x: real) returns (result: Vector)
    requires P.Valid()
    ensures |result| == P.Width()
    ensures forall i :: 0 <= i < P.Width() ==> result[i] == Dot(Powers(x, P.Degree() + 1), Column(P.coeffs, i))
    ensures result == ValueAt(P, x)
  {
    var n := P.Width();
    result := P.coeffs[0];
    PowersStart(P, x);
    var xi := x;
    var degree := 1;
    while degree < P.Degree() + 1
      invariant 1 <= degree <= P.Degree() + 1 && xi == Pow(x, degree)
      invariant result == PartialSums(P, x, degree)
    {
      var row := P.coeffs[degree];
      var next := AddScaled(result, row, xi);
      EvaluateStep(P, x, degree, result, next);
      result := next;
      xi := xi * x;
      degree := degree + 1;
    }
    EvaluateDone(P, x, result);
  }

  /** `result += coeffs[degree] * xi`: u plus s times v, entry by entry. */
  function AddScaled(u: Vector, v: Vector, s: real): (w: Vector)
    requires |u| == |v|
    ensures |w| == |u| && forall i :: 0 <= i < |u| ==> w[i] == u[i] + v[i] * s
  {
    seq(|u|, i requires 0 <= i < |u| => u[i] + v[i] * s)
  }

  /** The sums over slots 0..m-1 only, the loop's partial results. */
  function PartialSums(P: Polynomial, x: real, m: nat): (v: Vector)
    requires P.Valid() && 1 <= m <= P.Degree() + 1
    ensures |v| == P.Width()
    ensures forall i :: 0 <= i < P.Width() ==> v[i] == Dot(Powers(x, m), Column(P.coeffs[..m], i))
  {
    seq(P.Width(), i requires 0 <= i < P.Width() => Dot(Powers(x, m), Column(P.coeffs[..m], i)))
  }

  /** The sum over slot 0 alone is the constant slot. */
  lemma {:induction false} PowersStart(P: Polynomial, x: real)
    requires P.Valid()
    ensures P.coeffs[0] == PartialSums(P, x, 1)
  {
    forall i | 0 <= i < P.Width()
      ensures P.coeffs[0][i] == Dot(Powers(x, 1), Column(P.coeffs[..1], i))
    {
      assert Powers(x, 1)[..0] == [] && Column(P.coeffs[..1], i)[..0] == [];
    }
  }

  /** One pass of the evaluation loop extends the partial sums by slot `degree`. */
  lemma {:induction false} EvaluateStep(P: Polynomial, x: real, degree: nat, result: Vector, next: Vector)
    requires P.Valid() && 1 <= degree <= P.Degree() && result == PartialSums(P, x, degree)
    requires next == AddScaled(result, P.coeffs[degree], Pow(x, degree))
    ensures next == PartialSums(P, x, degree + 1)
  {
    forall i | 0 <= i < P.Width()
      ensures next[i] == Dot(Powers(x, degree + 1), Column(P.coeffs[..degree + 1], i))
    {
      var sum, c, p := result[i], P.coeffs[degree][i], Pow(x, degree);
      assert sum == Dot(Powers(x, degree), Column(P.coeffs[..degree], i));
      assert next[i] == sum + c * p;
      PowersStep(P, x, degree, i, sum, next[i]);
    }
  }

  /** The partial sums over all slots are the values. */
  lemma {:induction false} EvaluateDone(P: Polynomial, x: real, result: Vector)
    requires P.Valid() && result == PartialSums(P, x, P.Degree() + 1)
    ensures forall i :: 0 <= i < P.Width() ==> result[i] == Dot(Powers(x, P.Degree() + 1), Column(P.coeffs, i))
    ensures result == ValueAt(P, x)
  {
    assert P.coeffs[..P.Degree() + 1] == P.coeffs;
  }

  /** One step of the evaluation sum: adding slot `degree` to the sum over slots 0..degree-1. */
  lemma {:induction false} PowersStep(P: Polynomial, x: real, degree: nat, i: nat, sum: real, next: real)
    requires P.Valid() && 1 <= degree <= P.Degree() && i < P.Width()
    requires sum == Dot(Powers(x, degree), Column(P.coeffs[..degree], i))
    requires next == sum + P.coeffs[degree][i] * Pow(x, degree)
    ensures next == Dot(Powers(x, degree + 1), Column(P.coeffs[..degree + 1], i))
  {
    var u, v := Powers(x, degree + 1), Column(P.coeffs[..degree + 1], i);
    assert u[..degree] == Powers(x, degree);
    assert v[..degree] == Column(P.coeffs[..degree], i);
    assert u[degree] * v[degree] == P.coeffs[degree][i] * Pow(x, degree);
  }


  lemma {:induction false} PowZero(d: nat)
    ensures Pow(0.0, d) == if d == 0 then 1.0 else 0.0
  {
  }

  /** Evaluating at 0 gives the constant slot. */
  lemma {:induction false} ValueAtZero(P: Polynomial)
    requires P.Valid()
    ensures ValueAt(P, 0.0) == P.coeffs[0]
  {
    var m := P.Degree() + 1;
    assert Powers(0.0, m) == Unit(m, 0) by {
      forall d | 0 <= d < m ensures Powers(0.0, m)[d] == Unit(m, 0)[d] {
        PowZero(d);
      }
    }
    forall i | 0 <= i < P.Width()
      ensures ValueAt(P, 0.0)[i] == P.coeffs[0][i]
    {
      DotUnit(Column(P.coeffs, i), 0);
    }
  }

  /** The zero grid evaluates to zero everywhere. */
  lemma {:induction false} ValueAtZeroPolynomial(degree: nat, n: nat, x: real)
    ensures ValueAt(ZeroPolynomial(degree, n), x) == Zeros(n)
  {
    var P := ZeroPolynomial(degree, n);
    forall i | 0 <= i < n
      ensures ValueAt(P, x)[i] == 0.0
    {
      DotNoTerms(Powers(x, degree + 1), Column(P.coeffs, i));
    }
  }

  // ---------------------------------------------------------------------------
  // Differentiation

  /** One differentiation step of `derivate`: slot d becomes (d+1) times slot d+1, the top slot becomes 0. */
  function DeriveOnce(P: Polynomial): (D: Polynomial)
    requires P.Valid()
    ensures D.Valid() && HasShape(D, P.Degree(), P.Width())
    ensures forall d, i :: 0 <= d < P.Degree() && 0 <= i < P.Width() ==> D.coeffs[d][i] == (d + 1) as real * P.coeffs[d + 1][i]
    ensures D.coeffs[P.Degree()] == Zeros(P.Width())
  {
    Polynomial(seq(P.Degree() + 1, d requires 0 <= d <= P.Degree() => DerivedSlot(P, d)))
  }

  /** Slot d of one differentiation step. */
  function DerivedSlot(P: Polynomial, d: nat): (row: Vector)
    requires P.Valid() && d <= P.Degree()
    ensures |row| == P.Width()
    ensures d == P.Degree() ==> row == Zeros(P.Width())
    ensures d < P.Degree() ==> forall i :: 0 <= i < P.Width() ==> row[i] == (d + 1) as real * P.coeffs[d + 1][i]
  {
    if d == P.Degree() then Zeros(P.Width())
    else seq(P.Width(), i requires 0 <= i < P.Width() => (d + 1) as real * P.coeffs[d + 1][i])
  }

  /**
   `derivate(order)` as the code is written: a degree-0 grid and order 0
   return the polynomial unchanged, a degree-1 grid becomes all zero, and
   otherwise one differentiation step is followed by `derivate(order - 1)`.
   */
  function Derivate(P: Polynomial, order: nat): (D: Polynomial)
    requires P.Valid()
    ensures D.Valid() && HasShape(D, P.Degree(), P.Width())
    decreases order
  {
    if order == 0 || P.Degree() == 0 then P
    else if P.Degree() == 1 then ZeroPolynomial(1, P.Width())
    else Derivate(DeriveOnce(P), order - 1)
  }

  /**
   `derivate(order)` without the two low-degree special cases: `order`
   differentiation steps, whatever the degree. A constant then differentiates
   to zero and a linear polynomial to its slope.
   */
  function DerivateExact(P: Polynomial, order: nat): (D: Polynomial)
    requires P.Valid()
    ensures D.Valid() && HasShape(D, P.Degree(), P.Width())
    decreases order
  {
    if order == 0 then P else DerivateExact(DeriveOnce(P), order - 1)
  }

  /** (d+1)(d+2)...(d+k): the factor k differentiations put on the coefficient of x^(d+k). */
  function Rising(d: nat, k: nat): real {
    if k == 0 then 1.0 else Rising(d, k - 1) * (d + k) as real
  }

  lemma {:induction false} RisingStep(d: nat, k: nat)
    requires k > 0
    ensures Rising(d, k) == Rising(d, k - 1) * (d + k) as real
  {
  }

  /** One step moves coefficient s to slot s-1 with factor s, and vanishes above the degree. */
  lemma {:induction false} DeriveOnceCoeff(P: Polynomial, s: nat, i: nat)
    requires P.Valid() && i < P.Width() && s >= 1
    ensures Coeff(DeriveOnce(P), s - 1, i) == s as real * Coeff(P, s, i)
  {
  }

  /**
   The k-th derivative computed directly: slot d holds (d+1)...(d+k) times the
   coefficient of x^(d+k), which is zero once d + k exceeds the degree.
   */
  function KthDerivative(P: Polynomial, k: nat): (D: Polynomial)
    requires P.Valid()
    ensures D.Valid() && HasShape(D, P.Degree(), P.Width())
    ensures forall d, i :: 0 <= d <= P.Degree() && 0 <= i < P.Width() ==> D.coeffs[d][i] == Rising(d, k) * Coeff(P, d + k, i)
  {
    Polynomial(seq(P.Degree() + 1, d requires 0 <= d <= P.Degree() => KthDerivativeSlot(P, k, d)))
  }

  /** Slot d of the k-th derivative. */
  function KthDerivativeSlot(P: Polynomial, k: nat, d: nat): (row: Vector)
    requires P.Valid()
    ensures |row| == P.Width()
    ensures forall i :: 0 <= i < P.Width() ==> row[i] == Rising(d, k) * Coeff(P, d + k, i)
  {
    seq(P.Width(), i requires 0 <= i < P.Width() => Rising(d, k) * Coeff(P, d + k, i))
  }

  /** k differentiation steps compute the k-th derivative, for every degree. */
  lemma {:induction false} DerivateExactIsKthDerivative(P: Polynomial, k: nat)
    requires P.Valid()
    ensures DerivateExact(P, k) == KthDerivative(P, k)
    decreases k
  {
    if k == 0 {
      KthDerivativeZero(P);
    } else {
      DerivateExactIsKthDerivative(DeriveOnce(P), k - 1);
      KthDerivativeStep(P, k);
    }
  }

  /** For degree 2 or more, `derivate` as written takes exactly the k differentiation steps. */
  lemma {:induction false} DerivateAgreesAboveOne(P: Polynomial, k: nat)
    requires P.Valid() && P.Degree() >= 2
    ensures Derivate(P, k) == DerivateExact(P, k)
    decreases k
  {
    if k > 0 {
      DerivateAgreesAboveOne(DeriveOnce(P), k - 1);
    }
  }

  /** For degree 2 or more, `derivate(k)` is the k-th derivative. */
  lemma {:induction false} DerivateCoefficients(P: Polynomial, k: nat)
    requires P.Valid() && P.Degree() >= 2
    ensures Derivate(P, k) == KthDerivative(P, k)
  {
    DerivateAgreesAboveOne(P, k);
    DerivateExactIsKthDerivative(P, k);
  }

  /** Zero differentiations leave every coefficient in place. */
  lemma {:induction false} KthDerivativeZero(P: Polynomial)
    requires P.Valid()
    ensures KthDerivative(P, 0) == P
  {
    var D := KthDerivative(P, 0);
    forall d | 0 <= d <= P.Degree() ensures D.coeffs[d] == P.coeffs[d] {
    }
  }

  /** k differentiations are one step followed by k - 1 more. */
  lemma {:induction false} KthDerivativeStep(P: Polynomial, k: nat)
    requires P.Valid() && k > 0
    ensures KthDerivative(DeriveOnce(P), k - 1) == KthDerivative(P, k)
  {
    var D, E := KthDerivative(DeriveOnce(P), k - 1), KthDerivative(P, k);
    forall d | 0 <= d <= P.Degree() ensures D.coeffs[d] == E.coeffs[d] {
      forall i | 0 <= i < P.Width() ensures D.coeffs[d][i] == E.coeffs[d][i] {
        KthDerivativeSlotStep(P, k, d, i);
      }
    }
  }

  /** Entry (d, i) of both sides of KthDerivativeStep. */
  lemma {:induction false} KthDerivativeSlotStep(P: Polynomial, k: nat, d: nat, i: nat)
    requires P.Valid() && k > 0 && d <= P.Degree() && i < P.Width()
    ensures KthDerivative(DeriveOnce(P), k - 1).coeffs[d][i] == KthDerivative(P, k).coeffs[d][i]
  {
    var Q := DeriveOnce(P);
    var lhs := KthDerivative(Q, k - 1).coeffs[d][i];
    assert lhs == Rising(d, k - 1) * Coeff(Q, d + k - 1, i);
    KthDerivativeEntryStep(P, k, d, i);
  }

  lemma {:induction false} KthDerivativeEntryStep(P: Polynomial, k: nat, d: nat, i: nat)
    requires P.Valid() && k > 0 && d <= P.Degree() && i < P.Width()
    ensures Rising(d, k - 1) * Coeff(DeriveOnce(P), d + k - 1, i) == Rising(d, k) * Coeff(P, d + k, i)
  {
    calc {
      Rising(d, k - 1) * Coeff(DeriveOnce(P), d + k - 1, i);
      { DeriveOnceCoeff(P, d + k, i); }
      Rising(d, k - 1) * ((d + k) as real * Coeff(P, d + k, i));
      (Rising(d, k - 1) * (d + k) as real) * Coeff(P, d + k, i);
      { RisingStep(d, k); }
      Rising(d, k) * Coeff(P, d + k, i);
    }
  }

  /** More differentiations than the degree give the all-zero grid of the same shape. */
  lemma {:induction false} KthDerivativeBeyondDegree(P: Polynomial, k: nat)
    requires P.Valid() && k > P.Degree()
    ensures KthDerivative(P, k) == ZeroPolynomial(P.Degree(), P.Width())
  {
    var D, Z := KthDerivative(P, k), ZeroPolynomial(P.Degree(), P.Width());
    forall d | 0 <= d <= P.Degree() ensures D.coeffs[d] == Z.coeffs[d] {
    }
  }

  /** Differentiating more often than the degree gives zero: for every degree with the exact steps, for degree 2 or more as written. */
  lemma {:induction false} DerivateBeyondDegree(P: Polynomial, k: nat)
    requires P.Valid() && k > P.Degree()
    ensures DerivateExact(P, k) == ZeroPolynomial(P.Degree(), P.Width())
    ensures P.Degree() >= 2 ==> Derivate(P, k) == ZeroPolynomial(P.Degree(), P.Width())
  {
    KthDerivativeBeyondDegree(P, k);
    DerivateExactIsKthDerivative(P, k);
    if P.Degree() >= 2 {
      DerivateAgreesAboveOne(P, k);
    }
  }

  /** `derivate(0)` and any `derivate` of a degree-0 grid return the polynomial; degree 1 gives zero for order >= 1. */
  lemma {:induction false} DerivateLowDegree(P: Polynomial, order: nat)
    requires P.Valid() && (order == 0 || P.Degree() <= 1)
    ensures order == 0 || P.Degree() == 0 ==> Derivate(P, order) == P
    ensures order > 0 && P.Degree() == 1 ==> Derivate(P, order) == ZeroPolynomial(1, P.Width())
  {
  }

  /** As written, a linear polynomial with a nonzero slope differentiates to zero instead of its slope. */
  lemma {:induction false} DerivateLosesSlope(P: Polynomial, i: nat)
    requires P.Valid() && P.Degree() == 1 && i < P.Width() && P.coeffs[1][i] != 0.0
    ensures Derivate(P, 1).coeffs[0][i] == 0.0
    ensures DerivateExact(P, 1).coeffs[0][i] == P.coeffs[1][i] != 0.0
  {
    assert DerivateExact(P, 1) == DeriveOnce(P);
  }

  /** As written, a nonzero constant differentiates to itself instead of zero. */
  lemma {:induction false} DerivateKeepsConstant(P: Polynomial, i: nat)
    requires P.Valid() && P.Degree() == 0 && i < P.Width() && P.coeffs[0][i] != 0.0
    ensures Derivate(P, 1).coeffs[0][i] == P.coeffs[0][i] != 0.0
    ensures DerivateExact(P, 1).coeffs[0][i] == 0.0
  {
    assert DerivateExact(P, 1) == DeriveOnce(P);
  }

  // ---------------------------------------------------------------------------
  // Primitive and integral

  /** `primitive`: one more slot; slot 0 is zero and slot d is coeffs[d-1] / d. */
  function Primitive(P: Polynomial): (Q: Polynomial)
    requires P.Valid()
    ensures Q.Valid() && HasShape(Q, P.Degree() + 1, P.Width())
    ensures Q.coeffs[0] == Zeros(P.Width())
    ensures forall d, i :: 1 <= d <= P.Degree() + 1 && 0 <= i < P.Width() ==> Q.coeffs[d][i] * d as real == P.coeffs[d - 1][i]
  {
    Polynomial(seq(P.Degree() + 2, d requires 0 <= d < P.Degree() + 2 => PrimitiveSlot(P, d)))
  }

  /** Slot d of the primitive. */
  function PrimitiveSlot(P: Polynomial, d: nat): (row: Vector)
    requires P.Valid() && d <= P.Degree() + 1
    ensures |row| == P.Width()
    ensures d == 0 ==> row == Zeros(P.Width())
    ensures d > 0 ==> forall i :: 0 <= i < P.Width() ==> row[i] * d as real == P.coeffs[d - 1][i]
  {
    if d == 0 then Zeros(P.Width())
    else seq(P.Width(), i requires 0 <= i < P.Width() => P.coeffs[d - 1][i] / d as real)
  }

  /**
   Differentiating the primitive once gives back every slot of the
   polynomial, with a zero top slot in the extra capacity.
   */
  lemma {:induction false} DerivateExactOfPrimitive(P: Polynomial)
    requires P.Valid()
    ensures DerivateExact(Primitive(P), 1).coeffs == P.coeffs + [Zeros(P.Width())]
  {
    var Q := Primitive(P);
    var D := DerivateExact(Q, 1);
    assert D == DeriveOnce(Q);
    forall d | 0 <= d <= P.Degree() ensures D.coeffs[d] == P.coeffs[d] {
      forall i | 0 <= i < P.Width() ensures D.coeffs[d][i] == P.coeffs[d][i] {
        DerivedPrimitiveEntry(P, d, i);
      }
    }
  }

  /** Differentiating slot d + 1 of the primitive gives back slot d. */
  lemma {:induction false} DerivedPrimitiveEntry(P: Polynomial, d: nat, i: nat)
    requires P.Valid() && d <= P.Degree() && i < P.Width()
    ensures DeriveOnce(Primitive(P)).coeffs[d][i] == P.coeffs[d][i]
  {
    var Q := Primitive(P);
    var q, k := Q.coeffs[d + 1][i], (d + 1) as real;
    assert q * k == P.coeffs[d][i];
    assert DeriveOnce(Q).coeffs[d][i] == k * q;
  }

  /** As written, the round trip holds from degree 1 on, where the primitive has degree 2 or more. */
  lemma {:induction false} DerivateOfPrimitive(P: Polynomial)
    requires P.Valid() && P.Degree() >= 1
    ensures Derivate(Primitive(P), 1).coeffs == P.coeffs + [Zeros(P.Width())]
  {
    DerivateAgreesAboveOne(Primitive(P), 1);
    DerivateExactOfPrimitive(P);
  }

  /** As written, the round trip fails for a nonzero constant: its primitive is linear and differentiates to zero. */
  lemma {:induction false} DerivateOfPrimitiveLosesConstant(P: Polynomial, i: nat)
    requires P.Valid() && P.Degree() == 0 && i < P.Width() && P.coeffs[0][i] != 0.0
    ensures Derivate(Primitive(P), 1).coeffs[0][i] == 0.0 != P.coeffs[0][i]
  {
  }

  /** `integrate(a, b)`: the primitive at b minus the primitive at a, per polynomial. */
  function Integrate(P: Polynomial, a: real, b: real): (v: Vector)
    requires P.Valid()
    ensures |v| == P.Width()
  {
    var Q := Primitive(P);
    seq(P.Width(), i requires 0 <= i < P.Width() => ValueAt(Q, b)[i] - ValueAt(Q, a)[i])
  }

  lemma {:induction false} IntegrateEmptyInterval(P: Polynomial, a: real)
    requires P.Valid()
    ensures Integrate(P, a, a) == Zeros(P.Width())
  {
  }

  lemma {:induction false} IntegrateAntisymmetric(P: Polynomial, a: real, b: real)
    requires P.Valid()
    ensures forall i :: 0 <= i < P.Width() ==> Integrate(P, a, b)[i] == -Integrate(P, b, a)[i]
  {
  }

  /** Integrals over adjacent intervals add up. */
  lemma {:induction false} IntegrateAdditive(P: Polynomial, a: real, b: real, c: real)
    requires P.Valid()
    ensures forall i :: 0 <= i < P.Width() ==> Integrate(P, a, b)[i] + Integrate(P, b, c)[i] == Integrate(P, a, c)[i]
  {
  }

  /** Entry d is the integral of x^d from a to b: (b^(d+1) - a^(d+1)) / (d+1). */
  function MonomialIntegrals(a: real, b: real, m: nat): (w: Vector)
    ensures |w| == m && forall d :: 0 <= d < m ==> w[d] * (d + 1) as real == Pow(b, d + 1) - Pow(a, d + 1)
  {
    seq(m, d requires 0 <= d < m => (Pow(b, d + 1) - Pow(a, d + 1)) / (d + 1) as real)
  }

  /** The integral of polynomial i is the sum over d of coeffs[d][i] (b^(d+1) - a^(d+1)) / (d+1). */
  lemma {:induction false} IntegrateClosedForm(P: Polynomial, a: real, b: real)
    requires P.Valid()
    ensures forall i :: 0 <= i < P.Width() ==>
      Integrate(P, a, b)[i] == Dot(MonomialIntegrals(a, b, P.Degree() + 1), Column(P.coeffs, i))
  {
    var m := P.Degree() + 1;
    var hi, lo, w := PrimitivePowers(b, m), PrimitivePowers(a, m), MonomialIntegrals(a, b, m);
    MonomialIntegralsDifference(a, b, m);
    forall i | 0 <= i < P.Width()
      ensures Integrate(P, a, b)[i] == Dot(w, Column(P.coeffs, i))
    {
      PrimitiveValue(P, b, i);
      PrimitiveValue(P, a, i);
      DotSubLeft(hi, lo, w, Column(P.coeffs, i));
    }
  }

  /** The weight of x^d over [a, b] is the difference of the primitive's weights at b and a. */
  lemma {:induction false} MonomialIntegralsDifference(a: real, b: real, m: nat)
    ensures forall d :: 0 <= d < m ==> MonomialIntegrals(a, b, m)[d] == PrimitivePowers(b, m)[d] - PrimitivePowers(a, m)[d]
  {
    forall d | 0 <= d < m
      ensures MonomialIntegrals(a, b, m)[d] == PrimitivePowers(b, m)[d] - PrimitivePowers(a, m)[d]
    {
      QuotientDifference(Pow(b, d + 1), Pow(a, d + 1), (d + 1) as real, MonomialIntegrals(a, b, m)[d]);
    }
  }

  /** Entry d is x^(d+1) / (d+1), the primitive of x^d at x. */
  function PrimitivePowers(x: real, m: nat): (row: Vector)
    ensures |row| == m && forall d :: 0 <= d < m ==> row[d] == Pow(x, d + 1) / (d + 1) as real
  {
    seq(m, d requires 0 <= d < m => Pow(x, d + 1) / (d + 1) as real)
  }

  /** The primitive of polynomial i at x is the sum over d of coeffs[d][i] x^(d+1) / (d+1). */
  lemma {:induction false} PrimitiveValue(P: Polynomial, x: real, i: nat)
    requires P.Valid() && i < P.Width()
    ensures ValueAt(Primitive(P), x)[i] == Dot(PrimitivePowers(x, P.Degree() + 1), Column(P.coeffs, i))
  {
    var m := P.Degree() + 1;
    var pw, col := Powers(x, m + 1), Column(Primitive(P).coeffs, i);
    assert ValueAt(Primitive(P), x)[i] == Dot(pw, col);
    assert col[0] == 0.0;
    DotDropFirstRight(pw, col);
    PrimitiveTailValue(P, x, i, pw[1..], col[1..]);
  }

  /** Without the zero slot 0, the primitive's sum is the sum of coeffs[d][i] x^(d+1) / (d+1). */
  lemma {:induction false} PrimitiveTailValue(P: Polynomial, x: real, i: nat, pw': Vector, col': Vector)
    requires P.Valid() && i < P.Width()
    requires pw' == Powers(x, P.Degree() + 2)[1..] && col' == Column(Primitive(P).coeffs, i)[1..]
    ensures Dot(pw', col') == Dot(PrimitivePowers(x, P.Degree() + 1), Column(P.coeffs, i))
  {
    var m := P.Degree() + 1;
    PrimitiveColumnTail(P, i, col');
    PowersTail(x, m, pw');
    ShiftFactors(pw', col', PrimitivePowers(x, m), Column(P.coeffs, i));
  }

  lemma {:induction false} PrimitiveColumnTail(P: Polynomial, i: nat, col': Vector)
    requires P.Valid() && i < P.Width() && col' == Column(Primitive(P).coeffs, i)[1..]
    ensures |col'| == P.Degree() + 1
    ensures forall d :: 0 <= d < |col'| ==> col'[d] * (d + 1) as real == Column(P.coeffs, i)[d]
  {
    forall d | 0 <= d < |col'|
      ensures col'[d] * (d + 1) as real == Column(P.coeffs, i)[d]
    {
      assert col'[d] == Primitive(P).coeffs[d + 1][i];
    }
  }

  lemma {:induction false} PowersTail(x: real, m: nat, pw': Vector)
    requires pw' == Powers(x, m + 1)[1..]
    ensures |pw'| == m
    ensures forall d :: 0 <= d < m ==> PrimitivePowers(x, m)[d] == pw'[d] / (d + 1) as real
  {
  }

  /** Moving the factor 1/(d+1) from one side of every term to the other keeps a dot product. */
  lemma {:induction false} ShiftFactors(p: Vector, q: Vector, s: Vector, c: Vector)
    requires |p| == |q| == |s| == |c|
    requires forall d :: 0 <= d < |q| ==> q[d] * (d + 1) as real == c[d]
    requires forall d :: 0 <= d < |s| ==> s[d] == p[d] / (d + 1) as real
    ensures Dot(p, q) == Dot(s, c)
  {
    ShiftTerms(p, q, s, c);
    DotTermwise(p, q, s, c);
  }

  lemma {:induction false} ShiftTerms(p: Vector, q: Vector, s: Vector, c: Vector)
    requires |p| == |q| == |s| == |c|
    requires forall d :: 0 <= d < |q| ==> q[d] * (d + 1) as real == c[d]
    requires forall d :: 0 <= d < |s| ==> s[d] == p[d] / (d + 1) as real
    ensures forall d :: 0 <= d < |p| ==> p[d] * q[d] == s[d] * c[d]
  {
    forall d | 0 <= d < |p|
      ensures p[d] * q[d] == s[d] * c[d]
    {
      ShiftedTerm(p[d], c[d], (d + 1) as real, q[d]);
    }
  }

  lemma {:induction false} QuotientDifference(p: real, q: real, k: real, w: real)
    requires k > 0.0 && w * k == p - q
    ensures w == p / k - q / k
  {
  }

  /** p (c / k) == (p / k) c, given the slot relation q k == c of the primitive. */
  lemma {:induction false} ShiftedTerm(p: real, c: real, k: real, q: real)
    requires k > 0.0 && q * k == c
    ensures p * q == (p / k) * c
  {
    assert q == c / k;
  }

  /** Dot products whose terms agree one by one are equal. */
  lemma {:induction false} DotTermwise(u: Vector, v: Vector, u': Vector, v': Vector)
    requires |u| == |v| == |u'| == |v'|
    requires forall k :: 0 <= k < |u| ==> u[k] * v[k] == u'[k] * v'[k]
    ensures Dot(u, v) == Dot(u', v')
    decreases |u|
  {
    if |u| > 0 {
      var n := |u| - 1;
      DotTermwise(u[..n], v[..n], u'[..n], v'[..n]);
    }
  }

  /** Dot(u, x) - Dot(v, x) == Dot(u - v, x). */
  lemma {:induction false} DotSubLeft(u: Vector, v: Vector, w: Vector, x: Vector)
    requires |u| == |v| == |w| == |x|
    requires forall k :: 0 <= k < |w| ==> w[k] == u[k] - v[k]
    ensures Dot(u, x) - Dot(v, x) == Dot(w, x)
    decreases |w|
  {
    if |w| > 0 {
      var n := |w| - 1;
      DotSubLeft(u[..n], v[..n], w[..n], x[..n]);
    }
  }
}
