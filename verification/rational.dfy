/**
 Exact rational numbers: a fraction p/q of signed integers. The constructor
 stores numerator and denominator verbatim; every arithmetic operator builds
 the raw fraction and then reduces it to the canonical form (positive
 denominator, coprime terms, zero as 0/1). Comparisons cross-multiply and
 therefore also work on fractions that are not reduced.

 Integers are unbounded here, so the overflow the C++ code leaves undetected
 does not arise.
 */
module Rationals {
  import opened Numeric

  /** A fraction p/q, stored as given (the C++ constructor does not normalise). */
  datatype Rational = Rational(p: int, q: int)

  /** The default-constructed rational, 0/1. */
  const Zero: Rational := Rational(0, 1)

  /** A fraction is usable when its denominator is nonzero. */
  predicate IsValid(r: Rational) {
    r.q != 0
  }

  /** The exact value of a valid fraction, i.e. the conversion operator taken to the reals. */
  function Value(r: Rational): real
    requires IsValid(r)
  {
    r.p as real / r.q as real
  }

  /** The canonical representative: positive denominator, numerator and denominator coprime. */
  predicate IsCanonical(r: Rational) {
    r.q > 0 && Gcd(Abs(r.p), r.q) == 1
  }

  /** `simplify`: divide out the gcd, then move the sign onto the numerator. */
  function Simplify(r: Rational): (s: Rational)
    requires IsValid(r)
    ensures IsCanonical(s)
    ensures s.p * r.q == r.p * s.q
    ensures Value(s) == Value(r)
  {
    var g := StdGcd(r.p, r.q);
    var pp := TruncDiv(r.p, g);
    var qq := TruncDiv(r.q, g);
    SimplifyCorrect(r, g, pp, qq);
    if qq < 0 then Rational(-pp, -qq) else Rational(pp, qq)
  }

  lemma {:induction false} SimplifyCorrect(r: Rational, g: nat, pp: int, qq: int)
    requires IsValid(r) && g == StdGcd(r.p, r.q)
    requires pp == TruncDiv(r.p, g) && qq == TruncDiv(r.q, g)
    ensures qq != 0
    ensures var s := if qq < 0 then Rational(-pp, -qq) else Rational(pp, qq);
      IsCanonical(s) && s.p * r.q == r.p * s.q
  {
    var a, b := Abs(r.p), Abs(r.q);
    GcdOfQuotients(a, b);
    DivExact(a, g);
    DivExact(b, g);
    var x, y := a / g, b / g;
    TruncDivOfMultiple(r.p, g, x);
    TruncDivOfMultiple(r.q, g, y);
    var s := if qq < 0 then Rational(-pp, -qq) else Rational(pp, qq);
    assert s.q == y && Abs(s.p) == x && s.p == Sign(r.p) * Sign(r.q) * x by {
      assert Sign(r.q) * Sign(r.q) == 1;
    }
    SignedCross(Sign(r.p), Sign(r.q), g, x, y);
  }

  lemma {:induction false} TruncDivOfMultiple(a: int, g: int, x: int)
    requires g > 0 && Abs(a) == g * x
    ensures TruncDiv(a, g) == Sign(a) * x && a == Sign(a) * (g * x)
  {
    MultipleMod(g, x);
  }

  lemma {:induction false} SignedCross(sp: int, sq: int, g: int, x: int, y: int)
    requires sq == 1 || sq == -1
    ensures (sp * sq * x) * (sq * (g * y)) == (sp * (g * x)) * y
  {
    assert sq * sq == 1;
    calc {
      (sp * sq * x) * (sq * (g * y));
      (sq * sq) * (sp * x * g * y);
      sp * x * g * y;
      (sp * (g * x)) * y;
    }
  }

  /** Equal cross products mean equal values (for nonzero denominators). */
  lemma {:induction false} CrossImpliesValue(a: Rational, b: Rational)
    requires IsValid(a) && IsValid(b)
    ensures a.p * b.q == b.p * a.q <==> Value(a) == Value(b)
  {
    var ap, aq, bp, bq := a.p as real, a.q as real, b.p as real, b.q as real;
    assert (a.p * b.q) as real == ap * bq;
    assert (b.p * a.q) as real == bp * aq;
    assert Value(a) * aq == ap;
    assert Value(b) * bq == bp;
    assert ap * bq == Value(a) * aq * bq;
    assert bp * aq == Value(b) * aq * bq;
    assert aq * bq != 0.0;
  }

  /** `as_rational` on a plain integer: v becomes v/1. */
  function FromInt(v: int): (r: Rational)
    ensures IsCanonical(r) && Value(r) == v as real
  {
    GcdOneRight(Abs(v));
    Rational(v, 1)
  }

  /** Two canonical fractions with the same value are the same fraction. */
  lemma {:induction false} CanonicalUnique(a: Rational, b: Rational)
    requires IsCanonical(a) && IsCanonical(b) && Value(a) == Value(b)
    ensures a == b
  {
    CrossImpliesValue(a, b);
    var x, y := Abs(a.p), Abs(b.p);
    assert x * b.q == y * a.q by {
      AbsMul(a.p, b.q);
      AbsMul(b.p, a.q);
    }
    GcdScale(x, a.q, b.q);
    GcdScale(y, b.q, a.q);
    assert Gcd(x * b.q, a.q * b.q) == b.q;
    assert Gcd(y * a.q, b.q * a.q) == a.q;
    assert a.q * b.q == b.q * a.q;
    assert a.q == b.q;
    assert a.p * b.q == b.p * b.q;
    CancelRight(a.p, b.p, b.q);
  }

  lemma {:induction false} AbsMul(x: int, q: int)
    requires q > 0
    ensures Abs(x * q) == Abs(x) * q
  {
  }

  lemma {:induction false} CancelRight(x: int, y: int, q: int)
    requires q > 0 && x * q == y * q
    ensures x == y
  {
    if x < y {
      MulAtLeast(q, y - x);
    } else if x > y {
      MulAtLeast(q, x - y);
    }
  }

  /** Reducing an already canonical fraction gives it back unchanged. */
  lemma {:induction false} SimplifyIdempotent(r: Rational)
    requires IsCanonical(r)
    ensures Simplify(r) == r
  {
    CanonicalUnique(Simplify(r), r);
  }

  /** Every fraction of value zero reduces to 0/1, the default-constructed rational. */
  lemma {:induction false} SimplifyZero(r: Rational)
    requires IsValid(r) && r.p == 0
    ensures Simplify(r) == Zero
  {
    GcdOneRight(0);
    CanonicalUnique(Simplify(r), Zero);
  }

  // ---------------------------------------------------------------------------
  // Arithmetic

  /** `operator*`: the reduced form of (p1 p2)/(q1 q2). */
  function Mul(a: Rational, b: Rational): (r: Rational)
    requires IsValid(a) && IsValid(b)
    ensures IsCanonical(r) && Value(r) == Value(a) * Value(b)
  {
    var raw := Rational(a.p * b.p, a.q * b.q);
    ProductValue(a, b);
    Simplify(raw)
  }

  lemma {:induction false} ProductValue(a: Rational, b: Rational)
    requires IsValid(a) && IsValid(b)
    ensures a.q * b.q != 0
    ensures Value(Rational(a.p * b.p, a.q * b.q)) == Value(a) * Value(b)
  {
    var ap, aq, bp, bq := a.p as real, a.q as real, b.p as real, b.q as real;
    assert (a.p * b.p) as real == ap * bp;
    assert (a.q * b.q) as real == aq * bq;
    assert (ap * bp) / (aq * bq) == (ap / aq) * (bp / bq);
  }

  /** `operator/`: the reduced form of (p1 q2)/(q1 p2); the divisor must be nonzero. */
  function Div(a: Rational, b: Rational): (r: Rational)
    requires IsValid(a) && IsValid(b) && b.p != 0
    ensures IsCanonical(r) && Value(b) != 0.0 && Value(r) == Value(a) / Value(b)
  {
    var raw := Rational(a.p * b.q, a.q * b.p);
    QuotientValue(a, b);
    Simplify(raw)
  }

  lemma {:induction false} QuotientValue(a: Rational, b: Rational)
    requires IsValid(a) && IsValid(b) && b.p != 0
    ensures a.q * b.p != 0 && Value(b) != 0.0
    ensures Value(Rational(a.p * b.q, a.q * b.p)) == Value(a) / Value(b)
  {
    var ap, aq, bp, bq := a.p as real, a.q as real, b.p as real, b.q as real;
    assert (a.p * b.q) as real == ap * bq;
    assert (a.q * b.p) as real == aq * bp;
    assert (ap * bq) / (aq * bp) == (ap / aq) / (bp / bq);
  }

  /** The common denominator of a sum or difference: lcm(q1, q2), with the scale factors of each operand. */
  lemma {:induction false} CommonDenominator(a: Rational, b: Rational)
    requires IsValid(a) && IsValid(b)
    ensures StdLcm(a.q, b.q) > 0
    ensures TruncDiv(StdLcm(a.q, b.q), a.q) * a.q == StdLcm(a.q, b.q)
    ensures TruncDiv(StdLcm(a.q, b.q), b.q) * b.q == StdLcm(a.q, b.q)
  {
    var l := StdLcm(a.q, b.q);
    assert Abs(l) == l;
    TruncDivExact(l, a.q);
    TruncDivExact(l, b.q);
  }

  /** Value of n/l when l = ka qa = kb qb: it is the sum of (ka pa)/(ka qa) and (kb pb)/(kb qb). */
  lemma {:induction false} ScaledSumValue(pa: int, qa: int, ka: int, pb: int, qb: int, kb: int, l: int, sign: int)
    requires qa != 0 && qb != 0 && l != 0 && ka * qa == l && kb * qb == l
    requires sign == 1 || sign == -1
    ensures Value(Rational(pa * ka + sign * (pb * kb), l))
         == Value(Rational(pa, qa)) + sign as real * Value(Rational(pb, qb))
  {
    var L := l as real;
    assert L == ka as real * qa as real;
    assert L == kb as real * qb as real;
    assert ka as real != 0.0 && kb as real != 0.0;
    assert (pa * ka) as real / L == pa as real / qa as real;
    assert (pb * kb) as real / L == pb as real / qb as real;
    assert (pa * ka + sign * (pb * kb)) as real == (pa * ka) as real + sign as real * (pb * kb) as real;
  }

  /** `operator+`: both numerators are brought over lcm(q1, q2), added, and the result reduced. */
  function Add(a: Rational, b: Rational): (r: Rational)
    requires IsValid(a) && IsValid(b)
    ensures IsCanonical(r) && Value(r) == Value(a) + Value(b)
  {
    var l := StdLcm(a.q, b.q);
    CommonDenominator(a, b);
    var ka, kb := TruncDiv(l, a.q), TruncDiv(l, b.q);
    ScaledSumValue(a.p, a.q, ka, b.p, b.q, kb, l, 1);
    Simplify(Rational(a.p * ka + b.p * kb, l))
  }

  /** `operator-`: both numerators are brought over lcm(q1, q2), subtracted, and the result reduced. */
  function Sub(a: Rational, b: Rational): (r: Rational)
    requires IsValid(a) && IsValid(b)
    ensures IsCanonical(r) && Value(r) == Value(a) - Value(b)
  {
    var l := StdLcm(a.q, b.q);
    CommonDenominator(a, b);
    var ka, kb := TruncDiv(l, a.q), TruncDiv(l, b.q);
    ScaledSumValue(a.p, a.q, ka, b.p, b.q, kb, l, -1);
    assert a.p * ka + -1 * (b.p * kb) == a.p * ka - b.p * kb;
    Simplify(Rational(a.p * ka - b.p * kb, l))
  }

  /** The canonical result makes `*` commutative as a fraction, not only as a value. */
  lemma {:induction false} MulCommutative(a: Rational, b: Rational)
    requires IsValid(a) && IsValid(b)
    ensures Mul(a, b) == Mul(b, a)
  {
    CanonicalUnique(Mul(a, b), Mul(b, a));
  }

  /** The canonical result makes `+` commutative as a fraction, not only as a value. */
  lemma {:induction false} AddCommutative(a: Rational, b: Rational)
    requires IsValid(a) && IsValid(b)
    ensures Add(a, b) == Add(b, a)
  {
    CanonicalUnique(Add(a, b), Add(b, a));
  }

  // ---------------------------------------------------------------------------
  // Comparisons (they assume valid operands, and need not be reduced)

  /** `operator==`: cross-multiplication. */
  predicate Eq(a: Rational, b: Rational) {
    a.p * b.q == a.q * b.p
  }

  /**
   `operator<`: cross-multiplication, with the direction corrected by the xor
   of the denominators' signs. It excludes `==`.
   */
  predicate Less(a: Rational, b: Rational)
    ensures Less(a, b) ==> !Eq(a, b)
  {
    var x, y := a.p * b.q, a.q * b.p;
    if (a.q < 0) != (b.q > 0) then x < y else x > y
  }

  /**
   `operator>`: as `operator<` with the comparison reversed. Exactly one of
   `<`, `==` and `>` holds, for any two fractions.
   */
  predicate Greater(a: Rational, b: Rational)
    ensures Greater(a, b) ==> !Eq(a, b) && !Less(a, b)
    ensures Less(a, b) || Eq(a, b) || Greater(a, b)
  {
    var x, y := a.p * b.q, a.q * b.p;
    if (a.q < 0) != (b.q > 0) then x > y else x < y
  }

  /** `abs`: absolute values of both terms, not reduced. */
  function AbsR(r: Rational): (s: Rational)
    ensures IsValid(r) ==> IsValid(s) && Value(s) == if Value(r) < 0.0 then -Value(r) else Value(r)
    ensures IsCanonical(r) ==> IsCanonical(s)
  {
    var s := Rational(if r.p >= 0 then r.p else -r.p, if r.q >= 0 then r.q else -r.q);
    AbsValue(r, s);
    s
  }

  lemma {:induction false} AbsValue(r: Rational, s: Rational)
    requires s == Rational(if r.p >= 0 then r.p else -r.p, if r.q >= 0 then r.q else -r.q)
    ensures IsValid(r) ==> IsValid(s) && Value(s) == if Value(r) < 0.0 then -Value(r) else Value(r)
    ensures IsCanonical(r) ==> IsCanonical(s)
  {
    if IsValid(r) {
      var p, q := r.p as real, r.q as real;
      if r.p < 0 && r.q < 0 {
        assert Value(s) == (-p) / (-q) == p / q;
      } else if r.p < 0 {
        assert Value(s) == (-p) / q == -(p / q);
      } else if r.q < 0 {
        assert Value(s) == p / (-q) == -(p / q);
      }
    }
  }

  /** `==` on valid fractions is equality of values. */
  lemma {:induction false} EqIsValueEquality(a: Rational, b: Rational)
    requires IsValid(a) && IsValid(b)
    ensures Eq(a, b) <==> Value(a) == Value(b)
  {
    CrossImpliesValue(a, b);
    assert a.q * b.p == b.p * a.q;
  }

  /** Cross products compare like the values, scaled by the sign of q1 q2. */
  lemma {:induction false} CrossOrder(a: Rational, b: Rational)
    requires IsValid(a) && IsValid(b)
    ensures (a.q * b.q > 0) ==> (a.p * b.q < a.q * b.p <==> Value(a) < Value(b))
    ensures (a.q * b.q < 0) ==> (a.p * b.q < a.q * b.p <==> Value(a) > Value(b))
  {
    var va, vb := Value(a), Value(b);
    var aq, bq := a.q as real, b.q as real;
    var d := (a.q * b.q) as real;
    assert d == aq * bq;
    assert va * aq == a.p as real;
    assert vb * bq == b.p as real;
    assert (a.p * b.q) as real == va * d;
    assert (a.q * b.p) as real == vb * d;
  }

  /** `<` agrees with the order of the values, whatever the signs of the denominators. */
  lemma {:induction false} LessIsValueOrder(a: Rational, b: Rational)
    requires IsValid(a) && IsValid(b)
    ensures Less(a, b) <==> Value(a) < Value(b)
  {
    CrossOrder(a, b);
    CrossImpliesValue(a, b);
    assert a.q * b.p == b.p * a.q;
    if a.q > 0 && b.q > 0 {
      assert a.q * b.q > 0;
    } else if a.q < 0 && b.q < 0 {
      assert a.q * b.q > 0;
    } else if a.q > 0 {
      assert a.q * b.q < 0;
    } else {
      assert a.q * b.q < 0;
    }
  }

  /** `>` agrees with the order of the values, whatever the signs of the denominators. */
  lemma {:induction false} GreaterIsValueOrder(a: Rational, b: Rational)
    requires IsValid(a) && IsValid(b)
    ensures Greater(a, b) <==> Value(a) > Value(b)
  {
    CrossOrder(a, b);
    CrossImpliesValue(a, b);
    assert a.q * b.p == b.p * a.q;
    if a.q > 0 && b.q > 0 {
      assert a.q * b.q > 0;
    } else if a.q < 0 && b.q < 0 {
      assert a.q * b.q > 0;
    } else if a.q > 0 {
      assert a.q * b.q < 0;
    } else {
      assert a.q * b.q < 0;
    }
  }

  /** a < b exactly when b > a. */
  lemma {:induction false} LessIsConverseOfGreater(a: Rational, b: Rational)
    requires IsValid(a) && IsValid(b)
    ensures Less(a, b) <==> Greater(b, a)
  {
    LessIsValueOrder(a, b);
    GreaterIsValueOrder(b, a);
  }

  // ---------------------------------------------------------------------------
  // The checks of the rational test program, as facts about the model

  lemma {:induction false} ConstructionExamples()
    ensures FromInt(3) == Rational(3, 1) && Eq(FromInt(3), Rational(12, 4))
    ensures Eq(FromInt(0), Rational(0, 4))
    ensures Eq(Rational(3, 2), Rational(-9, -6)) && Eq(Rational(-3, 2), Rational(9, -6))
    ensures Eq(AbsR(Rational(-3, 2)), Rational(3, 2)) && AbsR(FromInt(3)) == FromInt(3)
    ensures FromInt(0) == Rational(0, 1) && AbsR(FromInt(0)) == FromInt(0)
    ensures AbsR(Rational(3, 2)) == Rational(3, 2)
  {
  }

  lemma {:induction false} ProductExamples()
    ensures Mul(Rational(3, 2), Rational(4, 3)) == Rational(2, 1)
    ensures Mul(Rational(4, 3), Rational(3, 2)) == Rational(2, 1)
    ensures Mul(Rational(3, 4), FromInt(2)) == Rational(3, 2)
    ensures Mul(FromInt(2), Rational(3, 4)) == Rational(3, 2)
    ensures Eq(Mul(FromInt(2), Rational(3, 2)), FromInt(3))
  {
  }

  lemma {:induction false} SumExamples()
    ensures Add(Rational(1, 2), Rational(3, 4)) == Rational(5, 4)
    ensures Add(Rational(3, 4), Rational(1, 2)) == Rational(5, 4)
  {
    assert Gcd(5, 4) == 1;
    CanonicalUnique(Add(Rational(1, 2), Rational(3, 4)), Rational(5, 4));
    CanonicalUnique(Add(Rational(3, 4), Rational(1, 2)), Rational(5, 4));
  }

  lemma {:induction false} MixedSumExamples()
    ensures Add(Rational(2, 3), FromInt(2)) == Rational(8, 3)
    ensures Add(FromInt(2), Rational(2, 3)) == Rational(8, 3)
  {
    assert Gcd(8, 3) == 1;
    CanonicalUnique(Add(Rational(2, 3), FromInt(2)), Rational(8, 3));
    CanonicalUnique(Add(FromInt(2), Rational(2, 3)), Rational(8, 3));
  }

  lemma {:induction false} ComparisonExamples()
    ensures Less(Rational(1, 2), Rational(2, 3)) && !Greater(Rational(1, 2), Rational(2, 3))
    ensures Greater(Rational(2, 3), Rational(1, 2)) && !Less(Rational(2, 3), Rational(1, 2))
    ensures Less(Rational(-2, 3), Rational(1, 3)) && Greater(Rational(1, 3), Rational(-2, 3))
    ensures !Greater(Rational(-2, 3), Rational(1, 3)) && !Less(Rational(1, 3), Rational(-2, 3))
    ensures Less(Rational(2, -3), Rational(1, 3)) && Greater(Rational(1, 3), Rational(2, -3))
    ensures !Greater(Rational(2, -3), Rational(1, 3)) && !Less(Rational(1, 3), Rational(2, -3))
    ensures Less(FromInt(-1), Rational(1, 2)) && Greater(Rational(1, 2), FromInt(-1))
    ensures !Greater(FromInt(-1), Rational(1, 2)) && !Less(Rational(1, 2), FromInt(-1))
    ensures Less(Rational(1, 2), FromInt(2)) && Greater(FromInt(2), Rational(1, 2))
    ensures !Greater(Rational(1, 2), FromInt(2)) && !Less(FromInt(2), Rational(1, 2))
  {
  }
}
