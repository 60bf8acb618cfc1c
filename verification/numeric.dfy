/**
 Integer helpers the rational arithmetic relies on: the absolute value, the
 greatest common divisor and least common multiple of the C++ `<numeric>`
 header (`std::gcd`, `std::lcm`), and C++ integer division, which truncates
 toward zero (Dafny's own `/` is Euclidean).
 */
module Numeric {

  function Abs(x: int): nat {
    if x < 0 then -x else x
  }

  /** Sign of an integer, as -1, 0 or 1. */
  function Sign(x: int): int {
    if x < 0 then -1 else if x == 0 then 0 else 1
  }

  /** Greatest common divisor of two naturals by Euclid's algorithm; Gcd(0, 0) == 0. */
  function Gcd(a: nat, b: nat): nat
    decreases b
  {
    if b == 0 then a else Gcd(b, a % b)
  }

  /** d is a positive divisor of x. */
  predicate Divides(d: int, x: int) {
    d > 0 && x % d == 0
  }

  /**
   `std::gcd(m, n)`: the gcd of the absolute values. It divides both, and every
   positive common divisor divides it, so it is the greatest one.
   */
  function StdGcd(m: int, n: int): (g: nat)
    ensures (m != 0 || n != 0) ==> g > 0 && Abs(m) % g == 0 && Abs(n) % g == 0
    ensures forall d :: Divides(d, Abs(m)) && Divides(d, Abs(n)) ==> Divides(d, g)
  {
    GcdFacts(Abs(m), Abs(n));
    GcdGreatestAll(Abs(m), Abs(n));
    Gcd(Abs(m), Abs(n))
  }

  /**
   `std::lcm(m, n)`: zero when either argument is zero, otherwise |m| / gcd(m, n) * |n|.
   For nonzero arguments it is a positive common multiple that divides every
   positive common multiple, so it is the least one.
   */
  function StdLcm(m: int, n: int): (l: nat)
    ensures m != 0 && n != 0 ==> l > 0 && l % Abs(m) == 0 && l % Abs(n) == 0
    ensures m != 0 && n != 0 ==> forall c :: c > 0 && Divides(Abs(m), c) && Divides(Abs(n), c) ==> Divides(l, c)
    ensures m == 0 || n == 0 ==> l == 0
  {
    if m == 0 || n == 0 then 0
    else
      var g := StdGcd(m, n);
      LcmIsCommonMultiple(Abs(m), Abs(n), g);
      LcmLeastAll(Abs(m), Abs(n));
      (Abs(m) / g) * Abs(n)
  }

  /**
   C++ integer division `a / b`: the quotient truncated toward zero. The
   remainder a - r b it leaves is smaller than |b| and, when nonzero, has the
   sign of a, which is what the C++ standard asks of `/` and `%`.
   */
  function TruncDiv(a: int, b: int): (r: int)
    requires b != 0
    ensures Abs(a - r * b) < Abs(b)
    ensures a - r * b == 0 || (a - r * b < 0) == (a < 0)
    ensures Abs(r) == Abs(a) / Abs(b)
  {
    var q := Abs(a) / Abs(b);
    var r := if (a < 0) == (b < 0) then q else -q;
    EuclidFacts(Abs(a), Abs(b));
    TruncRemainder(a, b, q, r);
    r
  }

  /** Euclidean division of naturals, as facts the solver can use linearly. */
  lemma {:induction false} EuclidFacts(n: nat, d: nat)
    requires d > 0
    ensures n == d * (n / d) + n % d && 0 <= n % d < d && n / d >= 0
  {
  }

  lemma {:induction false} NegMul(x: int, y: int)
    ensures x * (-y) == -(x * y) && (-x) * y == -(x * y)
  {
  }

  /** With r the truncated quotient, r b is |b| q carrying the sign of a. */
  lemma {:induction false} TruncProduct(a: int, b: int, q: int, r: int)
    requires b != 0 && r == (if (a < 0) == (b < 0) then q else -q)
    ensures r * b == (if a < 0 then -(Abs(b) * q) else Abs(b) * q)
  {
    NegMul(q, Abs(b));
  }

  lemma {:induction false} TruncRemainder(a: int, b: int, q: int, r: int)
    requires b != 0 && q == Abs(a) / Abs(b) && r == (if (a < 0) == (b < 0) then q else -q)
    ensures Abs(a - r * b) < Abs(b) && (a - r * b == 0 || (a - r * b < 0) == (a < 0))
  {
    TruncProduct(a, b, q, r);
    EuclidFacts(Abs(a), Abs(b));
    var p, m := Abs(b) * q, Abs(a) % Abs(b);
    assert r * b == (if a < 0 then -p else p);
    assert Abs(a) == p + m;
  }

  /**
   Truncating division is the only quotient whose remainder is smaller than
   |b| and zero or of the sign of a.
   */
  lemma {:induction false} TruncDivUnique(a: int, b: int, q: int)
    requires b != 0
    requires Abs(a - q * b) < Abs(b) && (a - q * b == 0 || (a - q * b < 0) == (a < 0))
    ensures q == TruncDiv(a, b)
  {
    var A, B := Abs(a), Abs(b);
    var e := a - q * b;
    if a >= 0 && b > 0 {
      DivModUnique(A, B, q, e);
    } else if a >= 0 {
      NegMul(q, B);
      DivModUnique(A, B, -q, e);
    } else if b > 0 {
      NegMul(q, B);
      DivModUnique(A, B, -q, -e);
    } else {
      NegMul(q, B);
      DivModUnique(A, B, q, -e);
    }
  }

  // ---------------------------------------------------------------------------
  // Division facts

  /** Euclidean division is unique: any decomposition n == d * q + r with 0 <= r < d is the one `/` and `%` compute. */
  lemma {:induction false} DivModUnique(n: int, d: int, q: int, r: int)
    requires d > 0 && 0 <= r < d && n == d * q + r
    ensures n / d == q && n % d == r
  {
    var q', r' := n / d, n % d;
    assert n == d * q' + r';
    if q' < q {
      assert d * (q - q') == r' - r;
      MulAtLeast(d, q - q');
    } else if q' > q {
      assert d * (q' - q) == r - r';
      MulAtLeast(d, q' - q);
    }
  }

  lemma {:induction false} MulAtLeast(d: int, k: int)
    requires d > 0 && k >= 1
    ensures d * k >= d
  {
    assert d * k == d * (k - 1) + d;
    assert d * (k - 1) >= 0;
  }

  lemma {:induction false} MultipleMod(d: int, k: int)
    requires d > 0
    ensures (d * k) % d == 0 && (d * k) / d == k
  {
    DivModUnique(d * k, d, k, 0);
  }

  /** If d divides n, then n is d times the quotient. */
  lemma {:induction false} DivExact(n: int, d: int)
    requires d > 0 && n % d == 0
    ensures n == d * (n / d)
  {
  }

  /** Truncating division is exact when the divisor divides the dividend. */
  lemma {:induction false} TruncDivExact(a: int, b: int)
    requires b != 0 && Abs(a) % Abs(b) == 0
    ensures TruncDiv(a, b) * b == a
  {
    var q := Abs(a) / Abs(b);
    DivExact(Abs(a), Abs(b));
    assert Abs(a) == Abs(b) * q;
    if a < 0 && b < 0 {
      assert TruncDiv(a, b) * b == q * b;
    } else if a < 0 {
      assert TruncDiv(a, b) * b == -q * b;
    } else if b < 0 {
      assert TruncDiv(a, b) * b == -q * b;
    } else {
      assert TruncDiv(a, b) * b == q * b;
    }
  }

  // ---------------------------------------------------------------------------
  // Gcd facts

  lemma {:induction false} GcdPositive(a: nat, b: nat)
    requires a > 0 || b > 0
    ensures Gcd(a, b) > 0
    decreases b
  {
    if b != 0 {
      GcdPositive(b, a % b);
    }
  }

  lemma {:induction false} GcdDividesBoth(a: nat, b: nat)
    requires Gcd(a, b) > 0
    ensures a % Gcd(a, b) == 0 && b % Gcd(a, b) == 0
    decreases b
  {
    var g := Gcd(a, b);
    if b == 0 {
      MultipleMod(a, 1);
    } else {
      var r := a % b;
      GcdDividesBoth(b, r);
      assert a == b * (a / b) + r;
      DividesCombination(b, r, a / b, g);
    }
  }

  /** A common divisor g of b and r divides b q + r. */
  lemma {:induction false} DividesCombination(b: int, r: int, q: int, g: int)
    requires g > 0 && b % g == 0 && r % g == 0
    ensures (b * q + r) % g == 0
  {
    DivExact(b, g);
    DivExact(r, g);
    var x, y := b / g, r / g;
    assert b * q + r == g * (x * q + y) by {
      assert b * q == (g * x) * q == g * (x * q);
    }
    MultipleMod(g, x * q + y);
  }

  lemma {:induction false} GcdFacts(a: nat, b: nat)
    ensures (a > 0 || b > 0) ==> Gcd(a, b) > 0 && a % Gcd(a, b) == 0 && b % Gcd(a, b) == 0
  {
    if a > 0 || b > 0 {
      GcdPositive(a, b);
      GcdDividesBoth(a, b);
    }
  }

  lemma {:induction false} GcdOneRight(a: nat)
    ensures Gcd(a, 1) == 1
  {
    assert a % 1 == 0;
    assert Gcd(a, 1) == Gcd(1, 0);
  }

  /** Scaling both operands by c > 0 scales the remainder by c. */
  lemma {:induction false} ScaledRemainder(a: nat, b: nat, c: nat)
    requires b > 0 && c > 0
    ensures b * c > 0 && (a * c) % (b * c) == (a % b) * c
  {
    var r := a % b;
    assert a == b * (a / b) + r;
    assert a * c == (b * c) * (a / b) + r * c;
    assert 0 <= r * c < b * c by {
      assert (b - r) * c > 0 by { MulAtLeast(c, b - r); }
    }
    DivModUnique(a * c, b * c, a / b, r * c);
  }

  /** Scaling both arguments scales the gcd: gcd(a c, b c) == gcd(a, b) c. */
  lemma {:induction false} GcdScale(a: nat, b: nat, c: nat)
    requires c > 0
    ensures Gcd(a * c, b * c) == Gcd(a, b) * c
    decreases b
  {
    if b != 0 {
      var r := a % b;
      ScaledRemainder(a, b, c);
      calc {
        Gcd(a * c, b * c);
        Gcd(b * c, (a * c) % (b * c));
        Gcd(b * c, r * c);
        { GcdScale(b, r, c); }
        Gcd(b, r) * c;
      }
    }
  }

  /** Every positive common divisor of a and b divides Gcd(a, b). */
  lemma {:induction false} GcdGreatest(a: nat, b: nat, d: int)
    requires d > 0 && a % d == 0 && b % d == 0
    ensures Gcd(a, b) % d == 0
    decreases b
  {
    if b != 0 {
      var q, r := a / b, a % b;
      assert b * (-q) + a == r;
      DividesCombination(b, a, -q, d);
      GcdGreatest(b, r, d);
    }
  }

  lemma {:induction false} GcdGreatestAll(a: nat, b: nat)
    ensures forall d :: Divides(d, a) && Divides(d, b) ==> Divides(d, Gcd(a, b))
  {
    forall d | Divides(d, a) && Divides(d, b) ensures Divides(d, Gcd(a, b)) {
      GcdGreatest(a, b, d);
    }
  }

  /** A nonzero common factor cancels. */
  lemma {:induction false} CancelFactor(g: int, u: int, v: int)
    requires g > 0 && g * u == g * v
    ensures u == v
  {
    if u < v {
      MulAtLeast(g, v - u);
    } else if u > v {
      MulAtLeast(g, u - v);
    }
  }

  /** If y is coprime to x and divides x s, it divides s: gcd(x s, y s) = s. */
  lemma {:induction false} CoprimeDividesFactor(x: nat, y: nat, s: nat)
    requires y > 0 && s > 0 && Gcd(x, y) == 1 && (x * s) % y == 0
    ensures s % y == 0
  {
    MultipleMod(y, s);
    GcdGreatest(x * s, y * s, y);
    GcdScale(x, y, s);
  }

  /** A positive multiple of a positive d has a positive quotient. */
  lemma {:induction false} PositiveQuotient(c: int, d: int)
    requires d > 0 && c > 0 && c % d == 0
    ensures c / d > 0
  {
    DivExact(c, d);
  }

  /** From (g x) s = (g y) t with g > 0, y divides x s. */
  lemma {:induction false} CancelledMultiple(g: int, x: int, y: int, s: int, t: int)
    requires g > 0 && y > 0 && (g * x) * s == (g * y) * t
    ensures (x * s) % y == 0
  {
    assert g * (x * s) == (g * x) * s;
    assert g * (y * t) == (g * y) * t;
    CancelFactor(g, x * s, y * t);
    MultipleMod(y, t);
  }

  /** (g x)(y u) is a multiple of x (g y). */
  lemma {:induction false} RegroupedMultiple(g: int, x: int, y: int, u: int)
    requires x * (g * y) > 0
    ensures ((g * x) * (y * u)) % (x * (g * y)) == 0
  {
    assert (g * x) * (y * u) == (x * (g * y)) * u;
    MultipleMod(x * (g * y), u);
  }

  /**
   With g = gcd(a, b), a = g x and b = g y: a positive common multiple c = a s
   of a and b is a multiple of x b, because y divides x s and so divides s.
   */
  lemma {:induction false} LcmLeast(a: nat, b: nat, c: int)
    requires a > 0 && b > 0 && c > 0 && c % a == 0 && c % b == 0
    ensures Gcd(a, b) > 0
    ensures var l := (a / Gcd(a, b)) * b; l > 0 && c % l == 0
  {
    var g := Gcd(a, b);
    GcdOfQuotients(a, b);
    GcdDividesBoth(a, b);
    DivExact(a, g);
    DivExact(b, g);
    var x: nat, y: nat := a / g, b / g;
    PositiveQuotient(a, g);
    PositiveQuotient(b, g);
    DivExact(c, a);
    DivExact(c, b);
    PositiveQuotient(c, a);
    var s: nat, t := c / a, c / b;
    CancelledMultiple(g, x, y, s, t);
    CoprimeDividesFactor(x, y, s);
    DivExact(s, y);
    MulAtLeast(b, x);
    RegroupedMultiple(g, x, y, s / y);
  }

  lemma {:induction false} LcmLeastAll(a: nat, b: nat)
    requires a > 0 && b > 0
    ensures Gcd(a, b) > 0
    ensures forall c :: c > 0 && Divides(a, c) && Divides(b, c) ==> Divides((a / Gcd(a, b)) * b, c)
  {
    GcdPositive(a, b);
    forall c | c > 0 && Divides(a, c) && Divides(b, c) ensures Divides((a / Gcd(a, b)) * b, c) {
      LcmLeast(a, b, c);
    }
  }

  /** After dividing out their gcd, two naturals (not both zero) are coprime. */
  lemma {:induction false} GcdOfQuotients(a: nat, b: nat)
    requires b > 0
    ensures Gcd(a, b) > 0 && Gcd(a / Gcd(a, b), b / Gcd(a, b)) == 1
  {
    var g := Gcd(a, b);
    GcdPositive(a, b);
    GcdDividesBoth(a, b);
    var x, y := a / g, b / g;
    DivExact(a, g);
    DivExact(b, g);
    GcdScale(x, y, g);
    assert x * g == a && y * g == b;
    assert Gcd(x, y) * g == g;
  }

  /** |m| / g * |n| is a positive multiple of both |m| and |n| when g is their gcd. */
  lemma {:induction false} LcmIsCommonMultiple(a: nat, b: nat, g: nat)
    requires a > 0 && b > 0 && g == Gcd(a, b)
    ensures g > 0 && (a / g) * b > 0 && ((a / g) * b) % a == 0 && ((a / g) * b) % b == 0
  {
    GcdPositive(a, b);
    GcdDividesBoth(a, b);
    DivExact(a, g);
    DivExact(b, g);
    var x, y := a / g, b / g;
    assert x > 0;
    assert x * b > 0 by { MulAtLeast(b, x); }
    assert x * b == b * x;
    MultipleMod(b, x);
    assert x * b == a * y by {
      assert x * b == x * (g * y);
      assert a * y == (g * x) * y;
    }
    MultipleMod(a, y);
  }
}
