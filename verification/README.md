# PolySche in Dafny

PolySche builds interpolation stencils in exact arithmetic. A `PolynomialScheme`
collects linear constraints on a polynomial: its value at a point, its slope at
a point, or its integral over a cell. Each constraint is evaluated on the
monomial basis and becomes one row of a matrix. Gauss-Jordan inversion of that
matrix gives a grid of polynomials. Polynomial `k` of the grid satisfies
constraint `k` with value 1 and every other constraint with value 0, so the
grid's coefficients are the weights of the stencil.

This project models the four layers of that pipeline and proves what each
promises:

| module | file | models |
|---|---|---|
| `Numeric` | numeric.dfy | `std::gcd`, `std::lcm` and C++ integer division (truncation toward zero), with the gcd facts the rationals rely on |
| `Rationals` | rational.dfy | `Rational<T>`: the constructor, `simplify`, promotion of integers, `* / + -`, `== < >` and `abs` |
| `Matrices` | matrices.dfy | shared vocabulary: vectors, matrices, dot products, identity, kernel, nonsingularity |
| `Gauss` | gauss.dfy | `swap_array`, `gauss` (Gauss-Jordan with partial pivoting), `gauss_solve`, `gauss_inv` |
| `Polynomials` | polynomial.dfy | `Polynomial<T, Degree, N>`: constructors, evaluation, `derivate`, `primitive`, `integrate` |
| `Schemes` | scheme.dfy | `PolynomialScheme<Order>`: `get_polynomial`, `add_eqn`, `solve`, and the three kinds of constraint |
| `Scenarios` | scenarios.dfy | the worked examples of the test programs, stated and proved as facts |

Rationals are modelled over unbounded `int`, with `Value(r): real` as their
meaning. The linear algebra and polynomial layers work over `real`, which is
exact in Dafny. Three groups of lemmas justify using `real` there:

- every rational operation commutes with `Value`;
- `==`, `<` and `>` agree with equality and order of values;
- canonical fractions are unique for their value.

Together these make canonical rationals an exact copy of the rational numbers.

Main results:

- `Gauss.Gauss` returns a matrix of the input's shape. The result is in reduced
  row-echelon form, and it has the same kernel as the input. The loop
  invariant is the echelon form over the columns swept so far, together with
  kernel equality.
- For a nonsingular `A`, `Gauss.GaussSolve` returns the solution of
  `A x = b`, and `Gauss.GaussInv` returns the two-sided inverse.
- `Schemes.BuildAndSolve` returns the cardinal basis of a nonsingular
  constraint set: constraint `r` applied to the result gives the unit vector
  `e_r`. `Schemes.CardinalUnique` shows this basis is unique.
- `Polynomials.Derivate` follows the code as written, including its two
  low-degree special cases. `Polynomials.DerivateExact` is the corrected
  derivative (see Findings). Above degree 1 the two agree
  (`Polynomials.DerivateAgreesAboveOne`).

Notes on the code's behaviour:

- `derivate` of a degree-1 grid returns zero.
- The `Rational` constructor stores `p` and `q` verbatim and does not reduce.
- `solve` does not check that every row was filled.

## Model

| member | source | states |
|---|---|---|
| Numeric.StdGcd | include/rational.hpp:38 | `std::gcd` of two integers, not both zero, is a positive common divisor of their absolute values, and every positive common divisor divides it, so it is the greatest one |
| Numeric.GcdGreatest | include/rational.hpp:38 | along Euclid's recursion, every positive common divisor of `a` and `b` divides their gcd |
| Numeric.StdLcm | include/rational.hpp:139 | `std::lcm` of two nonzero integers is a positive common multiple of both that divides every positive common multiple, so it is the least one; it is 0 when either argument is 0 |
| Numeric.LcmLeast | include/rational.hpp:139 | `|a| / gcd * |b|` divides every positive common multiple of `a` and `b` |
| Numeric.TruncDiv | include/rational.hpp:39-40 | C++ integer `/`: the magnitude of the quotient is `|a| / |b|`, and the remainder `a - r b` is smaller than `|b|` and is zero or has the sign of `a`, as C++ requires of `/` and `%` |
| Numeric.TruncDivUnique | include/rational.hpp:39-40 | no other quotient leaves a remainder with those two properties, so `TruncDiv` is C++ division and not Dafny's Euclidean one |
| Numeric.GcdOfQuotients | include/rational.hpp:38-40 | dividing numerator and denominator by their gcd leaves them coprime |
| Numeric.TruncDivExact | include/rational.hpp:39-40 | C++ division truncating toward zero is exact when the divisor divides the dividend, so `p / g` and `q / g` lose nothing |
| Rationals.Simplify | include/rational.hpp:32-47 | for a nonzero denominator the result is canonical (positive denominator, coprime terms) and has the same value; the cross products agree |
| Rationals.SimplifyIdempotent | include/rational.hpp:38-46 | reducing an already canonical fraction returns it unchanged |
| Rationals.SimplifyZero | include/rational.hpp:32-47 | every fraction with numerator 0 reduces to 0/1, the default-constructed rational |
| Rationals.CanonicalUnique | include/rational.hpp:32-47 | two canonical fractions with the same value are the same pair, so `simplify` picks the one representative of each value |
| Rationals.FromInt | include/rational.hpp:84-94 | promoting an integer `v` gives `v/1`, which is canonical and has value `v` |
| Rationals.Mul | include/rational.hpp:111-116 | `*` returns a canonical fraction whose value is the product of the values |
| Rationals.MulCommutative | include/rational.hpp:111-116 | `a * b` and `b * a` are the same fraction |
| Rationals.Div | include/rational.hpp:123-128 | `/` needs a divisor with a nonzero numerator (otherwise `simplify`'s validity assertion fails); it returns a canonical fraction whose value is the quotient |
| Rationals.CommonDenominator | include/rational.hpp:139-140 | the lcm of the denominators is positive, and both scale factors `lcm / q` are exact |
| Rationals.Add | include/rational.hpp:135-141 | `+` over the lcm denominator returns a canonical fraction whose value is the sum |
| Rationals.AddCommutative | include/rational.hpp:135-141 | `a + b` and `b + a` are the same fraction |
| Rationals.Sub | include/rational.hpp:148-154 | `-` over the lcm denominator returns a canonical fraction whose value is the difference |
| Rationals.IsValid | include/rational.hpp:27-30 | `is_valid` holds exactly when the denominator is nonzero; it has no contract of its own, and `Value`, `Simplify`, `Div` and the comparison lemmas require it |
| Rationals.Eq | include/rational.hpp:161-169 | `==` by cross-multiplication; it has no contract of its own, and `Rationals.EqIsValueEquality` states that it is equality of values |
| Rationals.Less | include/rational.hpp:176-187 | `<` never holds together with `==`; `Rationals.LessIsValueOrder` states that it is the order of the values |
| Rationals.Greater | include/rational.hpp:194-205 | `>` excludes both `<` and `==`, and for any two fractions one of `<`, `==`, `>` holds |
| Rationals.EqIsValueEquality | include/rational.hpp:161-169 | for nonzero denominators, cross-multiplied `==` holds exactly when the values are equal, reduced or not |
| Rationals.LessIsValueOrder | include/rational.hpp:176-187 | `<` with its xor sign correction holds exactly when the first value is smaller, for every sign of the denominators |
| Rationals.GreaterIsValueOrder | include/rational.hpp:194-205 | `>` holds exactly when the first value is larger, for every sign of the denominators |
| Rationals.LessIsConverseOfGreater | include/rational.hpp:176-205 | `a < b` holds exactly when `b > a` |
| Rationals.AbsR | include/rational.hpp:213-221 | `abs` of a valid fraction is valid and has the absolute value; it keeps canonical fractions canonical |
| Rationals.ConstructionExamples | tests/test_rational.cpp:11-57 | the test's construction checks: 3 is `3/1` and equals `12/4`, 0 is `0/1` and equals `0/4`, `3/2 == -9/-6`, `-3/2 == 9/-6`, `abs(-3/2) == 3/2`, `abs(3/2) == 3/2`, `abs(3) == 3`, `abs(0) == 0` |
| Rationals.ProductExamples | tests/test_rational.cpp:60-93 | `3/2 * 4/3 = 2/1` in both orders, `3/4 * 2 = 3/2` in both orders, `2 * 3/2 == 3` |
| Rationals.SumExamples | tests/test_rational.cpp:71-80 | `1/2 + 3/4 = 5/4` in both orders |
| Rationals.MixedSumExamples | tests/test_rational.cpp:95-104 | `2/3 + 2 = 8/3` in both orders |
| Rationals.ComparisonExamples | tests/test_rational.cpp:106-121 | the four comparisons of each test pair (`<` and `>` in both orders), including the un-normalised `2/-3 < 1/3` |
| Gauss.SwapRows | include/polysche/gauss.hpp:13-18 | rows `i` and `k` are exchanged and every other row is unchanged |
| Gauss.SwapKeepsKernel | include/polysche/gauss.hpp:48-49 | swapping two rows keeps the kernel |
| Gauss.ScaleRow | include/polysche/gauss.hpp:45-46 | multiplying the new row `k` by the pivot gives back the old row; the other rows are untouched |
| Gauss.ScaleKeepsKernel | include/polysche/gauss.hpp:45-46 | dividing a row by a nonzero pivot keeps the kernel |
| Gauss.EliminateColumn | include/polysche/gauss.hpp:51-59 | every row other than `r` loses `A[i][j]` times row `r`; once `A[r][j] = 1`, column `j` becomes the unit vector of row `r` |
| Gauss.EliminateKeepsKernel | include/polysche/gauss.hpp:51-59 | subtracting multiples of the pivot row keeps the kernel |
| Gauss.SelectPivot | include/polysche/gauss.hpp:34-41 | the pivot is the first row in `[r, M)` whose entry in column `j` has the largest magnitude |
| Gauss.ZeroPivotColumn | include/polysche/gauss.hpp:43 | a zero pivot means column `j` is zero in every unreduced row, so skipping the column is sound |
| Gauss.SweepColumn | include/polysche/gauss.hpp:34-61 | one pass over column `j` extends the echelon form to column `j`, keeps the kernel, and adds a pivot exactly when one is found; a skipped column leaves the matrix unchanged |
| Gauss.ApplyPivot | include/polysche/gauss.hpp:45-59 | normalising row `k` by the pivot, swapping it into row `r` and eliminating column `j` keeps the M x N shape and the kernel; when the pivot is the column-`j` entry of a row `k >= r` and the earlier columns are zero below row `r`, column `j` becomes the unit vector of row `r` and the earlier columns are unchanged |
| Gauss.PivotStepKeepsRref | include/polysche/gauss.hpp:45-61 | normalise, swap and eliminate turn column `j` into a new pivot column: earlier pivot columns stay unit vectors and the kernel is kept |
| Gauss.Gauss | include/polysche/gauss.hpp:26-65 | `gauss` keeps the M x N shape, returns the reduced row-echelon form, and keeps the kernel, so solutions of the system are kept |
| Gauss.Augment | include/polysche/gauss.hpp:74-80 | `[A \| B]` has the rows of `A` with the rows of `B` appended, `N + K` columns each |
| Gauss.LeftBlockIsIdentity | include/polysche/gauss.hpp:82-85 | reducing `[A \| B]` with nonsingular `A` leaves the identity in the left block, so `R[i][i] = 1` and the division in `gauss_solve` is safe |
| Gauss.GaussSolve | include/polysche/gauss.hpp:72-87 | for nonsingular `A`, `solution[i] = R[i][N] / R[i][i]` satisfies `A x = b` |
| Gauss.SolutionUnique | include/polysche/gauss.hpp:72-87 | a nonsingular system has at most one solution, so `gauss_solve` returns the solution |
| Gauss.GaussInv | include/polysche/gauss.hpp:94-113 | the right block of the reduced `[A \| I]` is an N x N matrix; for nonsingular `A` it is both a left and a right inverse |
| Polynomials.Constant | include/polysche/polynomial.hpp:19-24 | the value constructor fills all `(Degree+1) x N` coefficients with `value` |
| Polynomials.ZeroPolynomial | include/polysche/polynomial.hpp:19-24 | the default constructor gives the all-zero grid of the given shape |
| Polynomials.ValueAt | include/polysche/polynomial.hpp:29-48 | one value per polynomial; its contract states only the shape, and `Polynomials.Evaluate`, `Polynomials.ValueAtZero` and `Schemes.GetPolynomialValue` state the values |
| Polynomials.Evaluate | include/polysche/polynomial.hpp:29-48 | the power-accumulating loop returns, for every polynomial `i`, the sum of `coeffs[d][i] x^d` over all slots |
| Polynomials.EvaluateStep | include/polysche/polynomial.hpp:39-46 | one pass of the outer loop extends the partial sums by slot `degree` |
| Polynomials.ValueAtZero | include/polysche/polynomial.hpp:29-48 | evaluating at 0 gives the constant slot |
| Polynomials.ValueAtZeroPolynomial | include/polysche/polynomial.hpp:19-24 | the zero grid evaluates to zero everywhere |
| Polynomials.DeriveOnce | include/polysche/polynomial.hpp:59-62 | one differentiation step keeps the capacity, moves `d * coeffs[d]` to slot `d-1`, and zeroes the top slot |
| Polynomials.Derivate | include/polysche/polynomial.hpp:50-64 | `derivate(order)` as written keeps the capacity and the number of polynomials; its contract states only the shape, and the lemmas below state the coefficients |
| Polynomials.DerivateExact | include/polysche/polynomial.hpp:59-63 | `order` differentiation steps keep the shape; its contract states only the shape, and `Polynomials.DerivateExactIsKthDerivative` states the coefficients |
| Polynomials.DerivateLowDegree | include/polysche/polynomial.hpp:52-56 | `derivate(0)`, and `derivate` of a degree-0 grid, return the grid; a degree-1 grid with `order >= 1` gives the zero grid |
| Polynomials.DerivateAgreesAboveOne | include/polysche/polynomial.hpp:50-64 | from degree 2 on, `derivate(k)` as written is exactly `k` differentiation steps |
| Polynomials.DerivateExactIsKthDerivative | include/polysche/polynomial.hpp:59-63 | `k` steps put `(d+1)...(d+k)` times the coefficient of `x^(d+k)` into slot `d`, which is the k-th derivative |
| Polynomials.DerivateCoefficients | include/polysche/polynomial.hpp:59-63 | for degree 2 or more, `derivate(k)` as written is the k-th derivative |
| Polynomials.DerivateBeyondDegree | include/polysche/polynomial.hpp:59-63 | differentiating more often than the degree gives the zero grid of the same shape: always for the exact steps, and from degree 2 on as written |
| Polynomials.DerivateKeepsConstant | include/polysche/polynomial.hpp:52-53 | as written, a nonzero constant differentiates to itself rather than to 0 |
| Polynomials.DerivateLosesSlope | include/polysche/polynomial.hpp:54-57 | as written, a linear polynomial with a nonzero slope differentiates to 0 rather than to its slope |
| Polynomials.Primitive | include/polysche/polynomial.hpp:66-73 | the primitive has one more slot and a zero constant; `d` times slot `d` is slot `d-1` of the input |
| Polynomials.DerivateExactOfPrimitive | include/polysche/polynomial.hpp:66-73 | differentiating the primitive once gives back every slot of the input, plus a zero top slot, for every degree |
| Polynomials.DerivateOfPrimitive | include/polysche/polynomial.hpp:50-73 | with `derivate` as written, the same round trip holds from degree 1 on |
| Polynomials.DerivateOfPrimitiveLosesConstant | include/polysche/polynomial.hpp:54-57 | with `derivate` as written, the round trip fails for a nonzero constant: its primitive is linear and differentiates to 0 |
| Polynomials.PrimitiveValue | include/polysche/polynomial.hpp:66-73 | the primitive of polynomial `i` at `x` is the sum of `coeffs[d][i] x^(d+1) / (d+1)` |
| Polynomials.Integrate | include/polysche/polynomial.hpp:75-85 | one integral per polynomial; its contract states only the shape, and `Polynomials.IntegrateClosedForm` states the values |
| Polynomials.IntegrateClosedForm | include/polysche/polynomial.hpp:75-85 | `integrate(a, b)` of polynomial `i` is the sum of `coeffs[d][i] (b^(d+1) - a^(d+1)) / (d+1)` |
| Polynomials.IntegrateEmptyInterval | include/polysche/polynomial.hpp:75-85 | `integrate(a, a)` is zero |
| Polynomials.IntegrateAntisymmetric | include/polysche/polynomial.hpp:75-85 | swapping the bounds negates the integral |
| Polynomials.IntegrateAdditive | include/polysche/polynomial.hpp:75-85 | integrals over `[a, b]` and `[b, c]` add up to the integral over `[a, c]` |
| Schemes.Fresh | include/polynomial_scheme.hpp:15-16 | a fresh builder has index 0 and an all-zero matrix, since a default rational is 0/1 |
| Schemes.GetPolynomial | include/polynomial_scheme.hpp:18-24 | the monomial grid has `coeffs[d][k] = 1` exactly when `d = k`, and 0 otherwise |
| Schemes.GetPolynomialValue | include/polynomial_scheme.hpp:18-24 | evaluating the monomial grid at `x` gives the row `[1, x, ..., x^Order]` |
| Schemes.Apply | tests/test_polynomial_scheme.cpp:55-60 | `P(x)`, the slope at `x` and `P.integrate(a, b)` give one value per polynomial of the grid; its contract states only the shape, and the monomial lemmas state the values |
| Schemes.ApplyIsLinear | include/polynomial_scheme.hpp:18-24 | a constraint on any grid is the dot product of its row on the monomial grid with the grid's coefficient column |
| Schemes.AddEqn | include/polynomial_scheme.hpp:26-32 | `add_eqn` needs `index <= Order`; it returns a copy with row `index` set to `coeffs`, the index advanced, and every other row kept |
| Schemes.Build | tests/test_polynomial_scheme.cpp:24-27 | a fresh builder followed by one `add_eqn(c(P))` per constraint gives a valid scheme of the given order whose index is the number of constraints |
| Schemes.BuildRows | include/polynomial_scheme.hpp:26-32 | after a sequence of `add_eqn` calls, row `r` is constraint `r` on the monomial grid, and unfilled rows are still zero |
| Schemes.Solve | include/polynomial_scheme.hpp:34-39 | `solve` returns a degree-`Order` grid of `Order+1` polynomials; for a nonsingular matrix, matrix times grid and grid times matrix are both the identity |
| Schemes.CardinalIffInverse | include/polynomial_scheme.hpp:34-39 | a grid meets every constraint with the unit values exactly when it is a right inverse of the constraint matrix |
| Schemes.BuildAndSolve | include/polynomial_scheme.hpp:34-39 | for a nonsingular constraint set, constraint `r` applied to the solved grid gives the unit vector `e_r` |
| Schemes.InverseUnique | include/polynomial_scheme.hpp:34-39 | a nonsingular matrix has only one right inverse |
| Schemes.CardinalUnique | include/polynomial_scheme.hpp:34-39 | only one grid meets a nonsingular constraint set with the unit values |
| Schemes.MonomialSlopes | tests/test_polynomial_scheme.cpp:58-59 | the slope constraint on the monomial grid at `x` is the row `[0, 1, 2x, ..., Order x^(Order-1)]`, for every order; it is `P.derivate()(x)` as written from order 2 on |
| Schemes.SlopeAsWritten | tests/test_polynomial_scheme.cpp:58-59 | for a grid of degree 2 or more, the slope constraint is `P.derivate()(x)` exactly as the code computes it |
| Schemes.SlopeAtOrderOne | include/polysche/polynomial.hpp:54-57 | at order 1 `P.derivate()(x)` as written gives the row `[0, 0]`, while the slope constraint gives `[0, 1]` |
| Scenarios.GaussExample | tests/test_gauss.cpp:15-20 | `gauss_solve` on the test system gives `x = [0, 1/2, 3/2]`, and `gauss_inv` gives `[[0,1,0],[-1/2,0,1/2],[1/2,-1,1/2]]` |
| Scenarios.ThreePointSolution | tests/test_gauss.cpp:15-17 | `[0, 1/2, 3/2]` is the only solution of the test system |
| Scenarios.IsThreePointInverse | tests/test_gauss.cpp:15-20 | the test matrix has exactly one inverse, the one given above |
| Scenarios.ThreePointBuild | tests/test_polynomial_scheme.cpp:22-27 | the point constraints at -1, 0 and 1 build the matrix `[[1,-1,1],[1,0,0],[1,1,1]]` |
| Scenarios.CentralDifferences | tests/test_polynomial_scheme.cpp:22-30 | the three-point scheme's first derivative at 0 is `[-1/2, 0, 1/2]`, and its second derivative is `[1, -2, 1]` |
| Scenarios.HermiteBuild | tests/test_polynomial_scheme.cpp:53-60 | the value and slope constraints at 0 and 1 build the Hermite matrix, and its slope rows are `P.derivate()(0)` and `P.derivate()(1)` as the code computes them |
| Scenarios.CubicHermite | tests/test_polynomial_scheme.cpp:53-61 | the solved cubic Hermite grid has rows `[1,0,0,0]`, `[0,0,1,0]`, `[-3,3,-2,-1]` and `[2,-2,1,1]` |
| Scenarios.IsHermiteBasis | tests/test_polynomial_scheme.cpp:53-60 | that grid is the only inverse of the Hermite matrix |
| Scenarios.CellBuild | tests/test_polynomial_scheme.cpp:67-72 | the integrals over the three unit cells around 0 build the matrix `[[1,-1,13/12],[1,0,1/12],[1,1,13/12]]` |
| Scenarios.FiniteVolumes | tests/test_polynomial_scheme.cpp:67-75 | the second-order finite-volume grid integrates to `[1/16, 1/2, -1/16]` over `[-1/2, 0]` and to `[-1/16, 1/2, 1/16]` over `[0, 1/2]`, half the averages in the comments |
| Scenarios.IsCellInverse | tests/test_polynomial_scheme.cpp:67-72 | the cell-integral matrix has exactly one inverse, the finite-volume grid |

## Left out

- Printing. `operator<<` for `Rational` and for `Polynomial` only renders text.
- The conversion `operator U()` (include/rational.hpp:49-53) casts to floating-point or truncating types. The model has only its exact meaning, `Rationals.Value`.
- `signbit` (include/rational.hpp:207-211) returns `not(signbit(p) xor signbit(q))`, which is true for positive fractions. It contradicts the test that uses it. The model claims nothing about it.
- The `swap` of two `Rational`s (include/rational.hpp:96-104) is an assignment exchange. A value model has nothing to state about it.
- The `std::common_type` specialisations and mixed-width promotion (include/rational.hpp:70-80) are C++ type machinery. Integers are unbounded, so the overflow that the code leaves undetected does not arise.
- `is_valid` is the predicate `Rationals.IsValid`. The functions that need it take it as a precondition.
- Generic element types. The templates take any `T`. The model uses `real` for matrices and polynomials, and `Rationals.Rational` for fractions.
- include/simplify.hpp is an overload shim that applies `simplify` elementwise. It is not part of this model.
- Gauss.GaussSolve: requires a nonsingular `A`. For a singular `A` the code divides by a zero diagonal entry.
- Gauss.GaussInv: for a singular `A` it states only the shape of the result. The code returns an unspecified right block without signalling.
- Schemes.Solve: its guarantees are conditional on a nonsingular matrix. The code does not check that every row was filled, or that the matrix is invertible.
- Schemes.AddEqn: requires `index <= Order`. Writing past the last row is undefined behaviour in the code.
- The scheme tests of order 4 to 10, the Neumann variants and the extra print lines are not stated. The model states the three schemes the test file builds (central differences, cubic Hermite, finite volumes). The file states expected values only for the finite-volume scheme, in comments at tests/test_polynomial_scheme.cpp:74-75; the values of the other two are worked out and proved.
- Schemes.Apply: a `Slope(x)` constraint takes one true differentiation step (`Polynomials.DerivateExact`). From degree 2 on this is `P.derivate()(x)` as written (`Schemes.SlopeAsWritten`). For grids of degree 0 and 1 the code's `derivate` returns the grid or zero (see Findings), and `Schemes.SlopeAtOrderOne` shows the rows then differ; the model does not promise the as-written rows there.
- Polynomial evaluation at a point of another element type (`common_type` of `T` and `X`). Evaluation is at a `real`.

## Findings

| source | as written | input that shows it | evidently intended | confidence | as-written member | corrected member |
|---|---|---|---|---|---|---|
| include/polysche/polynomial.hpp:54-57 | `derivate(order >= 1)` of a degree-1 grid returns the all-zero grid | `p(x) = x`, coefficient slots `[[0], [1]]`: `derivate(1)` gives 0, not the slope 1 | one differentiation step, which the general branch performs correctly at degree 1 and which yields `[[1], [0]]` | medium, not executed | Polynomials.DerivateLosesSlope | Polynomials.DerivateExactOfPrimitive |
| include/polysche/polynomial.hpp:52-53 | `derivate(order >= 1)` of a degree-0 grid returns the grid itself | `p(x) = 1`, coefficient slot `[[1]]`: `derivate(1)` gives 1, not 0 | the zero grid, as for every other degree once the order exceeds the degree | low, not executed | Polynomials.DerivateKeepsConstant | Polynomials.DerivateBeyondDegree |

`Polynomials.DerivateExact` is the corrected definition: `order` differentiation
steps, with no special cases. Three lemmas prove the intended properties for
every degree:

- `Polynomials.DerivateExactOfPrimitive`: differentiation undoes `primitive`;
- `Polynomials.DerivateExactIsKthDerivative`: the result is the k-th derivative;
- `Polynomials.DerivateBeyondDegree`: the result is zero beyond the degree.

`Polynomials.DerivateOfPrimitiveLosesConstant` shows that the degree-1 branch
also breaks the primitive round trip for constants. The slope constraint of the
scheme builder (`Schemes.Apply` on a `Slope`) uses the corrected definition.
The worked examples only differentiate grids of degree 2 or more, where both
definitions agree.
