# Hermite polynomials by matrix iteration — a Dafny model

The Java program computes the physicists' Hermite polynomials with a small dense-matrix engine. There are three parts:

- **Matrix** is a rectangular grid of doubles. It offers:
  - a constructor that refuses ragged arrays;
  - 1-indexed element access;
  - instance and static addition;
  - matrix product and matrix-times-polynomial product;
  - scaling by a constant.
- **Polynomial** holds its coefficients as a single-column matrix, constant term first. It can be built from a plain array or from a column matrix. Its `toString` writes the non-zero terms from the highest power down.
- **Hermite** builds two 15 x 15 matrices:
  - `M2x` multiplies by 2x (2 just below the diagonal);
  - `D` differentiates (the value j just above the diagonal in column j).

  It then forms the successor matrix `H1 = M2x + (-1) D`. Starting from the constant 1 held in 15 coefficients, it multiplies by `H1` `index` times. Each multiplication is one step of the recurrence H(k+1) = 2x H(k) - H(k)'.

The model has six modules:

- `Errors` holds the exceptions the Java code throws, as error values of a `Result` type.
- `Grids` holds value-level matrices (a sequence of rows) with addition, scaling and product, plus their algebraic laws.
- `Algebra` holds the classes `Matrix` (over an `array2<real>`) and `Polynomial`. Each array-producing operation is a method whose loops fill a fresh array, proved against the `Grids` function it computes. Element access and the getters are functions. The matrix-times-polynomial product and the column-matrix constructor wrap a matrix without a loop of their own. A polynomial's coefficient vector is the `Grids.Flatten` reading of its column.
- `Rendering` describes which terms the textual form of a polynomial shows, in which order, with which sign word and value. The `Polynomial.Render` method is proved to produce exactly that description.
- `Recurrence` defines three things:
  - the three generator matrices as grids;
  - the truncated iteration `Iterate(k)`;
  - the untruncated recurrence `Coefficient(n, j)` over integers.

  It proves that one matrix step is 2x p - p' cut to 15 coefficients. It proves what the truncation keeps and what it drops. It also proves the classical facts about H(n): degree, leading coefficient 2^n, parity, derivative 2n H(n-1), the three-term recurrence and the first five polynomials.
- `HermiteGenerator` holds the class `Hermite`. Its constructor method builds the matrices with the Java constructor's loops and iterates. It is proved to return `Iterate(index)`.

Behaviour of the code that the model follows as written:

- **Index 15.** The index check accepts 0..15, although its message says the range ends at 14. At index 15 the 15-coefficient vector cannot hold the leading term 2^15 x^15 of H(15). The generator then returns H(15) without that term (`BoundaryKeeps`, `BoundaryDrops`). Indices 0..14 give H(index) exactly (`NoTruncation`).
- **Empty array.** `new Polynomial(new double[0])` fails when the matrix constructor reads the first row of an empty array. The model gives this the error `NoFirstRow`.
- **Degree-1 polynomials.** `toString` prints the x coefficient only when the degree exceeds 1. A degree-1 polynomial therefore never shows its x term.
- **Negative x and constant terms.** For these two terms the sign word " - " is followed by the raw negative value, while higher powers print the magnitude.

## Model

| member | source | states |
|---|---|---|
| Algebra.Matrix.ArrayIsMatrix | HermitePolynomial/src/Matrix.java:25-32 | an empty grid is an error (no first row); otherwise the answer is true exactly when every row is as long as the first |
| Algebra.Matrix.FromGrid | HermitePolynomial/src/Matrix.java:6-15 | refuses exactly the empty or ragged grids (with the matching error); otherwise a fresh matrix whose shape is the grid's and whose entries are the grid |
| Algebra.Matrix.GetElementAt | HermitePolynomial/src/Matrix.java:183-189 | succeeds exactly for 1 <= i <= rows and 1 <= j <= cols, and then returns the entry at (i-1, j-1); otherwise IndexOutOfRange |
| Algebra.Matrix.Add | HermitePolynomial/src/Matrix.java:56-70 | fails with DimensionMismatch exactly when the shapes differ; otherwise a fresh matrix of the same shape holding the entrywise sum |
| Algebra.Matrix.Sum | HermitePolynomial/src/Matrix.java:79-94 | the static sum reading through the 1-indexed accessor: same error case and same entrywise sum as Add |
| Algebra.Matrix.Multiply | HermitePolynomial/src/Matrix.java:102-120 | fails exactly when cols differs from the other operand's rows; otherwise a fresh rows x b.cols matrix equal to the matrix product |
| Algebra.Matrix.DotRowColumn | HermitePolynomial/src/Matrix.java:112-116 | the inner loop's accumulated sum is entry (i, j) of the matrix product |
| Algebra.Matrix.MultiplyPolynomial | HermitePolynomial/src/Matrix.java:127-129 | fails exactly when the column count differs from the polynomial's length; otherwise a polynomial of degree rows-1 whose coefficient column is the matrix times the old coefficient column |
| Algebra.Matrix.MultiplyWithScalar | HermitePolynomial/src/Matrix.java:136-146 | a fresh matrix of the same shape with every entry multiplied by k |
| Grids.AddCommutes | HermitePolynomial/src/Matrix.java:56-70 | matrix addition is commutative |
| Grids.AddZero | HermitePolynomial/src/Matrix.java:56-70 | adding the zero matrix changes nothing |
| Grids.ScaleByZero | HermitePolynomial/src/Matrix.java:136-146 | scaling by 0 gives the zero matrix |
| Grids.ScaleByOne | HermitePolynomial/src/Matrix.java:136-146 | scaling by 1 gives the matrix back |
| Grids.MulAddDistributes | HermitePolynomial/src/Matrix.java:102-120 | the product distributes over a sum on the left: (a + b)v = av + bv |
| Grids.MulScaleCommutes | HermitePolynomial/src/Matrix.java:102-120 | scaling commutes with the product: (s a)v = s (a v) |
| Grids.ColumnInjective | HermitePolynomial/src/Polynomial.java:10-18 | two coefficient vectors with the same single-column matrix are equal |
| Grids.Flatten | HermitePolynomial/src/Polynomial.java:20-28 | reading a single-column matrix back as a vector is the inverse of building the column |
| Algebra.Polynomial.FromArray | HermitePolynomial/src/Polynomial.java:10-18 | an empty array is refused (NoFirstRow); otherwise a fresh polynomial of degree length-1 whose coefficients are the array's values in order |
| Algebra.Polynomial.FromMatrix | HermitePolynomial/src/Polynomial.java:20-28 | refused with InvalidShape exactly when a row does not hold a single entry; otherwise keeps that very matrix, with degree rows-1 |
| Algebra.Polynomial.GetCoefficients | HermitePolynomial/src/Polynomial.java:31-33 | returns the stored coefficient column, a (degree+1) x 1 matrix |
| Algebra.Polynomial.GetDegree | HermitePolynomial/src/Polynomial.java:35-37 | the degree is non-negative and one less than the number of rows |
| Algebra.Polynomial.CoefficientAt | HermitePolynomial/src/Polynomial.java:54 | the 1-indexed accessor at row i reads the coefficient of x^(i-1) |
| Algebra.Polynomial.RenderHigh | HermitePolynomial/src/Polynomial.java:52-64 | the descending loop over powers 2 and up emits exactly Rendering.HighTerms of the coefficients, and the flag stays true exactly when it emitted nothing |
| Algebra.Polynomial.Render | HermitePolynomial/src/Polynomial.java:49-87 | the pieces emitted by the high-power loop and the x and constant branches are exactly Rendering.Pieces of the coefficients |
| Rendering.PiecesPowers | HermitePolynomial/src/Polynomial.java:53-76 | a power of x is shown if and only if its coefficient is non-zero, except the x term of a degree-1 polynomial |
| Rendering.PiecesDescending | HermitePolynomial/src/Polynomial.java:53-83 | the shown terms come in strictly descending powers |
| Rendering.PiecesValues | HermitePolynomial/src/Polynomial.java:55-83 | each shown term's sign word matches its coefficient's sign; powers 2 and up show the magnitude, the x and constant terms the raw value |
| Rendering.DegreeOneHidesX | HermitePolynomial/src/Polynomial.java:67 | a degree-1 polynomial never shows its x term |
| Rendering.ZeroLiteralExactly | HermitePolynomial/src/Polynomial.java:79-85 | the bare "0.00" appears if and only if no term was shown before a zero constant |
| Rendering.ZeroLiteralAlone | HermitePolynomial/src/Polynomial.java:84-85 | when "0.00" appears it is the whole text |
| Rendering.ZeroPolynomial | HermitePolynomial/src/Polynomial.java:79-85 | the zero polynomial renders as exactly "0.00" |
| Rendering.ConstantPolynomial | HermitePolynomial/src/Polynomial.java:79-83 | a polynomial whose only non-zero coefficient is the constant renders as that signed constant alone |
| Rendering.HighTermsPowers | HermitePolynomial/src/Polynomial.java:53-64 | the loop over high powers shows power k exactly when 2 <= k and c[k] is non-zero |
| HermiteGenerator.Hermite.New | HermitePolynomial/src/Hermite.java:30-70 | refuses exactly the indices outside 0..15 (InvalidArgument); otherwise keeps the index, holds the successor matrix, and the polynomial's coefficients are Iterate(index) |
| HermiteGenerator.Hermite.BuildSuccessor | HermitePolynomial/src/Hermite.java:38-52 | the two fill loops and M2x.add(D.multiplyWithScalar(-1)) give a fresh 15 x 15 matrix equal to the successor grid |
| HermiteGenerator.Hermite.BuildM2x | HermitePolynomial/src/Hermite.java:38-42 | the fill loop gives a fresh 15 x 15 matrix equal to the 2x grid (2 at row i, column i-1) |
| HermiteGenerator.Hermite.BuildD | HermitePolynomial/src/Hermite.java:45-49 | the fill loop gives a fresh 15 x 15 matrix equal to the derivative grid (i at row i-1, column i) |
| HermiteGenerator.Hermite.Generate | HermitePolynomial/src/Hermite.java:54-68 | starting from the constant 1 in 15 coefficients, index multiplications by H1 give Iterate(index) |
| Recurrence.StepIsOperator | HermitePolynomial/src/Hermite.java:52-62 | multiplying a coefficient column by M2x + (-1) D gives the first 15 coefficients of 2x p - p' |
| Recurrence.IterateCoefficients | HermitePolynomial/src/Hermite.java:61-68 | for every index up to 15, every coefficient the generator keeps is the coefficient of H(index) |
| Recurrence.NoTruncation | HermitePolynomial/src/Hermite.java:61-68 | for indices below 15 the generator's vector is H(index) followed by zeros |
| Recurrence.BoundaryKeeps | HermitePolynomial/src/Hermite.java:33 | at the accepted index 15 the vector is the first 15 coefficients of H(15) |
| Recurrence.BoundaryDrops | HermitePolynomial/src/Hermite.java:33-34 | the coefficient lost at index 15 is the leading 2^15 = 32768 |
| Recurrence.FirstIterates | HermitePolynomial/src/Hermite.java:54-68 | the generator's vectors for indices 0..4 are 1, 2x, 4x^2 - 2, 8x^3 - 12x, 16x^4 - 48x^2 + 12, padded with zeros |
| Recurrence.FirstPolynomials | HermitePolynomial/src/Hermite.java:61-62 | the recurrence gives H(0) .. H(4) with the textbook coefficients |
| Recurrence.DegreeBound | HermitePolynomial/src/Hermite.java:61-62 | H(n) has no coefficient above x^n |
| Recurrence.Leading | HermitePolynomial/src/Hermite.java:61-62 | the coefficient of x^n in H(n) is 2^n |
| Recurrence.Parity | HermitePolynomial/src/Hermite.java:61-62 | the coefficient of x^j in H(n) is zero when n - j is odd |
| Recurrence.DerivativeAt | HermitePolynomial/src/Hermite.java:61-62 | H(n+1)' = 2(n+1) H(n), coefficient by coefficient |
| Recurrence.ThreeTerm | HermitePolynomial/src/Hermite.java:61-62 | H(n+1) = 2x H(n) - 2n H(n-1) |

## Left out

- Main.java is not part of this model. It builds a 30-degree rotation matrix with `Math.cos` and `Math.sin`, multiplies the polynomial `[0, 1]` by it through the matrix-times-polynomial product, prints the result, and then constructs `Hermite(15)`. Trigonometry and printing are outside the model. The product it uses is `Algebra.Matrix.MultiplyPolynomial`, and `Hermite(15)` is `HermiteGenerator.Hermite.New(15)`.
- Console output is not modelled: the `System.out.println` tracing in the Hermite constructor prints each intermediate polynomial and has no effect on the result.
- `Matrix.toString` (Matrix.java:34-48) is not modelled at all: neither its `||` row delimiters nor its number columns. Nor is its helper `lenOfLongestNumber`.
- Number formatting is not modelled: `String.format("%.2f", ...)` in `Polynomial.toString` is not modelled. `Render` records the sign word, the value handed to the formatter and the power, not the digits.
- Algebra.Matrix: entries are mathematical reals, not IEEE doubles. Rounding, overflow and NaN are not modelled. `Multiply` accumulates in the Java code's left-to-right order, so only rounding separates the model from the code.
- Algebra.Matrix.FromGrid: the Matrix constructor stores the caller's array itself, and `getMatrixArray` hands it out again. The model builds a matrix from a value grid, so aliasing of a caller's array is not modelled. Inside the engine every array is fresh and never written after wrapping, which `Wrap` reflects.
- Algebra.Matrix.getMatrixArray is not modelled as a separate operation. The operations read the underlying array directly, which is what the Java code does through that getter.
- Algebra.Polynomial.FromMatrix: the per-row length check is stated as "exactly one column". The matrix invariant makes the two equivalent.
- The commented-out static initialiser in Hermite.java and the commented-out `toString` in Polynomial.java are not modelled.
- The Hermite class has no accessors in the Java code. The model exposes its fields as constants so that the result can be stated.
- The Java code never mutates an existing matrix or polynomial. The model's operations carry no `modifies` clause, so operands are unchanged by construction.
