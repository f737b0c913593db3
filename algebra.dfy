/** The matrix engine and the polynomial type built on it. The two classes
    share a module because a matrix can multiply a polynomial and a
    polynomial is backed by a matrix. */
module Algebra {
  import opened Errors
  import Grids
  import Rendering

  /** A dense rectangular matrix of reals held in a two-dimensional array.
      No operation writes into an existing matrix: each one fills a freshly
      allocated array and wraps it in a new Matrix. */
  class Matrix {
    const rows: nat
    const cols: nat
    const data: array2<real>

    ghost predicate Valid() {
      rows >= 1 && data.Length0 == rows && data.Length1 == cols
    }

    /** The entries as a grid of rows. */
    ghost function Elements(): (g: Grids.Grid)
      reads data
      requires Valid()
      ensures Grids.IsMatrix(g) && Grids.HasShape(g, rows, cols)
      ensures forall i, j :: 0 <= i < rows && 0 <= j < cols ==> g[i][j] == data[i, j]
    {
      seq(rows, i requires 0 <= i < rows reads data =>
        seq(cols, j requires 0 <= j < cols reads data => data[i, j]))
    }

    /** Wraps an array that is rectangular by construction and has at least
      one row, as every array the engine allocates is. Like the Java
      constructor, the matrix keeps that very array rather than a copy. */
    constructor Wrap(a: array2<real>)
      requires a.Length0 >= 1
      ensures Valid() && data == a && rows == a.Length0 && cols == a.Length1
    {
      data := a;
      rows := a.Length0;
      cols := a.Length1;
    }

    /** Whether every row is as long as the first; reading the first row of
        an empty grid fails. */
    static method ArrayIsMatrix(arr: Grids.Grid) returns (r: Result<bool>)
      ensures r.Err? <==> |arr| == 0
      ensures r.Err? ==> r.error == NoFirstRow
      ensures r.Ok? ==> (r.value <==> Grids.IsMatrix(arr))
    {
      if |arr| == 0 {
        return Err(NoFirstRow);
      }
      var l0 := |arr[0]|;
      var i := 0;
      while i < |arr|
        invariant 0 <= i <= |arr|
        invariant forall t :: 0 <= t < i ==> |arr[t]| == l0
      {
        if |arr[i]| != l0 {
          return Ok(false);
        }
        i := i + 1;
      }
      return Ok(true);
    }

    /** Builds a matrix from a grid supplied by a caller, refusing a ragged
        one. */
    static method FromGrid(grid: Grids.Grid) returns (r: Result<Matrix>)
      ensures r.Err? <==> !Grids.IsMatrix(grid)
      ensures r.Err? ==> r.error == (if |grid| == 0 then NoFirstRow else ShapeMismatch)
      ensures r.Ok? ==> fresh(r.value) && fresh(r.value.data) && r.value.Valid()
      ensures r.Ok? ==> r.value.rows == |grid| && r.value.cols == |grid[0]|
      ensures r.Ok? ==> r.value.Elements() == grid
    {
      var check := ArrayIsMatrix(grid);
      if check.Err? {
        return Err(check.error);
      }
      if !check.value {
        return Err(ShapeMismatch);
      }
      var m, n := |grid|, |grid[0]|;
      var a := new real[m, n]((i, j) requires 0 <= i < m && 0 <= j < n => grid[i][j]);
      var matrix := new Matrix.Wrap(a);
      Grids.Extensional(matrix.Elements(), grid);
      return Ok(matrix);
    }

    /** The entry in row i, column j, both counted from 1. */
    function GetElementAt(i: int, j: int): (r: Result<real>)
      reads data
      requires Valid()
      ensures r.Ok? <==> 1 <= i <= rows && 1 <= j <= cols
      ensures r.Err? ==> r.error == IndexOutOfRange
      ensures r.Ok? ==> r.value == data[i - 1, j - 1]
    {
      if i < 1 || i > rows || j < 1 || j > cols then Err(IndexOutOfRange)
      else Ok(data[i - 1, j - 1])
    }

    /** this + b, entry by entry. */
    method Add(b: Matrix) returns (r: Result<Matrix>)
      requires Valid() && b.Valid()
      ensures r.Err? <==> rows != b.rows || cols != b.cols
      ensures r.Err? ==> r.error == DimensionMismatch
      ensures r.Ok? ==> fresh(r.value) && fresh(r.value.data) && r.value.Valid()
      ensures r.Ok? ==> r.value.rows == rows && r.value.cols == cols
      ensures r.Ok? ==> r.value.Elements() == Grids.Add(Elements(), b.Elements())
    {
      if rows != b.rows || cols != b.cols {
        return Err(DimensionMismatch);
      }
      var m, n := data.Length0, data.Length1;
      var sum := new real[m, n];
      for i := 0 to m
        invariant forall p, q :: 0 <= p < i && 0 <= q < n ==> sum[p, q] == data[p, q] + b.data[p, q]
      {
        for j := 0 to n
          invariant forall p, q :: 0 <= p < i && 0 <= q < n ==> sum[p, q] == data[p, q] + b.data[p, q]
          invariant forall q :: 0 <= q < j ==> sum[i, q] == data[i, q] + b.data[i, q]
        {
          sum[i, j] := data[i, j] + b.data[i, j];
        }
      }
      var c := new Matrix.Wrap(sum);
      Grids.Extensional(c.Elements(), Grids.Add(Elements(), b.Elements()));
      return Ok(c);
    }

    /** The static form of addition, reading both operands through the
        1-indexed accessor; it has the same error case and the same result
        as a.Add(b). */
    static method Sum(a: Matrix, b: Matrix) returns (r: Result<Matrix>)
      requires a.Valid() && b.Valid()
      ensures r.Err? <==> a.rows != b.rows || a.cols != b.cols
      ensures r.Err? ==> r.error == DimensionMismatch
      ensures r.Ok? ==> fresh(r.value) && fresh(r.value.data) && r.value.Valid()
      ensures r.Ok? ==> r.value.rows == a.rows && r.value.cols == a.cols
      ensures r.Ok? ==> r.value.Elements() == Grids.Add(a.Elements(), b.Elements())
    {
      if a.rows != b.rows || a.cols != b.cols {
        return Err(DimensionMismatch);
      }
      var m, n := a.data.Length0, a.data.Length1;
      var sum := new real[m, n];
      for i := 0 to m
        invariant forall p, q :: 0 <= p < i && 0 <= q < n ==> sum[p, q] == a.data[p, q] + b.data[p, q]
      {
        for j := 0 to n
          invariant forall p, q :: 0 <= p < i && 0 <= q < n ==> sum[p, q] == a.data[p, q] + b.data[p, q]
          invariant forall q :: 0 <= q < j ==> sum[i, q] == a.data[i, q] + b.data[i, q]
        {
          sum[i, j] := a.GetElementAt(i + 1, j + 1).value + b.GetElementAt(i + 1, j + 1).value;
        }
      }
      var c := new Matrix.Wrap(sum);
      Grids.Extensional(c.Elements(), Grids.Add(a.Elements(), b.Elements()));
      return Ok(c);
    }

    /** this * b: each entry the dot product of a row of this with a column
        of b, summed left to right. */
    method Multiply(b: Matrix) returns (r: Result<Matrix>)
      requires Valid() && b.Valid()
      ensures r.Err? <==> cols != b.rows
      ensures r.Err? ==> r.error == DimensionMismatch
      ensures r.Ok? ==> fresh(r.value) && fresh(r.value.data) && r.value.Valid()
      ensures r.Ok? ==> r.value.rows == rows && r.value.cols == b.cols
      ensures r.Ok? ==> r.value.Elements() == Grids.Mul(Elements(), b.Elements())
    {
      if cols != b.rows {
        return Err(DimensionMismatch);
      }
      ghost var expected := Grids.Mul(Elements(), b.Elements());
      var m, n := data.Length0, b.data.Length1;
      var product := new real[m, n];
      for i := 0 to m
        invariant forall p, q :: 0 <= p < i && 0 <= q < n ==> product[p, q] == expected[p][q]
      {
        for j := 0 to n
          invariant forall p, q :: 0 <= p < i && 0 <= q < n ==> product[p, q] == expected[p][q]
          invariant forall q :: 0 <= q < j ==> product[i, q] == expected[i][q]
        {
          var sum := DotRowColumn(b, i, j);
          product[i, j] := sum;
        }
      }
      var c := new Matrix.Wrap(product);
      Grids.Extensional(c.Elements(), expected);
      return Ok(c);
    }

    /** The left-to-right sum over k of this[i, k] * b[k, j]: the innermost
        loop of Multiply. */
    method DotRowColumn(b: Matrix, i: nat, j: nat) returns (sum: real)
      requires Valid() && b.Valid() && cols == b.rows && i < rows && j < b.cols
      ensures sum == Grids.Mul(Elements(), b.Elements())[i][j]
    {
      ghost var left, right := Elements(), b.Elements();
      sum := 0.0;
      for k := 0 to data.Length1
        invariant sum == Grids.Dot(left, right, i, j, k)
      {
        sum := sum + data[i, k] * b.data[k, j];
      }
      assert Grids.Mul(left, right)[i][j] == Grids.Dot(left, right, i, j, cols);
    }

    /** this * p: the product with p's coefficient column, as a polynomial. */
    method MultiplyPolynomial(p: Polynomial) returns (r: Result<Polynomial>)
      requires Valid() && p.Valid()
      ensures r.Err? <==> cols != p.degree + 1
      ensures r.Err? ==> r.error == DimensionMismatch
      ensures r.Ok? ==> fresh(r.value) && fresh(r.value.coefficients.data) && r.value.Valid()
      ensures r.Ok? ==> r.value.degree == rows - 1
      ensures r.Ok? ==> Grids.Column(r.value.Coeffs()) == Grids.Mul(Elements(), Grids.Column(p.Coeffs()))
    {
      var product := Multiply(p.GetCoefficients());
      if product.Err? {
        return Err(product.error);
      }
      r := Polynomial.FromMatrix(product.value);
      p.ColumnOfCoeffs();
      r.value.ColumnOfCoeffs();
    }

    /** k * this, entry by entry. */
    method MultiplyWithScalar(k: real) returns (r: Matrix)
      requires Valid()
      ensures fresh(r) && fresh(r.data) && r.Valid() && r.rows == rows && r.cols == cols
      ensures r.Elements() == Grids.Scale(k, Elements())
    {
      var m, n := data.Length0, data.Length1;
      var scaled := new real[m, n];
      for i := 0 to m
        invariant forall p, q :: 0 <= p < i && 0 <= q < n ==> scaled[p, q] == k * data[p, q]
      {
        for j := 0 to n
          invariant forall p, q :: 0 <= p < i && 0 <= q < n ==> scaled[p, q] == k * data[p, q]
          invariant forall q :: 0 <= q < j ==> scaled[i, q] == k * data[i, q]
        {
          scaled[i, j] := k * data[i, j];
        }
      }
      r := new Matrix.Wrap(scaled);
      Grids.Extensional(r.Elements(), Grids.Scale(k, Elements()));
    }
  }

  /** A polynomial as a single-column matrix of coefficients in ascending
      power order: row i (from 1) holds the coefficient of x^(i-1). */
  class Polynomial {
    const coefficients: Matrix
    const degree: int

    ghost predicate Valid() {
      coefficients.Valid() && coefficients.cols == 1 && degree == coefficients.rows - 1
    }

    /** The coefficient vector, constant term first. */
    ghost function Coeffs(): (c: seq<real>)
      reads coefficients.data
      requires Valid()
      ensures |c| == degree + 1
      ensures forall i :: 0 <= i < |c| ==> c[i] == coefficients.data[i, 0]
    {
      Grids.Flatten(coefficients.Elements())
    }

    /** The coefficient column is the coefficient vector as a column, as
        Flatten promises. */
    lemma ColumnOfCoeffs()
      requires Valid()
      ensures Grids.Column(Coeffs()) == coefficients.Elements()
    {
    }

    /** Stores a single-column matrix as it is. */
    constructor Wrap(m: Matrix)
      requires m.Valid() && m.cols == 1
      ensures Valid() && coefficients == m
    {
      coefficients := m;
      degree := m.rows - 1;
    }

    /** Copies the values into a len x 1 array; an empty array has no first
        row for the matrix constructor to read. */
    static method FromArray(values: array<real>) returns (r: Result<Polynomial>)
      ensures r.Err? <==> values.Length == 0
      ensures r.Err? ==> r.error == NoFirstRow
      ensures r.Ok? ==> fresh(r.value) && fresh(r.value.coefficients) && fresh(r.value.coefficients.data)
      ensures r.Ok? ==> r.value.Valid() && r.value.degree == values.Length - 1
      ensures r.Ok? ==> r.value.Coeffs() == values[..]
    {
      var len := values.Length;
      var coeffArray2D := new real[len, 1];
      for i := 0 to len
        invariant forall t :: 0 <= t < i ==> coeffArray2D[t, 0] == values[t]
      {
        coeffArray2D[i, 0] := values[i];
      }
      if len == 0 {
        return Err(NoFirstRow);
      }
      var m := new Matrix.Wrap(coeffArray2D);
      var p := new Polynomial.Wrap(m);
      Grids.Extensional(Grids.Column(values[..]), m.Elements());
      Grids.ColumnInjective(p.Coeffs(), values[..]);
      return Ok(p);
    }

    /** Takes a matrix as the coefficient column; every row must hold
        exactly one entry, which for a rectangular matrix with at least one
        row means exactly one column. */
    static method FromMatrix(m: Matrix) returns (r: Result<Polynomial>)
      requires m.Valid()
      ensures r.Err? <==> m.cols != 1
      ensures r.Err? ==> r.error == InvalidShape
      ensures r.Ok? ==> fresh(r.value) && r.value.Valid()
      ensures r.Ok? ==> r.value.coefficients == m && r.value.degree == m.rows - 1
    {
      if m.cols != 1 {
        return Err(InvalidShape);
      }
      var p := new Polynomial.Wrap(m);
      return Ok(p);
    }

    function GetCoefficients(): (m: Matrix)
      requires Valid()
      ensures m.Valid() && m.cols == 1 && m.rows == degree + 1
      ensures m == coefficients
    {
      coefficients
    }

    function GetDegree(): (d: int)
      requires Valid()
      ensures d >= 0 && d == coefficients.rows - 1
    {
      degree
    }

    /** The 1-indexed accessor on the coefficient column reads the
        coefficient vector. */
    lemma CoefficientAt(i: int)
      requires Valid() && 1 <= i <= degree + 1
      ensures coefficients.GetElementAt(i, 1) == Ok(Coeffs()[i - 1])
    {
    }

    /** The terms of powers 2 and up, from the highest power down: the
        first loop of the textual form. flag stays true while nothing has
        been shown. */
    method RenderHigh() returns (pieces: seq<Rendering.Piece>, flag: bool)
      requires Valid()
      ensures pieces == Rendering.HighTerms(Coeffs(), degree + 1)
      ensures flag <==> pieces == []
    {
      ghost var c := Coeffs();
      pieces := [];
      flag := true;
      var i := coefficients.rows;
      while i > 2
        invariant 0 <= i <= coefficients.rows
        invariant pieces + Rendering.HighTerms(c, i) == Rendering.HighTerms(c, |c|)
        invariant flag == (pieces == [])
      {
        CoefficientAt(i);
        var element := coefficients.GetElementAt(i, 1).value;
        ghost var before := pieces;
        ghost var head := Rendering.HighHead(c, i);
        Rendering.HighTermsStep(c, i);
        if element != 0.0 {
          var sign := if element > 0.0 then Rendering.Plus else Rendering.Minus;
          pieces := pieces + [Rendering.Term(sign, Rendering.Abs(element), i - 1)];
          flag := false;
        }
        assert pieces == before + head;
        Rendering.AppendAssociates(before, head, Rendering.HighTerms(c, i - 1));
        i := i - 1;
      }
    }

    /** The pieces of the textual form, from the highest power down to the
        constant. */
    method Render() returns (pieces: seq<Rendering.Piece>)
      requires Valid()
      ensures pieces == Rendering.Pieces(Coeffs())
    {
      ghost var c := Coeffs();
      var flag;  // nothing but possibly the constant shown so far
      pieces, flag := RenderHigh();
      ghost var high := pieces;
      ghost var linear := Rendering.LinearTerm(c);
      if degree > 1 {
        CoefficientAt(2);
        var xTerm := coefficients.GetElementAt(2, 1).value;
        if xTerm > 0.0 {
          pieces := pieces + [Rendering.Term(Rendering.Plus, xTerm, 1)];
          flag := false;
        } else if xTerm < 0.0 {
          pieces := pieces + [Rendering.Term(Rendering.Minus, xTerm, 1)];
          flag := false;
        }
      }
      assert pieces == high + linear && flag == (high == [] && linear == []);
      assert Rendering.Pieces(c) == pieces + Rendering.ConstantTerm(c, flag);
      CoefficientAt(1);
      var constantTerm := coefficients.GetElementAt(1, 1).value;
      if constantTerm > 0.0 {
        pieces := pieces + [Rendering.Term(Rendering.Plus, constantTerm, 0)];
      } else if constantTerm < 0.0 {
        pieces := pieces + [Rendering.Term(Rendering.Minus, constantTerm, 0)];
      } else if flag {
        pieces := pieces + [Rendering.ZeroLiteral];
      }
    }
  }
}
