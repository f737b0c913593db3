/** Value-level dense matrix algebra: a grid is a sequence of rows. These
    functions are what the array-backed Matrix operations are proved
    against. */
module Grids {

  type Grid = seq<seq<real>>

  /** Every row of g has exactly n entries and there are m rows. */
  ghost predicate HasShape(g: Grid, m: nat, n: nat) {
    |g| == m && forall i :: 0 <= i < m ==> |g[i]| == n
  }

  /** A grid that can back a matrix: at least one row, all rows as long as
      the first. */
  ghost predicate IsMatrix(g: Grid) {
    |g| >= 1 && forall i :: 0 <= i < |g| ==> |g[i]| == |g[0]|
  }

  function Cols(g: Grid): nat
    requires |g| >= 1
  {
    |g[0]|
  }

  /** Two grids of the same shape and the same entries are the same grid. */
  lemma Extensional(g: Grid, h: Grid)
    requires |g| == |h|
    requires forall i :: 0 <= i < |g| ==> |g[i]| == |h[i]|
    requires forall i, j :: 0 <= i < |g| && 0 <= j < |g[i]| ==> g[i][j] == h[i][j]
    ensures g == h
  {
    forall i | 0 <= i < |g| ensures g[i] == h[i] {
      assert forall j :: 0 <= j < |g[i]| ==> g[i][j] == h[i][j];
    }
  }

  function Zero(m: nat, n: nat): (z: Grid)
    ensures HasShape(z, m, n)
  {
    seq(m, i => seq(n, j => 0.0))
  }

  /** Entrywise sum, shaped like a. */
  function Add(a: Grid, b: Grid): (c: Grid)
    requires IsMatrix(a) && HasShape(b, |a|, Cols(a))
    ensures IsMatrix(c) && HasShape(c, |a|, Cols(a))
  {
    seq(|a|, i requires 0 <= i < |a| => seq(Cols(a), j requires 0 <= j < Cols(a) => a[i][j] + b[i][j]))
  }

  /** Every entry multiplied by k. */
  function Scale(k: real, a: Grid): (c: Grid)
    requires IsMatrix(a)
    ensures IsMatrix(c) && HasShape(c, |a|, Cols(a))
  {
    seq(|a|, i requires 0 <= i < |a| => seq(Cols(a), j requires 0 <= j < Cols(a) => k * a[i][j]))
  }

  /** The first k terms of the dot product of row i of a with column j of b,
      accumulated left to right. */
  function Dot(a: Grid, b: Grid, i: nat, j: nat, k: nat): real
    requires IsMatrix(a) && IsMatrix(b) && Cols(a) == |b|
    requires i < |a| && j < Cols(b) && k <= Cols(a)
  {
    if k == 0 then 0.0 else Dot(a, b, i, j, k - 1) + a[i][k - 1] * b[k - 1][j]
  }

  /** The matrix product: rows of a by columns of b. */
  function Mul(a: Grid, b: Grid): (c: Grid)
    requires IsMatrix(a) && IsMatrix(b) && Cols(a) == |b|
    ensures IsMatrix(c) && HasShape(c, |a|, Cols(b))
  {
    seq(|a|, i requires 0 <= i < |a| => seq(Cols(b), j requires 0 <= j < Cols(b) => Dot(a, b, i, j, Cols(a))))
  }

  /** A coefficient vector as a single-column grid. */
  function Column(c: seq<real>): (g: Grid)
    ensures HasShape(g, |c|, 1)
  {
    seq(|c|, i requires 0 <= i < |c| => [c[i]])
  }

  /** Reads a single-column grid back as a vector; inverse of Column. */
  function Flatten(g: Grid): (c: seq<real>)
    requires HasShape(g, |g|, 1)
    ensures |c| == |g| && Column(c) == g
    ensures forall i :: 0 <= i < |g| ==> c[i] == g[i][0]
  {
    var c := seq(|g|, i requires 0 <= i < |g| => g[i][0]);
    Extensional(Column(c), g);
    c
  }

  lemma {:induction false} ColumnInjective(c: seq<real>, d: seq<real>)
    requires Column(c) == Column(d)
    ensures c == d
  {
    assert |c| == |Column(c)| == |Column(d)| == |d|;
    forall i | 0 <= i < |c| ensures c[i] == d[i] {
      assert Column(c)[i] == [c[i]];
      assert Column(d)[i] == [d[i]];
    }
  }

  // ---- Laws of the algebra ----

  lemma AddCommutes(a: Grid, b: Grid)
    requires IsMatrix(a) && HasShape(b, |a|, Cols(a))
    ensures IsMatrix(b) && Add(a, b) == Add(b, a)
  {
    Extensional(Add(a, b), Add(b, a));
  }

  lemma AddZero(a: Grid)
    requires IsMatrix(a)
    ensures Add(a, Zero(|a|, Cols(a))) == a
  {
    Extensional(Add(a, Zero(|a|, Cols(a))), a);
  }

  lemma ScaleByZero(a: Grid)
    requires IsMatrix(a)
    ensures Scale(0.0, a) == Zero(|a|, Cols(a))
  {
    Extensional(Scale(0.0, a), Zero(|a|, Cols(a)));
  }

  lemma ScaleByOne(a: Grid)
    requires IsMatrix(a)
    ensures Scale(1.0, a) == a
  {
    Extensional(Scale(1.0, a), a);
  }

  lemma {:induction false} DotAdd(a: Grid, b: Grid, v: Grid, i: nat, j: nat, k: nat)
    requires IsMatrix(a) && HasShape(b, |a|, Cols(a)) && IsMatrix(v) && Cols(a) == |v|
    requires i < |a| && j < Cols(v) && k <= Cols(a)
    ensures Dot(Add(a, b), v, i, j, k) == Dot(a, v, i, j, k) + Dot(b, v, i, j, k)
  {
    if k > 0 {
      DotAdd(a, b, v, i, j, k - 1);
    }
  }

  lemma {:induction false} DotScale(s: real, a: Grid, v: Grid, i: nat, j: nat, k: nat)
    requires IsMatrix(a) && IsMatrix(v) && Cols(a) == |v|
    requires i < |a| && j < Cols(v) && k <= Cols(a)
    ensures Dot(Scale(s, a), v, i, j, k) == s * Dot(a, v, i, j, k)
  {
    if k > 0 {
      DotScale(s, a, v, i, j, k - 1);
      calc {
        Dot(Scale(s, a), v, i, j, k);
        s * Dot(a, v, i, j, k - 1) + (s * a[i][k - 1]) * v[k - 1][j];
        s * (Dot(a, v, i, j, k - 1) + a[i][k - 1] * v[k - 1][j]);
      }
    }
  }

  /** The product distributes over a sum on the left: (a + b)v = av + bv. */
  lemma MulAddDistributes(a: Grid, b: Grid, v: Grid)
    requires IsMatrix(a) && HasShape(b, |a|, Cols(a)) && IsMatrix(v) && Cols(a) == |v|
    ensures IsMatrix(b) && Add(Mul(a, v), Mul(b, v)) == Mul(Add(a, b), v)
  {
    forall i, j | 0 <= i < |a| && 0 <= j < Cols(v)
      ensures Mul(Add(a, b), v)[i][j] == Mul(a, v)[i][j] + Mul(b, v)[i][j]
    {
      DotAdd(a, b, v, i, j, Cols(a));
    }
    Extensional(Add(Mul(a, v), Mul(b, v)), Mul(Add(a, b), v));
  }

  /** Scaling commutes with the product: (s a)v = s (av). */
  lemma MulScaleCommutes(s: real, a: Grid, v: Grid)
    requires IsMatrix(a) && IsMatrix(v) && Cols(a) == |v|
    ensures Mul(Scale(s, a), v) == Scale(s, Mul(a, v))
  {
    forall i, j | 0 <= i < |a| && 0 <= j < Cols(v)
      ensures Mul(Scale(s, a), v)[i][j] == s * Mul(a, v)[i][j]
    {
      DotScale(s, a, v, i, j, Cols(a));
    }
    Extensional(Mul(Scale(s, a), v), Scale(s, Mul(a, v)));
  }
}
