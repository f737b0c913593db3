/** The value-level meaning of the Hermite generator. Coefficient vectors
    list the constant term first. The generator multiplies by an N x N
    matrix, so it computes the physicists' recurrence H(k + 1) = 2x H(k) - H(k)'
    truncated to N coefficients; Coefficient is the same recurrence without
    the truncation, against which the matrix iteration is compared. */
module Recurrence {
  import Grids

  /** The size of the generator's matrices and coefficient arrays. */
  const N: nat := 15

  /** Multiplication by 2x: a 2 just below the diagonal. */
  function M2xGrid(): (g: Grids.Grid)
    ensures Grids.IsMatrix(g) && Grids.HasShape(g, N, N)
  {
    seq(N, i => seq(N, j => if 1 <= i && j == i - 1 then 2.0 else 0.0))
  }

  /** Differentiation: the value j just above the diagonal in column j. */
  function DGrid(): (g: Grids.Grid)
    ensures Grids.IsMatrix(g) && Grids.HasShape(g, N, N)
  {
    seq(N, i => seq(N, j => if 1 <= j && i == j - 1 then j as real else 0.0))
  }

  /** The matrix taking one Hermite polynomial to the next: M2x + (-1) D. */
  function SuccessorGrid(): (g: Grids.Grid)
    ensures Grids.IsMatrix(g) && Grids.HasShape(g, N, N)
  {
    Grids.Add(M2xGrid(), Grids.Scale(-1.0, DGrid()))
  }

  /** The coefficient of x^j, reading past either end of p as zero. */
  function At(p: seq<real>, j: int): real {
    if 0 <= j < |p| then p[j] else 0.0
  }

  /** The coefficients of 2x p - p'. */
  function Next(p: seq<real>): (q: seq<real>)
    ensures |q| == |p| + 1
  {
    seq(|p| + 1, j => 2.0 * At(p, j - 1) - (j as real + 1.0) * At(p, j + 1))
  }

  /** The generator's start vector: the constant 1 in N coefficients. */
  function Start(): (s: seq<real>)
    ensures |s| == N
  {
    seq(N, j => if j == 0 then 1.0 else 0.0)
  }

  /** The vector after k multiplications by the successor matrix: 2x p - p'
      cut back to N coefficients each time. */
  function Iterate(k: nat): (c: seq<real>)
    ensures |c| == N
  {
    if k == 0 then Start() else Next(Iterate(k - 1))[..N]
  }

  /** The coefficient of x^j in the nth Hermite polynomial, by the
      untruncated recurrence: H(0) = 1 and H(n) = 2x H(n - 1) - H(n - 1)'.
      All of them are integers. */
  function Coefficient(n: nat, j: int): int {
    if n == 0 then (if j == 0 then 1 else 0)
    else if j < 0 then 0
    else 2 * Coefficient(n - 1, j - 1) - (j + 1) * Coefficient(n - 1, j + 1)
  }

  /** The coefficients of H(n), constant first. */
  function Exact(n: nat): (e: seq<real>)
    ensures |e| == n + 1
  {
    seq(n + 1, j => Coefficient(n, j) as real)
  }

  function Pow2(k: nat): nat {
    if k == 0 then 1 else 2 * Pow2(k - 1)
  }

  lemma Pow2Fifteen()
    ensures Pow2(15) == 32768
  {
    assert Pow2(8) == 256;
  }

  // ---- The successor matrix computes 2x p - p', truncated ----

  lemma {:induction false} DotShift(c: seq<real>, j: nat, k: nat)
    requires |c| == N && j < N && k <= N
    ensures Grids.Dot(M2xGrid(), Grids.Column(c), j, 0, k) == if 1 <= j <= k then 2.0 * c[j - 1] else 0.0
  {
    if k > 0 {
      DotShift(c, j, k - 1);
    }
  }

  lemma {:induction false} DotDerivative(c: seq<real>, j: nat, k: nat)
    requires |c| == N && j < N && k <= N
    ensures Grids.Dot(DGrid(), Grids.Column(c), j, 0, k) == if j + 1 < k then (j as real + 1.0) * c[j + 1] else 0.0
  {
    if k > 0 {
      DotDerivative(c, j, k - 1);
    }
  }

  /** Multiplying a coefficient column by the successor matrix yields the
      first N coefficients of 2x p - p'. */
  lemma StepIsOperator(c: seq<real>)
    requires |c| == N
    ensures Grids.Mul(SuccessorGrid(), Grids.Column(c)) == Grids.Column(Next(c)[..N])
  {
    var v := Grids.Column(c);
    Grids.MulAddDistributes(M2xGrid(), Grids.Scale(-1.0, DGrid()), v);
    Grids.MulScaleCommutes(-1.0, DGrid(), v);
    var lhs := Grids.Mul(SuccessorGrid(), v);
    var rhs := Grids.Column(Next(c)[..N]);
    var shift, deriv := Grids.Mul(M2xGrid(), v), Grids.Mul(DGrid(), v);
    assert lhs == Grids.Add(shift, Grids.Scale(-1.0, deriv));
    forall j | 0 <= j < N ensures lhs[j][0] == rhs[j][0] {
      StepAt(c, j);
      assert lhs[j][0] == shift[j][0] + -1.0 * deriv[j][0];
      assert rhs[j][0] == 2.0 * At(c, j - 1) - (j as real + 1.0) * At(c, j + 1);
    }
    Grids.Extensional(lhs, rhs);
  }

  /** Coefficient j of the two products, by the shift and derivative dot
      products. */
  lemma StepAt(c: seq<real>, j: nat)
    requires |c| == N && j < N
    ensures Grids.Mul(M2xGrid(), Grids.Column(c))[j][0] == 2.0 * At(c, j - 1)
    ensures Grids.Mul(DGrid(), Grids.Column(c))[j][0] == (j as real + 1.0) * At(c, j + 1)
  {
    DotShift(c, j, N);
    DotDerivative(c, j, N);
  }

  // ---- Properties of the exact recurrence ----

  /** H(n) has degree at most n. */
  lemma {:induction false} DegreeBound(n: nat, j: int)
    requires j > n
    ensures Coefficient(n, j) == 0
  {
    if n > 0 {
      DegreeBound(n - 1, j - 1);
      DegreeBound(n - 1, j + 1);
    }
  }

  /** H(n) has degree exactly n, with leading coefficient 2^n. */
  lemma {:induction false} Leading(n: nat)
    ensures Coefficient(n, n) == Pow2(n)
  {
    if n > 0 {
      Leading(n - 1);
      DegreeBound(n - 1, n + 1);
    }
  }

  /** H(n) is even or odd as n is: the coefficient of x^j vanishes when n - j
      is odd. */
  lemma {:induction false} Parity(n: nat, j: int)
    requires (n - j) % 2 == 1
    ensures Coefficient(n, j) == 0
  {
    if n > 0 && 0 <= j {
      Parity(n - 1, j - 1);
      Parity(n - 1, j + 1);
    }
  }

  /** The algebra of one induction step of DerivativeAt, on integers
      standing for coefficients of p = H(n), q = H(n - 1) and e = H(n + 1). */
  lemma DerivativeStepArith(n: int, j: int, pj: int, pj2: int, qj1: int, qjm1: int, e: int)
    requires pj == 2 * qjm1 - (j + 1) * qj1
    requires (j + 2) * pj2 == 2 * n * qj1
    requires j * pj == 2 * n * qjm1
    requires e == 2 * pj - (j + 2) * pj2
    ensures (j + 1) * e == 2 * (n + 1) * pj
  {
    assert (j + 1) * qj1 == 2 * qjm1 - pj;
    calc {
      (j + 1) * e;
      2 * (j + 1) * pj - (j + 1) * ((j + 2) * pj2);
      2 * (j + 1) * pj - (j + 1) * (2 * n * qj1);
      2 * (j + 1) * pj - n * (2 * ((j + 1) * qj1));
      2 * (j + 1) * pj - n * (2 * (2 * qjm1 - pj));
      2 * (j + 1) * pj - 2 * (2 * n * qjm1) + 2 * n * pj;
      2 * (j + 1) * pj - 2 * (j * pj) + 2 * n * pj;
      2 * (n + 1) * pj;
    }
  }

  /** The derivative of H(n + 1) is 2(n + 1) H(n): (j + 1) times the
      coefficient of x^(j+1) in H(n + 1) is 2(n + 1) times that of x^j in H(n). */
  ghost predicate DerivativeIdentity(n: nat, j: int) {
    (j + 1) * Coefficient(n + 1, j + 1) == 2 * (n + 1) * Coefficient(n, j)
  }

  lemma DerivativeBase(j: int)
    requires j >= 0
    ensures DerivativeIdentity(0, j)
  {
    assert Coefficient(1, j + 1) == 2 * Coefficient(0, j);
    if j > 0 {
      assert Coefficient(0, j) == 0;
    }
  }

  lemma {:induction false} DerivativeAt(n: nat, j: int)
    requires j >= 0
    ensures DerivativeIdentity(n, j)
  {
    if n == 0 {
      DerivativeBase(j);
    } else {
      DerivativeAt(n - 1, j + 1);
      assert (j + 2) * Coefficient(n, j + 2) == 2 * n * Coefficient(n - 1, j + 1);
      if j > 0 {
        DerivativeAt(n - 1, j - 1);
      }
      assert j * Coefficient(n, j) == 2 * n * Coefficient(n - 1, j - 1);
      DerivativeStepArith(n, j, Coefficient(n, j), Coefficient(n, j + 2),
        Coefficient(n - 1, j + 1), Coefficient(n - 1, j - 1), Coefficient(n + 1, j + 1));
    }
  }

  /** The three-term recurrence H(n + 1) = 2x H(n) - 2n H(n - 1). */
  lemma ThreeTerm(n: nat, j: int)
    requires n >= 1 && j >= 0
    ensures Coefficient(n + 1, j) == 2 * Coefficient(n, j - 1) - 2 * n * Coefficient(n - 1, j)
  {
    DerivativeAt(n - 1, j);
  }

  /** The first Hermite polynomials. */
  lemma FirstPolynomials()
    ensures Exact(0) == [1.0]
    ensures Exact(1) == [0.0, 2.0]
    ensures Exact(2) == [-2.0, 0.0, 4.0]
    ensures Exact(3) == [0.0, -12.0, 0.0, 8.0]
    ensures Exact(4) == [12.0, 0.0, -48.0, 0.0, 16.0]
  {
  }

  // ---- What the truncation keeps and what it loses ----

  /** Up to and including index N the generator's vector holds the
      coefficients of x^0 .. x^(N-1) of H(k). */
  lemma {:induction false} IterateCoefficients(k: nat)
    requires k <= N
    ensures forall j :: 0 <= j < N ==> Iterate(k)[j] == Coefficient(k, j) as real
  {
    if k > 0 {
      IterateCoefficients(k - 1);
      DegreeBound(k - 1, N);
      var prev := Iterate(k - 1);
      forall j | 0 <= j < N ensures Iterate(k)[j] == Coefficient(k, j) as real {
        if j == 0 {
          assert Coefficient(k - 1, j - 1) == 0;
        }
        NextMatches(prev, j, Coefficient(k - 1, j - 1), Coefficient(k - 1, j + 1));
      }
    }
  }

  /** One step of the truncated iteration at coefficient j: when the
      neighbouring entries of prev are the integers lo and hi, entry j of
      2x p - p' is the integer 2 lo - (j + 1) hi. */
  lemma NextMatches(prev: seq<real>, j: int, lo: int, hi: int)
    requires 0 <= j < |prev|
    requires At(prev, j - 1) == lo as real && At(prev, j + 1) == hi as real
    ensures Next(prev)[j] == (2 * lo - (j + 1) * hi) as real
  {
    assert Next(prev)[j] == 2.0 * At(prev, j - 1) - (j as real + 1.0) * At(prev, j + 1);
    CastStep(j, lo, hi, At(prev, j - 1), At(prev, j + 1));
  }

  /** The integer recurrence step, read as reals. */
  lemma CastStep(j: int, lo: int, hi: int, a: real, b: real)
    requires a == lo as real && b == hi as real
    ensures (2 * lo - (j + 1) * hi) as real == 2.0 * a - (j as real + 1.0) * b
  {
  }

  /** Below index N nothing is lost: the vector is H(k) padded with zeros. */
  lemma NoTruncation(k: nat)
    requires k < N
    ensures Iterate(k)[..k + 1] == Exact(k)
    ensures forall j :: k < j < N ==> Iterate(k)[j] == 0.0
  {
    IterateCoefficients(k);
    forall j | k < j < N ensures Iterate(k)[j] == 0.0 {
      DegreeBound(k, j);
    }
  }

  /** The generator's vectors for indices 0 to 4: H(0) .. H(4) followed by
      zeros. */
  lemma FirstIterates()
    ensures Iterate(0) == Start()
    ensures Iterate(1)[..2] == [0.0, 2.0]
    ensures Iterate(2)[..3] == [-2.0, 0.0, 4.0]
    ensures Iterate(3)[..4] == [0.0, -12.0, 0.0, 8.0]
    ensures Iterate(4)[..5] == [12.0, 0.0, -48.0, 0.0, 16.0]
    ensures forall k, j :: 0 <= k <= 4 && k < j < N ==> Iterate(k)[j] == 0.0
  {
    FirstPolynomials();
    NoTruncation(1);
    NoTruncation(2);
    NoTruncation(3);
    NoTruncation(4);
    forall k, j | 0 <= k <= 4 && k < j < N ensures Iterate(k)[j] == 0.0 {
      NoTruncation(k);
    }
  }

  /** At index N the generator keeps the first N coefficients of H(N)... */
  lemma BoundaryKeeps()
    ensures Iterate(N) == Exact(N)[..N]
  {
    var full, kept := Exact(N), Iterate(N);
    IterateCoefficients(N);
    forall j | 0 <= j < N ensures kept[j] == full[j] {
      assert kept[j] == Coefficient(N, j) as real;
    }
    assert kept == full[..N];
  }

  /** ... and drops its leading term 2^N x^N. */
  lemma BoundaryDrops()
    ensures Exact(N)[N] == 32768.0
  {
    Leading(N);
    Pow2Fifteen();
  }
}

/** The generator itself: it builds the successor matrix from the 2x and
    derivative matrices and applies it index times to the constant 1. */
module HermiteGenerator {
  import opened Errors
  import Grids
  import opened Algebra
  import opened Recurrence

  class Hermite {
    const index: int
    const hermite: Polynomial
    const H1: Matrix

    ghost predicate Valid() {
      hermite.Valid() && H1.Valid() && H1.rows == N && H1.cols == N && hermite.degree == N - 1
    }

    constructor Make(index: int, hermite: Polynomial, H1: Matrix)
      ensures this.index == index && this.hermite == hermite && this.H1 == H1
    {
      this.index := index;
      this.hermite := hermite;
      this.H1 := H1;
    }

    /** The index-th Hermite polynomial as an N-coefficient vector; indices
        outside 0..N are refused. */
    static method New(index: int) returns (r: Result<Hermite>)
      ensures r.Err? <==> index < 0 || index > N
      ensures r.Err? ==> r.error == InvalidArgument
      ensures r.Ok? ==> fresh(r.value) && r.value.Valid() && r.value.index == index
      ensures r.Ok? ==> r.value.H1.Elements() == SuccessorGrid()
      ensures r.Ok? ==> r.value.hermite.Coeffs() == Iterate(index)
    {
      if index < 0 || index > N {
        return Err(InvalidArgument);
      }
      var H1 := BuildSuccessor();
      var h := Generate(H1, index);
      var g := new Hermite.Make(index, h, H1);
      return Ok(g);
    }

    /** Builds M2x and D in fresh arrays and forms M2x + (-1) D. */
    static method BuildSuccessor() returns (H1: Matrix)
      ensures fresh(H1) && H1.Valid() && H1.rows == N && H1.cols == N
      ensures H1.Elements() == SuccessorGrid()
    {
      var M2x := BuildM2x();
      var D := BuildD();
      var negD := D.MultiplyWithScalar(-1.0);
      var sum := M2x.Add(negD);
      H1 := sum.value;
    }

    /** The 2x matrix: 2 at row i, column i - 1, for i from 1. */
    static method BuildM2x() returns (M2x: Matrix)
      ensures fresh(M2x) && M2x.Valid() && M2x.rows == N && M2x.cols == N
      ensures M2x.Elements() == M2xGrid()
    {
      var M2xArray := new real[N, N]((_, _) => 0.0);
      for i := 1 to N
        modifies M2xArray
        invariant forall p, q :: 0 <= p < N && 0 <= q < N ==>
          M2xArray[p, q] == if 1 <= p < i && q == p - 1 then 2.0 else 0.0
      {
        M2xArray[i, i - 1] := 2.0;
      }
      M2x := new Matrix.Wrap(M2xArray);
      Grids.Extensional(M2x.Elements(), M2xGrid());
    }

    /** The derivative matrix: i at row i - 1, column i, for i from 1. */
    static method BuildD() returns (D: Matrix)
      ensures fresh(D) && D.Valid() && D.rows == N && D.cols == N
      ensures D.Elements() == DGrid()
    {
      var DArray := new real[N, N]((_, _) => 0.0);
      for i := 1 to N
        modifies DArray
        invariant forall p, q :: 0 <= p < N && 0 <= q < N ==>
          DArray[p, q] == if 1 <= q < i && p == q - 1 then q as real else 0.0
      {
        DArray[i - 1, i] := i as real;
      }
      D := new Matrix.Wrap(DArray);
      Grids.Extensional(D.Elements(), DGrid());
    }

    /** Applies H1 index times to the constant polynomial 1 held in N
        coefficients. */
    static method Generate(H1: Matrix, index: nat) returns (h: Polynomial)
      requires H1.Valid() && H1.rows == N && H1.cols == N && H1.Elements() == SuccessorGrid()
      ensures h.Valid() && h.degree == N - 1
      ensures h.Coeffs() == Iterate(index)
    {
      var coeff := new real[N](_ => 0.0);
      coeff[0] := 1.0;
      assert coeff[..] == Start();
      var start := Polynomial.FromArray(coeff);
      h := start.value;

      for i := 1 to index + 1
        invariant h.Valid() && h.degree == N - 1 && h.Coeffs() == Iterate(i - 1)
      {
        var next := H1.MultiplyPolynomial(h);
        StepIsOperator(h.Coeffs());
        Grids.ColumnInjective(next.value.Coeffs(), Next(h.Coeffs())[..N]);
        h := next.value;
      }
    }
  }
}
