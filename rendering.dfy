/** Which terms the textual form of a polynomial shows, and in what order.
    c is the coefficient vector in ascending power order (c[k] is the
    coefficient of x^k). The digits of each number are not modelled: a
    piece records the sign word chosen (" + " or " - "), the value handed
    to the two-decimal formatter, and the power of x. */
module Rendering {

  datatype Sign = Plus | Minus

  datatype Piece =
    | Term(sign: Sign, shown: real, power: nat)  // " + v x^k", " - v x", " + v", ...
    | ZeroLiteral                                // the bare "0.00"

  function Abs(x: real): real {
    if x < 0.0 then -x else x
  }

  /** Terms for the loop indices i, i-1, ..., 3, i.e. powers i-1 down to 2.
      A zero coefficient is skipped; the rest are shown as a magnitude. */
  function HighTerms(c: seq<real>, i: nat): seq<Piece>
    requires i <= |c|
  {
    if i <= 2 then []
    else
      var e := c[i - 1];
      (if e == 0.0 then [] else [Term(if e > 0.0 then Plus else Minus, Abs(e), i - 1)])
      + HighTerms(c, i - 1)
  }

  /** The piece the loop index i contributes: the term of power i - 1, or
      nothing when its coefficient is zero. */
  function HighHead(c: seq<real>, i: nat): seq<Piece>
    requires 1 <= i <= |c|
  {
    var e := c[i - 1];
    if e == 0.0 then [] else [Term(if e > 0.0 then Plus else Minus, Abs(e), i - 1)]
  }

  lemma HighTermsStep(c: seq<real>, i: nat)
    requires 2 < i <= |c|
    ensures HighTerms(c, i) == HighHead(c, i) + HighTerms(c, i - 1)
  {
  }

  lemma AppendAssociates(a: seq<Piece>, b: seq<Piece>, d: seq<Piece>)
    ensures (a + b) + d == a + (b + d)
  {
  }

  /** The x term: considered only when the degree exceeds 1, and shown with
      its raw (possibly negative) value. */
  function LinearTerm(c: seq<real>): seq<Piece>
    requires |c| >= 1
  {
    if |c| - 1 > 1 then
      if c[1] > 0.0 then [Term(Plus, c[1], 1)]
      else if c[1] < 0.0 then [Term(Minus, c[1], 1)]
      else []
    else []
  }

  /** The constant term, shown with its raw value; a zero constant gives
      the bare "0.00" only when nothing was shown before it. */
  function ConstantTerm(c: seq<real>, nothingYet: bool): seq<Piece>
    requires |c| >= 1
  {
    if c[0] > 0.0 then [Term(Plus, c[0], 0)]
    else if c[0] < 0.0 then [Term(Minus, c[0], 0)]
    else if nothingYet then [ZeroLiteral]
    else []
  }

  /** The whole rendering, piece by piece. */
  function Pieces(c: seq<real>): seq<Piece>
    requires |c| >= 1
  {
    var high := HighTerms(c, |c|);
    var linear := LinearTerm(c);
    high + linear + ConstantTerm(c, high == [] && linear == [])
  }

  /** The powers of x that the terms of r show, in order. */
  function Powers(r: seq<Piece>): seq<nat> {
    if r == [] then []
    else (if r[0].Term? then [r[0].power] else []) + Powers(r[1..])
  }

  ghost predicate StrictlyDecreasing(p: seq<nat>) {
    forall a, b :: 0 <= a < b < |p| ==> p[a] > p[b]
  }

  /** The term t reports the coefficient of its power in c: its sign word
      matches the coefficient's sign, and powers 2 and up hand the
      magnitude to the formatter while the x and constant terms hand it the
      raw value (so a negative one reads " - -v"). */
  ghost predicate Faithful(c: seq<real>, t: Piece) {
    t.Term? ==>
      t.power < |c| && c[t.power] != 0.0 && (t.sign == Plus <==> c[t.power] > 0.0) &&
      t.shown == (if t.power >= 2 then Abs(c[t.power]) else c[t.power])
  }

  lemma {:induction false} PowersConcat(r: seq<Piece>, s: seq<Piece>)
    ensures Powers(r + s) == Powers(r) + Powers(s)
  {
    if r == [] {
      assert r + s == s;
    } else {
      assert (r + s)[0] == r[0];
      assert (r + s)[1..] == r[1..] + s;
      PowersConcat(r[1..], s);
    }
  }

  lemma {:induction false} DecreasingConcat(p: seq<nat>, q: seq<nat>, k: nat)
    requires StrictlyDecreasing(p) && StrictlyDecreasing(q)
    requires forall a :: 0 <= a < |p| ==> p[a] >= k
    requires forall a :: 0 <= a < |q| ==> q[a] < k
    ensures StrictlyDecreasing(p + q)
  {
  }

  // ---- Facts about HighTerms ----

  lemma {:induction false} HighTermsPowers(c: seq<real>, i: nat)
    requires i <= |c|
    ensures forall k: nat :: k in Powers(HighTerms(c, i)) <==> 2 <= k < i && c[k] != 0.0
  {
    if i > 2 {
      var e := c[i - 1];
      var head: seq<Piece> := if e == 0.0 then [] else [Term(if e > 0.0 then Plus else Minus, Abs(e), i - 1)];
      var rest := HighTerms(c, i - 1);
      assert HighTerms(c, i) == head + rest;
      PowersConcat(head, rest);
      var p := Powers(head);
      assert p == if e == 0.0 then [] else [i - 1];
      forall k: nat ensures k in p + Powers(rest) <==> 2 <= k < i && c[k] != 0.0 {
        HighTermsPowers(c, i - 1);
      }
    }
  }

  lemma {:induction false} HighTermsAreTerms(c: seq<real>, i: nat)
    requires i <= |c|
    ensures ZeroLiteral !in HighTerms(c, i)
  {
    if i > 2 {
      HighTermsAreTerms(c, i - 1);
    }
  }

  lemma {:induction false} HighTermsDecreasing(c: seq<real>, i: nat)
    requires i <= |c|
    ensures StrictlyDecreasing(Powers(HighTerms(c, i)))
  {
    if i > 2 {
      HighTermsDecreasing(c, i - 1);
      var e := c[i - 1];
      var head: seq<Piece> := if e == 0.0 then [] else [Term(if e > 0.0 then Plus else Minus, Abs(e), i - 1)];
      var rest := HighTerms(c, i - 1);
      assert HighTerms(c, i) == head + rest;
      PowersConcat(head, rest);
      var q := Powers(rest);
      assert forall a :: 0 <= a < |q| ==> q[a] < i - 1 by {
        HighTermsPowers(c, i - 1);
        forall a | 0 <= a < |q| ensures q[a] < i - 1 {
          assert q[a] in q;
        }
      }
      DecreasingConcat(Powers(head), q, i - 1);
    }
  }

  lemma {:induction false} HighTermsValues(c: seq<real>, i: nat)
    requires i <= |c|
    ensures forall a :: 0 <= a < |HighTerms(c, i)| ==> Faithful(c, HighTerms(c, i)[a])
  {
    if i > 2 {
      HighTermsValues(c, i - 1);
    }
  }

  lemma {:induction false} HighTermsEmpty(c: seq<real>, i: nat)
    requires i <= |c|
    requires forall k :: 2 <= k < i ==> c[k] == 0.0
    ensures HighTerms(c, i) == []
  {
    if i > 2 {
      HighTermsEmpty(c, i - 1);
    }
  }

  // ---- Properties of the rendering ----

  /** The powers shown by the x term and by the constant term. */
  lemma {:induction false} TailPowers(c: seq<real>, nothingYet: bool)
    requires |c| >= 1
    ensures Powers(LinearTerm(c)) == if |c| > 2 && c[1] != 0.0 then [1] else []
    ensures Powers(ConstantTerm(c, nothingYet)) == if c[0] != 0.0 then [0] else []
  {
  }

  /** The powers shown are exactly those whose coefficient is non-zero,
      except that the x term of a polynomial of degree 1 is never shown. */
  lemma {:induction false} PiecesPowers(c: seq<real>)
    requires |c| >= 1
    ensures forall k: nat :: k in Powers(Pieces(c)) <==> k < |c| && c[k] != 0.0 && (k == 1 ==> |c| > 2)
  {
    var high := HighTerms(c, |c|);
    var linear := LinearTerm(c);
    var tail := ConstantTerm(c, high == [] && linear == []);
    PowersSplit(c);
    TailPowers(c, high == [] && linear == []);
    HighTermsPowers(c, |c|);
    MembersOfParts(c, Powers(high), Powers(linear), Powers(tail));
  }

  lemma {:induction false} PowersSplit(c: seq<real>)
    requires |c| >= 1
    ensures Powers(Pieces(c)) == Powers(HighTerms(c, |c|)) + Powers(LinearTerm(c)) +
      Powers(ConstantTerm(c, HighTerms(c, |c|) == [] && LinearTerm(c) == []))
  {
    var high := HighTerms(c, |c|);
    var linear := LinearTerm(c);
    var tail := ConstantTerm(c, high == [] && linear == []);
    assert Pieces(c) == (high + linear) + tail;
    PowersConcat(high, linear);
    PowersConcat(high + linear, tail);
  }

  lemma MembersOfParts(c: seq<real>, ph: seq<nat>, pl: seq<nat>, pt: seq<nat>)
    requires |c| >= 1
    requires forall k: nat :: k in ph <==> 2 <= k < |c| && c[k] != 0.0
    requires pl == if |c| > 2 && c[1] != 0.0 then [1] else []
    requires pt == if c[0] != 0.0 then [0] else []
    ensures forall k: nat :: k in ph + pl + pt <==> k < |c| && c[k] != 0.0 && (k == 1 ==> |c| > 2)
  {
  }

  /** The terms come in strictly descending powers. */
  lemma {:induction false} PiecesDescending(c: seq<real>)
    requires |c| >= 1
    ensures StrictlyDecreasing(Powers(Pieces(c)))
  {
    var high := HighTerms(c, |c|);
    PowersSplit(c);
    TailPowers(c, high == [] && LinearTerm(c) == []);
    HighTermsDecreasing(c, |c|);
    HighTermsAboveOne(c, |c|);
    DecreasingParts(Powers(high), Powers(LinearTerm(c)), Powers(ConstantTerm(c, high == [] && LinearTerm(c) == [])));
  }

  lemma HighTermsAboveOne(c: seq<real>, i: nat)
    requires i <= |c|
    ensures forall a :: 0 <= a < |Powers(HighTerms(c, i))| ==> Powers(HighTerms(c, i))[a] >= 2
  {
    var ph := Powers(HighTerms(c, i));
    HighTermsPowers(c, i);
    forall a | 0 <= a < |ph| ensures ph[a] >= 2 {
      assert ph[a] in ph;
    }
  }

  /** High powers, then possibly 1, then possibly 0, descend. */
  lemma DecreasingParts(ph: seq<nat>, pl: seq<nat>, pt: seq<nat>)
    requires StrictlyDecreasing(ph) && forall a :: 0 <= a < |ph| ==> ph[a] >= 2
    requires pl == [] || pl == [1]
    requires pt == [] || pt == [0]
    ensures StrictlyDecreasing(ph + pl + pt)
  {
    DecreasingConcat(ph, pl, 2);
    DecreasingConcat(ph + pl, pt, 1);
  }

  /** The bare "0.00", when present, is the whole rendering. */
  lemma {:induction false} ZeroLiteralAlone(c: seq<real>)
    requires |c| >= 1
    ensures ZeroLiteral in Pieces(c) ==> Pieces(c) == [ZeroLiteral]
  {
    var high := HighTerms(c, |c|);
    var linear := LinearTerm(c);
    var tail := ConstantTerm(c, high == [] && linear == []);
    assert Pieces(c) == (high + linear) + tail;
    HighTermsAreTerms(c, |c|);
    assert ZeroLiteral !in high + linear;
    if ZeroLiteral in tail {
      assert high == [] && linear == [];
    }
  }

  /** A degree-1 polynomial never shows its x term, whatever its
      coefficient. */
  lemma {:induction false} DegreeOneHidesX(c: seq<real>)
    requires |c| == 2
    ensures 1 !in Powers(Pieces(c))
  {
    PiecesPowers(c);
  }

  /** Every term shown reports its coefficient faithfully. */
  lemma {:induction false} PiecesValues(c: seq<real>)
    requires |c| >= 1
    ensures forall a :: 0 <= a < |Pieces(c)| ==> Faithful(c, Pieces(c)[a])
  {
    var high := HighTerms(c, |c|);
    var linear := LinearTerm(c);
    var tail := ConstantTerm(c, high == [] && linear == []);
    var r := Pieces(c);
    assert r == high + linear + tail;
    HighTermsValues(c, |c|);
    forall a | 0 <= a < |r|
      ensures Faithful(c, r[a])
    {
      if a < |high| {
        assert high[a] == r[a];
      } else if a < |high| + |linear| {
        assert linear[a - |high|] == r[a];
      } else {
        assert tail[a - |high| - |linear|] == r[a];
      }
    }
  }

  /** The bare "0.00" appears exactly when the constant is zero and no
      earlier term was shown. */
  lemma {:induction false} ZeroLiteralExactly(c: seq<real>)
    requires |c| >= 1
    ensures ZeroLiteral in Pieces(c) <==>
      c[0] == 0.0 && (|c| > 2 ==> c[1] == 0.0) && forall k :: 2 <= k < |c| ==> c[k] == 0.0
  {
    var high := HighTerms(c, |c|);
    var linear := LinearTerm(c);
    HighTermsAreTerms(c, |c|);
    assert Pieces(c) == high + linear + ConstantTerm(c, high == [] && linear == []);
    if forall k :: 2 <= k < |c| ==> c[k] == 0.0 {
      HighTermsEmpty(c, |c|);
    } else {
      var k :| 2 <= k < |c| && c[k] != 0.0;
      HighTermsPowers(c, |c|);
      assert k in Powers(high);
    }
    assert ZeroLiteral !in linear;
  }

  /** The zero polynomial renders as exactly "0.00". */
  lemma {:induction false} ZeroPolynomial(c: seq<real>)
    requires |c| >= 1 && forall k :: 0 <= k < |c| ==> c[k] == 0.0
    ensures Pieces(c) == [ZeroLiteral]
  {
    ZeroLiteralExactly(c);
    ZeroLiteralAlone(c);
  }

  /** A polynomial whose only non-zero coefficient is its constant renders
      as that signed constant alone. */
  lemma {:induction false} ConstantPolynomial(c: seq<real>)
    requires |c| >= 1 && c[0] != 0.0 && forall k :: 1 <= k < |c| ==> c[k] == 0.0
    ensures Pieces(c) == [Term(if c[0] > 0.0 then Plus else Minus, c[0], 0)]
  {
    HighTermsEmpty(c, |c|);
  }
}
