/** The transcendental functions of the radiation engine, kept abstract.
    `Math.exp`, `Math.log` and `Math.sqrt` are the fields of an `Analysis`
    value; `Lawful` lists the only facts the proofs may use about them.
    Real `exp`/`ln`/`sqrt` satisfy every one of them, once `exp` is read in
    the base for which `Math.LN2` is exactly the logarithm of 2. */
module RealMath {
  import opened RealArith

  /** `Math.LN2` as the engine's double constant. */
  const Ln2: real := 0.6931471805599453

  datatype Analysis = Analysis(exp: real -> real, ln: real -> real, sqrt: real -> real)

  /** The application of each field, named once so that every formula
      mentions the same term. */
  function Exp(m: Analysis, x: real): real { m.exp(x) }

  function Ln(m: Analysis, x: real): real { m.ln(x) }

  function Sqrt(m: Analysis, x: real): real { m.sqrt(x) }

  /* Each law is a predicate of its own, so that the solver uses an
     instance only where a proof names it. */

  ghost predicate ExpAdds(m: Analysis, x: real, y: real) {
    Exp(m, x + y) == Exp(m, x) * Exp(m, y)
  }

  ghost predicate ExpMonotone(m: Analysis, x: real, y: real) {
    x < y ==> Exp(m, x) < Exp(m, y)
  }

  ghost predicate LnInverts(m: Analysis, x: real) {
    x > 0.0 ==> Exp(m, Ln(m, x)) == x
  }

  ghost predicate SqrtSquares(m: Analysis, x: real) {
    x >= 0.0 ==> Sqrt(m, x) >= 0.0 && Sqrt(m, x) * Sqrt(m, x) == x
  }

  /** The laws of exp, ln and sqrt that the proofs rely on. */
  ghost predicate Lawful(m: Analysis) {
    && Exp(m, 0.0) == 1.0
    && Exp(m, Ln2) == 2.0
    && (forall x, y :: ExpMonotone(m, x, y))
    && (forall x, y :: ExpAdds(m, x, y))
    && (forall x :: LnInverts(m, x))
    && (forall x :: SqrtSquares(m, x))
  }

  lemma ExpIncreasing(m: Analysis, x: real, y: real)
    requires Lawful(m)
    requires x < y
    ensures Exp(m, x) < Exp(m, y)
  {
    assert ExpMonotone(m, x, y);
  }

  lemma LnInverse(m: Analysis, x: real)
    requires Lawful(m)
    requires x > 0.0
    ensures Exp(m, Ln(m, x)) == x
  {
    assert LnInverts(m, x);
  }

  /** sqrt returns the non-negative square root. */
  lemma SqrtFacts(m: Analysis, x: real)
    requires Lawful(m)
    requires x >= 0.0
    ensures Sqrt(m, x) >= 0.0 && Sqrt(m, x) * Sqrt(m, x) == x
  {
    assert SqrtSquares(m, x);
  }

  /** `SqrtFacts` for whichever `m` turns out lawful. */
  lemma SqrtWhenLawful(m: Analysis, x: real)
    requires x >= 0.0
    ensures Lawful(m) ==> Sqrt(m, x) >= 0.0 && Sqrt(m, x) * Sqrt(m, x) == x
  {
    if Lawful(m) {
      SqrtFacts(m, x);
    }
  }

  lemma ExpPositive(m: Analysis, x: real)
    requires Lawful(m)
    ensures Exp(m, x) > 0.0
  {
    if x < 0.0 {
      assert ExpAdds(m, x, -x);
      assert x + -x == 0.0;
      ExpIncreasing(m, 0.0, -x);
      if Exp(m, x) <= 0.0 {
        MulMono(Exp(m, -x), Exp(m, x), 0.0);
      }
    } else if x > 0.0 {
      ExpIncreasing(m, 0.0, x);
    }
  }

  /** exp(-x) is the reciprocal of exp(x). */
  lemma ExpNegate(m: Analysis, x: real)
    requires Lawful(m)
    ensures Exp(m, -x) * Exp(m, x) == 1.0
  {
    assert ExpAdds(m, -x, x);
    assert -x + x == 0.0;
  }

  lemma LnIncreasing(m: Analysis, x: real, y: real)
    requires Lawful(m)
    requires 0.0 < x < y
    ensures Ln(m, x) < Ln(m, y)
  {
    LnInverse(m, x);
    LnInverse(m, y);
    if Ln(m, y) < Ln(m, x) {
      ExpIncreasing(m, Ln(m, y), Ln(m, x));
    }
  }

  /** The logarithm of a number strictly between 0 and 1 is negative. */
  lemma LnBelowOneNegative(m: Analysis, x: real)
    requires Lawful(m)
    requires 0.0 < x < 1.0
    ensures Ln(m, x) < 0.0
  {
    LnInverse(m, x);
    if 0.0 < Ln(m, x) {
      ExpIncreasing(m, 0.0, Ln(m, x));
    }
  }

  lemma SqrtIncreasing(m: Analysis, x: real, y: real)
    requires Lawful(m)
    requires 0.0 <= x < y
    ensures Sqrt(m, x) < Sqrt(m, y)
  {
    SqrtFacts(m, x);
    SqrtFacts(m, y);
    SquaresOrdered(Sqrt(m, x), Sqrt(m, y));
  }
}
