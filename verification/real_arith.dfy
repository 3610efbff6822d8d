/** Ordered-field facts the solver does not find by itself once products of
    variables are involved; each is stated over distinct variables so that
    it can be instantiated with squares. */
module RealArith {

  lemma MulPos(a: real, b: real)
    requires a > 0.0 && b > 0.0
    ensures a * b > 0.0
  {
  }

  lemma MulNonZero(a: real, b: real)
    requires a != 0.0 && b != 0.0
    ensures a * b != 0.0
  {
  }

  lemma MulStrict(k: real, x: real, y: real)
    requires k > 0.0 && x < y
    ensures k * x < k * y
  {
  }

  lemma MulMono(k: real, x: real, y: real)
    requires k >= 0.0 && x <= y
    ensures k * x <= k * y
  {
  }

  lemma MulMonoRight(x: real, y: real, k: real)
    requires k >= 0.0 && x <= y
    ensures x * k <= y * k
  {
  }

  lemma DivPos(a: real, b: real)
    requires a > 0.0 && b > 0.0
    ensures a / b > 0.0
  {
  }

  lemma DivStrict(x: real, y: real, k: real)
    requires k > 0.0 && x < y
    ensures x / k < y / k
  {
  }

  lemma DivMono(x: real, y: real, k: real)
    requires k > 0.0 && x <= y
    ensures x / k <= y / k
  {
  }

  lemma DivAtLeastOne(n: real, d: real)
    requires d > 0.0
    ensures n / d >= 1.0 <==> n >= d
  {
  }

  lemma DivAtMost(n: real, k: real, l: real)
    requires k > 0.0
    ensures n / k <= l <==> n <= l * k
  {
  }

  lemma Regroup(c: real, x: real, a: real, e: real, l: real, d1: real, d2: real)
    requires x == a * e
    requires l * d1 * d2 != 0.0
    ensures c * x / (l * d1 * d2) == (c * a / (l * d1 * d2)) * e
  {
  }

  /* The lemmas below take a product l·d1·d2 through its factors, so that a
     square denominator λ·d·d reaches them as (λ, d, d). */

  lemma DivPos3(n: real, l: real, d1: real, d2: real)
    requires n > 0.0 && l > 0.0 && d1 > 0.0 && d2 > 0.0
    ensures l * d1 * d2 > 0.0
    ensures n / (l * d1 * d2) > 0.0
  {
    MulPos(l, d1);
    MulPos(l * d1, d2);
    DivPos(n, l * d1 * d2);
  }

  lemma DivMono3(x: real, y: real, l: real, d1: real, d2: real)
    requires x <= y && l > 0.0 && d1 > 0.0 && d2 > 0.0
    ensures x / (l * d1 * d2) <= y / (l * d1 * d2)
  {
    MulPos(l, d1);
    MulPos(l * d1, d2);
    DivMono(x, y, l * d1 * d2);
  }

  /** (c / (l·d1·d2)) · (L·l·d1·d2 / c) = L. */
  lemma CancelRatio(c: real, lim: real, l: real, d1: real, d2: real, k: real, a: real)
    requires c != 0.0 && l * d1 * d2 != 0.0
    requires k == c / (l * d1 * d2) && a == lim * l * d1 * d2 / c
    ensures k * a == lim
  {
    Ratio(c, lim * l * d1 * d2, l * d1 * d2);
    CancelScale(lim, l, d1, d2);
  }

  /** c / (l·d1·d2) ≤ L  exactly when  L·l·d1·d2 / c ≥ 1, for positive c and l·d1·d2. */
  lemma WithinLimitIff(c: real, lim: real, l: real, d1: real, d2: real, k: real, a: real)
    requires c > 0.0 && l * d1 * d2 > 0.0
    requires k == c / (l * d1 * d2) && a == lim * l * d1 * d2 / c
    ensures k <= lim <==> a >= 1.0
  {
    DivAtLeastOne(lim * l * d1 * d2, c);
    DivAtMost(c, l * d1 * d2, lim);
    ScaleProduct(lim, l, d1, d2);
  }

  lemma NegMulStrict(l: real, x: real, y: real)
    requires l > 0.0 && x < y
    ensures -l * y < -l * x
  {
    assert l * x < l * y;
  }

  /** Squaring is monotone on the non-negative reals. */
  lemma SquaresOrdered(a: real, b: real)
    requires a >= 0.0 && b >= 0.0
    ensures b <= a ==> b * b <= a * a
  {
    if b <= a {
      MulMono(b, b, a);
      MulMono(a, b, a);
    }
  }

  /** Scaling a product of three factors by a fourth is associative. */
  lemma ScaleProduct(s: real, l: real, a: real, b: real)
    ensures s * (l * a * b) == s * l * a * b
  {
  }

  lemma ZeroSquare(s: real)
    ensures s == 0.0 ==> s * s == 0.0
  {
  }

  /** A zero factor in the numerator makes the product zero. */
  lemma ZeroFactor(s: real, l: real, a: real, b: real)
    ensures l == 0.0 ==> s * l * a * b == 0.0
  {
  }

  /** o·Γ·A / (λ·d·d') = o·(Γ·A / (d·d')) / λ. */
  lemma RateOverLambda(o: real, g: real, a: real, l: real, d1: real, d2: real)
    requires l != 0.0 && d1 * d2 != 0.0 && l * d1 * d2 != 0.0
    ensures o * g * a / (l * d1 * d2) == o * ((g * a) / (d1 * d2)) / l
  {
    assert l * d1 * d2 == l * (d1 * d2);
  }

  lemma NegTimesNeg(a: real, b: real)
    requires a < 0.0 && b < 0.0
    ensures a * b > 0.0
  {
  }

  lemma CancelInverse(l: real, x: real)
    requires l != 0.0
    ensures -l * (-(1.0 / l) * x) == x
  {
  }

  lemma Ratio(den: real, num: real, k: real)
    requires den != 0.0 && k != 0.0
    ensures (den / k) * (num / den) == num / k
  {
  }

  lemma Quarter(p: real, a: real, b: real)
    requires a != 0.0 && b != 0.0
    ensures p / ((2.0 * a) * (2.0 * b)) == (p / (a * b)) / 4.0
  {
    MulNonZero(a, b);
    assert (2.0 * a) * (2.0 * b) == 4.0 * (a * b);
  }

  /** l·a·b / (l·a·b) style cancellation: (L·l·a·b) / (l·a·b) = L. */
  lemma CancelScale(lim: real, l: real, a: real, b: real)
    requires l * a * b != 0.0
    ensures (lim * l * a * b) / (l * a * b) == lim
  {
    assert lim * l * a * b == lim * (l * a * b);
  }

  /** If s·t = c / (l·L) with c, l, L positive then c / (l·s·t) = L. */
  lemma InvertRadicand(c: real, l: real, lim: real, s: real, t: real)
    requires c > 0.0 && l > 0.0 && lim > 0.0
    requires s * t == c / (l * lim)
    ensures l * s * t != 0.0
    ensures c / (l * s * t) == lim
  {
    MulPos(l, lim);
    DivPos(c, l * lim);
    assert l * s * t == l * (s * t);
    assert l * (c / (l * lim)) == c / lim;
  }
}
