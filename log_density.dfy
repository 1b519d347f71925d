/** The log-densities the hull samples from: the Gamma family (shape `alpha`,
    rate `beta`) and the Weibull family (scale `lamda`, shape `k`), with the
    validation their constructors perform and, for Gamma, the derivative of
    the log-density and the initial pair of support points. */
module LogDensity {

  /** The two exceptions the constructors throw. */
  datatype Error =
    | NotLogConcave  // shape parameter at or below one
    | InvalidRate    // rate (Gamma) or scale (Weibull) at or below zero

  datatype Result<T> = Ok(value: T) | Err(error: Error)

  datatype Gamma = Gamma(alpha: real, beta: real)

  datatype Weibull = Weibull(lamda: real, k: real)

  /** The parameters a constructed Gamma object always has. */
  predicate ValidGamma(g: Gamma)
  {
    g.alpha > 1.0 && g.beta > 0.0
  }

  /** The Gamma constructor: the shape is checked first, and a shape of exactly
      one is rejected like any smaller one. */
  function NewGamma(alpha: real, beta: real): (r: Result<Gamma>)
    ensures r.Ok? <==> alpha > 1.0 && beta > 0.0
    ensures r.Ok? ==> r.value == Gamma(alpha, beta) && ValidGamma(r.value)
    ensures alpha <= 1.0 ==> r == Err(NotLogConcave)
    ensures alpha > 1.0 && beta <= 0.0 ==> r == Err(InvalidRate)
  {
    if alpha <= 1.0 then Err(NotLogConcave)
    else if beta <= 0.0 then Err(InvalidRate)
    else Ok(Gamma(alpha, beta))
  }

  /** The Weibull constructor: the shape `k` is checked before the scale. */
  function NewWeibull(lamda: real, k: real): (r: Result<Weibull>)
    ensures r.Ok? <==> k > 1.0 && lamda > 0.0
    ensures r.Ok? ==> r.value == Weibull(lamda, k)
    ensures k <= 1.0 ==> r == Err(NotLogConcave)
    ensures k > 1.0 && lamda <= 0.0 ==> r == Err(InvalidRate)
  {
    if k <= 1.0 then Err(NotLogConcave)
    else if lamda <= 0.0 then Err(InvalidRate)
    else Ok(Weibull(lamda, k))
  }

  /** The mode of a Gamma density, `(alpha - 1) / beta`. */
  function Mode(g: Gamma): (m: real)
    requires ValidGamma(g)
    ensures m > 0.0
  {
    (g.alpha - 1.0) / g.beta
  }

  /** Derivative of the Gamma log-density, `(alpha - 1) / x - beta`. */
  function PdfDeriv(g: Gamma, x: real): (d: real)
    requires x != 0.0
    ensures d * x == (g.alpha - 1.0) - g.beta * x
    ensures ValidGamma(g) && x > 0.0 ==> (d < 0.0 <==> g.beta * x > g.alpha - 1.0)
  {
    var d := (g.alpha - 1.0) / x - g.beta;
    assert d * x == (g.alpha - 1.0) - g.beta * x by {
      assert ((g.alpha - 1.0) / x) * x == g.alpha - 1.0;
    }
    if x > 0.0 then
      DividedSign(d, x, (g.alpha - 1.0) - g.beta * x);
      d
    else
      d
  }

  /** The sign of `d` is that of `d * x` when `x > 0`. */
  lemma DividedSign(d: real, x: real, p: real)
    requires x > 0.0 && d * x == p
    ensures d < 0.0 <==> p < 0.0
  {
    if d < 0.0 {
      assert d * x < 0.0 * x;
    } else {
      assert d * x >= 0.0 * x;
    }
  }

  /** On the support the derivative is positive left of the mode, zero at
      the mode and negative right of it. */
  lemma PdfDerivSign(g: Gamma, x: real)
    requires ValidGamma(g) && x > 0.0
    ensures PdfDeriv(g, x) > 0.0 <==> x < Mode(g)
    ensures PdfDeriv(g, x) == 0.0 <==> x == Mode(g)
    ensures PdfDeriv(g, x) < 0.0 <==> x > Mode(g)
  {
    var a, b := g.alpha - 1.0, g.beta;
    // Multiplying by x * beta > 0 turns both sides into `a - b x` against 0.
    assert PdfDeriv(g, x) * x == a - b * x;
    assert Mode(g) * b == a;
    if x < Mode(g) {
      assert b * x < b * Mode(g);
    } else if x > Mode(g) {
      assert b * x > b * Mode(g);
    }
  }

  /** The derivative is strictly decreasing on the support: the Gamma
      log-density is strictly concave when `alpha > 1`. */
  lemma PdfDerivDecreasing(g: Gamma, x: real, y: real)
    requires ValidGamma(g) && 0.0 < x < y
    ensures PdfDeriv(g, x) > PdfDeriv(g, y)
  {
    var a := g.alpha - 1.0;
    var p, q := a / x, a / y;
    // (a/x - a/y) x y == a (y - x) > 0 and x y > 0.
    assert p * x == a && q * y == a;
    assert (p - q) * (x * y) == a * (y - x) by {
      assert (p - q) * (x * y) == (p * x) * y - (q * y) * x;
    }
    assert a * (y - x) > 0.0;
    PositiveFactor(p - q, x * y);
  }

  /** A product with a positive factor is positive only if the other one is. */
  lemma PositiveFactor(a: real, d: real)
    requires d > 0.0 && a * d > 0.0
    ensures a > 0.0
  {
    assert a == (a * d) / d;
  }

  /** The threshold on the shape below which the left point is half the mode. */
  const SHAPE_THRESHOLD: real := 5.83

  /** The initial pair of support points, given `sqrtAlpha`, the value of
      `sqrt(alpha)`. Both points lie strictly inside the support on either
      side of the mode, so the right point already has a negative
      derivative; the left point is never closer to zero than half the mode. */
  function GetInit(g: Gamma, sqrtAlpha: real): (r: (real, real))
    requires ValidGamma(g)
    requires sqrtAlpha >= 0.0 && sqrtAlpha * sqrtAlpha == g.alpha
    ensures 0.0 < r.0 < Mode(g) < r.1
    ensures Mode(g) / 2.0 <= r.0
    ensures r.1 == Mode(g) + sqrtAlpha / g.beta
    ensures g.alpha <= SHAPE_THRESHOLD ==> r.0 == Mode(g) / 2.0
    ensures g.alpha > SHAPE_THRESHOLD ==> r.0 == Mode(g) - sqrtAlpha / g.beta
    ensures PdfDeriv(g, r.1) < 0.0
  {
    var mode := Mode(g);
    var sd := sqrtAlpha / g.beta;
    assert sqrtAlpha > 0.0;
    assert sd > 0.0;
    PdfDerivSign(g, mode + sd);
    if g.alpha <= SHAPE_THRESHOLD then
      (mode / 2.0, mode + sd)
    else
      LargeShapeLeftPoint(g, sqrtAlpha);
      (mode - sd, mode + sd)
  }

  /** For a shape above the threshold, `mode - sd` lies between half the
      mode and the mode. */
  lemma LargeShapeLeftPoint(g: Gamma, sqrtAlpha: real)
    requires ValidGamma(g) && g.alpha > SHAPE_THRESHOLD
    requires sqrtAlpha >= 0.0 && sqrtAlpha * sqrtAlpha == g.alpha
    ensures Mode(g) / 2.0 < Mode(g) - sqrtAlpha / g.beta < Mode(g)
  {
    var s, b := sqrtAlpha, g.beta;
    // 2.4145 * 2.4145 < 5.83, so s exceeds 2.4145 > 1 + sqrt(2).
    if s <= 2.4145 {
      SquareMonotone(s, 2.4145);
      assert false;
    }
    assert (s - 1.0) * (s - 1.0) > 2.0 by {
      assert s - 1.0 > 1.4145;
      assert (s - 1.0) * (s - 1.0) > 1.4145 * (s - 1.0) > 1.4145 * 1.4145;
    }
    // (alpha - 1) / 2 - s == ((s - 1)^2 - 2) / 2 > 0, then divide by beta.
    assert (g.alpha - 1.0) / 2.0 > s;
    assert Mode(g) / 2.0 == ((g.alpha - 1.0) / 2.0) / b;
    assert ((g.alpha - 1.0) / 2.0) / b > s / b;
    assert s / b > 0.0;
  }

  lemma SquareMonotone(a: real, b: real)
    requires 0.0 <= a <= b
    ensures a * a <= b * b
  {
    assert a * a <= a * b <= b * b;
  }
}
