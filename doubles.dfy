/** IEEE-754 doubles without rounding: a finite value is an exact real, and the
    three special values the sampler relies on (the two infinities and NaN)
    are kept with the comparison and addition rules of the standard. */
module Doubles {

  datatype Double = NaN | NegInf | Fin(v: real) | PosInf

  /** `a < b` on doubles: false whenever either side is NaN. */
  predicate Lt(a: Double, b: Double)
  {
    match (a, b)
    case (Fin(x), Fin(y)) => x < y
    case (NegInf, Fin(_)) => true
    case (NegInf, PosInf) => true
    case (Fin(_), PosInf) => true
    case _ => false
  }

  /** `a <= b` on doubles: false whenever either side is NaN. */
  predicate Le(a: Double, b: Double)
  {
    Lt(a, b) || (a == b && !a.NaN?)
  }

  function Neg(a: Double): Double
  {
    match a
    case NaN => NaN
    case NegInf => PosInf
    case Fin(x) => Fin(-x)
    case PosInf => NegInf
  }

  /** `a + b`: infinities absorb finite values, opposite infinities give NaN. */
  function Add(a: Double, b: Double): Double
  {
    match (a, b)
    case (NaN, _) => NaN
    case (_, NaN) => NaN
    case (PosInf, NegInf) => NaN
    case (NegInf, PosInf) => NaN
    case (PosInf, _) => PosInf
    case (_, PosInf) => PosInf
    case (NegInf, _) => NegInf
    case (_, NegInf) => NegInf
    case (Fin(x), Fin(y)) => Fin(x + y)
  }

  function Sub(a: Double, b: Double): Double
  {
    Add(a, Neg(b))
  }

  /** `a / b` for finite operands; a zero divisor is the positive zero that
      `x - y` yields when `x == y`. */
  function Quotient(a: real, b: real): Double
  {
    if b != 0.0 then Fin(a / b)
    else if a > 0.0 then PosInf
    else if a < 0.0 then NegInf
    else NaN
  }

  /** No double compares below `-infinity`, whatever the other side is. */
  lemma LeNegInf(w: Double)
    ensures Le(w, NegInf) <==> w == NegInf
  {
  }

  /** Order on doubles chains: `a <= b` and `b <= c` give `a <= c`. */
  lemma LeTrans(a: Double, b: Double, c: Double)
    requires Le(a, b) && Le(b, c)
    ensures Le(a, c)
  {
  }
}
