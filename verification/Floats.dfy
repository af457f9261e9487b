/** IEEE values over exact reals: comparisons and subtraction behave as in Go, rounding is left out. */
module Floats {
  datatype Float = NaN | PosInf | NegInf | Fin(r: real)

  predicate Greater(a: Float, b: Float) {
    match a
    case NaN => false
    case PosInf => b.NegInf? || b.Fin?
    case NegInf => false
    case Fin(x) => b.NegInf? || (b.Fin? && x > b.r)
  }

  function Minus(a: Float, b: Float): Float {
    if a.NaN? || b.NaN? then NaN
    else if a.Fin? && b.Fin? then Fin(a.r - b.r)
    else if a == b then NaN
    else if a.PosInf? || b.NegInf? then PosInf
    else NegInf
  }

  const EPSILON := Fin(0.000000001)

  /** `nearlyEqual`. */
  predicate NearlyEqual(a: Float, b: Float) {
    if Greater(a, b) then Greater(EPSILON, Minus(a, b)) else Greater(EPSILON, Minus(b, a))
  }

  /** Exactly the finite pairs less than 1e-9 apart. */
  lemma NearlyEqualMeaning(a: Float, b: Float)
    ensures NearlyEqual(a, b) <==> a.Fin? && b.Fin? && -0.000000001 < a.r - b.r < 0.000000001
  {
  }
}
