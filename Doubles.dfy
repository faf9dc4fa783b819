/** The .NET `double` as far as the equivalence helpers use it: NaN, the two
    infinities and finite values. Finite values are exact reals; rounding to
    the nearest representable double is not modelled. */
module Doubles {

  datatype Double = NaN | NegativeInfinity | PositiveInfinity | Finite(value: real)

  function AbsReal(x: real): real
  {
    if x < 0.0 then -x else x
  }

  predicate IsInfinite(a: Double)
  {
    a.PositiveInfinity? || a.NegativeInfinity?
  }

  /** IEEE-754 subtraction `a - b`, exact on finite operands. */
  function Minus(a: Double, b: Double): (difference: Double)
    ensures difference.NaN? <==> a.NaN? || b.NaN? || (a == b && IsInfinite(a))
    ensures IsInfinite(difference) <==> !difference.NaN? && (IsInfinite(a) || IsInfinite(b))
  {
    match (a, b)
    case (NaN, _) => NaN
    case (_, NaN) => NaN
    case (PositiveInfinity, PositiveInfinity) => NaN
    case (NegativeInfinity, NegativeInfinity) => NaN
    case (PositiveInfinity, _) => PositiveInfinity
    case (NegativeInfinity, _) => NegativeInfinity
    case (Finite(_), PositiveInfinity) => NegativeInfinity
    case (Finite(_), NegativeInfinity) => PositiveInfinity
    case (Finite(x), Finite(y)) => Finite(x - y)
  }

  /** Math.Abs on doubles. */
  function Abs(a: Double): (magnitude: Double)
    ensures magnitude.NaN? <==> a.NaN?
    ensures !magnitude.NegativeInfinity?
    ensures magnitude.Finite? ==> magnitude.value >= 0.0
  {
    match a
    case NaN => NaN
    case NegativeInfinity => PositiveInfinity
    case PositiveInfinity => PositiveInfinity
    case Finite(x) => Finite(AbsReal(x))
  }

  /** The absolute difference does not depend on the order of the operands. */
  lemma AbsMinusSymmetric(a: Double, b: Double)
    ensures Abs(Minus(a, b)) == Abs(Minus(b, a))
  {
  }

  /** IEEE-754 `<`: false whenever an operand is NaN. */
  predicate Less(a: Double, b: Double)
  {
    match (a, b)
    case (NaN, _) => false
    case (_, NaN) => false
    case (Finite(x), Finite(y)) => x < y
    case (NegativeInfinity, _) => !b.NegativeInfinity?
    case (_, PositiveInfinity) => !a.PositiveInfinity?
    case _ => false
  }

  /** IEEE-754 `>`. */
  predicate Greater(a: Double, b: Double)
  {
    Less(b, a)
  }
}
