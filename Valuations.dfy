/**
  Valuations on one absolute scale: positive favours White.  The source uses
  `Double` with the two infinities as the sentinels of a forced win; here a
  valuation is an integer (heuristic weights scaled by 10000) or one of the
  two sentinels, ordered as IEEE doubles order them.
*/
module Valuations {

  datatype Valuation = NegInf | Finite(n: int) | PosInf

  /** `a < b` on doubles without NaN. */
  predicate Less(a: Valuation, b: Valuation)
  {
    match a
    case NegInf => !b.NegInf?
    case Finite(x) => (b.Finite? && x < b.n) || b.PosInf?
    case PosInf => false
  }

  /** `a <= b`. */
  predicate AtMost(a: Valuation, b: Valuation)
  {
    !Less(b, a)
  }

  function Max(a: Valuation, b: Valuation): (m: Valuation)
    ensures AtMost(a, m) && AtMost(b, m)
    ensures m == a || m == b
  {
    if Less(a, b) then b else a
  }

  function Min(a: Valuation, b: Valuation): (m: Valuation)
    ensures AtMost(m, a) && AtMost(m, b)
    ensures m == a || m == b
  {
    if Less(b, a) then b else a
  }
}
