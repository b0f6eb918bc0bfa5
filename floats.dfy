/** The few IEEE-754 doubles the ranking needs besides ordinary values:
    `-infinity` (the class attribute's relevance, the score of useless
    attributes) and `NaN` (the class row's score, and the entropy of a
    histogram with an interior empty bin).  Finite doubles are modelled as
    exact reals. */
module Floats {

  datatype Ext = NegInf | Fin(v: real) | NaN

  /** `x < y` on doubles; every comparison with NaN is false. */
  predicate Less(x: Ext, y: Ext) {
    match (x, y)
    case (NegInf, Fin(_)) => true
    case (Fin(a), Fin(b)) => a < b
    case _ => false
  }

  /** `x > 0` on doubles. */
  predicate Positive(x: Ext) {
    x.Fin? && x.v > 0.0
  }
}
