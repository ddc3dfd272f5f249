/** One floating-point cell value of a radar product, without IEEE bit patterns:
    a finite real, one of the two infinities, or "not a number". */
module Readings {

  datatype Reading = Finite(r: real) | PosInf | NegInf | NaN

  /** numpy's isinf for one value. */
  predicate IsInf(v: Reading) {
    v.PosInf? || v.NegInf?
  }

  /** numpy's isnan for one value. */
  predicate IsNaN(v: Reading) {
    v.NaN?
  }

  /** IEEE `v >= t` against a finite threshold: false for NaN, true for +inf. */
  predicate AtLeast(v: Reading, t: real) {
    match v
    case Finite(r) => r >= t
    case PosInf => true
    case NegInf => false
    case NaN => false
  }

  /** IEEE `v < t` against a finite threshold: false for NaN, true for -inf. */
  predicate Below(v: Reading, t: real) {
    match v
    case Finite(r) => r < t
    case PosInf => false
    case NegInf => true
    case NaN => false
  }

  /** Every comparison with NaN is false, in both directions. */
  lemma NaNComparesFalse(t: real)
    ensures !AtLeast(NaN, t) && !Below(NaN, t)
  {
  }
}
