/** Integer arithmetic facts the solver does not find on its own. */
module Arith {
  /** Multiplying by a positive number keeps the sign, and a factor of at
      least one gives at least the multiplier. */
  lemma MulSign(a: int, d: int)
    requires d > 0
    ensures a >= 1 ==> a * d >= d
    ensures a <= 0 ==> a * d <= 0
  {
  }
}
