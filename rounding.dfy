/** Rounding of prices to two decimal places (the `.round(2)` calls of the pipeline).
    Prices are exact reals. Round2 rounds halves up, which is half away from zero on the
    non-negative prices the pipeline produces. The strict lower bound in its contract, and
    in the contracts that repeat it, depends on that choice; idempotence, monotonicity and
    non-negativity hold under half-to-even as well. */
module Rounding {

  /** True when x is a whole number of cents. */
  predicate IsCents(x: real) {
    (x * 100.0).Floor as real == x * 100.0
  }

  /** x rounded to the nearest cent. */
  function Round2(x: real): (r: real)
    ensures IsCents(r)
    ensures -1.0 / 200.0 < r - x <= 1.0 / 200.0
  {
    var c := (x * 100.0 + 0.5).Floor;
    assert (c as real / 100.0) * 100.0 == c as real;
    c as real / 100.0
  }

  /** Rounding a value that is already in whole cents leaves it unchanged, so
      re-aggregating clean output does not move its prices. */
  lemma Round2Idempotent(x: real)
    requires IsCents(x)
    ensures Round2(x) == x
  {
    var n := (x * 100.0).Floor;
    assert (x * 100.0 + 0.5).Floor == n;
  }

  /** Rounding is monotone. */
  lemma Round2Monotone(x: real, y: real)
    requires x <= y
    ensures Round2(x) <= Round2(y)
  {
    assert (x * 100.0 + 0.5).Floor <= (y * 100.0 + 0.5).Floor;
  }

  /** A non-negative value never rounds to a negative one. */
  lemma Round2NonNegative(x: real)
    requires x >= 0.0
    ensures Round2(x) >= 0.0
  {
    Round2Monotone(0.0, x);
  }
}
