// Exact-arithmetic stand-ins for the float helpers the backends share.
module Rounding {

  /** `std::lround`: the nearest integer, halves away from zero. */
  function Lround(v: real): (n: int)
    ensures -0.5 <= v - n as real <= 0.5
    ensures v >= 0.0 ==> n >= 0
    ensures v - n as real == 0.5 ==> v < 0.0
    ensures v - n as real == -0.5 ==> v > 0.0
  {
    if v >= 0.0 then (v + 0.5).Floor else -((-v + 0.5).Floor)
  }

  /** Rounding never reorders its arguments. */
  lemma LroundMonotone(a: real, b: real)
    requires a <= b
    ensures Lround(a) <= Lround(b)
  {
  }

  function ClampReal(v: real, low: real, high: real): (r: real)
    requires low <= high
    ensures low <= r <= high
    ensures low <= v <= high ==> r == v
  {
    if v < low then low else if v > high then high else v
  }

  function ClampInt(v: int, low: int, high: int): (r: int)
    requires low <= high
    ensures low <= r <= high
    ensures low <= v <= high ==> r == v
  {
    if v < low then low else if v > high then high else v
  }

  /** `scale_normalized_axis`: a value in [0, 1] mapped onto 0..maximum. */
  function ScaleNormalizedAxis(value: real, maximum: nat): (n: int)
    ensures 0 <= n <= maximum
  {
    var scaled := ClampReal(value, 0.0, 1.0) * maximum as real;
    assert 0.0 <= scaled <= maximum as real;
    Lround(scaled)
  }

  /** The unit of a 0..maximum scale nearest to a value in [0, 1], halves up; the nearer end outside. */
  predicate OnScale(n: int, value: real, maximum: int) {
    if value < 0.0 then n == 0
    else if value > 1.0 then n == maximum
    else -0.5 < n as real - value * maximum as real <= 0.5
  }

  lemma ScaledIsNearest(value: real, maximum: nat)
    ensures OnScale(ScaleNormalizedAxis(value, maximum), value, maximum)
  {
    var scaled := ClampReal(value, 0.0, 1.0) * maximum as real;
    if 0.0 <= value <= 1.0 {
      assert scaled == value * maximum as real;
      assert scaled >= 0.0;
    }
  }
}
