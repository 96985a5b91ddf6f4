/**
 * High-resolution scrolling turned into wheel detents, with the part below one detent carried over.
 * Linux and Windows share this arithmetic; C++ division truncates toward zero.
 */
module Scroll {
  import opened Rounding

  const UNITS_PER_DETENT: int := 120

  function TruncatedQuotient(n: int, d: int): (q: int)
    requires d > 0
    ensures n == q * d + TruncatedRemainder(n, d)
  {
    if n >= 0 then n / d else -((-n) / d)
  }

  /** The remainder takes the dividend's sign. */
  function TruncatedRemainder(n: int, d: int): (r: int)
    requires d > 0
    ensures -d < r < d
    ensures n >= 0 ==> r >= 0
    ensures n <= 0 ==> r <= 0
  {
    if n >= 0 then n % d else -((-n) % d)
  }

  datatype Conversion = Conversion(detents: int, remainder: int)

  function Accumulate(remainder: int, distance: int): (c: Conversion)
    ensures -UNITS_PER_DETENT < c.remainder < UNITS_PER_DETENT
    ensures remainder + distance == 120 * c.detents + c.remainder
  {
    var total := remainder + distance;
    Conversion(TruncatedQuotient(total, UNITS_PER_DETENT), TruncatedRemainder(total, UNITS_PER_DETENT))
  }

  /** With a 32-bit distance the detents and the remainder fit the source's casts to `int32_t`. */
  lemma AccumulateFitsInt32(remainder: int, distance: int)
    requires -UNITS_PER_DETENT < remainder < UNITS_PER_DETENT
    requires -0x8000_0000 <= distance <= 0x7FFF_FFFF
    ensures -17895698 <= Accumulate(remainder, distance).detents <= 17895698
  {
  }

  /** The wheel turns as little as it can: every other number of detents in the band is farther. */
  lemma LeastTurn(remainder: int, distance: int, other: int)
    requires -UNITS_PER_DETENT < remainder + distance - UNITS_PER_DETENT * other < UNITS_PER_DETENT
    ensures var detents := Accumulate(remainder, distance).detents;
            other == detents || (if other < 0 then -other else other) > (if detents < 0 then -detents else detents)
  {
  }

  // ----- Histories ---------------------------------------------------------------------------

  function Sum(distances: seq<int>): int {
    if distances == [] then 0 else Sum(distances[..|distances| - 1]) + distances[|distances| - 1]
  }

  /** Total detents sent and the remainder kept after a history of scroll events. */
  function Carry(distances: seq<int>): Conversion {
    if distances == [] then Conversion(0, 0)
    else
      var before := Carry(distances[..|distances| - 1]);
      var step := Accumulate(before.remainder, distances[|distances| - 1]);
      Conversion(before.detents + step.detents, step.remainder)
  }

  /** Whatever the history, the detents sent are less than one detent away from the distance asked for. */
  lemma {:induction false} CarryIsExact(distances: seq<int>)
    ensures var c := Carry(distances);
            && UNITS_PER_DETENT * c.detents + c.remainder == Sum(distances)
            && -UNITS_PER_DETENT < UNITS_PER_DETENT * c.detents - Sum(distances) < UNITS_PER_DETENT
  {
    if distances != [] {
      CarryIsExact(distances[..|distances| - 1]);
    }
  }

  /** Scrolling in one direction only: the detents are the truncated quotient of the whole distance. */
  lemma {:induction false} OneDirection(distances: seq<int>)
    requires (forall i :: 0 <= i < |distances| ==> distances[i] >= 0)
          || (forall i :: 0 <= i < |distances| ==> distances[i] <= 0)
    ensures Carry(distances) == Conversion(TruncatedQuotient(Sum(distances), UNITS_PER_DETENT),
                                           TruncatedRemainder(Sum(distances), UNITS_PER_DETENT))
    ensures (forall i :: 0 <= i < |distances| ==> distances[i] >= 0) ==> Sum(distances) >= 0
    ensures (forall i :: 0 <= i < |distances| ==> distances[i] <= 0) ==> Sum(distances) <= 0
  {
    if distances != [] {
      OneDirection(distances[..|distances| - 1]);
      CarryIsExact(distances);
    }
  }
}
