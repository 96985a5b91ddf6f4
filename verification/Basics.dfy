// Small things several components share.
module Basics {
  datatype Option<T> = None | Some(value: T)

  function Min(a: int, b: int): int {
    if a < b then a else b
  }

  function Max(a: int, b: int): int {
    if a < b then b else a
  }

  /** Setting or clearing the bits of one mask, seen through another. */
  lemma MaskOps(mask: bv8, a: bv8, b: bv8)
    ensures a & b == 0 ==> (mask | a) & b == mask & b && (mask & !a) & b == mask & b
    ensures a != 0 ==> (mask | a) & a != 0
    ensures (mask & !a) & a == 0
  {
  }

  /** Setting or clearing one button's bit is seen at that bit, and at no disjoint one. */
  lemma MaskStep(mask: bv8, a: bv8, b: bv8, on: bool)
    requires a != 0 && (a == b || a & b == 0)
    ensures ((if on then mask | a else mask & !a) & b != 0) == if a == b then on else mask & b != 0
  {
    MaskOps(mask, a, b);
  }
}
