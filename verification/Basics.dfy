/** Types and small facts shared by the other modules. */
module Basics {

  datatype Option<+T> = None | Some(value: T)

  type byte = b: int | 0 <= b < 0x100
  type uint16 = w: int | 0 <= w < 0x1_0000
  type uint32 = w: int | 0 <= w < 0x1_0000_0000

  // ----- Integers of the source's `long` -----

  const LONG_MIN := -0x8000_0000
  const LONG_MAX := 0x7fff_ffff
  type long = v: int | LONG_MIN <= v <= LONG_MAX

  function Wrap(v: int): (w: long)
    ensures LONG_MIN <= v <= LONG_MAX ==> w == v
  {
    (v - LONG_MIN) % 0x1_0000_0000 + LONG_MIN
  }

  /** How often a number has to be incremented to reach another one, wrapping around. */
  function Distance(min: long, max: long): uint32 {
    (max - min) % 0x1_0000_0000
  }

  /** The conversion to a 16-bit number. */
  function Low16(v: int): uint16 {
    v % 0x1_0000
  }

  function Min(a: int, b: int): int {
    if a <= b then a else b
  }

  function Pow2(n: nat): (p: nat)
    ensures p > 0
  {
    if n == 0 then 1 else 2 * Pow2(n - 1)
  }
}
