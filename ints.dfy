/** Fixed-width unsigned integer types of the C and C++ sources, as subsets of int. */
module Ints {
  type uint8 = x: int | 0 <= x < 0x100
  type uint32 = x: int | 0 <= x < 0x1_0000_0000
  type uint64 = x: int | 0 <= x < 0x1_0000_0000_0000_0000

  /** The byte '\n'. */
  const NEWLINE: uint8 := 10

  /** A remainder is no larger than the dividend, so `x % y` keeps the width of `x`. */
  lemma ModLe(x: nat, y: nat)
    requires y > 0
    ensures x % y <= x
  {
    if x >= y {
      assert x / y >= 1;
    }
  }
}
