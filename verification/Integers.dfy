/** The unsigned integers of the drivers, as subsets of int. */
module Integers {
  type uint8 = x: int | 0 <= x < 0x100

  type uint16 = x: int | 0 <= x < 0x1_0000

  function Min(a: nat, b: nat): nat {
    if a < b then a else b
  }
}
