/** Fixed-width machine integers, as subset types of the unbounded `int`. */
module Uints {

  type uint8 = x: int | 0 <= x < 0x100
  type uint16 = x: int | 0 <= x < 0x1_0000
  type uint32 = x: int | 0 <= x < 0x1_0000_0000
  type uint64 = x: int | 0 <= x < 0x1_0000_0000_0000_0000
  type int8 = x: int | -0x80 <= x < 0x80

  function Min(a: nat, b: nat): (m: nat)
    ensures m <= a && m <= b && (m == a || m == b)
  {
    if a <= b then a else b
  }

  /** The two's-complement reinterpretation of a byte as a signed char (a C cast to int8_t). */
  function ToInt8(x: uint8): (r: int8)
    ensures r % 0x100 == x
    ensures x < 0x80 ==> r == x
    ensures x >= 0x80 ==> r < 0
  {
    if x < 0x80 then x else x - 0x100
  }
}
