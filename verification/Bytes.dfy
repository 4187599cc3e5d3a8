/** Byte and word types shared by every module: C's `uint8_t` and `uint16_t`. */
module Bytes {

  type u8 = x: int | 0 <= x < 0x100
  type u16 = x: int | 0 <= x < 0x1_0000

  type bytes = seq<u8>
}
