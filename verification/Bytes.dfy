/** Fixed-width integers and their little-endian byte layout, as on the targets the source supports. */
module Bytes {
  type byte = x: int | 0 <= x < 0x100
  type uint16 = x: int | 0 <= x < 0x1_0000
  type uint32 = x: int | 0 <= x < 0x1_0000_0000

  function FromLe16(lo: byte, hi: byte): uint16 {
    lo + 0x100 * hi
  }

  function ToLe16(v: uint16): (s: seq<byte>)
    ensures |s| == 2 && FromLe16(s[0], s[1]) == v
  {
    [v % 0x100, v / 0x100]
  }

  function FromLe32(b0: byte, b1: byte, b2: byte, b3: byte): uint32 {
    FromLe16(b0, b1) + 0x1_0000 * FromLe16(b2, b3)
  }

  function ToLe32(v: uint32): (s: seq<byte>)
    ensures |s| == 4 && FromLe32(s[0], s[1], s[2], s[3]) == v
  {
    ToLe16(v % 0x1_0000) + ToLe16(v / 0x1_0000)
  }
}
