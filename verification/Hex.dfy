/** Hexadecimal digits. */
module Hex {
  import opened Bytes

  predicate IsHex(c: byte) {
    0x30 <= c <= 0x39 || 0x61 <= c <= 0x66 || 0x41 <= c <= 0x46
  }

  function HexValue(c: byte): (v: nat)
    requires IsHex(c)
    ensures v < 16
  {
    if c <= 0x39 then c as int - 0x30
    else if c <= 0x46 then c as int - 0x41 + 10
    else c as int - 0x61 + 10
  }

  function LowerHex(v: nat): (c: byte)
    requires v < 16
    ensures IsHex(c) && HexValue(c) == v && c < 0x80
  {
    if v < 10 then (0x30 + v) as byte else (0x61 + v - 10) as byte
  }

  function UpperHex(v: nat): (c: byte)
    requires v < 16
    ensures IsHex(c) && HexValue(c) == v && 0x30 <= c <= 0x46
  {
    if v < 10 then (0x30 + v) as byte else (0x41 + v - 10) as byte
  }
}
