/** The reference definitions: CRCs computed one bit at a time in registers of their own width. */
module BitwiseCrc {
  import opened Iteration
  import opened Words

  const CRC32_POLY: bv32 := 0xEDB8_8320

  const POSIX_POLY: bv32 := 0x04C1_1DB7

  const CCITT_POLY: bv16 := 0x1021

  const CCITT_POLY_REFLECTED: bv16 := 0x8408

  const MODBUS_POLY_REFLECTED: bv16 := 0xA001

  function Lsb32Step(poly: bv32, r: bv32): bv32 {
    if IsOdd(r) then Xor(ShiftRight(r), poly) else ShiftRight(r)
  }

  function Lsb32Stepper(poly: bv32): bv32 -> bv32 { r => Lsb32Step(poly, r) }

  function Msb32Step(poly: bv32, r: bv32): bv32 {
    if IsHigh(r) then Xor(ShiftLeft(r), poly) else ShiftLeft(r)
  }

  function Msb32Stepper(poly: bv32): bv32 -> bv32 { r => Msb32Step(poly, r) }

  function Lsb16Step(poly: bv16, r: bv16): bv16 {
    if r & 1 != 0 then (r >> 1) ^ poly else r >> 1
  }

  function Lsb16Stepper(poly: bv16): bv16 -> bv16 { r => Lsb16Step(poly, r) }

  function Msb16Step(poly: bv16, r: bv16): bv16 {
    if IsHigh16(r) then Xor16(Shl16(r), poly) else Shl16(r)
  }

  function Msb16Stepper(poly: bv16): bv16 -> bv16 { r => Msb16Step(poly, r) }

  /** 32-bit CRC, least significant bit first: each byte enters at the bottom of the register. */
  function Lsb32(poly: bv32, r: bv32, data: seq<byte>): bv32
    decreases data
  {
    if data == [] then r
    else Lsb32(poly, Iterate(Lsb32Stepper(poly), 8, Xor(r, Widen(data[0]))), data[1..])
  }

  /** 32-bit CRC, most significant bit first: each byte enters at the top of the register. */
  function Msb32(poly: bv32, r: bv32, data: seq<byte>): bv32
    decreases data
  {
    if data == [] then r
    else Msb32(poly, Iterate(Msb32Stepper(poly), 8, Xor(r, AtTop(data[0]))), data[1..])
  }

  /** 16-bit CRC, least significant bit first. */
  function Lsb16(poly: bv16, r: bv16, data: seq<byte>): bv16
    decreases data
  {
    if data == [] then r
    else Lsb16(poly, Iterate(Lsb16Stepper(poly), 8, Xor16(r, Widen16(data[0]))), data[1..])
  }

  /** 16-bit CRC, most significant bit first. */
  function Msb16(poly: bv16, r: bv16, data: seq<byte>): bv16
    decreases data
  {
    if data == [] then r
    else Msb16(poly, Iterate(Msb16Stepper(poly), 8, Xor16(r, AtTop16(data[0]))), data[1..])
  }

  /** The XMODEM checksum, as the packet codec uses it. */
  function Xmodem(data: seq<byte>): bv16 {
    Msb16(CCITT_POLY, 0, data)
  }

  /** CRC-32 of section 8 of RFC 1952: all ones at the start, complemented at the end. */
  function Crc32(data: seq<byte>): bv32 {
    Complement(Lsb32(CRC32_POLY, 0xFFFF_FFFF, data))
  }
}
