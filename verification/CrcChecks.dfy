/** The documented check values: every checksum of the nine characters 123456789. */
module CrcChecks {
  import opened Iteration
  import opened Words
  import opened BitwiseCrc
  import opened CrcAlgebra

  /** The characters 123456789. */
  const DIGITS: seq<byte> := [0x31, 0x32, 0x33, 0x34, 0x35, 0x36, 0x37, 0x38, 0x39]

  function Digit(i: nat): byte
    requires i < 9
  {
    DIGITS[i]
  }

  // ---- one byte at a time ----

  /** The register after one byte. */
  function Msb16Byte(poly: bv16, r: bv16, b: byte): bv16 {
    Msb16Bits(poly, Xor16(r, AtTop16(b)))
  }

  function Msb16Bits(poly: bv16, r: bv16): bv16 {
    var r4 := Msb16Step(poly, Msb16Step(poly, Msb16Step(poly, Msb16Step(poly, r))));
    Msb16Step(poly, Msb16Step(poly, Msb16Step(poly, Msb16Step(poly, r4))))
  }

  lemma Msb16Next(poly: bv16, r: bv16, r': bv16, i: nat)
    requires i < 9 && Msb16Byte(poly, r, Digit(i)) == r'
    ensures Msb16(poly, r, DIGITS[i..]) == Msb16(poly, r', DIGITS[i + 1..])
  {
    hide Msb16Step, Xor16, AtTop16;
    var s := DIGITS[i..];
    assert s[0] == Digit(i) && s[1..] == DIGITS[i + 1..];
    IterateEight(Msb16Stepper(poly), Xor16(r, AtTop16(Digit(i))));
  }

  /** The register after one byte. */
  function Lsb16Byte(poly: bv16, r: bv16, b: byte): bv16 {
    Lsb16Bits(poly, Xor16(r, Widen16(b)))
  }

  function Lsb16Bits(poly: bv16, r: bv16): bv16 {
    var r4 := Lsb16Step(poly, Lsb16Step(poly, Lsb16Step(poly, Lsb16Step(poly, r))));
    Lsb16Step(poly, Lsb16Step(poly, Lsb16Step(poly, Lsb16Step(poly, r4))))
  }

  lemma Lsb16Next(poly: bv16, r: bv16, r': bv16, i: nat)
    requires i < 9 && Lsb16Byte(poly, r, Digit(i)) == r'
    ensures Lsb16(poly, r, DIGITS[i..]) == Lsb16(poly, r', DIGITS[i + 1..])
  {
    hide Lsb16Step, Xor16, Widen16;
    var s := DIGITS[i..];
    assert s[0] == Digit(i) && s[1..] == DIGITS[i + 1..];
    IterateEight(Lsb16Stepper(poly), Xor16(r, Widen16(Digit(i))));
  }

  /** The register after one byte. */
  function Lsb32Byte(poly: bv32, r: bv32, b: byte): bv32 {
    Lsb32Bits(poly, Xor(r, Widen(b)))
  }

  function Lsb32Bits(poly: bv32, r: bv32): bv32 {
    var r4 := Lsb32Step(poly, Lsb32Step(poly, Lsb32Step(poly, Lsb32Step(poly, r))));
    Lsb32Step(poly, Lsb32Step(poly, Lsb32Step(poly, Lsb32Step(poly, r4))))
  }

  lemma Lsb32Next(poly: bv32, r: bv32, r': bv32, i: nat)
    requires i < 9 && Lsb32Byte(poly, r, Digit(i)) == r'
    ensures Lsb32(poly, r, DIGITS[i..]) == Lsb32(poly, r', DIGITS[i + 1..])
  {
    hide Lsb32Step, Xor, Widen;
    var s := DIGITS[i..];
    assert s[0] == Digit(i) && s[1..] == DIGITS[i + 1..];
    IterateEight(Lsb32Stepper(poly), Xor(r, Widen(Digit(i))));
  }

  /** The register after one byte. */
  function Msb32Byte(poly: bv32, r: bv32, b: byte): bv32 {
    Msb32Bits(poly, Xor(r, AtTop(b)))
  }

  function Msb32Bits(poly: bv32, r: bv32): bv32 {
    var r4 := Msb32Step(poly, Msb32Step(poly, Msb32Step(poly, Msb32Step(poly, r))));
    Msb32Step(poly, Msb32Step(poly, Msb32Step(poly, Msb32Step(poly, r4))))
  }

  lemma Msb32Next(poly: bv32, r: bv32, r': bv32, i: nat)
    requires i < 9 && Msb32Byte(poly, r, Digit(i)) == r'
    ensures Msb32(poly, r, DIGITS[i..]) == Msb32(poly, r', DIGITS[i + 1..])
  {
    hide Msb32Step, Xor, AtTop;
    var s := DIGITS[i..];
    assert s[0] == Digit(i) && s[1..] == DIGITS[i + 1..];
    IterateEight(Msb32Stepper(poly), Xor(r, AtTop(Digit(i))));
  }

  lemma Msb16Ends(poly: bv16, r: bv16)
    ensures Msb16(poly, r, DIGITS[9..]) == r
  {}

  lemma Lsb16Ends(poly: bv16, r: bv16)
    ensures Lsb16(poly, r, DIGITS[9..]) == r
  {}

  lemma Lsb32Ends(poly: bv32, r: bv32)
    ensures Lsb32(poly, r, DIGITS[9..]) == r
  {}

  lemma Msb32Ends(poly: bv32, r: bv32)
    ensures Msb32(poly, r, DIGITS[9..]) == r
  {}

  // ---- the check values ----

  lemma XmodemFirst()
    ensures Msb16Byte(CCITT_POLY, 0x0000, Digit(0)) == 0x2672
    ensures Msb16Byte(CCITT_POLY, 0x2672, Digit(1)) == 0x20B5
    ensures Msb16Byte(CCITT_POLY, 0x20B5, Digit(2)) == 0x9752
  {}

  lemma XmodemMiddle()
    ensures Msb16Byte(CCITT_POLY, 0x9752, Digit(3)) == 0xD789
    ensures Msb16Byte(CCITT_POLY, 0xD789, Digit(4)) == 0x546C
    ensures Msb16Byte(CCITT_POLY, 0x546C, Digit(5)) == 0x20E4
  {}

  lemma XmodemLast()
    ensures Msb16Byte(CCITT_POLY, 0x20E4, Digit(6)) == 0x86D6
    ensures Msb16Byte(CCITT_POLY, 0x86D6, Digit(7)) == 0x9015
    ensures Msb16Byte(CCITT_POLY, 0x9015, Digit(8)) == 0x31C3
  {}

  /** XMODEM: 0x31C3. */
  lemma XmodemCheck()
    ensures Xmodem(DIGITS) == 0x31C3
  {
    XmodemFirst();
    XmodemMiddle();
    XmodemLast();
    hide Msb16Byte, Digit, Msb16;
    Msb16Next(CCITT_POLY, 0x0000, 0x2672, 0);
    Msb16Next(CCITT_POLY, 0x2672, 0x20B5, 1);
    Msb16Next(CCITT_POLY, 0x20B5, 0x9752, 2);
    Msb16Next(CCITT_POLY, 0x9752, 0xD789, 3);
    Msb16Next(CCITT_POLY, 0xD789, 0x546C, 4);
    Msb16Next(CCITT_POLY, 0x546C, 0x20E4, 5);
    Msb16Next(CCITT_POLY, 0x20E4, 0x86D6, 6);
    Msb16Next(CCITT_POLY, 0x86D6, 0x9015, 7);
    Msb16Next(CCITT_POLY, 0x9015, 0x31C3, 8);
    Msb16Ends(CCITT_POLY, 0x31C3);
    assert DIGITS[0..] == DIGITS;
  }

  lemma CcittFirst()
    ensures Msb16Byte(CCITT_POLY, 0xFFFF, Digit(0)) == 0xC782
    ensures Msb16Byte(CCITT_POLY, 0xC782, Digit(1)) == 0x3DBA
    ensures Msb16Byte(CCITT_POLY, 0x3DBA, Digit(2)) == 0x5BCE
  {}

  lemma CcittMiddle()
    ensures Msb16Byte(CCITT_POLY, 0x5BCE, Digit(3)) == 0x5349
    ensures Msb16Byte(CCITT_POLY, 0x5349, Digit(4)) == 0x4560
    ensures Msb16Byte(CCITT_POLY, 0x4560, Digit(5)) == 0x2EF4
  {}

  lemma CcittLast()
    ensures Msb16Byte(CCITT_POLY, 0x2EF4, Digit(6)) == 0x7718
    ensures Msb16Byte(CCITT_POLY, 0x7718, Digit(7)) == 0xA12B
    ensures Msb16Byte(CCITT_POLY, 0xA12B, Digit(8)) == 0x29B1
  {}

  /** CCITT: 0x29B1. */
  lemma CcittCheck()
    ensures Msb16(CCITT_POLY, 0xFFFF, DIGITS) == 0x29B1
  {
    CcittFirst();
    CcittMiddle();
    CcittLast();
    hide Msb16Byte, Digit, Msb16;
    Msb16Next(CCITT_POLY, 0xFFFF, 0xC782, 0);
    Msb16Next(CCITT_POLY, 0xC782, 0x3DBA, 1);
    Msb16Next(CCITT_POLY, 0x3DBA, 0x5BCE, 2);
    Msb16Next(CCITT_POLY, 0x5BCE, 0x5349, 3);
    Msb16Next(CCITT_POLY, 0x5349, 0x4560, 4);
    Msb16Next(CCITT_POLY, 0x4560, 0x2EF4, 5);
    Msb16Next(CCITT_POLY, 0x2EF4, 0x7718, 6);
    Msb16Next(CCITT_POLY, 0x7718, 0xA12B, 7);
    Msb16Next(CCITT_POLY, 0xA12B, 0x29B1, 8);
    Msb16Ends(CCITT_POLY, 0x29B1);
    assert DIGITS[0..] == DIGITS;
  }

  lemma Mcrf4xxFirst()
    ensures Lsb16Byte(CCITT_POLY_REFLECTED, 0xFFFF, Digit(0)) == 0x2F8D
    ensures Lsb16Byte(CCITT_POLY_REFLECTED, 0x2F8D, Digit(1)) == 0x4D53
    ensures Lsb16Byte(CCITT_POLY_REFLECTED, 0x4D53, Digit(2)) == 0x634B
  {}

  lemma Mcrf4xxMiddle()
    ensures Lsb16Byte(CCITT_POLY_REFLECTED, 0x634B, Digit(3)) == 0x8B13
    ensures Lsb16Byte(CCITT_POLY_REFLECTED, 0x8B13, Digit(4)) == 0x44BF
    ensures Lsb16Byte(CCITT_POLY_REFLECTED, 0x44BF, Digit(5)) == 0x198D
  {}

  lemma Mcrf4xxLast()
    ensures Lsb16Byte(CCITT_POLY_REFLECTED, 0x198D, Digit(6)) == 0x1AC8
    ensures Lsb16Byte(CCITT_POLY_REFLECTED, 0x1AC8, Digit(7)) == 0xF795
    ensures Lsb16Byte(CCITT_POLY_REFLECTED, 0xF795, Digit(8)) == 0x6F91
  {}

  /** MCRF4XX: 0x6F91; X25, its complement: 0x906E. */
  lemma Mcrf4xxCheck()
    ensures Lsb16(CCITT_POLY_REFLECTED, 0xFFFF, DIGITS) == 0x6F91 == !0x906E
  {
    Mcrf4xxFirst();
    Mcrf4xxMiddle();
    Mcrf4xxLast();
    hide Lsb16Byte, Digit, Lsb16;
    Lsb16Next(CCITT_POLY_REFLECTED, 0xFFFF, 0x2F8D, 0);
    Lsb16Next(CCITT_POLY_REFLECTED, 0x2F8D, 0x4D53, 1);
    Lsb16Next(CCITT_POLY_REFLECTED, 0x4D53, 0x634B, 2);
    Lsb16Next(CCITT_POLY_REFLECTED, 0x634B, 0x8B13, 3);
    Lsb16Next(CCITT_POLY_REFLECTED, 0x8B13, 0x44BF, 4);
    Lsb16Next(CCITT_POLY_REFLECTED, 0x44BF, 0x198D, 5);
    Lsb16Next(CCITT_POLY_REFLECTED, 0x198D, 0x1AC8, 6);
    Lsb16Next(CCITT_POLY_REFLECTED, 0x1AC8, 0xF795, 7);
    Lsb16Next(CCITT_POLY_REFLECTED, 0xF795, 0x6F91, 8);
    Lsb16Ends(CCITT_POLY_REFLECTED, 0x6F91);
    assert DIGITS[0..] == DIGITS;
  }

  lemma ModbusFirst()
    ensures Lsb16Byte(MODBUS_POLY_REFLECTED, 0xFFFF, Digit(0)) == 0x947E
    ensures Lsb16Byte(MODBUS_POLY_REFLECTED, 0x947E, Digit(1)) == 0xF595
    ensures Lsb16Byte(MODBUS_POLY_REFLECTED, 0xF595, Digit(2)) == 0x7A75
  {}

  lemma ModbusMiddle()
    ensures Lsb16Byte(MODBUS_POLY_REFLECTED, 0x7A75, Digit(3)) == 0x30BA
    ensures Lsb16Byte(MODBUS_POLY_REFLECTED, 0x30BA, Digit(4)) == 0xA471
    ensures Lsb16Byte(MODBUS_POLY_REFLECTED, 0xA471, Digit(5)) == 0x32E4
  {}

  lemma ModbusLast()
    ensures Lsb16Byte(MODBUS_POLY_REFLECTED, 0x32E4, Digit(6)) == 0x9D73
    ensures Lsb16Byte(MODBUS_POLY_REFLECTED, 0x9D73, Digit(7)) == 0x37DD
    ensures Lsb16Byte(MODBUS_POLY_REFLECTED, 0x37DD, Digit(8)) == 0x4B37
  {}

  /** MODBUS: 0x4B37. */
  lemma ModbusCheck()
    ensures Lsb16(MODBUS_POLY_REFLECTED, 0xFFFF, DIGITS) == 0x4B37
  {
    ModbusFirst();
    ModbusMiddle();
    ModbusLast();
    hide Lsb16Byte, Digit, Lsb16;
    Lsb16Next(MODBUS_POLY_REFLECTED, 0xFFFF, 0x947E, 0);
    Lsb16Next(MODBUS_POLY_REFLECTED, 0x947E, 0xF595, 1);
    Lsb16Next(MODBUS_POLY_REFLECTED, 0xF595, 0x7A75, 2);
    Lsb16Next(MODBUS_POLY_REFLECTED, 0x7A75, 0x30BA, 3);
    Lsb16Next(MODBUS_POLY_REFLECTED, 0x30BA, 0xA471, 4);
    Lsb16Next(MODBUS_POLY_REFLECTED, 0xA471, 0x32E4, 5);
    Lsb16Next(MODBUS_POLY_REFLECTED, 0x32E4, 0x9D73, 6);
    Lsb16Next(MODBUS_POLY_REFLECTED, 0x9D73, 0x37DD, 7);
    Lsb16Next(MODBUS_POLY_REFLECTED, 0x37DD, 0x4B37, 8);
    Lsb16Ends(MODBUS_POLY_REFLECTED, 0x4B37);
    assert DIGITS[0..] == DIGITS;
  }

  lemma KermitFirst()
    ensures Lsb16Byte(CCITT_POLY_REFLECTED, 0x0000, Digit(0)) == 0x200A
    ensures Lsb16Byte(CCITT_POLY_REFLECTED, 0x200A, Digit(1)) == 0xBDEB
    ensures Lsb16Byte(CCITT_POLY_REFLECTED, 0xBDEB, Digit(2)) == 0x5A78
  {}

  lemma KermitMiddle()
    ensures Lsb16Byte(CCITT_POLY_REFLECTED, 0x5A78, Digit(3)) == 0x8832
    ensures Lsb16Byte(CCITT_POLY_REFLECTED, 0x8832, Digit(4)) == 0x7437
    ensures Lsb16Byte(CCITT_POLY_REFLECTED, 0x7437, Digit(5)) == 0x11FD
  {}

  lemma KermitLast()
    ensures Lsb16Byte(CCITT_POLY_REFLECTED, 0x11FD, Digit(6)) == 0x6947
    ensures Lsb16Byte(CCITT_POLY_REFLECTED, 0x6947, Digit(7)) == 0x8B19
    ensures Lsb16Byte(CCITT_POLY_REFLECTED, 0x8B19, Digit(8)) == 0x2189
  {}

  /** KERMIT: 0x2189. */
  lemma KermitCheck()
    ensures Lsb16(CCITT_POLY_REFLECTED, 0, DIGITS) == 0x2189
  {
    KermitFirst();
    KermitMiddle();
    KermitLast();
    hide Lsb16Byte, Digit, Lsb16;
    Lsb16Next(CCITT_POLY_REFLECTED, 0x0000, 0x200A, 0);
    Lsb16Next(CCITT_POLY_REFLECTED, 0x200A, 0xBDEB, 1);
    Lsb16Next(CCITT_POLY_REFLECTED, 0xBDEB, 0x5A78, 2);
    Lsb16Next(CCITT_POLY_REFLECTED, 0x5A78, 0x8832, 3);
    Lsb16Next(CCITT_POLY_REFLECTED, 0x8832, 0x7437, 4);
    Lsb16Next(CCITT_POLY_REFLECTED, 0x7437, 0x11FD, 5);
    Lsb16Next(CCITT_POLY_REFLECTED, 0x11FD, 0x6947, 6);
    Lsb16Next(CCITT_POLY_REFLECTED, 0x6947, 0x8B19, 7);
    Lsb16Next(CCITT_POLY_REFLECTED, 0x8B19, 0x2189, 8);
    Lsb16Ends(CCITT_POLY_REFLECTED, 0x2189);
    assert DIGITS[0..] == DIGITS;
  }

  lemma Crc32First()
    ensures Lsb32Byte(CRC32_POLY, 0xFFFFFFFF, Digit(0)) == 0x7C231048
    ensures Lsb32Byte(CRC32_POLY, 0x7C231048, Digit(1)) == 0xB0ACBB32
    ensures Lsb32Byte(CRC32_POLY, 0xB0ACBB32, Digit(2)) == 0x77B79C2D
  {}

  lemma Crc32Middle()
    ensures Lsb32Byte(CRC32_POLY, 0x77B79C2D, Digit(3)) == 0x641C1F5C
    ensures Lsb32Byte(CRC32_POLY, 0x641C1F5C, Digit(4)) == 0x340AC5E3
    ensures Lsb32Byte(CRC32_POLY, 0x340AC5E3, Digit(5)) == 0xF68D2C9E
  {}

  lemma Crc32Last()
    ensures Lsb32Byte(CRC32_POLY, 0xF68D2C9E, Digit(6)) == 0xAFFC9660
    ensures Lsb32Byte(CRC32_POLY, 0xAFFC9660, Digit(7)) == 0x651F2550
    ensures Lsb32Byte(CRC32_POLY, 0x651F2550, Digit(8)) == 0x340BC6D9
  {}

  /** CRC-32: 0xCBF43926. */
  lemma Crc32Check()
    ensures Crc32(DIGITS) == 0xCBF4_3926
  {
    Crc32First();
    Crc32Middle();
    Crc32Last();
    hide Lsb32Byte, Digit, Lsb32;
    Lsb32Next(CRC32_POLY, 0xFFFFFFFF, 0x7C231048, 0);
    Lsb32Next(CRC32_POLY, 0x7C231048, 0xB0ACBB32, 1);
    Lsb32Next(CRC32_POLY, 0xB0ACBB32, 0x77B79C2D, 2);
    Lsb32Next(CRC32_POLY, 0x77B79C2D, 0x641C1F5C, 3);
    Lsb32Next(CRC32_POLY, 0x641C1F5C, 0x340AC5E3, 4);
    Lsb32Next(CRC32_POLY, 0x340AC5E3, 0xF68D2C9E, 5);
    Lsb32Next(CRC32_POLY, 0xF68D2C9E, 0xAFFC9660, 6);
    Lsb32Next(CRC32_POLY, 0xAFFC9660, 0x651F2550, 7);
    Lsb32Next(CRC32_POLY, 0x651F2550, 0x340BC6D9, 8);
    Lsb32Ends(CRC32_POLY, 0x340BC6D9);
    assert DIGITS[0..] == DIGITS;
  }

  lemma CksumFirst()
    ensures Msb32Byte(POSIX_POLY, 0x00000000, Digit(0)) == 0xD0F37027
    ensures Msb32Byte(POSIX_POLY, 0xD0F37027, Digit(1)) == 0x3F5B3A17
    ensures Msb32Byte(POSIX_POLY, 0x3F5B3A17, Digit(2)) == 0x6E368C64
  {}

  lemma CksumMiddle()
    ensures Msb32Byte(POSIX_POLY, 0x6E368C64, Digit(3)) == 0x619119D1
    ensures Msb32Byte(POSIX_POLY, 0x619119D1, Digit(4)) == 0xFA8A0CDB
    ensures Msb32Byte(POSIX_POLY, 0xFA8A0CDB, Digit(5)) == 0xE28AD0FD
  {}

  lemma CksumLast()
    ensures Msb32Byte(POSIX_POLY, 0xE28AD0FD, Digit(6)) == 0x8C8EDD82
    ensures Msb32Byte(POSIX_POLY, 0x8C8EDD82, Digit(7)) == 0x20E779A2
    ensures Msb32Byte(POSIX_POLY, 0x20E779A2, Digit(8)) == 0x89A1897F
  {}

  /** POSIX cksum without the length: 0x765E7680. */
  lemma CksumCheck()
    ensures Complement(Msb32(POSIX_POLY, 0, DIGITS)) == 0x765E_7680
  {
    CksumFirst();
    CksumMiddle();
    CksumLast();
    hide Msb32Byte, Digit, Msb32;
    Msb32Next(POSIX_POLY, 0x00000000, 0xD0F37027, 0);
    Msb32Next(POSIX_POLY, 0xD0F37027, 0x3F5B3A17, 1);
    Msb32Next(POSIX_POLY, 0x3F5B3A17, 0x6E368C64, 2);
    Msb32Next(POSIX_POLY, 0x6E368C64, 0x619119D1, 3);
    Msb32Next(POSIX_POLY, 0x619119D1, 0xFA8A0CDB, 4);
    Msb32Next(POSIX_POLY, 0xFA8A0CDB, 0xE28AD0FD, 5);
    Msb32Next(POSIX_POLY, 0xE28AD0FD, 0x8C8EDD82, 6);
    Msb32Next(POSIX_POLY, 0x8C8EDD82, 0x20E779A2, 7);
    Msb32Next(POSIX_POLY, 0x20E779A2, 0x89A1897F, 8);
    Msb32Ends(POSIX_POLY, 0x89A1897F);
    assert DIGITS[0..] == DIGITS;
  }

  // ---- what XMODEM starts from ----

  lemma XmodemOfNothing()
    ensures Xmodem([]) == 0
  {}

  lemma ZeroByteKeepsZero()
    ensures Msb16Byte(CCITT_POLY, 0, 0) == 0
  {}

  /** Leading zero bytes do not show. */
  lemma XmodemSkipsZeros(data: seq<byte>)
    ensures Xmodem([0] + data) == Xmodem(data)
  {
    ZeroByteKeepsZero();
    hide Msb16Step, Xor16, AtTop16;
    IterateEight(Msb16Stepper(CCITT_POLY), Xor16(0, AtTop16(0)));
    assert ([0] + data)[1..] == data;
  }
}
