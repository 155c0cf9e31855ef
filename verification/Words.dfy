/** Machine words as vectors over GF(2): exclusive or, shifts, byte lanes and byte reversal, with
    the laws the CRC proofs use. Each law is checked bit by bit here, once; later proofs hide the
    bit-level definitions and reason from the laws alone. */
module Words {

  type byte = bv8

  function Xor(x: bv32, y: bv32): bv32 { x ^ y }

  function Xor4(a: bv32, b: bv32, c: bv32, d: bv32): bv32 {
    Xor(Xor(Xor(a, b), c), d)
  }

  function Complement(x: bv32): bv32 { !x }

  function ShiftRight(x: bv32): bv32 { x >> 1 }

  function ShiftLeft(x: bv32): bv32 { x << 1 }

  predicate IsOdd(x: bv32) { x & 1 != 0 }

  predicate IsHigh(x: bv32) { x & 0x8000_0000 != 0 }

  /** The word without its low byte, the other bytes moved down. */
  function DropByte(x: bv32): bv32 { x >> 8 }

  /** The word moved up by one byte. */
  function Up(x: bv32): bv32 { x << 8 }

  function Widen(b: byte): bv32 { b as bv32 }

  function Widen16(b: byte): bv16 { b as bv16 }

  /** The byte as the topmost of a 32-bit word. */
  function AtTop(b: byte): bv32 { (b as bv32) << 24 }

  /** The byte as the topmost of a 16-bit word. */
  function AtTop16(b: byte): bv16 { (b as bv16) << 8 }

  function Byte0(x: bv32): byte { (x & 0xff) as byte }

  function HighBytes(x: bv32): bv32 { x & 0xffff_ff00 }

  function Shl16(r: bv16): bv16 { r << 1 }

  predicate IsHigh16(r: bv16) { r & 0x8000 != 0 }

  function Xor16(x: bv16, y: bv16): bv16 { x ^ y }

  /** Reversal of the four bytes of a word. */
  function Rev32(value: bv32): bv32 {
    var swapped := (value >> 16) | ((value & 0xffff) << 16);
    ((swapped >> 8) & 0x00ff_00ff) | ((swapped & 0x00ff_00ff) << 8)
  }

  predicate LowByteClear(x: bv32) { x & 0xff == 0 }

  predicate HighByteClear(x: bv32) { x & 0xff00_0000 == 0 }

  predicate LowHalfClear(x: bv32) { x & 0xffff == 0 }

  predicate HighHalfClear(x: bv32) { x & 0xffff_0000 == 0 }

  lemma XorAssociates(x: bv32, y: bv32, z: bv32)
    ensures Xor(Xor(x, y), z) == Xor(x, Xor(y, z))
  {}

  lemma XorCommutes(x: bv32, y: bv32)
    ensures Xor(x, y) == Xor(y, x)
  {}

  lemma XorZero(x: bv32)
    ensures Xor(x, 0) == x && Xor(0, x) == x
  {}

  lemma XorSelf(x: bv32)
    ensures Xor(x, x) == 0
  {}

  lemma XorIsZero(x: bv32, y: bv32)
    ensures Xor(x, y) == 0 <==> x == y
  {
    XorSelf(x);
    XorSelf(y);
    XorZero(x);
    XorZero(y);
    hide Xor;
    XorAssociates(x, y, y);
  }

  lemma XorShuffles(a: bv32, b: bv32, c: bv32, d: bv32)
    ensures Xor(Xor(a, b), Xor(c, d)) == Xor(Xor(a, c), Xor(b, d))
  {
    hide Xor;
    XorAssociates(a, b, Xor(c, d));
    XorAssociates(b, c, d);
    XorCommutes(b, c);
    XorAssociates(c, b, d);
    XorAssociates(a, c, Xor(b, d));
  }

  lemma Xor4Nests(a: bv32, b: bv32, c: bv32, d: bv32)
    ensures Xor4(a, b, c, d) == Xor(a, Xor(b, Xor(c, d)))
  {
    hide Xor;
    XorAssociates(Xor(a, b), c, d);
    XorAssociates(a, b, Xor(c, d));
  }

  lemma ShiftRightAdditive(x: bv32, y: bv32)
    ensures ShiftRight(Xor(x, y)) == Xor(ShiftRight(x), ShiftRight(y))
  {}

  lemma LowBitAdditive(x: bv32, y: bv32)
    ensures IsOdd(Xor(x, y)) == (IsOdd(x) != IsOdd(y))
  {}

  lemma ShiftLeftAdditive(x: bv32, y: bv32)
    ensures ShiftLeft(Xor(x, y)) == Xor(ShiftLeft(x), ShiftLeft(y))
  {}

  lemma HighBitAdditive(x: bv32, y: bv32)
    ensures IsHigh(Xor(x, y)) == (IsHigh(x) != IsHigh(y))
  {}

  lemma Rev32Additive(x: bv32, y: bv32)
    ensures Rev32(Xor(x, y)) == Xor(Rev32(x), Rev32(y))
  {}

  lemma Rev32Involution(x: bv32)
    ensures Rev32(Rev32(x)) == x
  {}

  lemma SplitLowByte(x: bv32)
    ensures x == Xor(HighBytes(x), Widen(Byte0(x)))
    ensures LowByteClear(HighBytes(x)) && DropByte(HighBytes(x)) == DropByte(x)
  {}

  lemma UpIsClear(x: bv32)
    ensures LowByteClear(Up(x))
    ensures HighByteClear(x) ==> DropByte(Up(x)) == x
  {}

  lemma DropEightBits(x: bv32)
    requires LowByteClear(x)
    ensures ShiftRight(ShiftRight(ShiftRight(ShiftRight(ShiftRight(ShiftRight(ShiftRight(ShiftRight(x))))))))
         == DropByte(x)
  {}

  lemma RaiseEightBits(x: bv32)
    ensures ShiftLeft(ShiftLeft(ShiftLeft(ShiftLeft(ShiftLeft(ShiftLeft(ShiftLeft(ShiftLeft(x))))))))
         == Up(x)
  {}

  lemma Rev32Up(x: bv32)
    requires LowByteClear(x)
    ensures Rev32(Up(Rev32(x))) == DropByte(x)
    ensures HighByteClear(Rev32(x))
  {}

  lemma EvenUnderClearByte(x: bv32)
    requires LowByteClear(x)
    ensures !IsOdd(x)
    ensures !IsOdd(ShiftRight(x))
    ensures !IsOdd(ShiftRight(ShiftRight(x)))
    ensures !IsOdd(ShiftRight(ShiftRight(ShiftRight(x))))
    ensures !IsOdd(ShiftRight(ShiftRight(ShiftRight(ShiftRight(x)))))
    ensures !IsOdd(ShiftRight(ShiftRight(ShiftRight(ShiftRight(ShiftRight(x))))))
    ensures !IsOdd(ShiftRight(ShiftRight(ShiftRight(ShiftRight(ShiftRight(ShiftRight(x)))))))
    ensures !IsOdd(ShiftRight(ShiftRight(ShiftRight(ShiftRight(ShiftRight(ShiftRight(ShiftRight(x))))))))
  {}

  lemma LowUnderClearByte(x: bv32)
    requires HighByteClear(x)
    ensures !IsHigh(x)
    ensures !IsHigh(ShiftLeft(x))
    ensures !IsHigh(ShiftLeft(ShiftLeft(x)))
    ensures !IsHigh(ShiftLeft(ShiftLeft(ShiftLeft(x))))
    ensures !IsHigh(ShiftLeft(ShiftLeft(ShiftLeft(ShiftLeft(x)))))
    ensures !IsHigh(ShiftLeft(ShiftLeft(ShiftLeft(ShiftLeft(ShiftLeft(x))))))
    ensures !IsHigh(ShiftLeft(ShiftLeft(ShiftLeft(ShiftLeft(ShiftLeft(ShiftLeft(x)))))))
    ensures !IsHigh(ShiftLeft(ShiftLeft(ShiftLeft(ShiftLeft(ShiftLeft(ShiftLeft(ShiftLeft(x))))))))
  {}

  lemma RevNarrow(x: bv32)
    ensures HighHalfClear(x) <==> LowHalfClear(Rev32(x))
    ensures LowHalfClear(x) <==> HighHalfClear(Rev32(x))
  {}

  lemma RevZero(x: bv32)
    ensures Rev32(x) == 0 <==> x == 0
  {}

  lemma ComplementInvolution(x: bv32)
    ensures Complement(Complement(x)) == x
  {}

  lemma ComplementDiffers(x: bv32)
    ensures Complement(x) != x
  {}
}
