/** The table-driven CRC classes: an alignment loop, a slice-by-4 loop over sixteen bytes and a tail
    loop, for any start address and length. */
module FastCrc {
  import opened Iteration
  import opened Words
  import opened BitwiseCrc
  import opened CrcAlgebra
  import opened CrcRefinement

  // ---- the 16-bit macros ----

  function Narrow(x: bv32): bv16 { (x & 0xffff) as bv16 }

  function DropByte16(x: bv16): bv16 { x >> 8 }

  function Byte0Of16(x: bv16): byte { (x & 0xff) as byte }

  function Byte1Of16(x: bv16): byte { ((x >> 8) & 0xff) as byte }

  function Byte2(x: bv32): byte { ((x >> 16) & 0xff) as byte }

  function Byte3(x: bv32): byte { ((x >> 24) & 0xff) as byte }

  /** An entry of a table of 16-bit words. */
  function Entry16(f: Family, k: nat, b: byte): bv16 {
    Narrow(Entry(f, k, b))
  }

  /** One byte through the first table block. */
  function TableStep16(f: Family, crc: bv16, b: byte): bv16 {
    Xor16(DropByte16(crc), Entry16(f, 0, Byte0Of16(crc) ^ b))
  }

  /** The crc_n4 macro: the register meets the low half of the word only. */
  function SliceStep16(f: Family, crc: bv16, data: bv32): bv16 {
    var c := Xor16(crc, Narrow(data));
    Xor16(Xor16(Xor16(Entry16(f, 3, Byte0Of16(c)), Entry16(f, 2, Byte1Of16(c))),
                Entry16(f, 1, Byte2(data))), Entry16(f, 0, Byte3(data)))
  }

  /** The polynomials whose register never leaves the low half of the word. */
  predicate Is16Bit(f: Family) {
    match f
    case LsbFirst(poly) => HighHalfClear(poly)
    case MsbFirst(poly) => LowHalfClear(poly)
  }

  lemma StepStaysNarrow(poly: bv32, x: bv32)
    ensures HighHalfClear(poly) && HighHalfClear(x) ==> HighHalfClear(LsbStep(poly, x))
    ensures LowHalfClear(poly) && LowHalfClear(x) ==> LowHalfClear(MsbStep(poly, x))
  {}

  lemma StepsStayNarrow(f: Family, n: nat, x: bv32)
    requires Is16Bit(f) && HighHalfClear(x)
    ensures HighHalfClear(Steps(f, n, x))
  {
    hide Rev32, LowHalfClear, HighHalfClear, LsbStep, MsbStep;
    forall y: bv32
      ensures HighHalfClear(f.poly) && HighHalfClear(y) ==> HighHalfClear(LsbStep(f.poly, y))
      ensures LowHalfClear(f.poly) && LowHalfClear(y) ==> LowHalfClear(MsbStep(f.poly, y))
    {
      StepStaysNarrow(f.poly, y);
    }
    match f
    case LsbFirst(poly) => IteratePreserves(LsbStepper(poly), HighHalfClear, n, x);
    case MsbFirst(poly) =>
      RevNarrow(x);
      IteratePreserves(MsbStepper(poly), LowHalfClear, n, Rev32(x));
      RevNarrow(Iterate(MsbStepper(poly), n, Rev32(x)));
  }

  lemma NarrowOfNarrow(x: bv32)
    requires HighHalfClear(x)
    ensures Wide(Narrow(x)) == x
  {}

  lemma WideParts(x: bv16)
    ensures Wide(DropByte16(x)) == DropByte(Wide(x))
    ensures Byte0Of16(x) == Byte0(Wide(x))
  {}

  lemma WidenIsNarrow(b: byte)
    ensures HighHalfClear(Widen(b))
  {}

  lemma Entry16IsEntry(f: Family, k: nat, b: byte)
    requires Is16Bit(f)
    ensures Wide(Entry16(f, k, b)) == Entry(f, k, b)
  {
    hide Wide, Narrow, HighHalfClear, Widen, Steps, Is16Bit;
    WidenIsNarrow(b);
    StepsStayNarrow(f, 8 * (k + 1), Widen(b));
    NarrowOfNarrow(Entry(f, k, b));
  }

  lemma TableStep16IsTableStep(f: Family, crc: bv16, b: byte)
    requires Is16Bit(f)
    ensures Wide(TableStep16(f, crc, b)) == TableStep(f, Wide(crc), b)
  {
    hide Wide, Xor, Xor16, DropByte, DropByte16, Byte0, Byte0Of16, Entry, Entry16, Is16Bit;
    WideParts(crc);
    var i := Byte0Of16(crc) ^ b;
    Entry16IsEntry(f, 0, i);
    WideAdditive(DropByte16(crc), Entry16(f, 0, i));
  }

  lemma MeetWord(crc: bv16, data: bv32)
    ensures BytesOf(Xor(Wide(crc), data))
         == [Byte0Of16(Xor16(crc, Narrow(data))), Byte1Of16(Xor16(crc, Narrow(data))), Byte2(data), Byte3(data)]
  {}

  lemma SliceStep16IsSliceStep(f: Family, crc: bv16, data: bv32)
    requires Is16Bit(f)
    ensures Wide(SliceStep16(f, crc, data)) == SliceStep(f, Wide(crc), data)
  {
    MeetWord(crc, data);
    hide Wide, Xor, Xor16, BytesOf, Byte0Of16, Byte1Of16, Byte2, Byte3, Narrow, Entry, Entry16, Is16Bit;
    var c := Xor16(crc, Narrow(data));
    var e3, e2 := Entry16(f, 3, Byte0Of16(c)), Entry16(f, 2, Byte1Of16(c));
    var e1, e0 := Entry16(f, 1, Byte2(data)), Entry16(f, 0, Byte3(data));
    Entry16IsEntry(f, 3, Byte0Of16(c));
    Entry16IsEntry(f, 2, Byte1Of16(c));
    Entry16IsEntry(f, 1, Byte2(data));
    Entry16IsEntry(f, 0, Byte3(data));
    WideAdditive(Xor16(Xor16(e3, e2), e1), e0);
    WideAdditive(Xor16(e3, e2), e1);
    WideAdditive(e3, e2);
  }

  // ---- the loops ----

  /** Word k of the sixteen bytes at pos, loaded as the processor does. */
  function WordAt(data: seq<byte>, pos: nat): bv32
    requires pos + 4 <= |data|
  {
    Load32(data[pos], data[pos + 1], data[pos + 2], data[pos + 3])
  }

  lemma FoldByte(f: Family, x: bv32, data: seq<byte>, pos: nat)
    requires pos < |data|
    ensures Fold(f, TableStep(f, x, data[pos]), data[pos + 1..]) == Fold(f, x, data[pos..])
  {
    hide TableStep, Steps, Xor, Widen;
    TableStepIsEightSteps(f, x, data[pos]);
    assert data[pos..][1..] == data[pos + 1..];
  }

  lemma FoldWord(f: Family, x: bv32, data: seq<byte>, pos: nat)
    requires pos + 4 <= |data|
    ensures Fold(f, SliceStep(f, x, WordAt(data, pos)), data[pos + 4..]) == Fold(f, x, data[pos..])
  {
    hide SliceStep, Load32, Fold;
    SliceStepIsFourBytes(f, x, data[pos], data[pos + 1], data[pos + 2], data[pos + 3]);
    var word := [data[pos], data[pos + 1], data[pos + 2], data[pos + 3]];
    assert data[pos..] == word + data[pos + 4..];
    FoldSplits(f, x, word, data[pos + 4..]);
  }

  lemma FoldByte16(f: Family, crc: bv16, data: seq<byte>, pos: nat)
    requires Is16Bit(f) && pos < |data|
    ensures Fold(f, Wide(TableStep16(f, crc, data[pos])), data[pos + 1..]) == Fold(f, Wide(crc), data[pos..])
  {
    hide Wide, TableStep16, TableStep, Is16Bit, Fold;
    FoldByte(f, Wide(crc), data, pos);
    TableStep16IsTableStep(f, crc, data[pos]);
  }

  lemma FoldWord16(f: Family, crc: bv16, data: seq<byte>, pos: nat)
    requires Is16Bit(f) && pos + 4 <= |data|
    ensures Fold(f, Wide(SliceStep16(f, crc, WordAt(data, pos))), data[pos + 4..]) == Fold(f, Wide(crc), data[pos..])
  {
    hide Wide, SliceStep16, SliceStep, Is16Bit, Fold, WordAt;
    FoldWord(f, Wide(crc), data, pos);
    SliceStep16IsSliceStep(f, crc, WordAt(data, pos));
  }

  /** The three loops shared by every 16-bit CRC of the class. */
  method Absorb16(f: Family, seed: bv16, data: seq<byte>, address: nat) returns (crc: bv16)
    requires Is16Bit(f) && |data| < 0x1_0000
    ensures Wide(crc) == Fold(f, Wide(seed), data)
  {
    hide Wide, TableStep16, SliceStep16, TableStep, SliceStep, Fold, Is16Bit, WordAt;
    ghost var goal := Fold(f, Wide(seed), data);
    crc := seed;
    var pos, len := 0, |data|;
    assert data[0..] == data;
    while (address + pos) % 4 != 0 && len != 0
      decreases len
      invariant 0 <= len && 0 <= pos && pos + len == |data|
      invariant Fold(f, Wide(crc), data[pos..]) == goal
    {
      FoldByte16(f, crc, data, pos);
      crc := TableStep16(f, crc, data[pos]);
      pos, len := pos + 1, len - 1;
    }
    while len >= 16
      invariant 0 <= len && 0 <= pos && pos + len == |data|
      invariant Fold(f, Wide(crc), data[pos..]) == goal
    {
      len := len - 16;
      FoldWord16(f, crc, data, pos);
      crc := SliceStep16(f, crc, WordAt(data, pos));
      FoldWord16(f, crc, data, pos + 4);
      crc := SliceStep16(f, crc, WordAt(data, pos + 4));
      FoldWord16(f, crc, data, pos + 8);
      crc := SliceStep16(f, crc, WordAt(data, pos + 8));
      FoldWord16(f, crc, data, pos + 12);
      crc := SliceStep16(f, crc, WordAt(data, pos + 12));
      pos := pos + 16;
    }
    while len != 0
      invariant 0 <= len && 0 <= pos && pos + len == |data|
      invariant Fold(f, Wide(crc), data[pos..]) == goal
    {
      FoldByte16(f, crc, data, pos);
      crc := TableStep16(f, crc, data[pos]);
      pos, len := pos + 1, len - 1;
    }
    assert data[pos..] == [];
    FoldNothing(f, Wide(crc));
  }

  lemma FoldNothing(f: Family, x: bv32)
    ensures Fold(f, x, []) == x
  {}

  /** The three loops shared by the 32-bit CRCs, with the big tables. */
  method Absorb32(f: Family, seed: bv32, data: seq<byte>, address: nat) returns (crc: bv32)
    requires |data| < 0x1_0000
    ensures crc == Fold(f, seed, data)
  {
    hide TableStep, SliceStep, Fold, WordAt;
    ghost var goal := Fold(f, seed, data);
    crc := seed;
    var pos, len := 0, |data|;
    assert data[0..] == data;
    while (address + pos) % 4 != 0 && len != 0
      decreases len
      invariant 0 <= len && 0 <= pos && pos + len == |data|
      invariant Fold(f, crc, data[pos..]) == goal
    {
      FoldByte(f, crc, data, pos);
      crc := TableStep(f, crc, data[pos]);
      pos, len := pos + 1, len - 1;
    }
    while len >= 16
      invariant 0 <= len && 0 <= pos && pos + len == |data|
      invariant Fold(f, crc, data[pos..]) == goal
    {
      len := len - 16;
      FoldWord(f, crc, data, pos);
      crc := SliceStep(f, crc, WordAt(data, pos));
      FoldWord(f, crc, data, pos + 4);
      crc := SliceStep(f, crc, WordAt(data, pos + 4));
      FoldWord(f, crc, data, pos + 8);
      crc := SliceStep(f, crc, WordAt(data, pos + 8));
      FoldWord(f, crc, data, pos + 12);
      crc := SliceStep(f, crc, WordAt(data, pos + 12));
      pos := pos + 16;
    }
    while len != 0
      invariant 0 <= len && 0 <= pos && pos + len == |data|
      invariant Fold(f, crc, data[pos..]) == goal
    {
      FoldByte(f, crc, data, pos);
      crc := TableStep(f, crc, data[pos]);
      pos, len := pos + 1, len - 1;
    }
    assert data[pos..] == [];
    FoldNothing(f, crc);
  }

  lemma PolynomialsFit(poly: bv16)
    ensures HighHalfClear(Wide(poly)) && LowHalfClear(Top(poly))
  {}

  // ---- the classes ----

  class FastCrc16 {
    var seed: bv16

    constructor () {
      seed := 0;
    }

    /** An MSB-first update: the seed is kept with its bytes swapped between calls. */
    method MsbUpdate(poly: bv16, data: seq<byte>, address: nat) returns (r: bv16)
      requires |data| < 0x1_0000
      modifies this
      ensures r == Msb16(poly, Rev16(old(seed)), data) && seed == Rev16(r)
    {
      hide Wide, Top, Rev16, Rev32, Fold, Msb16, LowHalfClear, HighHalfClear;
      PolynomialsFit(poly);
      var crc := Absorb16(MsbFirst(Top(poly)), seed, data, address);
      ghost var m := Msb16(poly, Rev16(seed), data);
      Msb16IsFold(poly, Rev16(seed), data);
      Rev32Top(Rev16(seed));
      Rev16Involution(seed);
      Rev32Top(m);
      WideInjective(crc, Rev16(m));
      Rev16Involution(m);
      seed := crc;
      r := Rev16(crc);
    }

    /** An LSB-first update: the result is the seed of the next call. */
    method LsbUpdate(poly: bv16, data: seq<byte>, address: nat) returns (r: bv16)
      requires |data| < 0x1_0000
      modifies this
      ensures r == Lsb16(poly, old(seed), data) && seed == r
    {
      hide Wide, Top, Rev16, Rev32, Fold, Lsb16, LowHalfClear, HighHalfClear;
      PolynomialsFit(poly);
      r := Absorb16(LsbFirst(Wide(poly)), seed, data, address);
      Lsb16IsFold(poly, seed, data);
      WideInjective(r, Lsb16(poly, seed, data));
      seed := r;
    }

    method CcittUpd(data: seq<byte>, address: nat) returns (r: bv16)
      requires |data| < 0x1_0000
      modifies this
      ensures r == Msb16(CCITT_POLY, Rev16(old(seed)), data) && seed == Rev16(r)
    {
      r := MsbUpdate(CCITT_POLY, data, address);
    }

    method Ccitt(data: seq<byte>, address: nat) returns (r: bv16)
      requires |data| < 0x1_0000
      modifies this
      ensures r == Msb16(CCITT_POLY, 0xFFFF, data) && seed == Rev16(r)
    {
      seed := 0xFFFF;
      assert Rev16(0xFFFF) == 0xFFFF;
      r := CcittUpd(data, address);
    }

    method XmodemUpd(data: seq<byte>, address: nat) returns (r: bv16)
      requires |data| < 0x1_0000
      modifies this
      ensures r == Msb16(CCITT_POLY, Rev16(old(seed)), data) && seed == Rev16(r)
    {
      r := MsbUpdate(CCITT_POLY, data, address);
    }

    method Xmodem(data: seq<byte>, address: nat) returns (r: bv16)
      requires |data| < 0x1_0000
      modifies this
      ensures r == Msb16(CCITT_POLY, 0, data) == BitwiseCrc.Xmodem(data) && seed == Rev16(r)
    {
      seed := 0;
      assert Rev16(0) == 0;
      r := XmodemUpd(data, address);
    }

    method Mcrf4xxUpd(data: seq<byte>, address: nat) returns (r: bv16)
      requires |data| < 0x1_0000
      modifies this
      ensures r == Lsb16(CCITT_POLY_REFLECTED, old(seed), data) && seed == r
    {
      r := LsbUpdate(CCITT_POLY_REFLECTED, data, address);
    }

    method Mcrf4xx(data: seq<byte>, address: nat) returns (r: bv16)
      requires |data| < 0x1_0000
      modifies this
      ensures r == Lsb16(CCITT_POLY_REFLECTED, 0xFFFF, data) && seed == r
    {
      seed := 0xFFFF;
      r := Mcrf4xxUpd(data, address);
    }

    method KermitUpd(data: seq<byte>, address: nat) returns (r: bv16)
      requires |data| < 0x1_0000
      modifies this
      ensures r == Lsb16(CCITT_POLY_REFLECTED, old(seed), data) && seed == r
    {
      r := LsbUpdate(CCITT_POLY_REFLECTED, data, address);
    }

    method Kermit(data: seq<byte>, address: nat) returns (r: bv16)
      requires |data| < 0x1_0000
      modifies this
      ensures r == Lsb16(CCITT_POLY_REFLECTED, 0, data) && seed == r
    {
      seed := 0;
      r := KermitUpd(data, address);
    }

    method ModbusUpd(data: seq<byte>, address: nat) returns (r: bv16)
      requires |data| < 0x1_0000
      modifies this
      ensures r == Lsb16(MODBUS_POLY_REFLECTED, old(seed), data) && seed == r
    {
      r := LsbUpdate(MODBUS_POLY_REFLECTED, data, address);
    }

    method Modbus(data: seq<byte>, address: nat) returns (r: bv16)
      requires |data| < 0x1_0000
      modifies this
      ensures r == Lsb16(MODBUS_POLY_REFLECTED, 0xFFFF, data) && seed == r
    {
      seed := 0xFFFF;
      r := ModbusUpd(data, address);
    }

    /** X25 saves the complemented register as its seed. */
    method X25Upd(data: seq<byte>, address: nat) returns (r: bv16)
      requires |data| < 0x1_0000
      modifies this
      ensures r == !Lsb16(CCITT_POLY_REFLECTED, old(seed), data) && seed == r
    {
      var crc := LsbUpdate(CCITT_POLY_REFLECTED, data, address);
      r := !crc;
      seed := r;
    }

    method X25(data: seq<byte>, address: nat) returns (r: bv16)
      requires |data| < 0x1_0000
      modifies this
      ensures r == !Lsb16(CCITT_POLY_REFLECTED, 0xFFFF, data) && seed == r
    {
      seed := 0xFFFF;
      r := X25Upd(data, address);
    }
  }

  class FastCrc32 {
    var seed: bv32

    constructor () {
      seed := 0;
    }

    /** With reflect set, the complemented register is both the result and the saved seed. */
    method Crc32Upd(data: seq<byte>, address: nat, reflect: bool) returns (r: bv32)
      requires |data| < 0x1_0000
      modifies this
      ensures seed == r
      ensures var c := Lsb32(CRC32_POLY, old(seed), data); r == if reflect then Complement(c) else c
    {
      hide Fold, Lsb32;
      var crc := Absorb32(LsbFirst(CRC32_POLY), seed, data, address);
      Lsb32IsFold(CRC32_POLY, seed, data);
      if reflect {
        crc := Complement(crc);
      }
      seed := crc;
      r := crc;
    }

    method Crc32(data: seq<byte>, address: nat, reflect: bool) returns (r: bv32)
      requires |data| < 0x1_0000
      modifies this
      ensures seed == r
      ensures reflect ==> r == BitwiseCrc.Crc32(data)
      ensures !reflect ==> r == Lsb32(CRC32_POLY, 0xFFFF_FFFF, data)
    {
      seed := 0xFFFF_FFFF;
      r := Crc32Upd(data, address, reflect);
    }

    method CksumUpd(data: seq<byte>, address: nat) returns (r: bv32)
      requires |data| < 0x1_0000
      modifies this
      ensures r == Complement(Msb32(POSIX_POLY, Rev32(old(seed)), data))
      ensures seed == Rev32(Msb32(POSIX_POLY, Rev32(old(seed)), data))
    {
      hide Fold, Msb32, Rev32;
      var crc := Absorb32(MsbFirst(POSIX_POLY), seed, data, address);
      Msb32IsFold(POSIX_POLY, seed, data);
      Rev32Involution(Msb32(POSIX_POLY, Rev32(seed), data));
      seed := crc;
      r := Complement(Rev32(crc));
    }

    method Cksum(data: seq<byte>, address: nat) returns (r: bv32)
      requires |data| < 0x1_0000
      modifies this
      ensures r == Complement(Msb32(POSIX_POLY, 0, data)) && seed == Rev32(Msb32(POSIX_POLY, 0, data))
    {
      seed := 0;
      assert Rev32(0) == 0;
      r := CksumUpd(data, address);
    }
  }
}
