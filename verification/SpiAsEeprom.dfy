/** The EEPROM emulation: single bytes read from and written to a wear-levelled NOR flash. */
module SpiAsEeprom {
  import opened Integers
  import opened Words
  import opened NorFlash
  import opened Thermometer
  import opened EepromLayout
  import opened EepromModel
  import opened EepromRuns

  /** Addresses past the end are pulled back to the first one past it. */
  function Limited(address: nat): nat {
    if address >= CAPACITY then CAPACITY else address
  }

  lemma LimitedOnChip(address: nat)
    ensures OnChip(SectorOf(Limited(address)), PageOf(Limited(address)))
  {}

  class SpiAsEeprom {
    const chip: Chip
    var sectorNumber: uint16
    var pageNumber: uint16
    var nrOfOnes: uint16
    var dataFlashAddress: uint32
    var infoFlashAddress: uint32

    constructor (chip: Chip)
      ensures this.chip == chip
    {
      this.chip := chip;
      sectorNumber, pageNumber, nrOfOnes, dataFlashAddress, infoFlashAddress := 0, 0, 0, 0, 0;
    }

    /** The flash is formatted. */
    ghost predicate Ready()
      reads chip
    {
      chip.Sized() && Formatted(chip.cells)
    }

    /** The fields describe the given address. */
    ghost predicate Located(address: nat)
      requires chip.Sized() && OnChip(SectorOf(address), PageOf(address))
      reads this, chip
    {
      && sectorNumber == SectorOf(address) && pageNumber == PageOf(address)
      && nrOfOnes == Live(chip.cells, SectorOf(address), PageOf(address))
      && infoFlashAddress == Info(sectorNumber, pageNumber)
      && dataFlashAddress == Base(sectorNumber, pageNumber) + nrOfOnes - 1
    }

    method Read(addressEEPROM: uint16) returns (r: byte)
      requires chip.Sized()
      modifies this
      ensures var a := Limited(addressEEPROM);
        && OnChip(SectorOf(a), PageOf(a))
        && Located(a)
        && r == Value(chip.cells, SectorOf(a), PageOf(a))
    {
      hide CountOnes;
      var address := Limited(addressEEPROM);
      LimitedOnChip(addressEEPROM);
      sectorNumber := address / BYTES_PER_SECTOR;
      pageNumber := address - sectorNumber * BYTES_PER_SECTOR;
      infoFlashAddress := sectorNumber * SECTOR_SIZE + pageNumber * BLOCK + MAGIC_OFFSET;
      var block := chip.Read(infoFlashAddress, BLOCK);
      var buf := new byte[BLOCK](i requires 0 <= i < BLOCK => block[i]);
      assert buf[..] == block;
      nrOfOnes := Count(buf);
      dataFlashAddress := sectorNumber * SECTOR_SIZE + pageNumber * PAGE_SIZE + DATA_OFFSET + nrOfOnes - 1;
      var byteBuf := chip.Read(dataFlashAddress, 1);
      return byteBuf[0];
    }

    /** Erases a sector and marks it as formatted. */
    method WriteMagicNumber(sector: uint16)
      requires chip.Sized()
      modifies chip
      ensures chip.Sized()
      ensures var s := if sector >= SECTORS then SECTORS - 1 else sector;
        && chip.cells == SectorFormatted(old(chip.cells), s)
        && chip.wear == old(chip.wear)[s := old(chip.wear)[s] + 1]
    {
      hide Programmed, SectorErased;
      var sectorNumber := if sector >= SECTORS then SECTORS - 1 else sector;
      chip.EraseSector(sectorNumber * SECTOR_SIZE);
      chip.WritePage(sectorNumber * SECTOR_SIZE, MAGIC);
    }

    /** Formats the flash, whatever it held: every byte reads as erased with all its slots ahead. */
    method FormatFlashForUse()
      requires chip.Sized()
      modifies chip
      ensures Ready()
      ensures Abs(chip.cells) == Fresh()
      ensures forall s :: 0 <= s < SECTORS ==> chip.wear[s] == old(chip.wear)[s] + 1
    {
      hide SectorOk, SectorFormatted;
      for i := 0 to SECTORS
        invariant chip.Sized()
        invariant forall s :: 0 <= s < i ==> SectorOk(chip.cells, s)
        invariant forall s :: 0 <= s < SECTORS ==> chip.wear[s] == old(chip.wear)[s] + if s < i then 1 else 0
        invariant forall a :: 0 <= a < CAPACITY && SectorOf(a) < i ==>
          Abs(chip.cells).val[a] == ERASED && Abs(chip.cells).live[a] == 256
      {
        ghost var before := chip.cells;
        WriteMagicNumber(i);
        AbsFormatted(before, i);
        forall s | 0 <= s <= i ensures SectorOk(chip.cells, s) {
          FormattedSector(before, i, s);
        }
      }
      assert Abs(chip.cells).val == seq(CAPACITY, _ => ERASED);
      assert Abs(chip.cells).live == seq(CAPACITY, _ => 256);
    }

    /** The two page programs of a write: the value into the next slot down, then the info bit. */
    method UseSlot(address: uint16, writeValue: byte)
      requires chip.Sized() && address < CAPACITY && OnChip(SectorOf(address), PageOf(address))
      requires Located(address) && 1 <= nrOfOnes
      modifies chip`cells
      ensures chip.Sized()
      ensures chip.cells == SlotWritten(old(chip.cells), SectorOf(address), PageOf(address), writeValue)
    {
      hide Live, Programmed;
      var relativeAddress := (nrOfOnes - 1) / 8;
      var valueInInfoBlock := (((0xFF as bv16) << (8 - (nrOfOnes - 1 - relativeAddress * 8))) & 0xFF) as byte;
      assert valueInInfoBlock == InfoValue(nrOfOnes) && relativeAddress == InfoIndex(nrOfOnes);
      hide InfoValue, InfoIndex;
      chip.WritePage(dataFlashAddress - 1, [writeValue]);
      chip.WritePage(infoFlashAddress + relativeAddress, [valueInInfoBlock]);
    }

    /** Writes one byte: the store makes exactly one write step, and the sector is erased just when
        that step needs it. */
    method Write(addressEEPROM: uint16, writeValue: byte)
      requires Ready() && addressEEPROM < CAPACITY
      modifies this, chip
      ensures Ready()
      ensures Abs(chip.cells) == WriteStep(old(Abs(chip.cells)), addressEEPROM, writeValue)
      ensures chip.wear == if Erases(old(Abs(chip.cells)), addressEEPROM, writeValue)
                           then old(chip.wear)[SectorOf(addressEEPROM) := old(chip.wear)[SectorOf(addressEEPROM)] + 1]
                           else old(chip.wear)
      ensures sectorNumber == SectorOf(addressEEPROM)
      decreases if Abs(chip.cells).live[addressEEPROM] == 0 then 2 else 0
    {
      hide Formatted, Value, Live, PageOk, SectorFormatted, SlotWritten, Rewritten, SlotStep;
      ghost var st, s := Abs(chip.cells), SectorOf(addressEEPROM);
      var readValue := Read(addressEEPROM);
      if readValue != writeValue {
        if nrOfOnes < 1 {
          RewriteSector(addressEEPROM);
          RewrittenHere(st, addressEEPROM);
          Write(addressEEPROM, writeValue);
          return;
        }
        ghost var before := chip.cells;
        UseSlot(addressEEPROM, writeValue);
        AbsSlotStep(before, addressEEPROM, writeValue);
      }
    }

    /** Reads all the bytes of the sector of the given address. */
    method SaveSector(address: uint16) returns (tempBuf: array<byte>)
      requires chip.Sized() && address < CAPACITY && sectorNumber == SectorOf(address)
      modifies this
      ensures fresh(tempBuf) && sectorNumber == SectorOf(address)
      ensures tempBuf[..] == SectorBytes(Abs(chip.cells), SectorOf(address))
    {
      hide Value, Live;
      ghost var st, s := Abs(chip.cells), SectorOf(address);
      tempBuf := new byte[BYTES_PER_SECTOR](_ => 0);
      for i := 0 to BYTES_PER_SECTOR
        invariant sectorNumber == s
        invariant forall j :: 0 <= j < i ==> tempBuf[j] == st.val[s * BYTES_PER_SECTOR + j]
      {
        RewriteNext(st, s, i);
        tempBuf[i] := Read(sectorNumber * BYTES_PER_SECTOR + i);
      }
    }

    method RestoreByte(value: byte, ghost st: Store, ghost s: nat, i: nat)
      requires Shaped(st) && s < SECTORS && sectorNumber == s && i < BYTES_PER_SECTOR
      requires value == st.val[s * BYTES_PER_SECTOR + i]
      requires Ready() && Abs(chip.cells) == Rewritten(st, s, i)
      modifies this, chip
      ensures Ready() && sectorNumber == s
      ensures Abs(chip.cells) == Rewritten(st, s, i + 1)
      ensures chip.wear == old(chip.wear)
      decreases 1, 0
    {
      RewriteNext(st, s, i);
      hide Formatted, Abs, Rewritten, WriteStep, SlotStep;
      Write(sectorNumber * BYTES_PER_SECTOR + i, value);
    }

    /** Writes the saved bytes of a freshly formatted sector back, through Write itself, which now
        finds slots. */
    method RestoreSector(tempBuf: array<byte>, ghost saved: seq<byte>, ghost st: Store, ghost s: nat)
      requires Shaped(st) && s < SECTORS && sectorNumber == s && tempBuf[..] == saved == SectorBytes(st, s)
      requires Ready() && Abs(chip.cells) == Rewritten(st, s, 0)
      modifies this, chip
      ensures Ready() && Abs(chip.cells) == Rewritten(st, s, BYTES_PER_SECTOR)
      ensures chip.wear == old(chip.wear)
      decreases 1, 1
    {
      hide Formatted, Abs, Rewritten, WriteStep, SlotStep;
      for i := 0 to BYTES_PER_SECTOR
        invariant sectorNumber == s && Ready() && tempBuf[..] == saved
        invariant Abs(chip.cells) == Rewritten(st, s, i)
        invariant chip.wear == old(chip.wear)
      {
        RestoreByte(tempBuf[..][i], st, s, i);
      }
    }

    /** The full-page branch of a write: all fourteen bytes of the sector are saved, the sector is
        erased, and the bytes are written back. */
    method RewriteSector(address: uint16)
      requires Ready() && address < CAPACITY && sectorNumber == SectorOf(address)
      modifies this, chip
      ensures Ready()
      ensures Abs(chip.cells) == Rewritten(old(Abs(chip.cells)), SectorOf(address), BYTES_PER_SECTOR)
      ensures chip.wear == old(chip.wear)[SectorOf(address) := old(chip.wear)[SectorOf(address)] + 1]
      decreases 1, 2
    {
      hide Abs, SectorFormatted, Rewritten, SectorBytes;
      ghost var st, s, cells := Abs(chip.cells), SectorOf(address), chip.cells;
      var tempBuf := SaveSector(address);
      WriteMagicNumber(sectorNumber);
      AbsFormatted(cells, s);
      FormattedKept(cells, s);
      RestoreSector(tempBuf, tempBuf[..], st, s);
    }
  }

  /** Formatting and any run of writes, then a read: the value is the one the run left in the store,
      and if no write of the run disturbed a neighbour, the last one written to that address. Every sector
      has been erased once by formatting and then as often as the run needed. */
  method FormatWriteRead(eeprom: SpiAsEeprom, ops: seq<Op>, a: uint16) returns (r: byte)
    requires eeprom.chip.Sized() && InRange(ops) && a < CAPACITY
    modifies eeprom, eeprom.chip
    ensures r == Run(Fresh(), ops).val[a]
    ensures Undisturbed(Fresh(), ops) ==> r == Memory(Fresh().val, ops)[a]
    ensures eeprom.chip.Sized() && forall s :: 0 <= s < SECTORS ==>
      eeprom.chip.wear[s] == old(eeprom.chip.wear)[s] + 1 + Erasures(Fresh(), ops, s)
  {
    hide Formatted, WriteStep, Undisturbed, Memory, Erases, Live, Value, Unspoilt;
    eeprom.FormatFlashForUse();
    for i := 0 to |ops|
      invariant eeprom.Ready()
      invariant Run(Abs(eeprom.chip.cells), ops[i..]) == Run(Fresh(), ops)
      invariant forall s :: 0 <= s < SECTORS ==>
        eeprom.chip.wear[s] + Erasures(Abs(eeprom.chip.cells), ops[i..], s)
        == old(eeprom.chip.wear)[s] + 1 + Erasures(Fresh(), ops, s)
    {
      assert ops[i..][0] == ops[i] && ops[i..][1..] == ops[i + 1..];
      eeprom.Write(ops[i].a, ops[i].v);
    }
    FreshIsUnspoilt();
    RunIsPlain(Fresh(), ops);
    assert ops[..|ops|] == ops;
    assert Limited(a) == a;
    r := eeprom.Read(a);
  }

  function SectorBytes(st: Store, s: nat): (r: seq<byte>)
    requires Shaped(st) && s < SECTORS
    ensures |r| == BYTES_PER_SECTOR
  {
    st.val[s * BYTES_PER_SECTOR..(s + 1) * BYTES_PER_SECTOR]
  }

  lemma RewrittenHere(st: Store, a: nat)
    requires Shaped(st) && a < CAPACITY
    ensures var st' := Rewritten(st, SectorOf(a), BYTES_PER_SECTOR);
      st'.val[a] == st.val[a] && st'.live[a] >= 255
  {}

  lemma FormattedKept(cells: seq<byte>, s: nat)
    requires Formatted(cells) && s < SECTORS
    ensures Formatted(SectorFormatted(cells, s))
  {
    hide SectorFormatted, SectorOk;
    forall s' | 0 <= s' < SECTORS ensures SectorOk(SectorFormatted(cells, s), s') {
      FormattedSector(cells, s, s');
    }
  }
}
