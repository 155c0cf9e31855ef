/** Where the bytes of the emulated EEPROM live in the flash cells, and what a formatted flash looks like. */
module EepromLayout {
  import opened Words
  import opened NorFlash
  import opened Thermometer

  const SECTORS := 429

  const BYTES_PER_SECTOR := 14

  const CAPACITY := SECTORS * BYTES_PER_SECTOR

  const MAGIC: seq<byte> := [0xC0, 0xFF, 0xEE, 0x00]

  const MAGIC_OFFSET := 4

  const DATA_OFFSET := 512

  /** First cell of the info block of page p of sector s. */
  function Info(s: nat, p: nat): nat {
    s * SECTOR_SIZE + p * BLOCK + MAGIC_OFFSET
  }

  /** First cell of page p of the data pages of sector s. */
  function Base(s: nat, p: nat): nat {
    s * SECTOR_SIZE + p * PAGE_SIZE + DATA_OFFSET
  }

  predicate OnChip(s: nat, p: nat) { s < CHIP_SIZE / SECTOR_SIZE && p < BYTES_PER_SECTOR }

  predicate InUse(s: nat, p: nat) { s < SECTORS && p < BYTES_PER_SECTOR }

  /** How many slots of the page are still to be used. */
  function Live(cells: seq<byte>, s: nat, p: nat): (n: nat)
    requires |cells| == CHIP_SIZE && OnChip(s, p)
    ensures n <= 256
  {
    CountOnes(cells[Info(s, p)..Info(s, p) + BLOCK])
  }

  /** The byte that a page stands for. */
  function Value(cells: seq<byte>, s: nat, p: nat): byte
    requires |cells| == CHIP_SIZE && OnChip(s, p)
  {
    cells[Base(s, p) + Live(cells, s, p) - 1]
  }

  /** The info block is a thermometer code and every slot below the live one is still erased; slot -1,
      which the last write uses, is the cell before the page. */
  predicate PageOk(cells: seq<byte>, s: nat, p: nat)
    requires |cells| == CHIP_SIZE && OnChip(s, p)
  {
    var n := Live(cells, s, p);
    && cells[Info(s, p)..Info(s, p) + BLOCK] == Thermo(n)
    && forall c :: Base(s, p) - 1 <= c < Base(s, p) - 1 + n ==> cells[c] == ERASED
  }

  /** The magic number is in place, and the last cell of the sector, which no write programs, is erased. */
  predicate MagicOk(cells: seq<byte>, s: nat)
    requires |cells| == CHIP_SIZE && s < SECTORS
  {
    && cells[s * SECTOR_SIZE..s * SECTOR_SIZE + MAGIC_OFFSET] == MAGIC
    && cells[s * SECTOR_SIZE + SECTOR_SIZE - 1] == ERASED
  }

  predicate SectorOk(cells: seq<byte>, s: nat)
    requires |cells| == CHIP_SIZE && s < SECTORS
  {
    MagicOk(cells, s) && forall p :: 0 <= p < BYTES_PER_SECTOR ==> PageOk(cells, s, p)
  }

  predicate Formatted(cells: seq<byte>) {
    |cells| == CHIP_SIZE && forall s :: 0 <= s < SECTORS ==> SectorOk(cells, s)
  }

  // ---- what a change of cells leaves alone ----

  /** The two flashes agree on [from, to). */
  predicate Agree(cells: seq<byte>, cells': seq<byte>, from: nat, to: nat) {
    from <= to <= |cells| == |cells'| && forall i :: from <= i < to ==> cells[i] == cells'[i]
  }

  lemma SameBlock(cells: seq<byte>, cells': seq<byte>, from: nat, to: nat)
    requires Agree(cells, cells', from, to)
    ensures cells[from..to] == cells'[from..to]
  {}

  /** A page that sees no change in its info block and its slots -1 to 254 stays as it was. */
  lemma PageUntouched(cells: seq<byte>, cells': seq<byte>, s: nat, p: nat)
    requires |cells| == |cells'| == CHIP_SIZE && OnChip(s, p)
    requires Agree(cells, cells', Info(s, p), Info(s, p) + BLOCK)
    requires Agree(cells, cells', Base(s, p) - 1, Base(s, p) + 255)
    ensures Live(cells', s, p) == Live(cells, s, p)
    ensures PageOk(cells', s, p) <==> PageOk(cells, s, p)
    ensures Live(cells, s, p) < 256 || cells'[Base(s, p) + 255] == cells[Base(s, p) + 255]
        ==> Value(cells', s, p) == Value(cells, s, p)
  {
    SameBlock(cells, cells', Info(s, p), Info(s, p) + BLOCK);
    hide CountOnes, Thermo;
  }

  // ---- one slot is used up ----

  /** The cells after the data program of a write to a page with n slots left. */
  function DataProgrammed(cells: seq<byte>, s: nat, p: nat, v: byte): (r: seq<byte>)
    requires |cells| == CHIP_SIZE && OnChip(s, p) && 1 <= Live(cells, s, p)
    ensures |r| == CHIP_SIZE
  {
    Programmed(cells, Base(s, p) + Live(cells, s, p) - 1 - 1, [v])
  }

  /** The cells after the info program that follows. */
  function InfoProgrammed(cells: seq<byte>, s: nat, p: nat, n: nat): (r: seq<byte>)
    requires |cells| == CHIP_SIZE && OnChip(s, p) && 1 <= n <= 256
    ensures |r| == CHIP_SIZE
  {
    Programmed(cells, Info(s, p) + InfoIndex(n), [InfoValue(n)])
  }

  lemma ProgramOne(cells: seq<byte>, a: nat, v: byte)
    requires |cells| == CHIP_SIZE && a < |cells|
    ensures Programmed(cells, a, [v]) == cells[a := And(cells[a], v)]
  {
    assert [v][1..] == [];
  }

  lemma DataProgramEffect(cells: seq<byte>, s: nat, p: nat, v: byte)
    requires |cells| == CHIP_SIZE && OnChip(s, p) && PageOk(cells, s, p) && 1 <= Live(cells, s, p)
    ensures DataProgrammed(cells, s, p, v) == cells[Base(s, p) + Live(cells, s, p) - 2 := v]
  {
    hide CountOnes, Thermo, And;
    var a := Base(s, p) + Live(cells, s, p) - 2;
    ProgramOne(cells, a, v);
    AndErased(v);
  }

  lemma InfoProgramEffect(cells: seq<byte>, s: nat, p: nat, n: nat)
    requires |cells| == CHIP_SIZE && OnChip(s, p) && 1 <= n <= 256
    requires cells[Info(s, p)..Info(s, p) + BLOCK] == Thermo(n)
    ensures var cells' := InfoProgrammed(cells, s, p, n);
      && cells'[Info(s, p)..Info(s, p) + BLOCK] == Thermo(n - 1)
      && Live(cells', s, p) == n - 1
      && (forall c :: 0 <= c < CHIP_SIZE && !(Info(s, p) <= c < Info(s, p) + BLOCK) ==> cells'[c] == cells[c])
  {
    var from, q := Info(s, p), InfoIndex(n);
    ThermoSteps(n);
    ThermoCounted(n - 1);
    hide CountOnes, Thermo, InfoValue, And;
    ProgramOne(cells, from + q, InfoValue(n));
    hide Programmed;
    SetInBlock(cells, from, q, And(cells[from + q], InfoValue(n)));
  }

  lemma SetInBlock(cells: seq<byte>, from: nat, q: nat, x: byte)
    requires from + BLOCK <= |cells| && q < BLOCK
    ensures cells[from + q] == cells[from..from + BLOCK][q]
    ensures cells[from + q := x][from..from + BLOCK] == cells[from..from + BLOCK][q := x]
  {}

  /** Cells outside one data slot and one info block are as before. */
  predicate OnlySlot(cells: seq<byte>, cells': seq<byte>, s: nat, p: nat, slot: nat) {
    && |cells| == |cells'| == CHIP_SIZE
    && forall c :: 0 <= c < CHIP_SIZE && c != slot && !(Info(s, p) <= c < Info(s, p) + BLOCK) ==> cells'[c] == cells[c]
  }

  lemma OtherPage(cells: seq<byte>, cells': seq<byte>, s: nat, p: nat, n: nat, s': nat, p': nat)
    requires OnChip(s, p) && OnChip(s', p') && (s' != s || p' != p) && 1 <= n <= 256
    requires OnlySlot(cells, cells', s, p, Base(s, p) + n - 2)
    ensures Live(cells', s', p') == Live(cells, s', p')
    ensures PageOk(cells', s', p') <==> PageOk(cells, s', p')
    ensures !(s' == s && p' + 1 == p && n == 1 && Live(cells, s', p') == 256)
        ==> Value(cells', s', p') == Value(cells, s', p')
    ensures s' == s && p' + 1 == p && n == 1 && Live(cells, s', p') == 256
        ==> Value(cells', s', p') == cells'[Base(s, p) - 1]
  {
    hide CountOnes, Thermo;
    SectorsApart(s, s');
    assert Agree(cells, cells', Info(s', p'), Info(s', p') + BLOCK);
    assert Agree(cells, cells', Base(s', p') - 1, Base(s', p') + 255);
    PageUntouched(cells, cells', s', p');
  }

  lemma SectorsApart(s: nat, s': nat)
    ensures s < s' ==> (s + 1) * SECTOR_SIZE <= s' * SECTOR_SIZE
    ensures s' < s ==> (s' + 1) * SECTOR_SIZE <= s * SECTOR_SIZE
  {}

  /** The cells after both programs of one write. */
  function SlotWritten(cells: seq<byte>, s: nat, p: nat, v: byte): (r: seq<byte>)
    requires |cells| == CHIP_SIZE && OnChip(s, p) && 1 <= Live(cells, s, p)
    ensures |r| == CHIP_SIZE
  {
    InfoProgrammed(DataProgrammed(cells, s, p, v), s, p, Live(cells, s, p))
  }

  lemma SlotWrittenHere(cells: seq<byte>, s: nat, p: nat, v: byte)
    requires |cells| == CHIP_SIZE && OnChip(s, p) && PageOk(cells, s, p) && 1 <= Live(cells, s, p)
    ensures var cells' := SlotWritten(cells, s, p, v);
      && OnlySlot(cells, cells', s, p, Base(s, p) + Live(cells, s, p) - 2)
      && cells'[Base(s, p) + Live(cells, s, p) - 2] == v
      && Live(cells', s, p) == Live(cells, s, p) - 1
      && PageOk(cells', s, p)
      && Value(cells', s, p) == v
  {
    hide CountOnes, Thermo, Programmed;
    var n := Live(cells, s, p);
    DataProgramEffect(cells, s, p, v);
    var mid := DataProgrammed(cells, s, p, v);
    SameBlock(cells, mid, Info(s, p), Info(s, p) + BLOCK);
    InfoProgramEffect(mid, s, p, n);
  }
}
