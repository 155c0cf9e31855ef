/** A NOR flash chip: programming can only clear bits and wraps inside a page, erasing sets a whole
    sector to ones. */
module NorFlash {
  import opened Words

  const PAGE_SIZE := 256

  const SECTOR_SIZE := 4096

  /** The W25Q16: 512 sectors. */
  const CHIP_SIZE := 2097152

  const ERASED: byte := 0xFF

  function And(x: byte, y: byte): byte { x & y }

  lemma AndErased(x: byte)
    ensures And(ERASED, x) == x
  {}

  /** The cell the program counter moves to after a: the next one, within the same page. */
  function NextInPage(a: nat): (r: nat) {
    if a % PAGE_SIZE == PAGE_SIZE - 1 then a - (PAGE_SIZE - 1) else a + 1
  }

  /** The cells after one page-program command. */
  function Programmed(cells: seq<byte>, a: nat, data: seq<byte>): (r: seq<byte>)
    requires |cells| % PAGE_SIZE == 0 && a < |cells|
    ensures |r| == |cells|
    decreases data
  {
    if data == [] then cells
    else Programmed(cells[a := And(cells[a], data[0])], NextInPage(a), data[1..])
  }

  /** However long a command is, it reaches no cell outside its page. */
  lemma {:induction false} ProgrammedStaysInPage(cells: seq<byte>, a: nat, data: seq<byte>)
    requires |cells| % PAGE_SIZE == 0 && a < |cells|
    ensures forall i :: 0 <= i < |cells| && i / PAGE_SIZE != a / PAGE_SIZE ==> Programmed(cells, a, data)[i] == cells[i]
    decreases data
  {
    hide And;
    if data == [] {
    } else {
      SamePage(a, |cells|);
      ProgrammedStaysInPage(cells[a := And(cells[a], data[0])], NextInPage(a), data[1..]);
    }
  }

  lemma SamePage(a: nat, size: nat)
    requires size % PAGE_SIZE == 0 && a < size
    ensures NextInPage(a) < size && NextInPage(a) / PAGE_SIZE == a / PAGE_SIZE
    ensures NextInPage(a) % PAGE_SIZE == (a + 1) % PAGE_SIZE
  {}

  /** A command that stays inside its page ands its bytes into consecutive cells. */
  lemma {:induction false} ProgrammedInPage(cells: seq<byte>, a: nat, data: seq<byte>)
    requires |cells| % PAGE_SIZE == 0 && a < |cells|
    requires a % PAGE_SIZE + |data| <= PAGE_SIZE
    ensures a + |data| <= |cells|
    ensures forall i :: 0 <= i < |cells| ==>
      Programmed(cells, a, data)[i] == if a <= i < a + |data| then And(cells[i], data[i - a]) else cells[i]
    decreases data
  {
    hide And;
    if data == [] {
    } else if |data| == 1 {
      assert data[1..] == [];
    } else {
      ProgrammedInPage(cells[a := And(cells[a], data[0])], a + 1, data[1..]);
    }
  }

  /** The cells after the sector is erased. */
  function SectorErased(cells: seq<byte>, sector: nat): (r: seq<byte>)
    requires (sector + 1) * SECTOR_SIZE <= |cells|
    ensures |r| == |cells|
    ensures forall i :: 0 <= i < |cells| ==>
      r[i] == if sector * SECTOR_SIZE <= i < (sector + 1) * SECTOR_SIZE then ERASED else cells[i]
  {
    cells[..sector * SECTOR_SIZE] + seq(SECTOR_SIZE, _ => ERASED) + cells[(sector + 1) * SECTOR_SIZE..]
  }

  class Chip {
    var cells: seq<byte>
    /** How often each sector has been erased. */
    var wear: seq<nat>

    constructor (contents: seq<byte>)
      requires |contents| == CHIP_SIZE
      ensures cells == contents && wear == seq(CHIP_SIZE / SECTOR_SIZE, _ => 0)
    {
      cells := contents;
      wear := seq(CHIP_SIZE / SECTOR_SIZE, _ => 0);
    }

    predicate Sized()
      reads this
    {
      |cells| == CHIP_SIZE && |wear| == CHIP_SIZE / SECTOR_SIZE
    }

    function Read(a: nat, n: nat): (r: seq<byte>)
      requires a + n <= |cells|
      reads this
    {
      cells[a..a + n]
    }

    method WritePage(a: nat, data: seq<byte>)
      requires Sized() && a < |cells| && |data| <= PAGE_SIZE
      modifies this`cells
      ensures Sized() && cells == Programmed(old(cells), a, data)
    {
      var next := a;
      for i := 0 to |data|
        invariant Sized() && 0 <= next < |cells|
        invariant Programmed(cells, next, data[i..]) == Programmed(old(cells), a, data)
      {
        assert data[i..][1..] == data[i + 1..];
        cells := cells[next := And(cells[next], data[i])];
        next := NextInPage(next);
      }
    }

    method EraseSector(a: nat)
      requires Sized() && a < |cells|
      modifies this
      ensures Sized() && cells == SectorErased(old(cells), a / SECTOR_SIZE)
      ensures wear == old(wear)[a / SECTOR_SIZE := old(wear)[a / SECTOR_SIZE] + 1]
    {
      var sector := a / SECTOR_SIZE;
      cells := SectorErased(cells, sector);
      wear := wear[sector := wear[sector] + 1];
    }
  }
}
