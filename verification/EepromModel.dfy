/** The store that the flash implements: for every address its byte and how many slots it has left. */
module EepromModel {
  import opened Words
  import opened NorFlash
  import opened Thermometer
  import opened EepromLayout

  datatype Store = Store(val: seq<byte>, live: seq<nat>)

  predicate Shaped(st: Store) {
    |st.val| == |st.live| == CAPACITY && forall a :: 0 <= a < CAPACITY ==> st.live[a] <= 256
  }

  function SectorOf(a: nat): nat { a / BYTES_PER_SECTOR }

  function PageOf(a: nat): nat { a % BYTES_PER_SECTOR }

  /** The store a flash stands for. */
  function Abs(cells: seq<byte>): (st: Store)
    requires |cells| == CHIP_SIZE
    ensures Shaped(st)
    ensures forall a :: 0 <= a < CAPACITY ==>
      st.val[a] == Value(cells, SectorOf(a), PageOf(a)) && st.live[a] == Live(cells, SectorOf(a), PageOf(a))
  {
    Store(seq(CAPACITY, a requires 0 <= a < CAPACITY => Value(cells, SectorOf(a), PageOf(a))),
          seq(CAPACITY, a requires 0 <= a < CAPACITY => Live(cells, SectorOf(a), PageOf(a))))
  }

  /** The last slot of a page other than the first is slot 255 of the page before it, which that
      page reads as long as it has never been written. */
  predicate Overlaps(st: Store, a: nat)
    requires Shaped(st) && a < CAPACITY
  {
    PageOf(a) > 0 && st.live[a] == 1 && st.live[a - 1] == 256
  }

  /** A write that finds a slot left. */
  function SlotStep(st: Store, a: nat, v: byte): (st': Store)
    requires Shaped(st) && a < CAPACITY && 1 <= st.live[a]
    ensures Shaped(st')
  {
    Store((if Overlaps(st, a) then st.val[a - 1 := v] else st.val)[a := v], st.live[a := st.live[a] - 1])
  }

  lemma SlotStepAt(st: Store, a: nat, v: byte, b: nat)
    requires Shaped(st) && a < CAPACITY && 1 <= st.live[a] && b < CAPACITY
    ensures var st' := SlotStep(st, a, v);
      && st'.val[b] == (if b == a || (b + 1 == a && Overlaps(st, a)) then v else st.val[b])
      && st'.live[b] == st.live[b] - (if b == a then 1 else 0)
  {}

  /** The store while a sector is being rewritten after its erasure: the first i bytes are back. */
  function Rewritten(st: Store, s: nat, i: nat): (st': Store)
    requires Shaped(st) && s < SECTORS
    ensures Shaped(st')
  {
    Store(seq(CAPACITY, a requires 0 <= a < CAPACITY =>
            if SectorOf(a) == s && i <= PageOf(a) then ERASED else st.val[a]),
          seq(CAPACITY, a requires 0 <= a < CAPACITY =>
            if SectorOf(a) == s then (if PageOf(a) < i && st.val[a] != ERASED then 255 else 256) else st.live[a]))
  }

  /** One write: nothing if the value is there already, a slot if one is left, and otherwise the
      sector erased and written back first. */
  function WriteStep(st: Store, a: nat, v: byte): (st': Store)
    requires Shaped(st) && a < CAPACITY
    ensures Shaped(st')
  {
    if st.val[a] == v then st
    else if st.live[a] != 0 then SlotStep(st, a, v)
    else SlotStep(Rewritten(st, SectorOf(a), BYTES_PER_SECTOR), a, v)
  }

  predicate Erases(st: Store, a: nat, v: byte)
    requires Shaped(st) && a < CAPACITY
  {
    st.val[a] != v && st.live[a] == 0
  }

  lemma RewriteNext(st: Store, s: nat, i: nat)
    requires Shaped(st) && s < SECTORS && i < BYTES_PER_SECTOR
    ensures var a := s * BYTES_PER_SECTOR + i;
      && SectorOf(a) == s && PageOf(a) == i && a < CAPACITY
      && Rewritten(st, s, i).live[a] == 256
      && WriteStep(Rewritten(st, s, i), a, st.val[a]) == Rewritten(st, s, i + 1)
  {
    var a := s * BYTES_PER_SECTOR + i;
    var now, next := Rewritten(st, s, i), Rewritten(st, s, i + 1);
    forall b | 0 <= b < CAPACITY && b != a
      ensures now.val[b] == next.val[b] && now.live[b] == next.live[b]
    {
      AddressesApart(a, b);
    }
    var after := WriteStep(now, a, st.val[a]);
    assert after.val == next.val;
    assert after.live == next.live;
  }

  // ---- the flash does it ----

  lemma AddressesApart(a: nat, b: nat)
    ensures SectorOf(a) == SectorOf(b) && PageOf(a) == PageOf(b) ==> a == b
    ensures SectorOf(a) == SectorOf(b) && PageOf(b) + 1 == PageOf(a) <==> PageOf(a) > 0 && b + 1 == a
  {}

  /** The byte a page reads after a slot of page p of sector s was used. */
  function ValueAfter(cells: seq<byte>, s: nat, p: nat, v: byte, s': nat, p': nat): byte
    requires |cells| == CHIP_SIZE && OnChip(s, p) && OnChip(s', p')
  {
    if s' == s && p' == p then v
    else if s' == s && p' + 1 == p && Live(cells, s, p) == 1 && Live(cells, s', p') == 256 then v
    else Value(cells, s', p')
  }

  lemma SlotPage(cells: seq<byte>, s: nat, p: nat, v: byte, s': nat, p': nat)
    requires Formatted(cells) && InUse(s, p) && InUse(s', p') && 1 <= Live(cells, s, p)
    ensures var cells' := SlotWritten(cells, s, p, v);
      && PageOk(cells', s', p')
      && Live(cells', s', p') == Live(cells, s', p') - (if s' == s && p' == p then 1 else 0)
      && Value(cells', s', p') == ValueAfter(cells, s, p, v, s', p')
  {
    hide SlotWritten, CountOnes, Thermo, PageOk, Live, Value;
    assert SectorOk(cells, s) && SectorOk(cells, s');
    SlotWrittenHere(cells, s, p, v);
    if s' != s || p' != p {
      OtherPage(cells, SlotWritten(cells, s, p, v), s, p, Live(cells, s, p), s', p');
    }
  }

  lemma SlotMagic(cells: seq<byte>, s: nat, p: nat, v: byte, s': nat)
    requires Formatted(cells) && InUse(s, p) && s' < SECTORS && 1 <= Live(cells, s, p)
    ensures MagicOk(SlotWritten(cells, s, p, v), s')
  {
    hide SlotWritten, CountOnes, Thermo, PageOk, Live, Value;
    assert SectorOk(cells, s) && SectorOk(cells, s');
    SlotWrittenHere(cells, s, p, v);
    SectorsApart(s, s');
    SameBlock(cells, SlotWritten(cells, s, p, v), s' * SECTOR_SIZE, s' * SECTOR_SIZE + MAGIC_OFFSET);
  }

  lemma SlotFormatted(cells: seq<byte>, s: nat, p: nat, v: byte)
    requires Formatted(cells) && InUse(s, p) && 1 <= Live(cells, s, p)
    ensures Formatted(SlotWritten(cells, s, p, v))
  {
    hide SlotWritten, CountOnes, Thermo, PageOk, Live, Value, MagicOk;
    forall s' | 0 <= s' < SECTORS ensures SectorOk(SlotWritten(cells, s, p, v), s') {
      SlotMagic(cells, s, p, v, s');
      forall p' | 0 <= p' < BYTES_PER_SECTOR ensures PageOk(SlotWritten(cells, s, p, v), s', p') {
        SlotPage(cells, s, p, v, s', p');
      }
    }
  }

  lemma InUseAddress(a: nat)
    requires a < CAPACITY
    ensures InUse(SectorOf(a), PageOf(a))
  {}

  lemma AbsSlotAt(cells: seq<byte>, a: nat, v: byte, b: nat)
    requires Formatted(cells) && a < CAPACITY && b < CAPACITY && 1 <= Live(cells, SectorOf(a), PageOf(a))
    ensures var cells' := SlotWritten(cells, SectorOf(a), PageOf(a), v);
      && Abs(cells').val[b] == SlotStep(Abs(cells), a, v).val[b]
      && Abs(cells').live[b] == SlotStep(Abs(cells), a, v).live[b]
  {
    assert |cells| == CHIP_SIZE;
    InUseAddress(a);
    InUseAddress(b);
    AddressesApart(a, b);
    hide SlotWritten, Formatted, Live, Value, PageOk, SectorOf, PageOf, Abs, SlotStep;
    SlotPage(cells, SectorOf(a), PageOf(a), v, SectorOf(b), PageOf(b));
    SlotStepAt(Abs(cells), a, v, b);
  }

  /** On the flash, a write that finds a slot is exactly the step of the store. */
  lemma AbsSlotStep(cells: seq<byte>, a: nat, v: byte)
    requires Formatted(cells) && a < CAPACITY && 1 <= Live(cells, SectorOf(a), PageOf(a))
    ensures var cells' := SlotWritten(cells, SectorOf(a), PageOf(a), v);
      Formatted(cells') && Abs(cells') == SlotStep(Abs(cells), a, v)
  {
    assert |cells| == CHIP_SIZE;
    InUseAddress(a);
    hide SlotWritten, Formatted, Live, Value, PageOk, SectorOf, PageOf, Abs, SlotStep;
    SlotFormatted(cells, SectorOf(a), PageOf(a), v);
    var st, st' := Abs(SlotWritten(cells, SectorOf(a), PageOf(a), v)), SlotStep(Abs(cells), a, v);
    forall b | 0 <= b < CAPACITY
      ensures st.val[b] == st'.val[b] && st.live[b] == st'.live[b]
    {
      AbsSlotAt(cells, a, v, b);
    }
    assert st.val == st'.val && st.live == st'.live;
  }

  // ---- formatting a sector ----

  /** The cells after a sector is erased and its magic number written. */
  function SectorFormatted(cells: seq<byte>, s: nat): (r: seq<byte>)
    requires |cells| == CHIP_SIZE && s < SECTORS
    ensures |r| == CHIP_SIZE
  {
    Programmed(SectorErased(cells, s), s * SECTOR_SIZE, MAGIC)
  }

  lemma SectorFormattedCells(cells: seq<byte>, s: nat)
    requires |cells| == CHIP_SIZE && s < SECTORS
    ensures var r := SectorFormatted(cells, s); var from := s * SECTOR_SIZE;
      forall i :: 0 <= i < CHIP_SIZE ==>
        r[i] == if from <= i < from + MAGIC_OFFSET then MAGIC[i - from]
                else if from <= i < from + SECTOR_SIZE then ERASED else cells[i]
  {
    hide And;
    ProgrammedInPage(SectorErased(cells, s), s * SECTOR_SIZE, MAGIC);
    forall i | 0 <= i < MAGIC_OFFSET ensures And(ERASED, MAGIC[i]) == MAGIC[i] {
      AndErased(MAGIC[i]);
    }
  }

  lemma FreshPage(cells: seq<byte>, s: nat, p: nat)
    requires |cells| == CHIP_SIZE && InUse(s, p)
    requires forall i :: s * SECTOR_SIZE + MAGIC_OFFSET <= i < (s + 1) * SECTOR_SIZE ==> cells[i] == ERASED
    ensures PageOk(cells, s, p) && Live(cells, s, p) == 256 && Value(cells, s, p) == ERASED
  {
    assert cells[Info(s, p)..Info(s, p) + BLOCK] == Thermo(256);
    ThermoCounted(256);
  }

  /** After formatting sector s, its pages are fresh and the pages of other sectors are as before. */
  lemma FormattedPage(cells: seq<byte>, s: nat, s': nat, p': nat)
    requires |cells| == CHIP_SIZE && s < SECTORS && InUse(s', p')
    ensures var r := SectorFormatted(cells, s);
      if s' == s then PageOk(r, s', p') && Live(r, s', p') == 256 && Value(r, s', p') == ERASED
      else
        && (PageOk(r, s', p') <==> PageOk(cells, s', p'))
        && Live(r, s', p') == Live(cells, s', p')
        && Value(r, s', p') == Value(cells, s', p')
  {
    hide SectorFormatted, CountOnes, Thermo, PageOk, Live, Value;
    SectorFormattedCells(cells, s);
    var r := SectorFormatted(cells, s);
    if s' == s {
      FreshPage(r, s, p');
    } else {
      SectorsApart(s, s');
      assert Agree(cells, r, Info(s', p'), Info(s', p') + BLOCK);
      assert Agree(cells, r, Base(s', p') - 1, Base(s', p') + 255);
      PageUntouched(cells, r, s', p');
    }
  }

  lemma FormattedMagic(cells: seq<byte>, s: nat, s': nat)
    requires |cells| == CHIP_SIZE && s < SECTORS && s' < SECTORS
    ensures MagicOk(SectorFormatted(cells, s), s') <==> s' == s || MagicOk(cells, s')
  {
    hide SectorFormatted;
    SectorFormattedCells(cells, s);
    var r := SectorFormatted(cells, s);
    if s' == s {
      assert r[s * SECTOR_SIZE..s * SECTOR_SIZE + MAGIC_OFFSET] == MAGIC;
    } else {
      SectorsApart(s, s');
      SameBlock(cells, r, s' * SECTOR_SIZE, s' * SECTOR_SIZE + MAGIC_OFFSET);
    }
  }

  lemma FormattedSector(cells: seq<byte>, s: nat, s': nat)
    requires |cells| == CHIP_SIZE && s < SECTORS && s' < SECTORS
    ensures s' == s ==> SectorOk(SectorFormatted(cells, s), s')
    ensures SectorOk(cells, s') ==> SectorOk(SectorFormatted(cells, s), s')
  {
    hide SectorFormatted, PageOk, Live, Value, MagicOk;
    FormattedMagic(cells, s, s');
    forall p' | 0 <= p' < BYTES_PER_SECTOR
      ensures s' == s || PageOk(cells, s', p') ==> PageOk(SectorFormatted(cells, s), s', p')
    {
      FormattedPage(cells, s, s', p');
    }
  }

  /** Formatting a sector wipes its bytes in the store and keeps all others. */
  lemma AbsFormatted(cells: seq<byte>, s: nat)
    requires |cells| == CHIP_SIZE && s < SECTORS
    ensures Abs(SectorFormatted(cells, s)) == Rewritten(Abs(cells), s, 0)
  {
    hide SectorFormatted, PageOk, Live, Value, Abs, SectorOf, PageOf;
    var st, st' := Abs(SectorFormatted(cells, s)), Rewritten(Abs(cells), s, 0);
    forall a | 0 <= a < CAPACITY ensures st.val[a] == st'.val[a] && st.live[a] == st'.live[a] {
      InUseAddress(a);
      FormattedPage(cells, s, SectorOf(a), PageOf(a));
    }
    assert st.val == st'.val && st.live == st'.live;
  }
}
