/** The microcontroller's own flash: erased by rows of four pages, written through a page buffer. */
module FlashStorage {
  import opened Integers
  import opened Words
  import opened NorFlash

  const WORD := 4

  /** Memory cells, page size, and the buffer that word stores go to until it is written. */
  class Nvm {
    const pageSize: nat
    var cells: seq<byte>
    var buffer: seq<byte>
    /** The page that the last word store addressed. */
    var bufferedPage: nat

    constructor (pageSize: nat, contents: seq<byte>)
      requires 0 < pageSize && pageSize % WORD == 0
      ensures this.pageSize == pageSize && cells == contents && Ok()
    {
      this.pageSize := pageSize;
      cells, buffer, bufferedPage := contents, seq(pageSize, _ => ERASED), 0;
    }

    predicate Ok()
      reads this
    {
      0 < pageSize && pageSize % WORD == 0 && |buffer| == pageSize
    }

    method PageBufferClear()
      requires Ok()
      modifies this`buffer
      ensures Ok() && buffer == seq(pageSize, _ => ERASED)
    {
      buffer := seq(pageSize, _ => ERASED);
    }

    /** A store of a word to the address of a cell lands in the page buffer. */
    method StoreWord(page: nat, offset: nat, word: seq<byte>)
      requires Ok() && |word| == WORD && offset + WORD <= pageSize
      modifies this`buffer, this`bufferedPage
      ensures Ok() && bufferedPage == page
      ensures buffer == Patched(old(buffer), offset, word)
    {
      bufferedPage := page;
      buffer := Patched(buffer, offset, word);
    }

    /** The buffer is anded into the page it was stored for. */
    method WritePage()
      requires Ok() && PageOffset(bufferedPage, pageSize) + pageSize <= |cells|
      modifies this`cells
      ensures Ok()
      ensures cells == RangeAnded(old(cells), PageOffset(bufferedPage, pageSize), buffer)
    {
      hide PageOffset;
      cells := RangeAnded(cells, PageOffset(bufferedPage, pageSize), buffer);
    }

    /** Erases the row that starts at a. */
    method EraseRow(a: nat, ghost row: nat)
      requires Ok() && a == row * (4 * pageSize) && a + 4 * pageSize <= |cells|
      modifies this`cells
      ensures Ok() && cells == RangeErased(old(cells), a, a + 4 * pageSize)
    {
      cells := RangeErased(cells, a, a + 4 * pageSize);
    }
  }

  /** Where page j begins. */
  function PageOffset(j: nat, pageSize: nat): nat { j * pageSize }

  /** The buffer with a word stored at an offset. */
  function Patched(buffer: seq<byte>, offset: nat, word: seq<byte>): (r: seq<byte>)
    requires offset + |word| <= |buffer|
    ensures |r| == |buffer|
  {
    buffer[..offset] + word + buffer[offset + |word|..]
  }

  function RangeAnded(cells: seq<byte>, from: nat, buffer: seq<byte>): (r: seq<byte>)
    requires from + |buffer| <= |cells|
    ensures |r| == |cells|
    ensures forall i :: 0 <= i < |cells| ==>
      r[i] == if from <= i < from + |buffer| then And(cells[i], buffer[i - from]) else cells[i]
  {
    seq(|cells|, i requires 0 <= i < |cells| =>
      if from <= i < from + |buffer| then And(cells[i], buffer[i - from]) else cells[i])
  }

  function RangeErased(cells: seq<byte>, from: nat, to: nat): (r: seq<byte>)
    requires from <= to <= |cells|
    ensures |r| == |cells|
    ensures forall i :: 0 <= i < |cells| ==> r[i] == if from <= i < to then ERASED else cells[i]
  {
    cells[..from] + seq(to - from, _ => ERASED) + cells[to..]
  }

  /** The end of the last row that erasing a region of the given size reaches, row by row. */
  function RowsEnd(base: nat, size: nat, rowSize: nat): (r: nat)
    requires 0 < rowSize
    ensures base + size <= r && base + rowSize <= r
    decreases size
  {
    if size > rowSize then RowsEnd(base + rowSize, size - rowSize, rowSize) else base + rowSize
  }

  /** The rows that a value of the given size needs; even an empty one needs a row. */
  function Rows(size: nat, rowSize: nat): (n: nat)
    requires 0 < rowSize
  {
    if size == 0 then 1 else (size + rowSize - 1) / rowSize
  }

  /** Erasing row by row reaches exactly as far as whole rows are needed. */
  lemma {:induction false} RowsEndIs(base: nat, size: nat, rowSize: nat)
    requires 0 < rowSize
    ensures RowsEnd(base, size, rowSize) == base + rowSize * Rows(size, rowSize)
    decreases size
  {
    hide Rows;
    if size > rowSize {
      RowsEndIs(base + rowSize, size - rowSize, rowSize);
      OneRowMore(size, rowSize);
      Commutes(rowSize, Rows(size - rowSize, rowSize));
    } else {
      OneRow(size, rowSize);
    }
  }

  lemma OneRowMore(size: nat, rowSize: nat)
    requires 0 < rowSize < size
    ensures Rows(size, rowSize) == Rows(size - rowSize, rowSize) + 1
  {
    var n := (size - 1) / rowSize;
    QuotientBounds(size - 1, rowSize);
    Commutes(rowSize, n);
    Commutes(rowSize, n + 1);
    QuotientIs(size + rowSize - 1, rowSize, n + 1);
  }

  lemma OneRow(size: nat, rowSize: nat)
    requires size <= rowSize && 0 < rowSize
    ensures Rows(size, rowSize) == 1
  {
    if size > 0 {
      QuotientIs(size + rowSize - 1, rowSize, 1);
    }
  }

  /** As few rows as hold the value. */
  lemma RowsSuffice(size: nat, rowSize: nat)
    requires 0 < rowSize
    ensures var n := Rows(size, rowSize); 1 <= n && size <= rowSize * n && (1 < n ==> rowSize * (n - 1) < size)
  {
    if size > 0 {
      var n := Rows(size, rowSize);
      QuotientBounds(size + rowSize - 1, rowSize);
      Commutes(rowSize, n);
      if n == 0 {
        assert false;
      }
      Commutes(rowSize, n - 1);
    }
  }

  /** A page buffer with the n bytes of src from start on in front. */
  function Filled(src: seq<byte>, start: nat, n: nat, pageSize: nat): (r: seq<byte>)
    requires start + n <= |src| && n <= pageSize
    ensures |r| == pageSize
  {
    src[start..start + n] + seq(pageSize - n, _ => ERASED)
  }

  /** A region of the flash, starting with a row, that holds a value of a fixed size. */
  class FlashClass {
    const nvm: Nvm
    const firstRow: nat
    const size: nat

    constructor (nvm: Nvm, firstRow: nat, size: nat)
      ensures this.nvm == nvm && this.firstRow == firstRow && this.size == size
    {
      this.nvm, this.firstRow, this.size := nvm, firstRow, size;
    }

    function Base(): nat {
      firstRow * (4 * nvm.pageSize)
    }

    /** Where the rows of the region end: as many as the value needs, and at least one. */
    function End(): nat
      requires 0 < nvm.pageSize
    {
      Base() + 4 * nvm.pageSize * Rows(size, 4 * nvm.pageSize)
    }

    lemma EndIsRowsEnd()
      requires 0 < nvm.pageSize
      ensures End() == RowsEnd(Base(), size, 4 * nvm.pageSize)
    {
      hide RowsEnd, Rows;
      RowsEndIs(Base(), size, 4 * nvm.pageSize);
    }

    lemma ValueFits()
      requires 0 < nvm.pageSize
      ensures Base() + WORD * ((size + 3) / 4) <= End()
    {
      EndIsRowsEnd();
      ValueInRows(Base(), size, nvm.pageSize);
    }

    /** Page j of the value is page j from the first one of the region, and lies in its rows. */
    lemma PageFits(j: nat, start: nat)
      requires 0 < nvm.pageSize && start == PageOffset(j, nvm.pageSize) < WORD * ((size + 3) / 4)
      ensures Base() + start + nvm.pageSize <= End()
      ensures PageOffset(firstRow * 4 + j, nvm.pageSize) == Base() + start
    {
      EndIsRowsEnd();
      PageStart(firstRow, nvm.pageSize, j);
      hide RowsEnd, End;
      PageInRows(Base(), size, nvm.pageSize, j, start);
    }

    predicate Ok()
      reads nvm
    {
      nvm.Ok() && End() <= |nvm.cells|
    }

    /** Erases row by row; the last row is erased whole. */
    method Erase()
      requires Ok()
      modifies nvm`cells
      ensures Ok()
      ensures |nvm.cells| == |old(nvm.cells)|
      ensures forall c :: 0 <= c < |nvm.cells| ==>
        nvm.cells[c] == if Base() <= c < End() then ERASED else old(nvm.cells)[c]
    {
      EndIsRowsEnd();
      hide RangeErased, End;
      var rowSize := 4 * nvm.pageSize;
      var ptr: nat, left: nat := Base(), size;
      ghost var row, before := firstRow, nvm.cells;
      NothingErased(before, ptr);
      while left > rowSize
        invariant nvm.Ok() && |nvm.cells| == |before| && Base() <= ptr && ptr == row * rowSize
        invariant RowsEnd(ptr, left, rowSize) == RowsEnd(Base(), size, rowSize)
        invariant nvm.cells == RangeErased(before, Base(), ptr)
      {
        NextRow(row, rowSize);
        nvm.EraseRow(ptr, row);
        ErasedFurther(before, Base(), ptr, ptr + rowSize);
        ptr := ptr + rowSize;
        left := left - rowSize;
        row := row + 1;
      }
      nvm.EraseRow(ptr, row);
      ErasedFurther(before, Base(), ptr, ptr + rowSize);
      ErasedCells(before, Base(), End());
    }

    function Read(): (r: seq<byte>)
      requires Ok()
      reads nvm
    {
      nvm.cells[Base()..Base() + size]
    }

    /** Fills the page buffer from src until the page or the value is full. */
    method FillPage(src: seq<byte>, start: nat, page: nat, wordsLeft: nat) returns (taken: nat)
      requires nvm.Ok() && 0 < wordsLeft && start + WORD * wordsLeft <= |src|
      modifies nvm`buffer, nvm`bufferedPage
      ensures nvm.Ok() && 0 < taken <= wordsLeft && WORD * taken <= nvm.pageSize && nvm.bufferedPage == page
      ensures taken == wordsLeft || WORD * taken == nvm.pageSize
      ensures nvm.buffer == Filled(src, start, WORD * taken, nvm.pageSize)
    {
      FilledNone(src, start, nvm.pageSize);
      WholeWords(nvm.pageSize);
      hide Filled, Patched, WordsIn;
      nvm.PageBufferClear();
      taken := 0;
      var words := wordsLeft;
      while taken < WordsIn(nvm.pageSize) && words != 0
        invariant nvm.Ok() && taken + words == wordsLeft && WORD * taken <= nvm.pageSize
        invariant taken > 0 ==> nvm.bufferedPage == page
        invariant nvm.buffer == Filled(src, start, WORD * taken, nvm.pageSize)
      {
          var srcAddr := start + WORD * taken;
        BufferGrows(src, start, WORD * taken, nvm.pageSize);
        nvm.StoreWord(page, WORD * taken, src[srcAddr..srcAddr + WORD]);
        taken := taken + 1;
        words := words - 1;
      }
    }

    /** Fills and writes page j of the value. */
    method WriteOnePage(src: seq<byte>, start: nat, page: nat, wordsLeft: nat, ghost j: nat, ghost before: seq<byte>)
      returns (taken: nat)
      requires Ok() && 0 < wordsLeft && start + WORD * wordsLeft == WORD * ((size + 3) / 4) <= |src|
      requires |before| == |nvm.cells| && Base() + start <= |before|
      requires nvm.cells == RangeAnded(before, Base(), src[..start])
      requires start == PageOffset(j, nvm.pageSize) && page == firstRow * 4 + j
      modifies nvm
      ensures Ok() && |nvm.cells| == |old(nvm.cells)|
      ensures 0 < taken <= wordsLeft && (taken == wordsLeft || WORD * taken == nvm.pageSize)
      ensures Base() + start + WORD * taken <= |nvm.cells|
      ensures nvm.cells == RangeAnded(before, Base(), src[..start + WORD * taken])
    {
      PageFits(j, start);
      hide RangeAnded, RowsEnd, End, Base, PageOffset, Filled;
      taken := FillPage(src, start, page, wordsLeft);
      PageAnded(before, Base(), src, start, WORD * taken, nvm.pageSize);
      nvm.WritePage();
    }

    /** Stores the value word by word and page by page; up to three bytes after the value in the
        caller's memory are read along with its last word. Cells are anded with what is stored. */
    method Write(data: seq<byte>, beyond: seq<byte>)
      requires Ok() && |data| == size && |beyond| == WORD - 1
      modifies nvm
      ensures Ok() && Base() + WORD * ((size + 3) / 4) <= |nvm.cells| == |old(nvm.cells)|
      ensures nvm.cells == RangeAnded(old(nvm.cells), Base(), (data + beyond)[..WORD * ((size + 3) / 4)])
    {
      ValueFits();
      hide RangeAnded, RowsEnd, End, Base, PageOffset;
      var src, words, srcAddr, page := data + beyond, (size + 3) / 4, 0, firstRow * 4;
      ghost var before, j, all := nvm.cells, 0, WORD * words;
      NextPage(0, nvm.pageSize);
      NothingAnded(before, Base());
      assert src[..0] == [];
      while words != 0
        invariant nvm.Ok() && |nvm.cells| == |before| && 0 <= words && srcAddr + WORD * words == all
        invariant words != 0 ==> srcAddr == PageOffset(j, nvm.pageSize) && page == firstRow * 4 + j
        invariant nvm.cells == RangeAnded(before, Base(), src[..srcAddr])
      {
        var taken := WriteOnePage(src, srcAddr, page, words, j, before);
        srcAddr := srcAddr + WORD * taken;
        words := words - taken;
        NextPage(j, nvm.pageSize);
        j := j + 1;
        page := page + 1;
      }
    }

    /** Erases the region's rows and stores the value: it reads back as given, and nothing outside
        the rows changes. */
    method Store(data: seq<byte>, beyond: seq<byte>)
      requires Ok() && |data| == size && |beyond| == WORD - 1
      modifies nvm
      ensures Ok() && Read() == data && |nvm.cells| == |old(nvm.cells)|
      ensures forall c :: 0 <= c < |nvm.cells| && !(Base() <= c < End()) ==> nvm.cells[c] == old(nvm.cells)[c]
    {
      EndIsRowsEnd();
      hide RangeAnded, RangeErased, RowsEnd, End;
      ghost var src := (data + beyond)[..WORD * ((size + 3) / 4)];
      ValueInRows(Base(), size, nvm.pageSize);
      ErasedThenAnded(nvm.cells, Base(), End(), src);
      ghost var before := nvm.cells;
      Erase();
      AllErased(before, nvm.cells, Base(), End());
      Write(data, beyond);
      assert src[..size] == data;
    }
  }

  lemma ErasedCells(cells: seq<byte>, from: nat, to: nat)
    requires from <= to <= |cells|
    ensures forall c :: 0 <= c < |cells| ==>
      RangeErased(cells, from, to)[c] == if from <= c < to then ERASED else cells[c]
  {}

  lemma AllErased(cells: seq<byte>, cells': seq<byte>, from: nat, to: nat)
    requires from <= to <= |cells| == |cells'|
    requires forall c :: 0 <= c < |cells| ==> cells'[c] == if from <= c < to then ERASED else cells[c]
    ensures cells' == RangeErased(cells, from, to)
  {}

  /** Anding into erased cells stores. */
  lemma ErasedThenAnded(cells: seq<byte>, from: nat, to: nat, src: seq<byte>)
    requires from + |src| <= to <= |cells|
    ensures var r := RangeAnded(RangeErased(cells, from, to), from, src);
      && (forall n :: 0 <= n <= |src| ==> r[from..from + n] == src[..n])
      && (forall c :: 0 <= c < |cells| && !(from <= c < to) ==> r[c] == cells[c])
  {
    hide And;
    var r := RangeAnded(RangeErased(cells, from, to), from, src);
    forall i | 0 <= i < |src| ensures r[from + i] == src[i] {
      AndErased(src[i]);
    }
  }

  lemma RoundedUp(size: nat, pageSize: nat)
    ensures size <= 4 * pageSize ==> WORD * ((size + 3) / 4) <= 4 * pageSize
    ensures size > 4 * pageSize ==>
      WORD * ((size + 3) / 4) == 4 * pageSize + WORD * ((size - 4 * pageSize + 3) / 4)
  {}

  lemma {:induction false} ValueInRows(base: nat, size: nat, pageSize: nat)
    requires 0 < pageSize
    ensures base + WORD * ((size + 3) / 4) <= RowsEnd(base, size, 4 * pageSize)
    decreases size
  {
    RoundedUp(size, pageSize);
    if size > 4 * pageSize {
      ValueInRows(base + 4 * pageSize, size - 4 * pageSize, pageSize);
    }
  }

  lemma PageStart(firstRow: nat, pageSize: nat, j: nat)
    ensures (firstRow * 4 + j) * pageSize == firstRow * (4 * pageSize) + j * pageSize
    ensures (firstRow * 4 + j + 1) * pageSize == firstRow * (4 * pageSize) + j * pageSize + pageSize
  {}

  lemma FourPages(j: nat, pageSize: nat)
    ensures j >= 4 ==> (j - 4) * pageSize + 4 * pageSize == j * pageSize
    ensures j < 4 ==> j * pageSize + pageSize <= 4 * pageSize
  {
    if j == 0 {} else if j == 1 {} else if j == 2 {} else if j == 3 {} else {}
  }

  /** A page that the value reaches into lies in its rows. */
  lemma {:induction false} PageInRows(base: nat, size: nat, pageSize: nat, j: nat, at: nat)
    requires 0 < pageSize && at == j * pageSize && at < WORD * ((size + 3) / 4)
    ensures base + at + pageSize <= RowsEnd(base, size, 4 * pageSize)
    decreases size
  {
    FourPages(j, pageSize);
    if size > 4 * pageSize {
      if j < 4 {
        ValueInRows(base + 4 * pageSize, size - 4 * pageSize, pageSize);
      } else {
        PageInRows(base + 4 * pageSize, size - 4 * pageSize, pageSize, j - 4, at - 4 * pageSize);
      }
    } else {
      assert (size + 3) / 4 <= pageSize;
    }
  }

  function WordsIn(pageSize: nat): nat { pageSize / WORD }

  lemma WholeWords(pageSize: nat)
    requires pageSize % WORD == 0
    ensures WORD * WordsIn(pageSize) == pageSize
  {}

  /** One more word in the buffer. */
  lemma BufferGrows(src: seq<byte>, start: nat, n: nat, pageSize: nat)
    requires start + n + WORD <= |src| && n + WORD <= pageSize
    ensures Patched(Filled(src, start, n, pageSize), n, src[start + n..start + n + WORD])
         == Filled(src, start, n + WORD, pageSize)
  {
    var buffer, next := Filled(src, start, n, pageSize), Filled(src, start, n + WORD, pageSize);
    var patched := Patched(buffer, n, src[start + n..start + n + WORD]);
    forall i | 0 <= i < pageSize ensures patched[i] == next[i] {
      if i < n {
        assert buffer[i] == src[start + i];
      }
    }
  }

  lemma FilledNone(src: seq<byte>, start: nat, pageSize: nat)
    requires start <= |src|
    ensures Filled(src, start, 0, pageSize) == seq(pageSize, _ => ERASED)
  {}

  lemma NothingAnded(cells: seq<byte>, from: nat)
    requires from <= |cells|
    ensures RangeAnded(cells, from, []) == cells
  {}

  lemma AndedFurther(cells: seq<byte>, from: nat, a: seq<byte>, b: seq<byte>)
    requires from + |a| + |b| <= |cells|
    ensures RangeAnded(RangeAnded(cells, from, a), from + |a|, b) == RangeAnded(cells, from, a + b)
  {
    hide And;
  }

  lemma AndedNext(cells: seq<byte>, from: nat, src: seq<byte>, a: nat, b: nat)
    requires a <= b <= |src| && from + b <= |cells|
    ensures RangeAnded(RangeAnded(cells, from, src[..a]), from + a, src[a..b]) == RangeAnded(cells, from, src[..b])
  {
    hide RangeAnded;
    AndedFurther(cells, from, src[..a], src[a..b]);
    assert src[..a] + src[a..b] == src[..b];
  }

  lemma PageAnded(cells: seq<byte>, from: nat, src: seq<byte>, a: nat, n: nat, pageSize: nat)
    requires a + n <= |src| && n <= pageSize && from + a + pageSize <= |cells|
    ensures RangeAnded(RangeAnded(cells, from, src[..a]), from + a, Filled(src, a, n, pageSize))
         == RangeAnded(cells, from, src[..a + n])
  {
    hide RangeAnded;
    BlankTail(RangeAnded(cells, from, src[..a]), from + a, src[a..a + n], pageSize - n);
    AndedNext(cells, from, src, a, a + n);
  }

  /** Anding in erased bytes does nothing. */
  lemma BlankTail(cells: seq<byte>, from: nat, data: seq<byte>, n: nat)
    requires from + |data| + n <= |cells|
    ensures RangeAnded(cells, from, data + seq(n, _ => ERASED)) == RangeAnded(cells, from, data)
  {
    hide And;
    forall x: byte ensures And(x, ERASED) == x {
      AndErased(x);
      AndCommutes(x, ERASED);
    }
  }

  lemma AndCommutes(x: byte, y: byte)
    ensures And(x, y) == And(y, x)
  {}

  lemma NextPage(j: nat, pageSize: nat)
    ensures PageOffset(0, pageSize) == 0 && PageOffset(j + 1, pageSize) == PageOffset(j, pageSize) + pageSize
  {}

  lemma NextRow(row: nat, rowSize: nat)
    ensures row * rowSize + rowSize == (row + 1) * rowSize
  {}

  lemma NothingErased(cells: seq<byte>, from: nat)
    requires from <= |cells|
    ensures RangeErased(cells, from, from) == cells
  {}

  lemma ErasedFurther(cells: seq<byte>, from: nat, mid: nat, to: nat)
    requires from <= mid <= to <= |cells|
    ensures RangeErased(RangeErased(cells, from, mid), mid, to) == RangeErased(cells, from, to)
  {}
}
