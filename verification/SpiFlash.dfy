/** Writing a buffer of any length to a flash chip that programs one page per command. */
module SpiFlash {
  import opened Words
  import opened NorFlash

  /** cells with data stored from a on. */
  function Stored(cells: seq<byte>, a: nat, data: seq<byte>): (r: seq<byte>)
    requires a + |data| <= |cells|
    ensures |r| == |cells|
  {
    cells[..a] + data + cells[a + |data|..]
  }

  predicate AllErased(s: seq<byte>) {
    forall i :: 0 <= i < |s| ==> s[i] == ERASED
  }

  lemma ProgrammedIsStored(cells: seq<byte>, a: nat, data: seq<byte>)
    requires |cells| % PAGE_SIZE == 0 && a + |data| <= |cells| && a < |cells|
    requires a % PAGE_SIZE + |data| <= PAGE_SIZE && AllErased(cells[a..a + |data|])
    ensures Programmed(cells, a, data) == Stored(cells, a, data)
  {
    hide And;
    ProgrammedInPage(cells, a, data);
    forall i | a <= i < a + |data| ensures And(cells[i], data[i - a]) == data[i - a] {
      assert cells[i] == cells[a..a + |data|][i - a];
      AndErased(data[i - a]);
    }
  }

  /** Storing a piece next to what is stored already. */
  lemma StoredExtends(cells: seq<byte>, a: nat, done: seq<byte>, more: seq<byte>)
    requires a + |done| + |more| <= |cells|
    ensures Stored(Stored(cells, a, done), a + |done|, more) == Stored(cells, a, done + more)
    ensures Stored(cells, a, done)[a + |done|..] == cells[a + |done|..]
  {}

  class SpiFlash {
    var cells: seq<byte>
    var currentAddress: nat
    /** What the chip answers, question by question: powered up, known, idle, write-enabled. */
    const answers: nat -> bool
    /** How many questions it has been asked. */
    var asked: nat

    constructor (contents: seq<byte>, answers: nat -> bool)
      ensures cells == contents && this.answers == answers && asked == 0
    {
      cells, currentAddress, asked := contents, 0, 0;
      this.answers := answers;
    }

    /** Every answer from question from on has been yes. */
    ghost predicate Agreed(from: nat)
      reads this
    {
      forall i :: from <= i < asked ==> answers(i)
    }

    /** One selected PAGEPROG command: address, then the bytes. */
    method ProgramCommand(data: seq<byte>)
      requires |cells| % PAGE_SIZE == 0 && currentAddress < |cells|
      modifies this`cells
      ensures cells == Programmed(old(cells), currentAddress, data)
    {
      var next := currentAddress;
      for i := 0 to |data|
        invariant |cells| == |old(cells)| && 0 <= next < |cells|
        invariant Programmed(cells, next, data[i..]) == Programmed(old(cells), currentAddress, data)
      {
        assert data[i..][1..] == data[i + 1..];
        cells := cells[next := And(cells[next], data[i])];
        next := NextInPage(next);
      }
    }

    /** One question to the chip. */
    method Responds() returns (ok: bool)
      modifies this`asked
      ensures ok == answers(old(asked)) && asked == old(asked) + 1
    {
      ok := answers(asked);
      asked := asked + 1;
    }

    /** Idle, and then write-enabled. */
    method IdleAndEnabled() returns (ok: bool)
      modifies this`asked
      ensures ok <==> Agreed(old(asked))
      ensures old(asked) < asked <= old(asked) + 2 && (ok ==> asked == old(asked) + 2)
    {
      ok := Responds();
      if ok {
        ok := Responds();
      }
    }

    method NotPrevWritten(size: nat) returns (r: bool)
      requires currentAddress + size <= |cells|
      ensures r <==> AllErased(cells[currentAddress..currentAddress + size])
    {
      for i := 0 to size
        invariant AllErased(cells[currentAddress..currentAddress + i])
      {
        ghost var seen := cells[currentAddress..currentAddress + i];
        assert cells[currentAddress..currentAddress + i + 1] == seen + [cells[currentAddress + i]];
        if cells[currentAddress + i] != ERASED {
          assert cells[currentAddress..currentAddress + size][i] != ERASED;
          return false;
        }
      }
      return true;
    }

    /** The checks before a program command, each made only if those before it passed. Success, with the
        current address set, comes exactly on an erased region and a chip that said yes to all four questions. */
    method PrepProgram(addr: nat, size: nat) returns (r: bool)
      requires addr + size <= |cells|
      modifies this`currentAddress, this`asked
      ensures r <==> AllErased(cells[addr..addr + size]) && Agreed(old(asked))
      ensures r ==> currentAddress == addr && asked == old(asked) + 4
      ensures old(asked) <= asked <= old(asked) + 4
    {
      hide AllErased;
      var poweredUp := Responds();
      if !poweredUp {
        return false;
      }
      var known := Responds();
      if !known {
        return false;
      }
      currentAddress := addr;
      var erased := NotPrevWritten(size);
      if !erased {
        return false;
      }
      r := IdleAndEnabled();
    }

    /** One command and two questions per page; k tells how much of the buffer is stored. */
    method WritePages(addr: nat, data: seq<byte>, firstBytes: nat) returns (r: bool, ghost k: nat)
      requires |cells| % PAGE_SIZE == 0 && addr + |data| <= |cells| && currentAddress == addr
      requires firstBytes == PAGE_SIZE - addr % PAGE_SIZE && firstBytes < |data| < 0x1_0000
      requires AllErased(cells[addr..addr + |data|])
      modifies this
      ensures k <= |data| && cells == Stored(old(cells), addr, data[..k])
      ensures r ==> k == |data| && asked == old(asked) + 2 * Pages(addr, |data|)
      ensures old(asked) <= asked && (r <==> Agreed(old(asked)))
    {
      hide Programmed, AllErased, Stored, Pages;
      ghost var before := cells;
      var length, dataOffset, maxBytes := |data|, 0, firstBytes;
      StoredNothing(cells, addr, data);
      NoPages(addr);
      k := 0;
      while length > 0
        invariant 0 <= dataOffset && 0 <= length && dataOffset + length == |data| && k == dataOffset
        invariant currentAddress == addr + dataOffset
        invariant length > 0 ==> maxBytes == PAGE_SIZE - currentAddress % PAGE_SIZE
        invariant length > 0 ==> dataOffset == 0 || currentAddress % PAGE_SIZE == 0
        invariant |cells| == |before| && cells == Stored(before, addr, data[..dataOffset])
        invariant Agreed(old(asked)) && asked == old(asked) + 2 * Pages(addr, dataOffset)
      {
        var writeBufSz := if length <= maxBytes then length else maxBytes;
        var piece := data[dataOffset..dataOffset + writeBufSz];
        StoredExtends(before, addr, data[..dataOffset], piece);
        PieceJoins(data, dataOffset, writeBufSz);
        ErasedPart(before, cells, addr, |data|, dataOffset, writeBufSz);
        PageFilled(currentAddress);
        OnePageMore(addr, dataOffset, writeBufSz);
        ProgrammedIsStored(cells, currentAddress, piece);
        ProgramCommand(piece);
        currentAddress := currentAddress + writeBufSz;
        dataOffset := dataOffset + writeBufSz;
        length := length - writeBufSz;
        maxBytes := 256;
        k := dataOffset;
        var ok := IdleAndEnabled();
        if !ok {
          return false, k;
        }
      }
      r := true;
    }

    /** Compares what is in flash with the buffer. */
    method ReadBack(data: seq<byte>) returns (same: bool)
      requires currentAddress + |data| <= |cells|
      ensures same <==> cells[currentAddress..currentAddress + |data|] == data
    {
      for j := 0 to |data|
        invariant forall i :: 0 <= i < j ==> cells[currentAddress + i] == data[i]
      {
        if cells[currentAddress + j] != data[j] {
          assert cells[currentAddress..currentAddress + |data|][j] != data[j];
          return false;
        }
      }
      assert cells[currentAddress..currentAddress + |data|] == data;
      return true;
    }

    /** Stores the whole buffer and nothing else, and says so, exactly when the region is erased and the chip
        answers yes to everything it is asked. If it stops answering midway, a prefix of the buffer, possibly
        empty, is stored; a region that is not erased stays as it is. */
    method WriteByteArray(addr: nat, data: seq<byte>, errorCheck: bool) returns (r: bool)
      requires |cells| % PAGE_SIZE == 0 && addr < |cells| && addr + |data| <= |cells| && |data| < 0x1_0000
      modifies this
      ensures r <==> AllErased(old(cells)[addr..addr + |data|]) && Agreed(old(asked))
      ensures r ==> asked == old(asked) + 4 + (if |data| <= PAGE_SIZE - addr % PAGE_SIZE then 0
        else 2 * Pages(addr, |data|)) + if errorCheck then 1 else 0
      ensures r ==> cells == Stored(old(cells), addr, data)
      ensures !r ==> exists k :: 0 <= k <= |data| && cells == Stored(old(cells), addr, data[..k])
      ensures !AllErased(old(cells)[addr..addr + |data|]) ==> cells == old(cells)
    {
      hide Programmed, AllErased, Stored, Pages;
      StoredNothing(cells, addr, data);
      r := PrepProgram(addr, |data|);
      if !r {
        return;
      }
      StoredReadsBack(cells, addr, data);
      var maxBytes := PAGE_SIZE - addr % PAGE_SIZE;
      if |data| <= maxBytes {
        ProgrammedIsStored(cells, addr, data);
        ProgramCommand(data);
      } else {
        ghost var k;
        r, k := WritePages(addr, data, maxBytes);
        if !r {
          return;
        }
      }
      assert data[..|data|] == data;
      if !errorCheck {
        return true;
      }
      var ok := Responds();
      if !ok {
        return false;
      }
      currentAddress := addr;
      r := ReadBack(data);
    }
  }

  /** How many pages the n cells from a on touch. */
  function Pages(a: nat, n: nat): nat {
    if n == 0 then 0 else (a + n - 1) / PAGE_SIZE - a / PAGE_SIZE + 1
  }

  lemma NoPages(a: nat)
    ensures Pages(a, 0) == 0
  {}

  /** A piece that starts where the last page ended, or at the beginning, and ends in its page is one more. */
  lemma OnePageMore(a: nat, done: nat, size: nat)
    requires done == 0 || (a + done) % PAGE_SIZE == 0
    requires 0 < size <= PAGE_SIZE - (a + done) % PAGE_SIZE
    ensures Pages(a, done + size) == Pages(a, done) + 1
  {}

  lemma StoredReadsBack(cells: seq<byte>, a: nat, data: seq<byte>)
    requires a + |data| <= |cells|
    ensures Stored(cells, a, data)[a..a + |data|] == data
  {}

  lemma PieceJoins(data: seq<byte>, from: nat, size: nat)
    requires from + size <= |data|
    ensures data[..from] + data[from..from + size] == data[..from + size]
    ensures from + size == |data| ==> data[..from + size] == data
  {}

  /** A piece that fills its page leaves the address at the start of the next one. */
  lemma PageFilled(a: nat)
    ensures (a + (PAGE_SIZE - a % PAGE_SIZE)) % PAGE_SIZE == 0
  {}

  lemma ErasedPart(before: seq<byte>, cells: seq<byte>, a: nat, n: nat, from: nat, size: nat)
    requires |before| == |cells| && a + n <= |before| && from + size <= n && AllErased(before[a..a + n])
    requires cells[a + from..] == before[a + from..]
    ensures AllErased(cells[a + from..a + from + size])
  {
    assert cells[a + from..a + from + size] == cells[a + from..][..size];
    assert before[a + from..a + from + size] == before[a + from..][..size];
    var whole, part := before[a..a + n], before[a + from..a + from + size];
    forall i | 0 <= i < size ensures part[i] == ERASED {
      assert part[i] == before[a + from + i] == whole[from + i];
    }
  }

  lemma StoredNothing(cells: seq<byte>, a: nat, data: seq<byte>)
    requires a <= |cells|
    ensures Stored(cells, a, data[..0]) == cells
  {}
}
