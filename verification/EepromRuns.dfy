/** Whole runs of writes: when the emulation behaves like plain memory, how often it erases, and what
    an interrupted write leaves behind. */
module EepromRuns {
  import opened Words
  import opened NorFlash
  import opened Thermometer
  import opened EepromLayout
  import opened EepromModel

  datatype Op = Op(a: nat, v: byte)

  predicate InRange(ops: seq<Op>) {
    forall i :: 0 <= i < |ops| ==> ops[i].a < CAPACITY
  }

  /** A freshly formatted store. */
  function Fresh(): (st: Store)
    ensures Shaped(st)
  {
    Store(seq(CAPACITY, _ => ERASED), seq(CAPACITY, _ => 256))
  }

  function Run(st: Store, ops: seq<Op>): (st': Store)
    requires Shaped(st) && InRange(ops)
    ensures Shaped(st')
    decreases ops
  {
    if ops == [] then st else Run(WriteStep(st, ops[0].a, ops[0].v), ops[1..])
  }

  /** Plain memory: the last value written to each address. */
  function Memory(vals: seq<byte>, ops: seq<Op>): (r: seq<byte>)
    requires |vals| == CAPACITY && InRange(ops)
    ensures |r| == CAPACITY
    decreases ops
  {
    if ops == [] then vals else Memory(vals[ops[0].a := ops[0].v], ops[1..])
  }

  // ---- one write ----

  /** An unwritten byte reads as erased while the byte after it, if it is in the same sector, has a
      slot of its own left. */
  predicate UnspoiltAt(st: Store, a: nat)
    requires Shaped(st) && a < CAPACITY
  {
    (st.live[a] == 256 && (PageOf(a) == BYTES_PER_SECTOR - 1 || a + 1 == CAPACITY || st.live[a + 1] != 0))
    ==> st.val[a] == ERASED
  }

  predicate Unspoilt(st: Store)
    requires Shaped(st)
  {
    forall a :: 0 <= a < CAPACITY ==> UnspoiltAt(st, a)
  }

  /** The 256th change of a byte since its sector was erased, to a value with some bit clear, while
      the byte before it in the sector has not been written. */
  predicate Disturbs(st: Store, a: nat, v: byte)
    requires Shaped(st) && a < CAPACITY
  {
    st.val[a] != v && v != ERASED && Overlaps(st, a)
  }

  lemma RewrittenWhole(st: Store, a: nat)
    requires Shaped(st) && a < CAPACITY
    ensures var r := Rewritten(st, SectorOf(a), BYTES_PER_SECTOR);
      r.val == st.val && r.live[a] >= 255 && !Overlaps(r, a)
  {}

  lemma WriteStepValues(st: Store, a: nat, v: byte)
    requires Shaped(st) && a < CAPACITY
    ensures WriteStep(st, a, v).val
         == if st.val[a] != v && Overlaps(st, a) then st.val[a - 1 := v][a := v] else st.val[a := v]
  {
    hide Rewritten;
    RewrittenWhole(st, a);
  }

  /** A write changes its own byte and nothing else exactly when it does not disturb its neighbour. */
  lemma WriteIsPlain(st: Store, a: nat, v: byte)
    requires Shaped(st) && Unspoilt(st) && a < CAPACITY
    ensures WriteStep(st, a, v).val == st.val[a := v] <==> !Disturbs(st, a, v)
    ensures Disturbs(st, a, v) ==> WriteStep(st, a, v).val == st.val[a - 1 := v][a := v] && st.val[a - 1] == ERASED
  {
    hide WriteStep;
    WriteStepValues(st, a, v);
    if Overlaps(st, a) {
      SamePageBefore(a);
      assert UnspoiltAt(st, a - 1);
      assert st.val[a - 1 := v][a := v][a - 1] == v;
      assert st.val[a := v][a - 1] == ERASED;
      if v == ERASED {
        assert st.val[a - 1 := v] == st.val;
      }
    }
  }

  lemma SamePageBefore(a: nat)
    requires PageOf(a) > 0
    ensures a > 0 && PageOf(a - 1) == PageOf(a) - 1 && SectorOf(a - 1) == SectorOf(a)
  {}

  lemma SlotKeepsUnspoilt(st: Store, a: nat, v: byte)
    requires Shaped(st) && Unspoilt(st) && a < CAPACITY && 1 <= st.live[a]
    ensures Unspoilt(SlotStep(st, a, v))
  {
    hide SlotStep, PageOf;
    var st' := SlotStep(st, a, v);
    forall b | 0 <= b < CAPACITY ensures UnspoiltAt(st', b) {
      assert UnspoiltAt(st, b);
      LastPage(b);
      SlotStepAt(st, a, v, b);
      if b + 1 < CAPACITY {
        SlotStepAt(st, a, v, b + 1);
      }
    }
  }

  lemma LastPage(b: nat)
    requires b < CAPACITY
    ensures PageOf(b) != BYTES_PER_SECTOR - 1 ==> b + 1 < CAPACITY
    ensures PageOf(b) == BYTES_PER_SECTOR - 1 ==> PageOf(b + 1) == 0
    ensures PageOf(b) != BYTES_PER_SECTOR - 1 ==> SectorOf(b + 1) == SectorOf(b) && PageOf(b + 1) == PageOf(b) + 1
  {}

  lemma RewriteKeepsUnspoilt(st: Store, s: nat)
    requires Shaped(st) && Unspoilt(st) && s < SECTORS
    ensures Unspoilt(Rewritten(st, s, BYTES_PER_SECTOR))
  {
    var r := Rewritten(st, s, BYTES_PER_SECTOR);
    forall b | 0 <= b < CAPACITY ensures UnspoiltAt(r, b) {
      assert UnspoiltAt(st, b);
      LastPage(b);
    }
  }

  lemma WriteKeepsUnspoilt(st: Store, a: nat, v: byte)
    requires Shaped(st) && Unspoilt(st) && a < CAPACITY
    ensures Unspoilt(WriteStep(st, a, v))
  {
    hide Unspoilt, SlotStep, Rewritten;
    if st.val[a] != v {
      if st.live[a] != 0 {
        SlotKeepsUnspoilt(st, a, v);
      } else {
        RewriteKeepsUnspoilt(st, SectorOf(a));
        RewrittenWhole(st, a);
        SlotKeepsUnspoilt(Rewritten(st, SectorOf(a), BYTES_PER_SECTOR), a, v);
      }
    }
  }

  // ---- whole runs ----

  /** No write of the run disturbs a neighbour. */
  predicate Undisturbed(st: Store, ops: seq<Op>)
    requires Shaped(st) && InRange(ops)
    decreases ops
  {
    ops == [] || (!Disturbs(st, ops[0].a, ops[0].v) && Undisturbed(WriteStep(st, ops[0].a, ops[0].v), ops[1..]))
  }

  /** At every moment of the run, the store reads like plain memory. */
  ghost predicate ReadsAsMemory(st: Store, ops: seq<Op>)
    requires Shaped(st) && InRange(ops)
  {
    forall k :: 0 <= k <= |ops| ==> Run(st, ops[..k]).val == Memory(st.val, ops[..k])
  }

  /** The emulation is plain memory throughout a run exactly when no write of it disturbs a neighbour. */
  lemma {:induction false} RunIsPlain(st: Store, ops: seq<Op>)
    requires Shaped(st) && Unspoilt(st) && InRange(ops)
    ensures ReadsAsMemory(st, ops) <==> Undisturbed(st, ops)
    decreases ops
  {
    hide WriteStep, Unspoilt, Disturbs;
    if ops == [] {
      assert ops[..0] == [];
    } else {
      var a, v, rest := ops[0].a, ops[0].v, ops[1..];
      var next := WriteStep(st, a, v);
      WriteIsPlain(st, a, v);
      WriteKeepsUnspoilt(st, a, v);
      RunIsPlain(next, rest);
      assert ops[..1] == [ops[0]] && ops[..1][1..] == [];
      assert Run(next, []) == next && Memory(st.val[a := v], []) == st.val[a := v];
      assert Run(st, ops[..1]).val == next.val && Memory(st.val, ops[..1]) == st.val[a := v];
      if next.val == st.val[a := v] {
        forall k | 0 <= k <= |rest|
          ensures (Run(st, ops[..k + 1]).val == Memory(st.val, ops[..k + 1])) ==
                  (Run(next, rest[..k]).val == Memory(next.val, rest[..k]))
        {
          assert ops[..k + 1][1..] == rest[..k];
        }
        assert ops[..0] == [];
        forall k | 0 < k <= |ops|
          ensures (Run(st, ops[..k]).val == Memory(st.val, ops[..k])) ==
                  (Run(next, rest[..k - 1]).val == Memory(next.val, rest[..k - 1]))
        {
          assert k == (k - 1) + 1;
        }
      }
    }
  }

  /** Every formatted flash is unspoilt, whatever was written to it since. */
  lemma FormattedIsUnspoilt(cells: seq<byte>)
    requires Formatted(cells)
    ensures Unspoilt(Abs(cells))
  {
    assert |cells| == CHIP_SIZE;
    forall a | 0 <= a < CAPACITY ensures UnspoiltAt(Abs(cells), a) {
      InUseAddress(a);
      assert SectorOk(cells, SectorOf(a));
      hide Formatted, Abs, UnspoiltAt, SectorOk, SectorOf, PageOf;
      FormattedIsUnspoiltAt(cells, a, SectorOf(a), PageOf(a));
    }
  }

  lemma FormattedIsUnspoiltAt(cells: seq<byte>, a: nat, s: nat, p: nat)
    requires |cells| == CHIP_SIZE && a < CAPACITY && s == SectorOf(a) && p == PageOf(a)
    requires InUse(s, p) && SectorOk(cells, s)
    ensures UnspoiltAt(Abs(cells), a)
  {
    hide CountOnes, Thermo, Abs, Formatted, Value, Live, SectorOk, SectorOf, PageOf;
    if p == BYTES_PER_SECTOR - 1 {
      TopSlot(cells, s, p);
    } else {
      LastPage(a);
      TopSlotBelow(cells, s, p);
    }
  }

  /** What a never-written byte reads as. In the last page of a sector its top slot is no other page's. */
  lemma TopSlot(cells: seq<byte>, s: nat, p: nat)
    requires |cells| == CHIP_SIZE && s < SECTORS && p == BYTES_PER_SECTOR - 1 && SectorOk(cells, s)
    ensures Live(cells, s, p) == 256 ==> Value(cells, s, p) == ERASED
  {
    hide CountOnes, Thermo, PageOk;
    assert Base(s, p) + 255 == s * SECTOR_SIZE + SECTOR_SIZE - 1;
  }

  /** In any other page it is slot -1 of the next one. */
  lemma TopSlotBelow(cells: seq<byte>, s: nat, p: nat)
    requires |cells| == CHIP_SIZE && s < SECTORS && p < BYTES_PER_SECTOR - 1 && SectorOk(cells, s)
    ensures Live(cells, s, p) == 256 && Live(cells, s, p + 1) != 0 ==> Value(cells, s, p) == ERASED
  {
    hide CountOnes, Thermo, Live;
    assert PageOk(cells, s, p + 1);
    assert Base(s, p) + 255 == Base(s, p + 1) - 1;
  }

  /** A freshly formatted store is unspoilt. */
  lemma FreshIsUnspoilt()
    ensures Unspoilt(Fresh())
  {}

  // ---- how soon a disturbance can happen ----

  lemma LiveFalls(st: Store, a: nat, v: byte, b: nat)
    requires Shaped(st) && a < CAPACITY && b < CAPACITY && st.live[b] >= 1 && st.live[a] >= 1
    ensures WriteStep(st, a, v).live[b] >= st.live[b] - 1
  {}

  lemma {:induction false} FewWritesFrom(st: Store, ops: seq<Op>, n: nat)
    requires Shaped(st) && InRange(ops) && |ops| < n
    requires forall b :: 0 <= b < CAPACITY ==> st.live[b] >= n
    ensures Undisturbed(st, ops)
    decreases ops
  {
    hide WriteStep;
    if ops == [] {
    } else {
      var next := WriteStep(st, ops[0].a, ops[0].v);
      forall b | 0 <= b < CAPACITY ensures next.live[b] >= n - 1 {
        LiveFalls(st, ops[0].a, ops[0].v, b);
      }
      FewWritesFrom(next, ops[1..], n - 1);
    }
  }

  /** After formatting, 255 writes of any kind are safe. */
  lemma FewWritesArePlain(ops: seq<Op>)
    requires InRange(ops) && |ops| <= 255
    ensures ReadsAsMemory(Fresh(), ops)
  {
    FreshIsUnspoilt();
    FewWritesFrom(Fresh(), ops, 256);
    RunIsPlain(Fresh(), ops);
  }

  /** n writes to address 1, alternately of two values. */
  function Toggling(n: nat): (ops: seq<Op>)
    ensures |ops| == n && InRange(ops)
  {
    seq(n, i => Op(1, if (n - i) % 2 == 0 then 1 else 2))
  }

  lemma {:induction false} TogglingDisturbs(st: Store, n: nat)
    requires Shaped(st) && 1 <= n == st.live[1] && st.live[0] == 256
    requires st.val[1] != (if n % 2 == 0 then 1 else 2)
    ensures !Undisturbed(st, Toggling(n))
    decreases n
  {
    var ops := Toggling(n);
    if n == 1 {
      assert Disturbs(st, 1, 2);
    } else {
      assert ops[1..] == Toggling(n - 1);
      TogglingDisturbs(WriteStep(st, 1, ops[0].v), n - 1);
    }
  }

  /** And 256 can already be too many: they can leave address 0, never written, with another value. */
  lemma ManyWritesAreNot()
    ensures |Toggling(256)| == 256 && !ReadsAsMemory(Fresh(), Toggling(256))
  {
    FreshIsUnspoilt();
    TogglingDisturbs(Fresh(), 256);
    RunIsPlain(Fresh(), Toggling(256));
  }

  // ---- wear ----

  /** Value-changing writes of a run to sector s, and those of them that erase it. */
  function Changes(st: Store, ops: seq<Op>, s: nat): nat
    requires Shaped(st) && InRange(ops)
    decreases ops
  {
    if ops == [] then 0
    else (if SectorOf(ops[0].a) == s && st.val[ops[0].a] != ops[0].v then 1 else 0)
         + Changes(WriteStep(st, ops[0].a, ops[0].v), ops[1..], s)
  }

  function Erasures(st: Store, ops: seq<Op>, s: nat): nat
    requires Shaped(st) && InRange(ops)
    decreases ops
  {
    if ops == [] then 0
    else (if SectorOf(ops[0].a) == s && Erases(st, ops[0].a, ops[0].v) then 1 else 0)
         + Erasures(WriteStep(st, ops[0].a, ops[0].v), ops[1..], s)
  }

  /** Every slot used so far was paid for: e erasures and c changes leave this much for each byte of
      the sector. */
  predicate Paid(st: Store, s: nat, e: nat, c: nat)
    requires Shaped(st)
  {
    255 * e <= c && forall a :: 0 <= a < CAPACITY && SectorOf(a) == s ==> 255 * e + 254 <= c + st.live[a]
  }

  lemma WritePays(st: Store, a: nat, v: byte, s: nat, e: nat, c: nat)
    requires Shaped(st) && a < CAPACITY && Paid(st, s, e, c)
    ensures Paid(WriteStep(st, a, v), s,
                 e + (if SectorOf(a) == s && Erases(st, a, v) then 1 else 0),
                 c + (if SectorOf(a) == s && st.val[a] != v then 1 else 0))
  {
    var st' := WriteStep(st, a, v);
    forall b | 0 <= b < CAPACITY && SectorOf(b) == s
      ensures SectorOf(a) == s && Erases(st, a, v) ==> st'.live[b] >= 254
      ensures SectorOf(a) == s && !Erases(st, a, v) ==> st'.live[b] + 1 >= st.live[b]
      ensures SectorOf(a) != s || st.val[a] == v ==> st'.live[b] == st.live[b]
    {
      LiveAfter(st, a, v, b);
    }
    assert st.val[a] != v && SectorOf(a) == s ==> 255 * e + 254 <= c + st.live[a];
  }

  lemma LiveAfter(st: Store, a: nat, v: byte, b: nat)
    requires Shaped(st) && a < CAPACITY && b < CAPACITY
    ensures SectorOf(a) != SectorOf(b) || st.val[a] == v ==> WriteStep(st, a, v).live[b] == st.live[b]
    ensures SectorOf(a) == SectorOf(b) && Erases(st, a, v) ==> WriteStep(st, a, v).live[b] >= 254
    ensures SectorOf(a) == SectorOf(b) && !Erases(st, a, v) ==> WriteStep(st, a, v).live[b] + 1 >= st.live[b]
  {}

  lemma {:induction false} RunPays(st: Store, ops: seq<Op>, s: nat, e: nat, c: nat)
    requires Shaped(st) && InRange(ops) && Paid(st, s, e, c)
    ensures 255 * (e + Erasures(st, ops, s)) <= c + Changes(st, ops, s)
    decreases ops
  {
    hide WriteStep, Erases, SectorOf;
    if ops == [] {
      hide Paid;
      PaidBound(st, s, e, c);
    } else {
      var a, v := ops[0].a, ops[0].v;
      hide Paid;
      WritePays(st, a, v, s, e, c);
      RunPays(WriteStep(st, a, v), ops[1..], s,
              e + (if SectorOf(a) == s && Erases(st, a, v) then 1 else 0),
              c + (if SectorOf(a) == s && st.val[a] != v then 1 else 0));
    }
  }

  lemma PaidBound(st: Store, s: nat, e: nat, c: nat)
    requires Shaped(st) && Paid(st, s, e, c)
    ensures 255 * e <= c
  {}

  /** Since formatting, every erasure of a sector is backed by 255 changes of its bytes. */
  lemma WearIsLevelled(ops: seq<Op>, s: nat)
    requires InRange(ops) && s < SECTORS
    ensures 255 * Erasures(Fresh(), ops, s) <= Changes(Fresh(), ops, s)
  {
    RunPays(Fresh(), ops, s, 0, 0);
  }

  // ---- stopping between the two programs of a write ----

  /** The flash with the value programmed but not yet the info bit. */
  lemma TornPage(cells: seq<byte>, s: nat, p: nat, v: byte)
    requires Formatted(cells) && InUse(s, p) && 1 <= Live(cells, s, p)
    ensures var mid := DataProgrammed(cells, s, p, v); var slot := Base(s, p) + Live(cells, s, p) - 2;
      && mid == cells[slot := v]
      && mid[Info(s, p)..Info(s, p) + BLOCK] == Thermo(Live(cells, s, p))
      && Live(mid, s, p) == Live(cells, s, p)
  {
    assert SectorOk(cells, s) && PageOk(cells, s, p);
    hide CountOnes, Thermo, Programmed;
    DataProgramEffect(cells, s, p, v);
    SameBlock(cells, DataProgrammed(cells, s, p, v), Info(s, p), Info(s, p) + BLOCK);
  }

  lemma TornPages(cells: seq<byte>, s: nat, p: nat, v: byte, s': nat, p': nat)
    requires Formatted(cells) && InUse(s, p) && InUse(s', p') && 1 <= Live(cells, s, p)
    ensures var mid := DataProgrammed(cells, s, p, v);
      && Live(mid, s', p') == Live(cells, s', p')
      && Value(mid, s', p')
         == if s' == s && p' + 1 == p && Live(cells, s, p) == 1 && Live(cells, s', p') == 256 then v
            else Value(cells, s', p')
  {
    TornPage(cells, s, p, v);
    hide CountOnes, Thermo, DataProgrammed, Formatted, Live, Value, PageOk;
    if s' != s || p' != p {
      OtherPage(cells, DataProgrammed(cells, s, p, v), s, p, Live(cells, s, p), s', p');
    } else {
      TornHere(cells, s, p, v);
    }
  }

  /** The slot just programmed is not the one the page reads yet. */
  lemma TornHere(cells: seq<byte>, s: nat, p: nat, v: byte)
    requires |cells| == CHIP_SIZE && InUse(s, p) && 1 <= Live(cells, s, p)
    requires var mid := DataProgrammed(cells, s, p, v);
      mid == cells[Base(s, p) + Live(cells, s, p) - 2 := v] && Live(mid, s, p) == Live(cells, s, p)
    ensures Value(DataProgrammed(cells, s, p, v), s, p) == Value(cells, s, p)
  {
    hide DataProgrammed, Live;
  }

  /** Stopping there, every byte but an overlapped neighbour still reads as before the write. */
  lemma TornWriteReads(cells: seq<byte>, a: nat, v: byte, b: nat)
    requires Formatted(cells) && a < CAPACITY && b < CAPACITY && 1 <= Live(cells, SectorOf(a), PageOf(a))
    ensures var mid := DataProgrammed(cells, SectorOf(a), PageOf(a), v);
      && Abs(mid).live[b] == Abs(cells).live[b]
      && Abs(mid).val[b] == if b + 1 == a && Overlaps(Abs(cells), a) then v else Abs(cells).val[b]
  {
    assert |cells| == CHIP_SIZE;
    InUseAddress(a);
    InUseAddress(b);
    AddressesApart(a, b);
    hide SectorOf, PageOf, DataProgrammed, Live, Value, Formatted, Abs;
    TornPages(cells, SectorOf(a), PageOf(a), v, SectorOf(b), PageOf(b));
  }

  /** The next write to that byte lands on the slot already programmed: it stores the two values
      anded, so it is right exactly when the new value has no bit that the lost one lacks. */
  lemma TornWriteThenWrite(cells: seq<byte>, s: nat, p: nat, lost: byte, v: byte)
    requires Formatted(cells) && InUse(s, p) && 1 <= Live(cells, s, p)
    ensures var mid := DataProgrammed(cells, s, p, lost);
      && Live(mid, s, p) == Live(cells, s, p)
      && Value(SlotWritten(mid, s, p, v), s, p) == And(lost, v)
  {
    var n, slot := Live(cells, s, p), Base(s, p) + Live(cells, s, p) - 2;
    TornPage(cells, s, p, lost);
    var mid := DataProgrammed(cells, s, p, lost);
    assert mid[slot] == lost;
    hide Formatted, CountOnes;
    ProgramAgain(mid, s, p, v);
    hide Thermo, And, DataProgrammed, InfoProgrammed;
    var data := DataProgrammed(mid, s, p, v);
    InfoProgramEffect(data, s, p, n);
    assert InfoProgrammed(data, s, p, n)[slot] == data[slot];
  }

  lemma ProgramAgain(mid: seq<byte>, s: nat, p: nat, v: byte)
    requires |mid| == CHIP_SIZE && InUse(s, p) && 1 <= Live(mid, s, p)
    ensures var data, slot := DataProgrammed(mid, s, p, v), Base(s, p) + Live(mid, s, p) - 2;
      && data == mid[slot := And(mid[slot], v)]
      && data[Info(s, p)..Info(s, p) + BLOCK] == mid[Info(s, p)..Info(s, p) + BLOCK]
  {
    hide CountOnes, Programmed, And;
    ProgramOne(mid, Base(s, p) + Live(mid, s, p) - 2, v);
    SameBlock(mid, DataProgrammed(mid, s, p, v), Info(s, p), Info(s, p) + BLOCK);
  }
}
