module CrcAlgebra {
  import opened Iteration
  import opened Words

  datatype Family = LsbFirst(poly: bv32) | MsbFirst(poly: bv32)

  function Feedback(on: bool, poly: bv32): bv32 { if on then poly else 0 }

  function LsbStep(poly: bv32, r: bv32): bv32 {
    Xor(ShiftRight(r), Feedback(IsOdd(r), poly))
  }

  function MsbStep(poly: bv32, r: bv32): bv32 {
    Xor(ShiftLeft(r), Feedback(IsHigh(r), poly))
  }

  function LsbStepper(poly: bv32): bv32 -> bv32 { r => LsbStep(poly, r) }

  function MsbStepper(poly: bv32): bv32 -> bv32 { r => MsbStep(poly, r) }

  function Steps(f: Family, n: nat, x: bv32): bv32 {
    match f
    case LsbFirst(poly) => Iterate(LsbStepper(poly), n, x)
    case MsbFirst(poly) => Rev32(Iterate(MsbStepper(poly), n, Rev32(x)))
  }

  function Fold(f: Family, x: bv32, data: seq<byte>): bv32
    decreases data
  {
    if data == [] then x else Fold(f, Steps(f, 8, Xor(x, Widen(data[0]))), data[1..])
  }

  lemma FeedbackAdditive(p: bool, q: bool, poly: bv32)
    ensures Feedback(p != q, poly) == Xor(Feedback(p, poly), Feedback(q, poly))
  {
    if p { if q {} else {} } else {}
  }

  lemma LsbStepAdditive(poly: bv32, x: bv32, y: bv32)
    ensures LsbStep(poly, Xor(x, y)) == Xor(LsbStep(poly, x), LsbStep(poly, y))
  {
    hide Xor, Feedback, ShiftRight, IsOdd;
    ShiftRightAdditive(x, y);
    LowBitAdditive(x, y);
    FeedbackAdditive(IsOdd(x), IsOdd(y), poly);
    XorShuffles(ShiftRight(x), ShiftRight(y), Feedback(IsOdd(x), poly), Feedback(IsOdd(y), poly));
  }

  lemma MsbStepAdditive(poly: bv32, x: bv32, y: bv32)
    ensures MsbStep(poly, Xor(x, y)) == Xor(MsbStep(poly, x), MsbStep(poly, y))
  {
    hide Xor, Feedback, ShiftLeft, IsHigh;
    ShiftLeftAdditive(x, y);
    HighBitAdditive(x, y);
    FeedbackAdditive(IsHigh(x), IsHigh(y), poly);
    XorShuffles(ShiftLeft(x), ShiftLeft(y), Feedback(IsHigh(x), poly), Feedback(IsHigh(y), poly));
  }

  lemma StepperAdditive(poly: bv32)
    ensures Additive(LsbStepper(poly), Xor) && Additive(MsbStepper(poly), Xor)
  {
    hide Xor, LsbStep, MsbStep;
    forall x: bv32, y: bv32
      ensures LsbStep(poly, Xor(x, y)) == Xor(LsbStep(poly, x), LsbStep(poly, y))
      ensures MsbStep(poly, Xor(x, y)) == Xor(MsbStep(poly, x), MsbStep(poly, y))
    {
      LsbStepAdditive(poly, x, y);
      MsbStepAdditive(poly, x, y);
    }
  }

  lemma StepsAdditive(f: Family, n: nat, x: bv32, y: bv32)
    ensures Steps(f, n, Xor(x, y)) == Xor(Steps(f, n, x), Steps(f, n, y))
  {
    hide Xor, Rev32, LsbStepper, MsbStepper;
    StepperAdditive(f.poly);
    match f
    case LsbFirst(poly) => IterateAdditive(LsbStepper(poly), Xor, n, x, y);
    case MsbFirst(poly) =>
      Rev32Additive(x, y);
      IterateAdditive(MsbStepper(poly), Xor, n, Rev32(x), Rev32(y));
      Rev32Additive(Iterate(MsbStepper(poly), n, Rev32(x)), Iterate(MsbStepper(poly), n, Rev32(y)));
  }

  lemma StepsSum(f: Family, m: nat, n: nat, x: bv32)
    ensures Steps(f, m + n, x) == Steps(f, n, Steps(f, m, x))
  {
    hide Rev32, LsbStepper, MsbStepper;
    match f
    case LsbFirst(poly) => IterateSum(LsbStepper(poly), m, n, x);
    case MsbFirst(poly) =>
      IterateSum(MsbStepper(poly), m, n, Rev32(x));
      Rev32Involution(Iterate(MsbStepper(poly), m, Rev32(x)));
  }

  lemma IterateEight<R>(g: R -> R, x: R)
    ensures Iterate(g, 8, x) == g(g(g(g(g(g(g(g(x))))))))
  {
    var x4 := g(g(g(g(x))));
    assert Iterate(g, 4, x4) == g(g(g(g(x4))));
    assert Iterate(g, 8, x) == Iterate(g, 4, x4);
  }

  lemma EvenStep(poly: bv32, r: bv32)
    requires !IsOdd(r)
    ensures LsbStepper(poly)(r) == ShiftRight(r)
  {
    XorZero(ShiftRight(r));
  }

  lemma LowStep(poly: bv32, r: bv32)
    requires !IsHigh(r)
    ensures MsbStepper(poly)(r) == ShiftLeft(r)
  {
    XorZero(ShiftLeft(r));
  }

  lemma LsbByteShift(poly: bv32, x: bv32)
    requires LowByteClear(x)
    ensures Iterate(LsbStepper(poly), 8, x) == DropByte(x)
  {
    hide LsbStepper, ShiftRight, IsOdd, DropByte, LowByteClear;
    DropEightBits(x);
    EvenUnderClearByte(x);
    IterateEight(LsbStepper(poly), x);
    var y := x;
    EvenStep(poly, y); y := ShiftRight(y);
    EvenStep(poly, y); y := ShiftRight(y);
    EvenStep(poly, y); y := ShiftRight(y);
    EvenStep(poly, y); y := ShiftRight(y);
    EvenStep(poly, y); y := ShiftRight(y);
    EvenStep(poly, y); y := ShiftRight(y);
    EvenStep(poly, y); y := ShiftRight(y);
    EvenStep(poly, y);
  }

  lemma MsbByteShift(poly: bv32, x: bv32)
    requires HighByteClear(x)
    ensures Iterate(MsbStepper(poly), 8, x) == Up(x)
  {
    hide MsbStepper, ShiftLeft, IsHigh, Up, HighByteClear;
    RaiseEightBits(x);
    LowUnderClearByte(x);
    IterateEight(MsbStepper(poly), x);
    var y := x;
    LowStep(poly, y); y := ShiftLeft(y);
    LowStep(poly, y); y := ShiftLeft(y);
    LowStep(poly, y); y := ShiftLeft(y);
    LowStep(poly, y); y := ShiftLeft(y);
    LowStep(poly, y); y := ShiftLeft(y);
    LowStep(poly, y); y := ShiftLeft(y);
    LowStep(poly, y); y := ShiftLeft(y);
    LowStep(poly, y);
  }

  /** A byte of zeros costs eight plain shifts: the polynomial is never added. */
  lemma ByteShift(f: Family, x: bv32)
    requires LowByteClear(x)
    ensures Steps(f, 8, x) == DropByte(x)
  {
    hide LsbStepper, MsbStepper, DropByte, LowByteClear, Rev32, Up, HighByteClear;
    match f
    case LsbFirst(poly) => LsbByteShift(poly, x);
    case MsbFirst(poly) => Rev32Up(x); MsbByteShift(poly, Rev32(x));
  }

  /** Absorbing a byte now and shifting eight times is absorbing it after the other three moved down. */
  lemma StepsUp(f: Family, x: bv32, w: bv32)
    requires HighByteClear(w)
    ensures Steps(f, 8, Xor(x, Up(w))) == Xor(Steps(f, 8, x), w)
  {
    hide Xor, Steps, DropByte, LowByteClear, Up, HighByteClear;
    StepsAdditive(f, 8, x, Up(w));
    UpIsClear(w);
    ByteShift(f, Up(w));
  }

  /** The little-endian word that at most four bytes make. */
  function WordOf(data: seq<byte>): bv32
    decreases data
  {
    if data == [] then 0 else Xor(Widen(data[0]), Up(WordOf(data[1..])))
  }

  lemma WordOfSize(data: seq<byte>)
    requires |data| <= 3
    ensures HighByteClear(WordOf(data))
  {
    if |data| == 0 {
    } else if |data| == 1 {
      assert WordOf(data[1..]) == 0;
    } else if |data| == 2 {
      assert WordOf(data[2..]) == 0;
      assert data[1..][1..] == data[2..];
      assert WordOf(data[1..]) == Xor(Widen(data[1]), Up(0));
    } else {
      assert data[1..][1..] == data[2..];
      assert data[2..][1..] == data[3..];
      assert WordOf(data[3..]) == 0;
      assert WordOf(data[2..]) == Xor(Widen(data[2]), Up(0));
      assert WordOf(data[1..]) == Xor(Widen(data[1]), Up(WordOf(data[2..])));
    }
  }

  lemma {:induction false} FoldIsSteps(f: Family, x: bv32, data: seq<byte>)
    requires |data| <= 4
    ensures Fold(f, x, data) == Steps(f, 8 * |data|, Xor(x, WordOf(data)))
    decreases |data|
  {
    hide Xor, Steps, Up, Widen, HighByteClear;
    if data == [] {
      XorZero(x);
      StepsZero(f, x);
    } else {
      var w := Widen(data[0]);
      var rest := WordOf(data[1..]);
      var n := |data| - 1;
      WordOfSize(data[1..]);
      XorAssociates(x, w, Up(rest));
      StepsUp(f, Xor(x, w), rest);
      StepsSum(f, 8, 8 * n, Xor(Xor(x, w), Up(rest)));
      FoldIsSteps(f, Steps(f, 8, Xor(x, w)), data[1..]);
    }
  }
  lemma StepsZero(f: Family, x: bv32)
    ensures Steps(f, 0, x) == x
  {
    hide Rev32;
    Rev32Involution(x);
  }

  lemma {:induction false} FoldSplits(f: Family, x: bv32, a: seq<byte>, b: seq<byte>)
    ensures Fold(f, x, a + b) == Fold(f, Fold(f, x, a), b)
    decreases a
  {
    hide Xor, Steps;
    if a == [] {
      assert a + b == b;
    } else {
      assert (a + b)[1..] == a[1..] + b;
      FoldSplits(f, Steps(f, 8, Xor(x, Widen(a[0]))), a[1..], b);
    }
  }

  // ---- tables ----

  /** Entry b of block k of the lookup table: the byte b shifted out through 8(k+1) steps. */
  function Entry(f: Family, k: nat, b: byte): bv32 {
    Steps(f, 8 * (k + 1), Widen(b))
  }

  function TableStep(f: Family, crc: bv32, b: byte): bv32 {
    Xor(DropByte(crc), Entry(f, 0, Byte0(crc) ^ b))
  }

  lemma ByteIndex(crc: bv32, b: byte)
    ensures Byte0(Xor(crc, Widen(b))) == Byte0(crc) ^ b
    ensures DropByte(Xor(crc, Widen(b))) == DropByte(crc)
  {}

  lemma TableStepIsEightSteps(f: Family, crc: bv32, b: byte)
    ensures TableStep(f, crc, b) == Steps(f, 8, Xor(crc, Widen(b)))
  {
    hide Xor, Steps, DropByte, Widen, Byte0, LowByteClear, HighBytes;
    var x := Xor(crc, Widen(b));
    ByteIndex(crc, b);
    SplitLowByte(x);
    StepsAdditive(f, 8, HighBytes(x), Widen(Byte0(x)));
    ByteShift(f, HighBytes(x));
  }

  /** The four bytes of a word, low byte first. */
  function BytesOf(c: bv32): (b: seq<byte>)
    ensures |b| == 4
  {
    [(c & 0xff) as byte, ((c >> 8) & 0xff) as byte, ((c >> 16) & 0xff) as byte, ((c >> 24) & 0xff) as byte]
  }

  /** A little-endian 32-bit load. */
  function Load32(b0: byte, b1: byte, b2: byte, b3: byte): bv32 {
    (b0 as bv32) | ((b1 as bv32) << 8) | ((b2 as bv32) << 16) | ((b3 as bv32) << 24)
  }

  function SliceStep(f: Family, crc: bv32, data: bv32): bv32 {
    var b := BytesOf(Xor(crc, data));
    Xor4(Entry(f, 3, b[0]), Entry(f, 2, b[1]), Entry(f, 1, b[2]), Entry(f, 0, b[3]))
  }

  lemma WordOfFour(b0: byte, b1: byte, b2: byte, b3: byte)
    ensures WordOf([b0, b1, b2, b3])
         == Xor(Widen(b0), Up(Xor(Widen(b1), Up(Xor(Widen(b2), Up(Xor(Widen(b3), Up(0))))))))
  {
    hide Xor, Up, Widen;
    assert [b3][1..] == [];
    assert [b2, b3][1..] == [b3];
    assert [b1, b2, b3][1..] == [b2, b3];
    assert [b0, b1, b2, b3][1..] == [b1, b2, b3];
    assert WordOf([b3]) == Xor(Widen(b3), Up(0));
    assert WordOf([b2, b3]) == Xor(Widen(b2), Up(WordOf([b3])));
    assert WordOf([b1, b2, b3]) == Xor(Widen(b1), Up(WordOf([b2, b3])));
  }

  lemma Load32Lanes(b0: byte, b1: byte, b2: byte, b3: byte)
    ensures Load32(b0, b1, b2, b3)
         == Xor(Widen(b0), Up(Xor(Widen(b1), Up(Xor(Widen(b2), Up(Xor(Widen(b3), Up(0))))))))
  {}

  lemma Load32IsWord(b0: byte, b1: byte, b2: byte, b3: byte)
    ensures Load32(b0, b1, b2, b3) == WordOf([b0, b1, b2, b3])
  {
    hide Load32, Xor, Up, Widen;
    WordOfFour(b0, b1, b2, b3);
    Load32Lanes(b0, b1, b2, b3);
  }

  lemma LoadBytes(c: bv32)
    ensures Load32((c & 0xff) as byte, ((c >> 8) & 0xff) as byte,
                   ((c >> 16) & 0xff) as byte, ((c >> 24) & 0xff) as byte) == c
  {}

  lemma BytesOfWord(c: bv32)
    ensures WordOf(BytesOf(c)) == c
  {
    LoadBytes(c);
    hide Load32;
    Load32IsWord((c & 0xff) as byte, ((c >> 8) & 0xff) as byte,
                 ((c >> 16) & 0xff) as byte, ((c >> 24) & 0xff) as byte);
  }

  function EntrySum(f: Family, bytes: seq<byte>): bv32
    decreases bytes
  {
    if bytes == [] then 0 else Xor(Entry(f, |bytes| - 1, bytes[0]), EntrySum(f, bytes[1..]))
  }

  lemma StepsOfZero(f: Family, n: nat)
    ensures Steps(f, n, 0) == 0
  {
    hide Steps;
    XorIsZero(0, 0);
    StepsAdditive(f, n, 0, 0);
    XorIsZero(Steps(f, n, 0), Steps(f, n, 0));
  }

  lemma {:induction false} WordStepsAreEntries(f: Family, bytes: seq<byte>)
    requires |bytes| <= 4
    ensures Steps(f, 8 * |bytes|, WordOf(bytes)) == EntrySum(f, bytes)
    decreases |bytes|
  {
    hide Xor, Steps, Up, Widen, LowByteClear, HighByteClear, DropByte;
    if bytes == [] {
      StepsOfZero(f, 0);
    } else {
      var n := |bytes| - 1;
      var rest := WordOf(bytes[1..]);
      WordOfSize(bytes[1..]);
      UpIsClear(rest);
      ByteShift(f, Up(rest));
      StepsSum(f, 8, 8 * n, Up(rest));
      StepsAdditive(f, 8 * |bytes|, Widen(bytes[0]), Up(rest));
      WordStepsAreEntries(f, bytes[1..]);
    }
  }

  lemma FourEntries(f: Family, b: seq<byte>)
    requires |b| == 4
    ensures Xor4(Entry(f, 3, b[0]), Entry(f, 2, b[1]), Entry(f, 1, b[2]), Entry(f, 0, b[3])) == EntrySum(f, b)
  {
    hide Entry, Xor, Xor4;
    var e3, e2, e1, e0 := Entry(f, 3, b[0]), Entry(f, 2, b[1]), Entry(f, 1, b[2]), Entry(f, 0, b[3]);
    assert b[1..][1..] == b[2..];
    assert b[2..][1..] == b[3..];
    assert b[3..][1..] == [];
    assert EntrySum(f, b[3..]) == Xor(e0, 0);
    assert EntrySum(f, b[2..]) == Xor(e1, EntrySum(f, b[3..]));
    assert EntrySum(f, b[1..]) == Xor(e2, EntrySum(f, b[2..]));
    XorZero(e0);
    Xor4Nests(e3, e2, e1, e0);
  }

  /** One slice-by-4 step absorbs four bytes. */
  lemma SliceStepIsFourBytes(f: Family, crc: bv32, b0: byte, b1: byte, b2: byte, b3: byte)
    ensures SliceStep(f, crc, Load32(b0, b1, b2, b3)) == Fold(f, crc, [b0, b1, b2, b3])
  {
    hide Load32, Entry, BytesOf, Steps, Xor;
    var d := Load32(b0, b1, b2, b3);
    Load32IsWord(b0, b1, b2, b3);
    FoldIsSteps(f, crc, [b0, b1, b2, b3]);
    BytesOfWord(Xor(crc, d));
    FourEntries(f, BytesOf(Xor(crc, d)));
    WordStepsAreEntries(f, BytesOf(Xor(crc, d)));
  }
}
