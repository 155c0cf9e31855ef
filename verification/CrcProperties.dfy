/** What the CRCs promise their users: they may be computed in pieces, and they catch short bursts. */
module CrcProperties {
  import opened Chunks
  import opened Iteration
  import opened Words
  import opened BitwiseCrc
  import opened CrcAlgebra
  import opened CrcRefinement

  // ---- streaming ----

  lemma {:induction false} Lsb32Splits(poly: bv32, r: bv32, a: seq<byte>, b: seq<byte>)
    ensures Lsb32(poly, r, a + b) == Lsb32(poly, Lsb32(poly, r, a), b)
    decreases a
  {
    hide Xor, Widen, Lsb32Stepper;
    if a == [] {
      assert a + b == b;
    } else {
      assert (a + b)[1..] == a[1..] + b;
      Lsb32Splits(poly, Iterate(Lsb32Stepper(poly), 8, Xor(r, Widen(a[0]))), a[1..], b);
    }
  }

  lemma {:induction false} Msb32Splits(poly: bv32, r: bv32, a: seq<byte>, b: seq<byte>)
    ensures Msb32(poly, r, a + b) == Msb32(poly, Msb32(poly, r, a), b)
    decreases a
  {
    hide Xor, AtTop, Msb32Stepper;
    if a == [] {
      assert a + b == b;
    } else {
      assert (a + b)[1..] == a[1..] + b;
      Msb32Splits(poly, Iterate(Msb32Stepper(poly), 8, Xor(r, AtTop(a[0]))), a[1..], b);
    }
  }

  lemma {:induction false} Lsb16Splits(poly: bv16, r: bv16, a: seq<byte>, b: seq<byte>)
    ensures Lsb16(poly, r, a + b) == Lsb16(poly, Lsb16(poly, r, a), b)
    decreases a
  {
    hide Xor16, Widen16, Lsb16Stepper;
    if a == [] {
      assert a + b == b;
    } else {
      assert (a + b)[1..] == a[1..] + b;
      Lsb16Splits(poly, Iterate(Lsb16Stepper(poly), 8, Xor16(r, Widen16(a[0]))), a[1..], b);
    }
  }

  lemma {:induction false} Msb16Splits(poly: bv16, r: bv16, a: seq<byte>, b: seq<byte>)
    ensures Msb16(poly, r, a + b) == Msb16(poly, Msb16(poly, r, a), b)
    decreases a
  {
    hide Xor16, AtTop16, Msb16Stepper;
    if a == [] {
      assert a + b == b;
    } else {
      assert (a + b)[1..] == a[1..] + b;
      Msb16Splits(poly, Iterate(Msb16Stepper(poly), 8, Xor16(r, AtTop16(a[0]))), a[1..], b);
    }
  }

  /** The seed left by one update of each class, as its contract states it. */
  function MsbSeed16(poly: bv16): (bv16, seq<byte>) -> bv16 {
    (seed, data) => Rev16(Msb16(poly, Rev16(seed), data))
  }

  function LsbSeed16(poly: bv16): (bv16, seq<byte>) -> bv16 {
    (seed, data) => Lsb16(poly, seed, data)
  }

  function MsbSeed32(poly: bv32): (bv32, seq<byte>) -> bv32 {
    (seed, data) => Rev32(Msb32(poly, Rev32(seed), data))
  }

  function LsbSeed32(poly: bv32): (bv32, seq<byte>) -> bv32 {
    (seed, data) => Lsb32(poly, seed, data)
  }

  lemma MsbSeed16Streams(poly: bv16)
    ensures Streams(MsbSeed16(poly))
  {
    hide Rev16, Xor16, AtTop16;
    var absorb := MsbSeed16(poly);
    forall r: bv16, a: seq<byte>, b: seq<byte>
      ensures absorb(r, a + b) == absorb(absorb(r, a), b)
    {
      Msb16Splits(poly, Rev16(r), a, b);
      Rev16Involution(Msb16(poly, Rev16(r), a));
    }
    forall r: bv16 ensures absorb(r, []) == r {
      Rev16Involution(r);
      assert Msb16(poly, Rev16(r), []) == Rev16(r);
    }
  }

  lemma LsbSeed16Streams(poly: bv16)
    ensures Streams(LsbSeed16(poly))
  {
    hide Xor16, Widen16;
    var absorb := LsbSeed16(poly);
    forall r: bv16, a: seq<byte>, b: seq<byte>
      ensures absorb(r, a + b) == absorb(absorb(r, a), b)
    {
      Lsb16Splits(poly, r, a, b);
    }
  }

  lemma MsbSeed32Streams(poly: bv32)
    ensures Streams(MsbSeed32(poly))
  {
    hide Rev32, Xor, AtTop;
    var absorb := MsbSeed32(poly);
    forall r: bv32, a: seq<byte>, b: seq<byte>
      ensures absorb(r, a + b) == absorb(absorb(r, a), b)
    {
      Msb32Splits(poly, Rev32(r), a, b);
      Rev32Involution(Msb32(poly, Rev32(r), a));
    }
    forall r: bv32 ensures absorb(r, []) == r {
      Rev32Involution(r);
      assert Msb32(poly, Rev32(r), []) == Rev32(r);
    }
  }

  lemma LsbSeed32Streams(poly: bv32)
    ensures Streams(LsbSeed32(poly))
  {
    hide Xor, Widen;
    var absorb := LsbSeed32(poly);
    forall r: bv32, a: seq<byte>, b: seq<byte>
      ensures absorb(r, a + b) == absorb(absorb(r, a), b)
    {
      Lsb32Splits(poly, r, a, b);
    }
  }

  /** However the data is cut, successive updates leave the seed that one update of the whole leaves. */
  lemma Streaming(poly16: bv16, poly32: bv32, seed16: bv16, seed32: bv32, chunks: seq<seq<byte>>)
    ensures Chunked(MsbSeed16(poly16), seed16, chunks) == MsbSeed16(poly16)(seed16, Flatten(chunks))
    ensures Chunked(LsbSeed16(poly16), seed16, chunks) == LsbSeed16(poly16)(seed16, Flatten(chunks))
    ensures Chunked(MsbSeed32(poly32), seed32, chunks) == MsbSeed32(poly32)(seed32, Flatten(chunks))
    ensures Chunked(LsbSeed32(poly32), seed32, chunks) == LsbSeed32(poly32)(seed32, Flatten(chunks))
  {
    hide MsbSeed16, LsbSeed16, MsbSeed32, LsbSeed32;
    MsbSeed16Streams(poly16);
    LsbSeed16Streams(poly16);
    MsbSeed32Streams(poly32);
    LsbSeed32Streams(poly32);
    ChunkedIsWhole(MsbSeed16(poly16), seed16, chunks);
    ChunkedIsWhole(LsbSeed16(poly16), seed16, chunks);
    ChunkedIsWhole(MsbSeed32(poly32), seed32, chunks);
    ChunkedIsWhole(LsbSeed32(poly32), seed32, chunks);
  }

  // ---- invertibility ----

  /** The data bits of the register: all of it, or the low half for a 16-bit CRC. */
  predicate InRegister(half: bool, x: bv32) { half ==> HighHalfClear(x) }

  /** The polynomials with which a step loses nothing. */
  predicate Invertible(half: bool, f: Family) {
    match f
    case LsbFirst(poly) => if half then HighHalfClear(poly) && poly & 0x8000 != 0 else IsHigh(poly)
    case MsbFirst(poly) => if half then LowHalfClear(poly) && poly & 0x1_0000 != 0 else IsOdd(poly)
  }

  predicate Aligned(half: bool, x: bv32) { half ==> LowHalfClear(x) }

  lemma LsbStepKernel(half: bool, poly: bv32, x: bv32)
    requires Invertible(half, LsbFirst(poly)) && InRegister(half, x)
    ensures InRegister(half, LsbStep(poly, x))
    ensures LsbStep(poly, x) == 0 ==> x == 0
  {}

  lemma MsbStepKernel(half: bool, poly: bv32, x: bv32)
    requires Invertible(half, MsbFirst(poly)) && Aligned(half, x)
    ensures Aligned(half, MsbStep(poly, x))
    ensures MsbStep(poly, x) == 0 ==> x == 0
  {}

  lemma StepsKernel(half: bool, f: Family, n: nat, x: bv32)
    requires Invertible(half, f) && InRegister(half, x)
    ensures InRegister(half, Steps(f, n, x))
    ensures Steps(f, n, x) == 0 ==> x == 0
  {
    hide Rev32, LowHalfClear, HighHalfClear, LsbStep, MsbStep, Invertible;
    RevNarrow(x);
    RevZero(x);
    match f
    case LsbFirst(poly) =>
      var p: bv32 -> bool := y => InRegister(half, y);
      forall y: bv32 | InRegister(half, y)
        ensures InRegister(half, LsbStep(poly, y)) && (LsbStep(poly, y) == 0 ==> y == 0)
      {
        LsbStepKernel(half, poly, y);
      }
      IteratePreserves(LsbStepper(poly), p, n, x);
      if Steps(f, n, x) == 0 {
        IterateKernel(LsbStepper(poly), p, 0, n, x);
      }
    case MsbFirst(poly) =>
      var p: bv32 -> bool := y => Aligned(half, y);
      forall y: bv32 | Aligned(half, y)
        ensures Aligned(half, MsbStep(poly, y)) && (MsbStep(poly, y) == 0 ==> y == 0)
      {
        MsbStepKernel(half, poly, y);
      }
      var z := Iterate(MsbStepper(poly), n, Rev32(x));
      IteratePreserves(MsbStepper(poly), p, n, Rev32(x));
      RevNarrow(z);
      RevZero(z);
      if Steps(f, n, x) == 0 {
        IterateKernel(MsbStepper(poly), p, 0, n, Rev32(x));
      }
  }

  lemma InRegisterAdditive(half: bool, x: bv32, y: bv32)
    requires InRegister(half, x) && InRegister(half, y)
    ensures InRegister(half, Xor(x, y))
  {}

  lemma BytesInRegister(half: bool, b: byte)
    ensures InRegister(half, Widen(b))
  {}

  lemma StepsInjective(half: bool, f: Family, n: nat, x: bv32, y: bv32)
    requires Invertible(half, f) && InRegister(half, x) && InRegister(half, y)
    requires Steps(f, n, x) == Steps(f, n, y)
    ensures x == y
  {
    hide InRegister, Invertible, Xor, Steps;
    InRegisterAdditive(half, x, y);
    StepsAdditive(f, n, x, y);
    XorIsZero(Steps(f, n, x), Steps(f, n, y));
    StepsKernel(half, f, n, Xor(x, y));
    XorIsZero(x, y);
  }

  lemma XorCancels(x: bv32, y: bv32, z: bv32)
    requires Xor(x, z) == Xor(y, z)
    ensures x == y
  {
    hide Xor;
    XorAssociates(x, z, z);
    XorAssociates(y, z, z);
    XorIsZero(z, z);
    XorZero(x);
    XorZero(y);
  }

  /** Different registers stay different whatever data follows. */
  lemma {:induction false} FoldInjective(half: bool, f: Family, x: bv32, y: bv32, data: seq<byte>)
    requires Invertible(half, f) && InRegister(half, x) && InRegister(half, y)
    requires Fold(f, x, data) == Fold(f, y, data)
    ensures x == y
    decreases data
  {
    hide InRegister, Invertible, Xor, Steps, Widen;
    if data == [] {
    } else {
      var w := Widen(data[0]);
      BytesInRegister(half, data[0]);
      InRegisterAdditive(half, x, w);
      InRegisterAdditive(half, y, w);
      StepsKernel(half, f, 8, Xor(x, w));
      StepsKernel(half, f, 8, Xor(y, w));
      FoldInjective(half, f, Steps(f, 8, Xor(x, w)), Steps(f, 8, Xor(y, w)), data[1..]);
      StepsInjective(half, f, 8, Xor(x, w), Xor(y, w));
      XorCancels(x, y, w);
    }
  }

  lemma {:induction false} FoldInRegister(half: bool, f: Family, x: bv32, data: seq<byte>)
    requires Invertible(half, f) && InRegister(half, x)
    ensures InRegister(half, Fold(f, x, data))
    decreases data
  {
    hide InRegister, Invertible, Xor, Steps, Widen;
    if data == [] {
    } else {
      var w := Widen(data[0]);
      BytesInRegister(half, data[0]);
      InRegisterAdditive(half, x, w);
      StepsKernel(half, f, 8, Xor(x, w));
      FoldInRegister(half, f, Steps(f, 8, Xor(x, w)), data[1..]);
    }
  }

  // ---- bursts ----

  lemma UnpackByte(b: byte, w: bv32)
    requires HighByteClear(w)
    ensures Byte0(Xor(Widen(b), Up(w))) == b
    ensures DropByte(Xor(Widen(b), Up(w))) == w
  {}

  lemma {:induction false} WordOfInjective(a: seq<byte>, b: seq<byte>)
    requires |a| == |b| <= 4 && WordOf(a) == WordOf(b)
    ensures a == b
    decreases a
  {
    hide Xor, Up, Widen, HighByteClear, Byte0, DropByte;
    if a == [] {
    } else {
      WordOfSize(a[1..]);
      WordOfSize(b[1..]);
      UnpackByte(a[0], WordOf(a[1..]));
      UnpackByte(b[0], WordOf(b[1..]));
      WordOfInjective(a[1..], b[1..]);
      assert a == [a[0]] + a[1..] && b == [b[0]] + b[1..];
    }
  }

  lemma PairInHalf(b0: byte, b1: byte)
    ensures HighHalfClear(Xor(Widen(b0), Up(Xor(Widen(b1), Up(0)))))
  {}

  lemma WordInRegister(half: bool, a: seq<byte>)
    requires |a| <= if half then 2 else 4
    ensures InRegister(half, WordOf(a))
  {
    if half {
      if |a| == 0 {
      } else if |a| == 1 {
        assert WordOf(a[1..]) == 0;
      } else {
        hide Xor, Up, Widen, HighHalfClear;
        PairInHalf(a[0], a[1]);
        assert a[1..][1..] == [];
        assert WordOf(a[1..]) == Xor(Widen(a[1]), Up(0));
      }
    }
  }

  /** A change confined to as many consecutive bytes as the register has always shows. */
  lemma FoldBurst(half: bool, f: Family, x: bv32, before: seq<byte>, a: seq<byte>, b: seq<byte>, after: seq<byte>)
    requires Invertible(half, f) && InRegister(half, x)
    requires |a| == |b| <= (if half then 2 else 4) && a != b
    ensures Fold(f, x, before + a + after) != Fold(f, x, before + b + after)
  {
    hide InRegister, Invertible, Xor, Steps, Fold, WordOf;
    if Fold(f, x, before + a + after) == Fold(f, x, before + b + after) {
      var y := Fold(f, x, before);
      FoldSplits(f, x, before + a, after);
      FoldSplits(f, x, before + b, after);
      FoldSplits(f, x, before, a);
      FoldSplits(f, x, before, b);
      FoldInRegister(half, f, x, before);
      FoldInRegister(half, f, y, a);
      FoldInRegister(half, f, y, b);
      FoldInjective(half, f, Fold(f, y, a), Fold(f, y, b), after);
      FoldIsSteps(f, y, a);
      FoldIsSteps(f, y, b);
      WordInRegister(half, a);
      WordInRegister(half, b);
      InRegisterAdditive(half, y, WordOf(a));
      InRegisterAdditive(half, y, WordOf(b));
      StepsInjective(half, f, 8 * |a|, Xor(y, WordOf(a)), Xor(y, WordOf(b)));
      XorCommutes(y, WordOf(a));
      XorCommutes(y, WordOf(b));
      XorCancels(WordOf(a), WordOf(b), y);
      WordOfInjective(a, b);
    }
  }

  /** CRC-32 catches every change confined to four consecutive bytes. */
  lemma Crc32Burst(before: seq<byte>, a: seq<byte>, b: seq<byte>, after: seq<byte>)
    requires |a| == |b| <= 4 && a != b
    ensures Crc32(before + a + after) != Crc32(before + b + after)
  {
    var init: bv32 := 0xFFFF_FFFF;
    assert Invertible(false, LsbFirst(CRC32_POLY)) && InRegister(false, init);
    hide Lsb32, Fold, Invertible, InRegister, Complement;
    FoldBurst(false, LsbFirst(CRC32_POLY), init, before, a, b, after);
    Lsb32IsFold(CRC32_POLY, init, before + a + after);
    Lsb32IsFold(CRC32_POLY, init, before + b + after);
    ComplementInvolution(Lsb32(CRC32_POLY, init, before + a + after));
    ComplementInvolution(Lsb32(CRC32_POLY, init, before + b + after));
  }

  /** XMODEM catches every change confined to two consecutive bytes. */
  lemma XmodemBurst(before: seq<byte>, a: seq<byte>, b: seq<byte>, after: seq<byte>)
    requires |a| == |b| <= 2 && a != b
    ensures Xmodem(before + a + after) != Xmodem(before + b + after)
  {
    var f := MsbFirst(Top(CCITT_POLY));
    var init := Rev32(Top(0));
    assert Invertible(true, f) && InRegister(true, init);
    hide Msb16, Fold, Invertible, InRegister, Top, Rev32;
    FoldBurst(true, f, init, before, a, b, after);
    Msb16IsFold(CCITT_POLY, 0, before + a + after);
    Msb16IsFold(CCITT_POLY, 0, before + b + after);
  }

  // ---- chaining calls that complement ----

  /** The result, and saved seed, of one crc32_upd call. */
  function Crc32Call(seed: bv32, data: seq<byte>, reflect: bool): bv32 {
    var c := Lsb32(CRC32_POLY, seed, data);
    if reflect then Complement(c) else c
  }

  lemma Lsb32Complement(poly: bv32, r: bv32, data: seq<byte>)
    requires IsHigh(poly)
    ensures Lsb32(poly, Complement(r), data) != Lsb32(poly, r, data)
  {
    assert Invertible(false, LsbFirst(poly)) && InRegister(false, r) && InRegister(false, Complement(r));
    hide Lsb32, Fold, Invertible, InRegister, Complement;
    ComplementDiffers(r);
    Lsb32IsFold(poly, r, data);
    Lsb32IsFold(poly, !r, data);
    if Lsb32(poly, Complement(r), data) == Lsb32(poly, r, data) {
      FoldInjective(false, LsbFirst(poly), Complement(r), r, data);
    }
  }

  /** Two calls give the CRC of the concatenation exactly when the first did not complement. */
  lemma Crc32Chaining(seed: bv32, a: seq<byte>, b: seq<byte>, reflectFirst: bool, reflectLast: bool)
    ensures Crc32Call(Crc32Call(seed, a, reflectFirst), b, reflectLast) == Crc32Call(seed, a + b, reflectLast)
       <==> !reflectFirst
  {
    assert IsHigh(CRC32_POLY);
    hide Lsb32, IsHigh, Complement;
    var c := Lsb32(CRC32_POLY, seed, a);
    Lsb32Splits(CRC32_POLY, seed, a, b);
    Lsb32Complement(CRC32_POLY, c, b);
    ComplementInvolution(Lsb32(CRC32_POLY, Complement(c), b));
    ComplementInvolution(Lsb32(CRC32_POLY, c, b));
  }

  /** Any number of calls without complement, then one with or without, is one call on the whole. */
  lemma Crc32Streaming(seed: bv32, chunks: seq<seq<byte>>, last: seq<byte>, reflect: bool)
    ensures Crc32Call(Chunked(LsbSeed32(CRC32_POLY), seed, chunks), last, reflect)
         == Crc32Call(seed, Flatten(chunks) + last, reflect)
  {
    hide Lsb32, Complement, Chunked;
    Streaming(0, CRC32_POLY, 0, seed, chunks);
    Lsb32Splits(CRC32_POLY, seed, Flatten(chunks), last);
  }
}
