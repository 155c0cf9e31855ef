/** The reference CRCs seen in the one byte-ordered 32-bit register that the table lookups use:
    a 16-bit register is its low half, and an MSB-first register is kept with its bytes reversed. */
module CrcRefinement {
  import opened Iteration
  import opened Words
  import opened BitwiseCrc
  import opened CrcAlgebra

  function Wide(r: bv16): bv32 { r as bv32 }

  function Top(r: bv16): bv32 { (r as bv32) << 16 }

  /** The generic REV16 on the only values it is applied to. */
  function Rev16(value: bv16): bv16 {
    (value >> 8) | ((value & 0xff) << 8)
  }

  lemma Rev16Involution(x: bv16)
    ensures Rev16(Rev16(x)) == x
  {}

  lemma Rev32Wide(r: bv16)
    ensures Rev32(Wide(Rev16(r))) == Top(r)
  {}

  lemma Rev32Top(r: bv16)
    ensures Rev32(Top(r)) == Wide(Rev16(r))
  {
    Rev32Wide(r);
    Rev32Involution(Wide(Rev16(r)));
  }

  lemma WideInjective(x: bv16, y: bv16)
    ensures Wide(x) == Wide(y) <==> x == y
  {}

  lemma TopAdditive(x: bv16, y: bv16)
    ensures Top(Xor16(x, y)) == Xor(Top(x), Top(y))
  {}

  lemma TopShifts(x: bv16)
    ensures Top(Shl16(x)) == ShiftLeft(Top(x))
    ensures IsHigh16(x) == IsHigh(Top(x))
  {}

  // ---- single steps ----

  lemma Lsb32StepIsLsbStep(poly: bv32, r: bv32)
    ensures Lsb32Step(poly, r) == LsbStep(poly, r)
  {
    hide Xor, ShiftRight, IsOdd;
    XorZero(ShiftRight(r));
  }

  lemma Msb32StepIsMsbStep(poly: bv32, r: bv32)
    ensures Msb32Step(poly, r) == MsbStep(poly, r)
  {
    hide Xor, ShiftLeft, IsHigh;
    XorZero(ShiftLeft(r));
  }

  lemma Lsb16StepWide(poly: bv16, r: bv16)
    ensures Wide(Lsb16Step(poly, r)) == LsbStep(Wide(poly), Wide(r))
  {}

  lemma Msb16StepTop(poly: bv16, r: bv16)
    ensures Top(Msb16Step(poly, r)) == MsbStep(Top(poly), Top(r))
  {
    hide IsHigh16, Xor16, Shl16, Top, Xor, ShiftLeft, IsHigh;
    TopShifts(r);
    TopAdditive(Shl16(r), poly);
    XorZero(ShiftLeft(Top(r)));
  }

  lemma Intertwined(poly: bv32, poly16: bv16)
    ensures Intertwines(y => y, Lsb32Stepper(poly), LsbStepper(poly))
    ensures Intertwines(y => y, Msb32Stepper(poly), MsbStepper(poly))
    ensures Intertwines(Wide, Lsb16Stepper(poly16), LsbStepper(Wide(poly16)))
    ensures Intertwines(Top, Msb16Stepper(poly16), MsbStepper(Top(poly16)))
  {
    hide Lsb32Step, Msb32Step, Lsb16Step, Msb16Step, LsbStep, MsbStep, Wide, Top;
    forall y: bv32
      ensures Lsb32Step(poly, y) == LsbStep(poly, y) && Msb32Step(poly, y) == MsbStep(poly, y)
    {
      Lsb32StepIsLsbStep(poly, y);
      Msb32StepIsMsbStep(poly, y);
    }
    forall y: bv16
      ensures Wide(Lsb16Step(poly16, y)) == LsbStep(Wide(poly16), Wide(y))
      ensures Top(Msb16Step(poly16, y)) == MsbStep(Top(poly16), Top(y))
    {
      Lsb16StepWide(poly16, y);
      Msb16StepTop(poly16, y);
    }
  }

  lemma WideAdditive(x: bv16, y: bv16)
    ensures Wide(Xor16(x, y)) == Xor(Wide(x), Wide(y))
  {}

  lemma WideWidens(b: byte)
    ensures Wide(Widen16(b)) == Widen(b)
  {}

  lemma AtTopReverses(b: byte)
    ensures AtTop(b) == Rev32(Widen(b))
  {}

  lemma TopAtTop(b: byte)
    ensures Top(AtTop16(b)) == AtTop(b)
  {}

  // ---- whole inputs ----

  lemma {:induction false} Lsb32IsFold(poly: bv32, r: bv32, data: seq<byte>)
    ensures Lsb32(poly, r, data) == Fold(LsbFirst(poly), r, data)
    decreases data
  {
    if data == [] {
    } else {
      Intertwined(poly, 0);
      hide Xor, Widen, Lsb32Stepper, LsbStepper;
      var x := Xor(r, Widen(data[0]));
      IterateIntertwines(y => y, Lsb32Stepper(poly), LsbStepper(poly), 8, x);
      Lsb32IsFold(poly, Steps(LsbFirst(poly), 8, x), data[1..]);
    }
  }

  lemma {:induction false} Lsb16IsFold(poly: bv16, r: bv16, data: seq<byte>)
    ensures Wide(Lsb16(poly, r, data)) == Fold(LsbFirst(Wide(poly)), Wide(r), data)
    decreases data
  {
    if data == [] {
    } else {
      Intertwined(0, poly);
      hide Xor, Xor16, Widen, Widen16, Wide, Lsb16Stepper, LsbStepper;
      var x := Xor16(r, Widen16(data[0]));
      WideAdditive(r, Widen16(data[0]));
      WideWidens(data[0]);
      IterateIntertwines(Wide, Lsb16Stepper(poly), LsbStepper(Wide(poly)), 8, x);
      Lsb16IsFold(poly, Iterate(Lsb16Stepper(poly), 8, x), data[1..]);
    }
  }

  lemma {:induction false} Msb32IsFold(poly: bv32, x: bv32, data: seq<byte>)
    ensures Rev32(Msb32(poly, Rev32(x), data)) == Fold(MsbFirst(poly), x, data)
    decreases data
  {
    Rev32Involution(x);
    if data == [] {
    } else {
      AtTopReverses(data[0]);
      Rev32Additive(x, Widen(data[0]));
      Intertwined(poly, 0);
      hide Xor, Widen, AtTop, Rev32, Msb32Stepper, MsbStepper;
      var y := Rev32(Xor(x, Widen(data[0])));
      IterateIntertwines(y => y, Msb32Stepper(poly), MsbStepper(poly), 8, y);
      Rev32Involution(Iterate(Msb32Stepper(poly), 8, y));
      Msb32IsFold(poly, Steps(MsbFirst(poly), 8, Xor(x, Widen(data[0]))), data[1..]);
    }
  }

  lemma {:induction false} Msb16IsFold(poly: bv16, r: bv16, data: seq<byte>)
    ensures Rev32(Top(Msb16(poly, r, data))) == Fold(MsbFirst(Top(poly)), Rev32(Top(r)), data)
    decreases data
  {
    if data == [] {
    } else {
      Intertwined(0, poly);
      hide Xor, Xor16, Widen, AtTop, AtTop16, Rev32, Top, Msb16Stepper, MsbStepper;
      var y := Xor16(r, AtTop16(data[0]));
      AtTopReverses(data[0]);
      TopAtTop(data[0]);
      TopAdditive(r, AtTop16(data[0]));
      Rev32Involution(Top(r));
      Rev32Additive(Rev32(Top(r)), Widen(data[0]));
      IterateIntertwines(Top, Msb16Stepper(poly), MsbStepper(Top(poly)), 8, y);
      Msb16IsFold(poly, Iterate(Msb16Stepper(poly), 8, y), data[1..]);
    }
  }
}
