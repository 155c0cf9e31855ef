/** The ten bits of a serial character and what sampling them one by one adds up to. */
module SerialBits {
  import opened Words

  const SERIAL_BITS := 10

  /** The ten bits sent for a character: start (low), eight data bits low first, stop (high). */
  function Frame(c: byte): bv16 {
    ((c as bv16) << 1) | 0x200
  }

  function And16(x: bv16, y: bv16): bv16 { x & y }

  function Or16(x: bv16, y: bv16): bv16 { x | y }

  function OneAt(k: nat): bv16
    requires k < 16
  {
    1 << k
  }

  predicate Bit(f: bv16, k: nat)
    requires k < 16
  {
    And16(f, OneAt(k)) != 0
  }

  /** The receiver's register with the level sampled for bit k added. */
  function Sampled(current: bv16, k: nat, high: bool): bv16
    requires k < 16
  {
    Or16(current, if high then OneAt(k) else 0)
  }

  function Mask(k: nat): bv16
    requires k <= 10
  {
    [0, 1, 3, 7, 0xF, 0x1F, 0x3F, 0x7F, 0xFF, 0x1FF, 0x3FF][k]
  }

  /** The low k bits of a frame. */
  function Low(f: bv16, k: nat): bv16
    requires k <= 10
  {
    And16(f, Mask(k))
  }

  function CharOf(current: bv16): byte {
    ((current >> 1) & 0xff) as byte
  }

  lemma MaskGrows(k: nat)
    requires k < 10
    ensures Or16(Mask(k), OneAt(k)) == Mask(k + 1)
  {
    if k == 0 {} else if k == 1 {} else if k == 2 {} else if k == 3 {} else if k == 4 {}
    else if k == 5 {} else if k == 6 {} else if k == 7 {} else if k == 8 {} else {}
  }

  lemma OneBit(f: bv16, k: nat)
    requires k < 10 && Bit(f, k)
    ensures And16(f, OneAt(k)) == OneAt(k)
  {
    if k == 0 {} else if k == 1 {} else if k == 2 {} else if k == 3 {} else if k == 4 {}
    else if k == 5 {} else if k == 6 {} else if k == 7 {} else if k == 8 {} else {}
  }

  lemma AddSetBit(f: bv16, m: bv16, p: bv16)
    requires And16(f, p) == p
    ensures Or16(And16(f, m), p) == And16(f, Or16(m, p))
  {}

  lemma AddClearBit(f: bv16, m: bv16, p: bv16)
    requires And16(f, p) == 0
    ensures Or16(And16(f, m), 0) == And16(f, Or16(m, p))
  {}

  lemma SamplingExtends(f: bv16, k: nat)
    requires k < 10
    ensures Sampled(Low(f, k), k, Bit(f, k)) == Low(f, k + 1)
  {
    hide Mask, And16, Or16, OneAt;
    MaskGrows(k);
    if Bit(f, k) {
      OneBit(f, k);
      AddSetBit(f, Mask(k), OneAt(k));
    } else {
      AddClearBit(f, Mask(k), OneAt(k));
    }
  }

  lemma WholeFrame(c: byte)
    ensures CharOf(Low(Frame(c), 10)) == c
  {}

  lemma StartAndStop(c: byte)
    ensures !Bit(Frame(c), 0)
    ensures Bit(Frame(c), 9)
  {}

  /** Between them come the character's bits, low first. */
  lemma DataBits(c: byte, k: nat)
    requires k < 8
    ensures Bit(Frame(c), k + 1) <==> (c >> k) & 1 == 1
  {
    if k == 0 {} else if k == 1 {} else if k == 2 {} else if k == 3 {}
    else if k == 4 {} else if k == 5 {} else if k == 6 {} else {}
  }

  lemma NothingSampled(f: bv16)
    ensures Low(f, 0) == 0
  {}
}
