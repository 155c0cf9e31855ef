/** The simulator's bit-banged serial pins, stepped by its clock. */
module SerialPins {
  import opened Words
  import opened SerialBits

  // ---- what one step of each pin does ----

  /** A bit of a character. */
  type BitPos = k: nat | k < SERIAL_BITS

  /** The next bit to sample, or -1. */
  type SamplePos = k: int | -1 <= k < SERIAL_BITS

  /** The transmitter; pos is the next bit of current to send, 0 between characters. */
  datatype Tx = Tx(current: bv16, pos: BitPos, queue: seq<byte>, high: bool)

  /** The receiver; pos is the next bit to sample, -1 when waiting for a start bit. */
  datatype Rx = Rx(current: bv16, pos: SamplePos, queue: seq<byte>, high: bool)

  /** A transmitter step; false means the pin asks not to be called again. */
  function TxStep(tx: Tx): (Tx, bool) {
    if tx.pos == 0 && tx.queue == [] then (tx, false)
    else
      var loaded := if tx.pos == 0 then tx.(current := Frame(tx.queue[0]), queue := tx.queue[1..]) else tx;
      (loaded.(high := Bit(loaded.current, tx.pos), pos := (tx.pos + 1) % SERIAL_BITS), true)
  }

  /** A change of level at the receiver; true means a start bit was seen and the pin wants to be called. */
  function RxSet(rx: Rx, high: bool): (Rx, bool) {
    if rx.pos < 0 && !high then (rx.(high := high, pos := 0), true) else (rx.(high := high), false)
  }

  /** A sample; the second result is the time to the next one, -1 for none. */
  function RxStep(rx: Rx, delay: nat): (Rx, int)
    requires 0 <= rx.pos
  {
    var current := Sampled(rx.current, rx.pos, rx.high);
    if rx.pos + 1 == 1 then (rx.(current := current, pos := 1), 3 * delay / 2)
    else if rx.pos + 1 >= SERIAL_BITS then
      (rx.(current := 0, pos := -1, queue := rx.queue + [CharOf(current)]), -1)
    else (rx.(current := current, pos := rx.pos + 1), delay)
  }

  class SerialTxPin {
    const delay: nat
    var current: bv16
    var pos: BitPos
    var queue: seq<byte>
    var high: bool

    constructor (delay: nat)
      ensures this.delay == delay && State() == Tx(0, 0, [], true)
    {
      this.delay := delay;
      high, current, pos, queue := true, 0, 0, [];
    }

    function State(): Tx
      reads this
    {
      Tx(current, pos, queue, high)
    }

    method DoStep() returns (next: int)
      modifies this
      ensures TxStep(old(State())) == (State(), next >= 0)
      ensures next == if TxStep(old(State())).1 then delay as int else -1
    {
      hide Frame, Bit;
      if pos == 0 {
        if queue == [] {
          return -1;
        }
        current := Frame(queue[0]);
        queue := queue[1..];
      }
      var newstate := false;
      if Bit(current, pos) {
        newstate := true;
      }
      high := newstate;
      var after := pos + 1;
      if after >= SERIAL_BITS {
        after := 0;
      }
      pos := after;
      return delay;
    }

    /** Queues characters; the result tells whether the clock was asked to call the pin now. */
    method PushChars(c: seq<byte>) returns (add: bool)
      modifies this
      ensures State() == old(State()).(queue := old(queue) + c)
      ensures add <==> old(queue) == []
    {
      add := queue == [];
      queue := queue + c;
    }
  }

  class SerialRxPin {
    const delay: nat
    var current: bv16
    var pos: SamplePos
    var queue: seq<byte>
    var high: bool

    constructor (delay: nat)
      ensures this.delay == delay && State() == Rx(0, -1, [], true)
    {
      this.delay := delay;
      high, current, pos, queue := true, 0, -1, [];
    }

    function State(): Rx
      reads this
    {
      Rx(current, pos, queue, high)
    }

    method SetInState(level: bool) returns (add: bool)
      modifies this
      ensures RxSet(old(State()), level) == (State(), add)
      ensures add <==> old(pos) < 0 && !level
      ensures high == level && pos == (if add then 0 else old(pos))
      ensures current == old(current) && queue == old(queue)
    {
      high := level;
      add := false;
      if pos < 0 && !level {
        pos := 0;
        add := true;
      }
    }

    method DoStep() returns (next: int)
      requires 0 <= pos
      modifies this
      ensures RxStep(old(State()), delay) == (State(), next)
    {
      hide Sampled, CharOf;
      current := Sampled(current, pos, high);
      var after := pos + 1;
      if after == 1 {
        pos := after;
        return 3 * delay / 2;
      }
      if after >= SERIAL_BITS {
        queue := queue + [CharOf(current)];
        pos := -1;
        current := 0;
        return -1;
      }
      pos := after;
      return delay;
    }

    method PopChars() returns (d: seq<byte>)
      modifies this
      ensures d == old(queue) && State() == old(State()).(queue := [])
    {
      d := queue;
      queue := [];
    }
  }
}
