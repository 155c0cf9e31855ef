/** A transmitter and a receiver pin joined by a wire, each called when the clock says. */
module SerialWire {
  import opened Words
  import opened Wrappers
  import opened SerialBits
  import opened SerialPins

  /** Both pins, their bit times, and when the clock calls them next. */
  datatype System = System(tx: Tx, rx: Rx, dt: nat, dr: nat, txDue: Option<nat>, rxDue: Option<nat>)

  /** The earliest call, the transmitter's first when both are due together; setting its pin is seen
      by the receiver at once. */
  function Event(s: System): System {
    if s.txDue.Some? && (s.rxDue.None? || s.txDue.value <= s.rxDue.value) then
      var (tx, again) := TxStep(s.tx);
      if !again then s.(tx := tx, txDue := None)
      else
        var (rx, add) := RxSet(s.rx, tx.high);
        s.(tx := tx, txDue := Some(s.txDue.value + s.dt), rx := rx, rxDue := if add then s.txDue else s.rxDue)
    else if s.rxDue.Some? && 0 <= s.rx.pos then
      var (rx, next) := RxStep(s.rx, s.dr);
      s.(rx := rx, rxDue := if next < 0 then None else Some(s.rxDue.value + next))
    else s
  }

  function Events(s: System, n: nat): System
    decreases n
  {
    if n == 0 then s else Events(Event(s), n - 1)
  }

  /** When sample k of a character is taken, counted from its start bit. */
  function SampleTime(dr: nat, k: nat): nat
    requires 1 <= k
  {
    3 * dr / 2 + (k - 1) * dr
  }

  /** Sample k is taken while bit k is on the wire. */
  predicate OnTime(dt: nat, dr: nat, k: nat)
    requires 1 <= k
  {
    k * dt <= SampleTime(dr, k) < (k + 1) * dt
  }

  predicate Timely(dt: nat, dr: nat) {
    forall k: nat :: 1 <= k <= 9 ==> OnTime(dt, dr, k)
  }

  /** Both pins at rest; next the transmitter is called at time t. */
  predicate Ready(s: System, t: nat) {
    && Timely(s.dt, s.dr)
    && s.tx.pos == 0 && s.txDue == Some(t)
    && s.rx.pos == -1 && s.rx.current == 0 && s.rxDue == None
  }

  /** k bits of c have been sent and sampled, the character having started at time t. */
  predicate Midway(s: System, t: nat, c: byte, k: nat)
    requires 1 <= k <= 9
  {
    && Timely(s.dt, s.dr)
    && s.tx.pos == k && s.tx.current == Frame(c) && s.txDue == Some(t + k * s.dt)
    && s.rx.pos == k && s.rx.current == Low(Frame(c), k) && s.rxDue == Some(t + SampleTime(s.dr, k))
  }

  lemma TwoEvents(s: System)
    ensures Events(s, 2) == Event(Event(s))
  {
    hide Event;
    assert Events(Event(Event(s)), 0) == Event(Event(s));
  }

  lemma InTime(dt: nat, dr: nat, k: nat)
    requires Timely(dt, dr) && 1 <= k <= 9
    ensures k * dt <= SampleTime(dr, k) < (k + 1) * dt
  {
    assert OnTime(dt, dr, k);
  }

  lemma NextBit(dt: nat, k: nat)
    ensures (k + 1) * dt == k * dt + dt
  {}

  lemma StartBit(s: System, t: nat)
    requires Ready(s, t) && s.tx.queue != []
    ensures var s' := Events(s, 2);
      && Midway(s', t, s.tx.queue[0], 1)
      && s'.tx.queue == s.tx.queue[1..] && s'.rx.queue == s.rx.queue && s'.dt == s.dt && s'.dr == s.dr
  {
    var c := s.tx.queue[0];
    StartSampled(c);
    BitTakesTime(s.dt, s.dr);
    TwoEvents(s);
    hide Frame, Bit, Sampled, Low, CharOf, SampleTime, Timely, Events, Event;
    FirstSample(s.dr);
    FallingEdge(s, t);
    FirstDelay(Event(s), t);
  }

  lemma StartSampled(c: byte)
    ensures !Bit(Frame(c), 0) && Sampled(0, 0, false) == Low(Frame(c), 1)
  {
    hide Frame, Bit, Sampled, Low;
    StartAndStop(c);
    NothingSampled(Frame(c));
    SamplingExtends(Frame(c), 0);
  }

  lemma BitTakesTime(dt: nat, dr: nat)
    requires Timely(dt, dr)
    ensures 0 < dt == 1 * dt
  {
    InTime(dt, dr, 1);
  }

  lemma FirstSample(dr: nat)
    ensures SampleTime(dr, 1) == 3 * dr / 2
  {}

  /** The transmitter drops the line and the receiver asks to be called at once. */
  lemma FallingEdge(s: System, t: nat)
    requires Ready(s, t) && s.tx.queue != [] && !Bit(Frame(s.tx.queue[0]), 0)
    ensures Event(s) == s.(
      tx := Tx(Frame(s.tx.queue[0]), 1, s.tx.queue[1..], false), txDue := Some(t + s.dt),
      rx := s.rx.(high := false, pos := 0), rxDue := Some(t))
  {
    hide Frame, Bit, Timely;
  }

  /** The start bit is sampled and one and a half bit times are waited. */
  lemma FirstDelay(s: System, t: nat)
    requires s.rx.pos == 0 && s.rxDue == Some(t) && s.txDue.Some? && t < s.txDue.value
    ensures Event(s) == s.(
      rx := s.rx.(current := Sampled(s.rx.current, 0, s.rx.high), pos := 1), rxDue := Some(t + 3 * s.dr / 2))
  {
    hide Sampled;
  }

  lemma NextSample(dr: nat, k: nat)
    requires 1 <= k
    ensures SampleTime(dr, k + 1) == SampleTime(dr, k) + dr
  {}

  lemma MiddleBit(s: System, t: nat, c: byte, k: nat)
    requires 1 <= k < 9 && Midway(s, t, c, k)
    ensures var s' := Events(s, 2);
      && Midway(s', t, c, k + 1)
      && s'.tx.queue == s.tx.queue && s'.rx.queue == s.rx.queue && s'.dt == s.dt && s'.dr == s.dr
  {
    SamplingExtends(Frame(c), k);
    NextSample(s.dr, k);
    NextBit(s.dt, k);
    InTime(s.dt, s.dr, k);
    TwoEvents(s);
    hide Frame, Bit, Sampled, Low, CharOf, SampleTime, Timely, Events;
    var s1 := Event(s);
    assert s1.tx.pos == k + 1 && s1.tx.current == Frame(c) && s1.txDue == Some(t + (k + 1) * s.dt);
    assert s1.rx == s.rx.(high := Bit(Frame(c), k)) && s1.rxDue == s.rxDue;
  }

  lemma StopBit(s: System, t: nat, c: byte)
    requires Midway(s, t, c, 9)
    ensures var s' := Events(s, 2);
      && Ready(s', t + 10 * s.dt)
      && s'.tx.queue == s.tx.queue && s'.rx.queue == s.rx.queue + [c] && s'.dt == s.dt && s'.dr == s.dr
  {
    SamplingExtends(Frame(c), 9);
    WholeFrame(c);
    InTime(s.dt, s.dr, 9);
    TwoEvents(s);
    hide Frame, Bit, Sampled, Low, CharOf, SampleTime, Timely, Events;
  }

  lemma {:induction false} EventsSum(s: System, m: nat, n: nat)
    ensures Events(s, m + n) == Events(Events(s, m), n)
    decreases m
  {
    hide Event;
    if m != 0 {
      EventsSum(Event(s), m - 1, n);
    }
  }

  lemma {:induction false} RestOfCharacter(s: System, t: nat, c: byte, k: nat)
    requires 1 <= k <= 9 && Midway(s, t, c, k)
    ensures var s' := Events(s, 2 * (10 - k));
      && Ready(s', t + 10 * s.dt)
      && s'.tx.queue == s.tx.queue && s'.rx.queue == s.rx.queue + [c] && s'.dt == s.dt && s'.dr == s.dr
    decreases 9 - k
  {
    hide Midway, Ready, Events, Event;
    if k == 9 {
      StopBit(s, t, c);
    } else {
      MiddleBit(s, t, c, k);
      RestOfCharacter(Events(s, 2), t, c, k + 1);
      EventsSum(s, 2, 2 * (9 - k));
    }
  }

  lemma CharacterDelivered(s: System, t: nat)
    requires Ready(s, t) && s.tx.queue != []
    ensures var s' := Events(s, 20);
      && Ready(s', t + 10 * s.dt)
      && s'.tx.queue == s.tx.queue[1..] && s'.rx.queue == s.rx.queue + [s.tx.queue[0]] && s'.dt == s.dt
  {
    hide Ready, Midway, Events, Event;
    StartBit(s, t);
    RestOfCharacter(Events(s, 2), t, s.tx.queue[0], 1);
    EventsSum(s, 2, 18);
  }

  /** When n characters started at time t are done. */
  function EndTime(t: nat, dt: nat, n: nat): nat
    decreases n
  {
    if n == 0 then t else EndTime(t + 10 * dt, dt, n - 1)
  }

  /** Every character queued at the transmitter arrives, in order, and both pins come to rest ready
      for the next. */
  lemma {:induction false} QueueDelivered(s: System, t: nat)
    requires Ready(s, t)
    ensures var s' := Events(s, 20 * |s.tx.queue|);
      && Ready(s', EndTime(t, s.dt, |s.tx.queue|))
      && s'.tx.queue == [] && s'.rx.queue == s.rx.queue + s.tx.queue
    decreases |s.tx.queue|
  {
    hide *;
    if s.tx.queue == [] {
      assert s.rx.queue + [] == s.rx.queue;
      NoEvents(s);
      NoCharacters(t, s.dt);
    } else {
      var q, s1 := s.tx.queue, Events(s, 20);
      CharacterDelivered(s, t);
      QueueDelivered(s1, t + 10 * s.dt);
      EventsSum(s, 20, 20 * (|q| - 1));
      OneMoreCharacter(t, s.dt, |q|);
      Rejoin(s.rx.queue, q);
    }
  }

  lemma Rejoin(r: seq<byte>, q: seq<byte>)
    requires q != []
    ensures r + [q[0]] + q[1..] == r + q && |q[1..]| == |q| - 1
  {}

  lemma NoCharacters(t: nat, dt: nat)
    ensures EndTime(t, dt, 0) == t
  {}

  lemma OneMoreCharacter(t: nat, dt: nat, n: nat)
    requires 1 <= n
    ensures EndTime(t, dt, n) == EndTime(t + 10 * dt, dt, n - 1)
    ensures 20 + 20 * (n - 1) == 20 * n
  {}

  lemma NoEvents(s: System)
    ensures Events(s, 0) == s
  {}

  /** Nothing queued and nothing scheduled, the line at rest. */
  predicate Idle(s: System) {
    && s.tx.pos == 0 && s.tx.queue == [] && s.txDue == None
    && s.rx.pos == -1 && s.rx.current == 0 && s.rxDue == None
  }

  /** Called once more with nothing queued, the transmitter goes to rest. */
  lemma LastCall(s: System, t: nat)
    requires Ready(s, t) && s.tx.queue == []
    ensures Idle(Events(s, 1)) && Events(s, 1).rx.queue == s.rx.queue
  {
    hide Timely;
    NoEvents(Event(s));
  }

  /** The system just after characters are pushed to an idle transmitter at time now. */
  function Pushed(s: System, c: seq<byte>, now: nat): System {
    s.(tx := s.tx.(queue := s.tx.queue + c), txDue := Some(now))
  }

  /** A string pushed to an idle transmitter is queued by the receiver, whole and in order, and the
      system is idle again. */
  lemma RoundTrip(s: System, c: seq<byte>, now: nat)
    requires Idle(s) && Timely(s.dt, s.dr)
    ensures var s' := Events(Pushed(s, c, now), 20 * |c| + 1);
      Idle(s') && s'.rx.queue == s.rx.queue + c
  {
    hide Events, Timely;
    var p := Pushed(s, c, now);
    assert p.tx.queue == c;
    assert Ready(p, now);
    QueueDelivered(p, now);
    EventsSum(p, 20 * |c|, 1);
    LastCall(Events(p, 20 * |c|), EndTime(now, s.dt, |c|));
  }

  /** The first and the last sample decide. */
  lemma TwoSamplesDecide(dt: nat, dr: nat)
    ensures Timely(dt, dr) <==> OnTime(dt, dr, 1) && OnTime(dt, dr, 9)
  {
    if OnTime(dt, dr, 1) && OnTime(dt, dr, 9) {
      forall k: nat | 1 <= k <= 9 ensures OnTime(dt, dr, k) {
        BetweenSamples(dt, dr, 3 * dr / 2, k);
      }
    }
  }

  lemma BetweenSamples(dt: nat, dr: nat, first: nat, k: nat)
    requires 1 <= k <= 9 && dt <= first < 2 * dt && 9 * dt <= first + 8 * dr < 10 * dt
    ensures k * dt <= first + (k - 1) * dr < (k + 1) * dt
  {
    if k == 1 {} else if k == 2 {} else if k == 3 {} else if k == 4 {} else if k == 5 {}
    else if k == 6 {} else if k == 7 {} else if k == 8 {} else {}
  }

  /** With equal bit times every sample is taken in the middle of its bit, as near as whole ticks allow. */
  lemma SampledInTheMiddle(dt: nat, k: nat)
    requires 1 <= k
    ensures 0 <= (2 * k + 1) * dt - 2 * SampleTime(dt, k) <= 1
  {
    assert (2 * k + 1) * dt == 2 * ((k - 1) * dt) + 3 * dt;
  }

  /** Equal bit times will do, down to a single tick. */
  lemma EqualBaudIsTimely(dt: nat)
    requires 1 <= dt
    ensures Timely(dt, dt)
  {
    forall k: nat | 1 <= k <= 9 ensures OnTime(dt, dt, k) {
      assert (k - 1) * dt == k * dt - dt && (k + 1) * dt == k * dt + dt;
    }
  }
}
