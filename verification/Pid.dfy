/** The integer PID controllers. Values of type long are unbounded here; the unsigned types wrap. */
module Pid {
  import opened Integers

  function Whole(n: nat, d: nat): nat
    requires 0 < d
  {
    n / d
  }

  /** The division of C: rounds towards zero. */
  function Quotient(n: int, d: int): int
    requires 0 < d
  {
    if n < 0 then 0 - Whole(-n, d) else Whole(n, d)
  }

  /** q is n over d, brought to the next whole number towards zero. */
  predicate RoundedToZero(q: int, n: int, d: int) {
    if 0 <= n then 0 <= q && d * q <= n < d * (q + 1) else q <= 0 && d * (q - 1) < n <= d * q
  }

  lemma WholeRounds(n: nat, d: nat)
    requires 0 < d
    ensures d * Whole(n, d) <= n < d * Whole(n, d) + d
  {
    assert n == d * (n / d) + n % d;
  }

  lemma Distribute(d: int, q: int)
    ensures d * (q + 1) == d * q + d && d * (-q) == -(d * q) && d * (-q - 1) == -(d * q) - d
  {}

  lemma QuotientRounds(n: int, d: int)
    requires 0 < d
    ensures RoundedToZero(Quotient(n, d), n, d)
  {
    hide Whole;
    var m: nat := if n < 0 then -n else n;
    WholeRounds(m, d);
    Distribute(d, Whole(m, d));
  }

  lemma QuotientMonotone(n: int, m: int, d: int)
    requires 0 < d && n <= m
    ensures Quotient(n, d) <= Quotient(m, d)
  {
    QuotientRounds(n, d);
    QuotientRounds(m, d);
    hide Quotient;
    MulOrderInt(Quotient(n, d), Quotient(m, d) + 1, d);
    MulOrderInt(Quotient(n, d) - 1, Quotient(m, d), d);
  }

  lemma MulOrderInt(a: int, b: int, d: int)
    requires 0 < d
    ensures d * a < d * b <==> a < b
  {}

  function Times(gain: int, x: int): int { gain * x }

  function Clamp(x: int, lo: int, hi: int): (r: int)
    requires lo <= hi
    ensures lo <= r <= hi
    ensures lo <= x <= hi ==> r == x
  {
    if x > hi then hi else if x < lo then lo else x
  }

  /** Nothing inside the limits is closer. */
  lemma ClampNearest(x: int, lo: int, hi: int, y: int)
    requires lo <= y <= hi
    ensures var r := Clamp(x, lo, hi); y <= r <= x || x <= r <= y || r == x
  {}

  /** Time since then on a 32-bit millisecond clock that wraps. */
  function Elapsed(now: uint32, then_: uint32): uint32 {
    (now - then_) % 0x1_0000_0000
  }

  lemma ElapsedLater(now: uint32, then_: uint32)
    ensures (then_ + Elapsed(now, then_)) % 0x1_0000_0000 == now
  {}

  datatype Gains = Gains(kp: uint16, ki: uint16, kd: uint16)

  /** The integral gain as scaled for the sample time, before it is stored in sixteen bits. */
  function IntegralGain(i: nat, sampleTime: nat): nat
    requires 1 <= sampleTime <= 1000
  {
    QuotientAtLeast(1000, sampleTime, 1);
    i * 1024 / (1000 / sampleTime)
  }

  /** The gains for the tunings as entered, DIRECT action. */
  function GainsFor(p: uint8, i: uint8, d: uint8, sampleTime: uint16): Gains
    requires 1 <= sampleTime <= 1000
  {
    Gains(p, Wrap16(IntegralGain(i, sampleTime)), Wrap16(d * (1000 / sampleTime)))
  }

  /** The integral sum after one computation: clamped after the integral part, and again after the
      proportional part when that acts on the measurement. */
  function SumStep(sum: int, g: Gains, error: int, dInput: int, pOnE: bool, lo: int, hi: int): (r: int)
    requires lo <= hi
    ensures lo <= r <= hi
  {
    var integrated := Clamp(sum + Quotient(Times(g.ki, error), 1024), lo, hi);
    if pOnE then integrated else Clamp(integrated - Times(g.kp, dInput), lo, hi)
  }

  /** The output that goes with the new sum. */
  function OutputFor(sum: int, g: Gains, error: int, dInput: int, pOnE: bool, lo: int, hi: int): (r: int)
    requires lo <= hi
    ensures lo <= r <= hi
  {
    Clamp((if pOnE then Times(g.kp, error) + sum else sum) - Quotient(Times(g.kd, dInput), 128), lo, hi)
  }

  // ---- which way the terms act ----

  /** The output is the sum and the proportional part, less the derivative part. */
  predicate Balanced(g: Gains, sum: int, output: int, error: int, dInput: int, pOnE: bool) {
    RoundedToZero(sum + (if pOnE then g.kp * error else 0) - output, g.kd * dInput, 128)
  }

  /** The sum has moved by the integral part of the error, and with proportional action on the measurement
      fallen by exactly kp times the rise of the input; either step is exact where no limit stopped it. */
  predicate Integrated(g: Gains, was: int, sum: int, error: int, dInput: int, pOnE: bool, lo: int, hi: int) {
    var before := if pOnE then sum else sum + g.kp * dInput;
    lo < sum < hi && lo < before < hi ==> RoundedToZero(before - was, g.ki * error, 1024)
  }

  lemma SumMoves(sum: int, g: Gains, error: int, dInput: int, pOnE: bool, lo: int, hi: int)
    requires lo <= hi
    ensures Integrated(g, sum, SumStep(sum, g, error, dInput, pOnE, lo, hi), error, dInput, pOnE, lo, hi)
  {
    QuotientRounds(Times(g.ki, error), 1024);
    hide Quotient, RoundedToZero;
  }

  lemma OutputIs(sum: int, g: Gains, error: int, dInput: int, pOnE: bool, lo: int, hi: int)
    requires lo <= hi
    ensures var out := OutputFor(sum, g, error, dInput, pOnE, lo, hi);
      lo < out < hi ==> Balanced(g, sum, out, error, dInput, pOnE)
  {
    QuotientRounds(Times(g.kd, dInput), 128);
    hide Quotient, RoundedToZero;
  }

  lemma TimesMonotone(gain: nat, x: int, y: int)
    requires x <= y
    ensures Times(gain, x) <= Times(gain, y)
  {}

  lemma TimesZero(gain: nat)
    ensures Times(gain, 0) == 0 && Quotient(0, 1024) == 0
  {}

  /** The faster the input rises, the lower the output; with proportional action on the error, the
      larger the error, the higher. */
  lemma OutputOpposes(sum: int, g: Gains, e1: int, e2: int, d1: int, d2: int, pOnE: bool, lo: int, hi: int)
    requires lo <= hi && e1 <= e2 && d1 <= d2
    ensures OutputFor(sum, g, e1, d2, pOnE, lo, hi) <= OutputFor(sum, g, e2, d1, pOnE, lo, hi)
  {
    TimesMonotone(g.kd, d1, d2);
    TimesMonotone(g.kp, e1, e2);
    QuotientMonotone(Times(g.kd, d1), Times(g.kd, d2), 128);
    hide Times, Quotient;
  }

  /** The larger the error and the slower the input rises, the higher the sum. */
  lemma SumFollows(sum: int, g: Gains, e1: int, e2: int, d1: int, d2: int, pOnE: bool, lo: int, hi: int)
    requires lo <= hi && e1 <= e2 && d1 <= d2
    ensures SumStep(sum, g, e1, d2, pOnE, lo, hi) <= SumStep(sum, g, e2, d1, pOnE, lo, hi)
  {
    TimesMonotone(g.ki, e1, e2);
    TimesMonotone(g.kp, d1, d2);
    QuotientMonotone(Times(g.ki, e1), Times(g.ki, e2), 1024);
    hide Times, Quotient;
  }

  /** Without error and change of input nothing moves, so that the sum never falls with a positive error and
      never rises with a negative one. */
  lemma SumDirection(sum: int, g: Gains, error: int, dInput: int, pOnE: bool, lo: int, hi: int)
    requires lo <= sum <= hi
    ensures 0 <= error && (pOnE || dInput <= 0) ==> sum <= SumStep(sum, g, error, dInput, pOnE, lo, hi)
    ensures error <= 0 && (pOnE || 0 <= dInput) ==> SumStep(sum, g, error, dInput, pOnE, lo, hi) <= sum
  {
    TimesZero(g.ki);
    TimesZero(g.kp);
    assert SumStep(sum, g, 0, 0, pOnE, lo, hi) == sum;
    hide SumStep;
    var d := if pOnE then 0 else dInput;
    SumIgnores(sum, g, error, dInput, lo, hi);
    if 0 <= error && d <= 0 {
      SumFollows(sum, g, 0, error, d, 0, pOnE, lo, hi);
    }
    if error <= 0 && 0 <= d {
      SumFollows(sum, g, error, 0, 0, d, pOnE, lo, hi);
    }
  }

  lemma SumIgnores(sum: int, g: Gains, error: int, dInput: int, lo: int, hi: int)
    requires lo <= hi
    ensures SumStep(sum, g, error, dInput, true, lo, hi) == SumStep(sum, g, error, 0, true, lo, hi)
  {}

  class IntegerPid {
    var dispKp: uint8
    var dispKi: uint8
    var dispKd: uint8
    var gains: Gains
    var output: int
    var lastTime: uint32
    var outputSum: int
    var lastInput: int
    var sampleTime: uint16
    var outMin: int
    var outMax: int
    var inAuto: bool

    constructor (p: uint8, i: uint8, d: uint8, now: uint32)
      ensures Valid() && !inAuto && outMin == 0 && outMax == 255 && sampleTime == 250
      ensures Tuned() && dispKp == p && dispKi == i && dispKd == d
      ensures Elapsed(now, lastTime) == sampleTime
    {
      outMin, outMax, inAuto, sampleTime := 0, 255, false, 250;
      dispKp, dispKi, dispKd := p, i, d;
      gains := GainsFor(p, i, d, 250);
      output, outputSum, lastInput := 0, 0, 0;
      lastTime := Elapsed(now, 250);
    }

    /** In automatic mode the integral sum is inside the output limits. */
    predicate Valid()
      reads this
    {
      && outMin < outMax && 1 <= sampleTime <= 1000
      && (inAuto ==> outMin <= outputSum <= outMax)
    }

    /** The gains in use are those of the displayed tunings at the current sample time. */
    predicate Tuned()
      requires 1 <= sampleTime <= 1000
      reads this
    {
      gains == GainsFor(dispKp, dispKi, dispKd, sampleTime)
    }

    /** The integral sum brought inside the output limits. */
    method LimitSum()
      requires outMin < outMax
      modifies this`outputSum
      ensures outputSum == Clamp(old(outputSum), outMin, outMax)
    {
      if outputSum > outMax {
        outputSum := outMax;
      } else if outputSum < outMin {
        outputSum := outMin;
      }
    }

    /** One call of the control loop at time now. It acts exactly in automatic mode and when the sample
        time has passed, and otherwise changes nothing. */
    method Compute(now: uint32, input: int, setpoint: int, pOnE: bool) returns (r: bool)
      requires Valid()
      modifies this`output, this`outputSum, this`lastInput, this`lastTime
      ensures Valid()
      ensures r <==> inAuto && Elapsed(now, old(lastTime)) >= sampleTime
      ensures !r ==> unchanged(this)
      ensures r ==> lastTime == now && lastInput == input && outMin <= output <= outMax
      ensures r ==>
        var error, dInput := setpoint - input, input - old(lastInput);
        && outputSum == SumStep(old(outputSum), gains, error, dInput, pOnE, outMin, outMax)
        && output == OutputFor(outputSum, gains, error, dInput, pOnE, outMin, outMax)
      ensures r && outMin < output < outMax ==>
        Balanced(gains, outputSum, output, setpoint - input, input - old(lastInput), pOnE)
      ensures r ==> Integrated(gains, old(outputSum), outputSum, setpoint - input, input - old(lastInput), pOnE,
                               outMin, outMax)
    {
      hide Quotient, Times, Elapsed, Balanced, Integrated;
      if !inAuto {
        return false;
      }
      var timeChange := Elapsed(now, lastTime);
      if timeChange >= sampleTime {
        var error := setpoint - input;
        var dInput := input - lastInput;
        outputSum := outputSum + Quotient(Times(gains.ki, error), 1024);
        LimitSum();
        var out;
        if pOnE {
          out := Times(gains.kp, error) + outputSum - Quotient(Times(gains.kd, dInput), 128);
        } else {
          outputSum := outputSum - Times(gains.kp, dInput);
          LimitSum();
          out := outputSum - Quotient(Times(gains.kd, dInput), 128);
        }
        if out > outMax {
          out := outMax;
        } else if out < outMin {
          out := outMin;
        }
        SumMoves(old(outputSum), gains, error, dInput, pOnE, outMin, outMax);
        OutputIs(outputSum, gains, error, dInput, pOnE, outMin, outMax);
        output := out;
        lastInput := input;
        lastTime := now;
        return true;
      } else {
        return false;
      }
    }

    /** New limits, ignored unless they are in order; in automatic mode output and sum are brought inside. */
    method SetOutputLimits(min: int, max: int)
      requires Valid()
      modifies this`outMin, this`outMax, this`output, this`outputSum
      ensures Valid()
      ensures min >= max ==> unchanged(this)
      ensures min < max ==> outMin == min && outMax == max
      ensures min < max && inAuto ==>
        output == Clamp(old(output), min, max) && outputSum == Clamp(old(outputSum), min, max)
      ensures !inAuto ==> output == old(output) && outputSum == old(outputSum)
    {
      if min >= max {
        return;
      }
      outMin, outMax := min, max;
      if inAuto {
        if output > outMax {
          output := outMax;
        } else if output < outMin {
          output := outMin;
        }
        LimitSum();
      }
    }

    /** Any change of mode starts the controller from the present output and input. */
    method SetMode(automatic: bool, input: int)
      requires Valid()
      modifies this`inAuto, this`outputSum, this`lastInput
      ensures Valid() && inAuto == automatic
      ensures old(inAuto) == automatic ==> outputSum == old(outputSum) && lastInput == old(lastInput)
      ensures old(inAuto) != automatic ==> outputSum == Clamp(output, outMin, outMax) && lastInput == input
    {
      if automatic == !inAuto {
        Initialize(input);
      }
      inAuto := automatic;
    }

    method Initialize(input: int)
      requires Valid()
      modifies this`outputSum, this`lastInput
      ensures Valid() && outputSum == Clamp(output, outMin, outMax) && lastInput == input
    {
      outputSum := output;
      lastInput := input;
      LimitSum();
    }

    /** The gains are recomputed only when a tuning changes. */
    method SetTunings(p: uint8, i: uint8, d: uint8)
      requires Valid()
      modifies this`dispKp, this`dispKi, this`dispKd, this`gains
      ensures Valid() && dispKp == p && dispKi == i && dispKd == d
      ensures if old(dispKp) == p && old(dispKi) == i && old(dispKd) == d then gains == old(gains) else Tuned()
    {
      if dispKp == p && dispKi == i && dispKd == d {
        return;
      }
      dispKp, dispKi, dispKd := p, i, d;
      gains := GainsFor(p, i, d, sampleTime);
    }

    /** A new sample time recomputes the gains: the tunings are changed and changed back so that
        SetTunings cannot take its early exit. */
    method SetSampleTime(newSampleTime: uint16)
      requires Valid() && 1 <= newSampleTime <= 1000
      modifies this`sampleTime, this`dispKp, this`dispKi, this`dispKd, this`gains
      ensures Valid() && sampleTime == newSampleTime
      ensures dispKp == old(dispKp) && dispKi == old(dispKi) && dispKd == old(dispKd)
      ensures if old(sampleTime) == newSampleTime then gains == old(gains) else Tuned()
    {
      hide GainsFor;
      if sampleTime == newSampleTime {
        return;
      }
      sampleTime := newSampleTime;
      SetTunings((dispKp + 1) % 0x100, (dispKi + 1) % 0x100, (dispKd + 1) % 0x100);
      SetTunings((dispKp + 0xFF) % 0x100, (dispKi + 0xFF) % 0x100, (dispKd + 0xFF) % 0x100);
    }
  }

  /** The scaled integral gain fits its sixteen bits for every tuning exactly at sample times up to 250 ms. */
  lemma IntegralGainFits(sampleTime: uint16)
    requires 1 <= sampleTime <= 1000
    ensures (forall i: uint8 :: GainsFor(0, i, 0, sampleTime).ki == IntegralGain(i, sampleTime))
       <==> sampleTime <= 250
  {
    hide IntegralGain;
    if sampleTime <= 250 {
      forall i: uint8 ensures GainsFor(0, i, 0, sampleTime).ki == IntegralGain(i, sampleTime) {
        IntegralGainSmall(i, sampleTime);
      }
    } else {
      FullGainTooLarge(sampleTime);
      var full: uint8 := 255;
      assert GainsFor(0, full, 0, sampleTime).ki != IntegralGain(full, sampleTime);
    }
  }

  /** What the gains are: with inverse the whole number of sample times in a second, the tunings times 1,
      1024 / inverse and inverse, as far as sixteen bits hold them. */
  lemma GainsScaled(p: uint8, i: uint8, d: uint8, sampleTime: uint16, inverse: nat, q: nat)
    requires 1 <= sampleTime <= 1000 && sampleTime * inverse <= 1000 < sampleTime * (inverse + 1)
    requires 0 < inverse && inverse * q <= 1024 * i < inverse * (q + 1)
    ensures GainsFor(p, i, d, sampleTime) == Gains(p, q % 0x1_0000, d * inverse % 0x1_0000)
  {
    QuotientIs(1000, sampleTime, inverse);
    QuotientIs(i * 1024, inverse, q);
  }

  /** The scaled derivative gain fits its sixteen bits for every tuning exactly at sample times from 4 ms. */
  lemma DerivativeGainFits(sampleTime: uint16)
    requires 1 <= sampleTime <= 1000
    ensures (forall d: uint8 :: GainsFor(0, 0, d, sampleTime).kd == d * (1000 / sampleTime)) <==> 4 <= sampleTime
  {
    hide IntegralGain;
    if 4 <= sampleTime {
      QuotientBelow(1000, sampleTime, 251);
      forall d: uint8 ensures GainsFor(0, 0, d, sampleTime).kd == d * (1000 / sampleTime) {
        SmallProduct(d, 1000 / sampleTime);
      }
    } else {
      var full: uint8 := 255;
      assert GainsFor(0, 0, full, sampleTime).kd != full * (1000 / sampleTime);
    }
  }

  lemma SmallProduct(d: uint8, inverse: nat)
    requires inverse <= 250
    ensures d * inverse < 0x1_0000
  {
    assert d * inverse <= d * 250;
  }

  lemma QuotientAtLeast(n: nat, d: nat, k: nat)
    requires 0 < d && k * d <= n
    ensures k <= n / d
  {
    var q := n / d;
    assert n < (q + 1) * d;
    MulOrder(q + 1, k, d);
  }

  lemma QuotientBelow(n: nat, d: nat, k: nat)
    requires 0 < d && n < k * d
    ensures n / d < k
  {
    var q := n / d;
    assert q * d <= n;
    MulOrder(k, q, d);
  }

  lemma IntegralGainSmall(i: uint8, sampleTime: nat)
    requires 1 <= sampleTime <= 250
    ensures IntegralGain(i, sampleTime) < 0x1_0000
  {
    QuotientAtLeast(1000, sampleTime, 4);
    QuotientBelow(i * 1024, 1000 / sampleTime, 0x1_0000);
  }

  lemma FullGainTooLarge(sampleTime: nat)
    requires 250 < sampleTime <= 1000
    ensures IntegralGain(255, sampleTime) >= 0x1_0000
  {
    QuotientBelow(1000, sampleTime, 4);
    QuotientAtLeast(1000, sampleTime, 1);
    QuotientAtLeast(255 * 1024, 1000 / sampleTime, 0x1_0000);
  }

  // ---- no windup ----

  /** The sums of a run of computations with proportional action on the error. */
  function SumRun(sum: int, g: Gains, errors: seq<int>, lo: int, hi: int): (r: int)
    requires lo <= hi
    decreases errors
  {
    if errors == [] then sum else SumRun(SumStep(sum, g, errors[0], 0, true, lo, hi), g, errors[1..], lo, hi)
  }

  lemma SumStepMonotone(a: int, b: int, g: Gains, error: int, lo: int, hi: int)
    requires lo <= hi && a <= b
    ensures SumStep(a, g, error, 0, true, lo, hi) <= SumStep(b, g, error, 0, true, lo, hi)
  {
    hide Quotient, Times;
  }

  lemma {:induction false} SumRunMonotone(a: int, b: int, g: Gains, errors: seq<int>, lo: int, hi: int)
    requires lo <= hi && a <= b
    ensures SumRun(a, g, errors, lo, hi) <= SumRun(b, g, errors, lo, hi)
    decreases errors
  {
    hide SumStep;
    if errors == [] {
    } else {
      SumStepMonotone(a, b, g, errors[0], lo, hi);
      var a', b' := SumStep(a, g, errors[0], 0, true, lo, hi), SumStep(b, g, errors[0], 0, true, lo, hi);
      SumRunMonotone(a', b', g, errors[1..], lo, hi);
    }
  }

  lemma {:induction false} SumRunInside(sum: int, g: Gains, errors: seq<int>, lo: int, hi: int)
    requires lo <= sum <= hi
    ensures lo <= SumRun(sum, g, errors, lo, hi) <= hi
    decreases errors
  {
    hide SumStep;
    if errors == [] {
    } else {
      SumRunInside(SumStep(sum, g, errors[0], 0, true, lo, hi), g, errors[1..], lo, hi);
    }
  }

  /** A run of errors that takes the sum from one limit to the other wipes out all history: whatever
      the sum was, it ends at that limit, and from then on every controller goes the same way. */
  lemma SaturationForgets(sum: int, g: Gains, errors: seq<int>, lo: int, hi: int)
    requires lo <= sum <= hi
    ensures SumRun(lo, g, errors, lo, hi) == hi ==> SumRun(sum, g, errors, lo, hi) == hi
    ensures SumRun(hi, g, errors, lo, hi) == lo ==> SumRun(sum, g, errors, lo, hi) == lo
  {
    SumRunMonotone(lo, sum, g, errors, lo, hi);
    SumRunMonotone(sum, hi, g, errors, lo, hi);
    SumRunInside(sum, g, errors, lo, hi);
  }

  // ---- the ideal controller ----

  const BIAS := 50

  const LIMIT_MULTIPLIER := 100

  /** How far the integral term may go on one side, given how far the output may. */
  function Reach(percent: int, ki: uint16): (r: nat) {
    if ki == 0 then 0
    else var q := Quotient(percent * LIMIT_MULTIPLIER * 100, ki); if q < 0 then 0 else q
  }

  /** The divisor that turns sensor readings into unitless ones; it is odd, so never zero. */
  function Divisor(sensitivity: uint16): (r: uint16)
    ensures r % 2 == 1
  {
    (10001 - sensitivity * 2) % 0x1_0000
  }

  function Unitless(x: int, sensitivity: uint16): int {
    Quotient(x * 10000, Divisor(sensitivity))
  }

  /** x brought to at least -down and at most up. */
  function Within(x: int, down: nat, up: nat): (r: int)
    ensures 0 - down <= r <= up
  {
    Clamp(x, 0 - down, up)
  }

  /** The output before its limits, in hundredths of a percent. */
  function Raw(g: Gains, error: int, iTerm: int, lastError: int): int {
    var sum := Times(g.kp, error) + Times(g.ki, iTerm) + Times(g.kd, error - lastError);
    BIAS * LIMIT_MULTIPLIER + Quotient(sum, 10)
  }

  /** A sensor reading is scaled by ten thousand over the divisor. */
  lemma UnitlessScale(x: int, sensitivity: uint16)
    ensures RoundedToZero(Unitless(x, sensitivity), 10000 * x, Divisor(sensitivity))
    ensures sensitivity <= 5000 ==> Divisor(sensitivity) == 10001 - 2 * sensitivity
  {
    QuotientRounds(x * 10000, Divisor(sensitivity));
  }

  /** Each side's reach is what the integral gain turns into the way to the limit, or none if the limit is
      on the other side of the bias. */
  lemma ReachScale(percent: int, ki: uint16)
    ensures 0 < ki && 0 <= percent ==> RoundedToZero(Reach(percent, ki), 10000 * percent, ki)
    ensures ki == 0 || percent < 0 ==> Reach(percent, ki) == 0
  {
    if 0 < ki {
      QuotientRounds(percent * LIMIT_MULTIPLIER * 100, ki);
      hide Quotient;
    }
  }

  /** The output is 50 percent and a tenth of the three terms. */
  predicate Weighed(g: Gains, output: int, error: int, iTerm: int, lastError: int) {
    RoundedToZero(output - 5000, g.kp * error + g.ki * iTerm + g.kd * (error - lastError), 10)
  }

  lemma RawIs(g: Gains, error: int, iTerm: int, lastError: int)
    ensures Weighed(g, Raw(g, error, iTerm, lastError), error, iTerm, lastError)
  {
    QuotientRounds(Times(g.kp, error) + Times(g.ki, iTerm) + Times(g.kd, error - lastError), 10);
    hide Quotient, RoundedToZero;
  }

  class IntegerPidIdeal {
    var gains: Gains
    var output: uint16
    var lastTime: uint32
    var lastError: int
    var iTerm: int
    var outMin: int
    var outMax: int

    constructor (p: uint8, i: uint8, d: uint8, now: uint32, sampleTime: uint8)
      ensures Valid() && outMin == 20 && outMax == 80
      ensures gains == Gains(p, i, d) && lastError == 0 && Elapsed(now, lastTime) == sampleTime
    {
      outMin, outMax := 20, 80;
      gains := Gains(p, i, d);
      output, iTerm, lastError := 0, 0, 0;
      lastTime := Elapsed(now, sampleTime);
    }

    predicate Valid()
      reads this
    {
      outMin < outMax
    }

    /** The integral term with this error added and clamped on both sides. */
    function ClampedTerm(error: int): int
      reads this
    {
      Within(iTerm + error, Reach(BIAS - outMin, gains.ki), Reach(outMax - BIAS, gains.ki))
    }

    /** One call. The output stays inside the limits as far as they fit the unsigned output; while it is
        being limited the error is taken out of the integral term again, after that was clamped, so the
        term stays within its clamps widened by one error. */
    method Compute(now: uint32, sampleTime: uint8, input: int, setpoint: uint16, sensitivity: uint16) returns (r: bool)
      requires Valid()
      modifies this`output, this`lastTime, this`lastError, this`iTerm
      ensures Valid()
      ensures r <==> Elapsed(now, old(lastTime)) >= sampleTime
      ensures !r ==> unchanged(this)
      ensures r ==> lastTime == now && lastError == Unitless(setpoint, sensitivity) - Unitless(input, sensitivity)
      ensures r ==>
        var term, lo, hi := old(ClampedTerm(Unitless(setpoint, sensitivity) - Unitless(input, sensitivity))),
                            outMin * LIMIT_MULTIPLIER, outMax * LIMIT_MULTIPLIER;
        var raw := Raw(gains, lastError, term, old(lastError));
        && output == Clamp(raw, lo, hi) % 0x1_0000
        && iTerm == (if lo <= raw <= hi then term else term - lastError)
      ensures r && 0 <= outMin && outMax <= 655 && outMin * LIMIT_MULTIPLIER < output < outMax * LIMIT_MULTIPLIER ==>
        Weighed(gains, output, lastError, iTerm, old(lastError))
      ensures r ==>
        && iTerm <= Reach(outMax - BIAS, gains.ki) + (if lastError < 0 then -lastError else 0)
        && iTerm >= 0 - Reach(BIAS - outMin, gains.ki) - (if lastError > 0 then lastError else 0)
    {
      hide Quotient, Times, Raw, Reach, Weighed;
      var timeChange := Elapsed(now, lastTime);
      if timeChange >= sampleTime {
        var error := Unitless(setpoint, sensitivity) - Unitless(input, sensitivity);
        iTerm := iTerm + error;
        var reach: int := Reach(outMax - BIAS, gains.ki);
        if iTerm > reach {
          iTerm := reach;
        }
        reach := Reach(BIAS - outMin, gains.ki);
        if iTerm < -reach {
          iTerm := -reach;
        }
        var out := Raw(gains, error, iTerm, lastError);
        RawIs(gains, error, iTerm, lastError);
        if out > outMax * LIMIT_MULTIPLIER {
          out := outMax * LIMIT_MULTIPLIER;
          iTerm := iTerm - error;
        }
        if out < outMin * LIMIT_MULTIPLIER {
          out := outMin * LIMIT_MULTIPLIER;
          iTerm := iTerm - error;
        }
        output := out % 0x1_0000;
        lastTime := now;
        lastError := error;
        return true;
      } else {
        return false;
      }
    }

    method SetOutputLimits(min: int, max: int)
      requires Valid()
      modifies this`outMin, this`outMax
      ensures Valid()
      ensures if min < max then outMin == min && outMax == max else outMin == old(outMin) && outMax == old(outMax)
    {
      if min < max {
        outMin := min;
        outMax := max;
      }
    }
  }

  /** The stored output is the limited one, whatever that is, exactly when both limits fit the
      unsigned output. */
  lemma OutputStoredWhole(lo: int, hi: int)
    requires lo < hi
    ensures (forall raw: int :: Clamp(raw, lo, hi) % 0x1_0000 == Clamp(raw, lo, hi)) <==> 0 <= lo && hi < 0x1_0000
  {
    assert Clamp(lo, lo, hi) == lo && Clamp(hi, lo, hi) == hi;
  }

  /** Taking the error out again puts the integral term back where it was before the call exactly when
      its clamps did not act. */
  lemma LimitingRestores(before: int, error: int, down: nat, up: nat)
    ensures Within(before + error, down, up) - error == before <==> 0 - down <= before + error <= up
  {}
}
