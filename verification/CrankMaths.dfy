/** Conversions between crank angles and microseconds in scaled integers. */
module CrankMaths {
  import opened Integers

  /** Sixteen times the microseconds per degree at one revolution a minute. */
  const US_PER_REV_X16 := 2666656

  /** Microseconds per minute. */
  const MINUTE := 60_000_000

  const MAX_IGN := 360

  class CrankSpeed {
    var timePerDegree: uint16
    var timePerDegreex16: uint16
    var degreesPeruSx2048: uint16
    var degreesPeruSx32768: uint32

    constructor ()
    {
      timePerDegree, timePerDegreex16, degreesPeruSx2048, degreesPeruSx32768 := 0, 0, 0, 0;
    }

    /** The branch that derives everything from the engine speed. The slowest speed whose time per degree
        fits its sixteen bits is 41 rpm; the divisions need a nonzero time per degree. */
    method DoCrankSpeedCalcs(rpm: uint16)
      requires 41 <= rpm
      modifies this
      ensures timePerDegreex16 * rpm <= US_PER_REV_X16 < (timePerDegreex16 + 1) * rpm
      ensures 360 * (timePerDegreex16 * rpm) <= 16 * MINUTE < 360 * ((timePerDegreex16 + 1) * rpm) + 3840
      ensures Scaled(timePerDegreex16, degreesPeruSx32768)
      ensures 40 <= timePerDegreex16 && timePerDegree == timePerDegreex16 / 16
      ensures degreesPeruSx2048 * timePerDegree <= 2048 < (degreesPeruSx2048 + 1) * timePerDegree
    {
      hide Div;
      QuotientFits(rpm);
      timePerDegreex16 := Wrap16(Div(US_PER_REV_X16, rpm));
      timePerDegree := timePerDegreex16 / 16;
      SmallQuotient(timePerDegree);
      degreesPeruSx2048 := Wrap16(Div(2048, timePerDegree));
      ScaleFits(timePerDegreex16);
      degreesPeruSx32768 := Wrap32(Div(524288, timePerDegreex16));
    }
  }

  /** The constant falls short of sixteen times the microseconds per degree at one revolution a minute by
      four in a million. */
  lemma ConstantError()
    ensures 360 * US_PER_REV_X16 + 3840 == 16 * MINUTE
    ensures 3840 * 250_000 == 16 * MINUTE
  {}

  /** Unsigned division. */
  function Div(n: nat, d: nat): (q: nat)
    requires 0 < d
    ensures q * d <= n < (q + 1) * d
  {
    n / d
  }

  lemma ScaleFits(x: nat)
    requires 0 < x
    ensures Div(524288, x) <= 524288 && Scaled(x, Div(524288, x))
  {
    hide Div;
    var q := Div(524288, x);
    assert q * 1 <= q * x;
    assert x * q == q * x && x * (q + 1) == (q + 1) * x;
  }

  lemma SmallQuotient(d: nat)
    requires 0 < d
    ensures Div(2048, d) <= 2048
  {
    hide Div;
    MulMonoRight(1, d, Div(2048, d));
  }

  lemma MulMono(a: nat, b: nat, c: nat)
    requires a <= b
    ensures a * c <= b * c
  {}

  lemma MulMonoRight(a: nat, b: nat, c: nat)
    requires a <= b
    ensures c * a <= c * b
  {}

  lemma QuotientFits(rpm: nat)
    requires 0 < rpm < 0x1_0000
    ensures Div(US_PER_REV_X16, rpm) < 0x1_0000 <==> 41 <= rpm
    ensures 40 <= Div(US_PER_REV_X16, rpm)
  {
    var q := Div(US_PER_REV_X16, rpm);
    hide Div;
    if 41 <= rpm {
      MulMonoRight(41, rpm, q);
    } else {
      MulMonoRight(rpm, 40, q + 1);
    }
    MulMonoRight(rpm, 65535, q + 1);
  }

  /** d is 524288 over x, rounded down. */
  predicate Scaled(x: nat, d: nat) {
    0 < x && x * d <= 524288 < x * (d + 1)
  }

  /** fastDegreesToUS. */
  function FastDegreesToUS(x: uint16, angle: uint16): uint32 {
    Wrap32(angle * x) / 16
  }

  /** fastTimeToAngle. */
  function FastTimeToAngle(d: uint32, time: uint32): uint32 {
    Wrap32(time * d) / 32768
  }

  lemma Sixteenth(p: nat)
    requires p < 0x1_0000_0000
    ensures p - 15 <= 16 * (Wrap32(p) / 16) <= p
  {}

  /** Sixteen times a whole number of microseconds, and how far below the exact product it is. */
  lemma ToTime(x: uint16, angle: uint16)
    requires angle <= 720
    ensures angle * x < 0x1_0000_0000
    ensures angle * x - 15 <= 16 * FastDegreesToUS(x, angle) <= angle * x
  {
    MulMono(angle, 720, x);
    Sixteenth(angle * x);
  }

  /** Angle to time and back: never more than the angle, short by less than
      angle * x / 524288 + d / 32768 + 1, and no product leaves its 32 bits. */
  lemma AngleRoundTrip(x: uint16, d: uint32, angle: uint16)
    requires Scaled(x, d) && angle <= 720
    ensures angle * x < 0x1_0000_0000 && FastDegreesToUS(x, angle) * d < 0x1_0000_0000
    ensures var time := FastDegreesToUS(x, angle); 16 * time <= angle * x < 16 * time + 16
    ensures var back := FastTimeToAngle(d, FastDegreesToUS(x, angle));
      back <= angle && 524288 * (angle - back) < angle * x + 16 * d + 524288
  {
    ToTime(x, angle);
    var t := FastDegreesToUS(x, angle);
    hide FastDegreesToUS;
    Products(x, d, angle, t);
    MulMonoRight(x - 1, x, angle);
    Shortfall(angle, t * d, d, angle * (x - 1), angle * x);
  }

  lemma Shortfall(angle: nat, td: nat, d: nat, less: nat, ax: nat)
    requires angle <= 720 && 16 * td <= angle * 524288 && 16 * td + 15 * d + less >= angle * 524288 && less <= ax
    ensures td < 0x1_0000_0000
    ensures var back := Wrap32(td) / 32768; back <= angle && 524288 * (angle - back) < ax + 16 * d + 524288
  {}

  lemma Products(x: nat, d: nat, angle: nat, t: nat)
    requires Scaled(x, d) && angle <= 720
    requires angle * x - 15 <= 16 * t <= angle * x
    ensures 16 * (t * d) <= angle * 524288
    ensures 16 * (t * d) + 15 * d + angle * (x - 1) >= angle * 524288
  {
    MulMono(16 * t, angle * x, d);
    MulMono(angle * x, 16 * t + 15, d);
    MulMono(x * d, 524288, angle);
    MulMono(524288, x * d + x - 1, angle);
    Rearrange(x, d, angle, t);
  }

  lemma Rearrange(x: nat, d: nat, angle: nat, t: nat)
    requires 0 < x
    ensures (16 * t) * d == 16 * (t * d)
    ensures (16 * t + 15) * d == 16 * (t * d) + 15 * d
    ensures (angle * x) * d == (x * d) * angle
    ensures (x * d + x - 1) * angle == (x * d) * angle + angle * (x - 1)
  {}

  // ---- the interval between two teeth ----

  /** angleToTime by the last tooth interval, for an angle that is not negative. */
  function ToothAngleToTime(gap: uint32, toothAngle: uint16, angle: uint16): uint32
    requires 0 < toothAngle
  {
    Wrap32(Div(gap, toothAngle) * angle)
  }

  /** timeToAngle by the last tooth interval. */
  function ToothTimeToAngle(gap: uint32, toothAngle: uint16, time: uint32): uint16
    requires 0 < gap
  {
    Wrap16(Div(Wrap32(time * toothAngle), gap))
  }

  /** There and back by the tooth interval: never more than the angle, and short by less than
      angle * toothAngle / gap + 1, as long as gap * angle fits 32 bits. */
  lemma ToothRoundTrip(gap: uint32, toothAngle: uint16, angle: uint16)
    requires 0 < toothAngle && 0 < gap && gap * angle < 0x1_0000_0000
    ensures var time := ToothAngleToTime(gap, toothAngle, angle);
      time * toothAngle <= gap * angle <= time * toothAngle + angle * toothAngle
    ensures var back := ToothTimeToAngle(gap, toothAngle, ToothAngleToTime(gap, toothAngle, angle));
      back <= angle && gap * (angle - back) < angle * toothAngle + gap
  {
    hide Div;
    var q := Div(gap, toothAngle);
    ToothProducts(q, toothAngle, gap, angle);
    ToothFits(q, toothAngle, gap, angle);
    var back := Div((q * angle) * toothAngle, gap);
    ToothShortfall(back, q * angle * toothAngle, toothAngle, gap, angle);
  }

  lemma ToothFits(q: nat, toothAngle: uint16, gap: uint32, angle: uint16)
    requires 0 < toothAngle && 0 < gap && q == Div(gap, toothAngle)
    requires 0 <= q * angle <= q * angle * toothAngle <= gap * angle < 0x1_0000_0000
    ensures ToothAngleToTime(gap, toothAngle, angle) == q * angle
    ensures ToothTimeToAngle(gap, toothAngle, q * angle) == Wrap16(Div(q * angle * toothAngle, gap))
  {
    hide Div;
  }

  /** A whole number of microseconds a degree loses less than a degree's worth over the interval. */
  lemma ToothProducts(q: nat, toothAngle: nat, gap: nat, angle: nat)
    requires 0 < toothAngle && q * toothAngle <= gap < (q + 1) * toothAngle
    ensures 0 <= q * angle <= q * angle * toothAngle <= gap * angle
    ensures gap * angle <= q * angle * toothAngle + angle * toothAngle
  {
    MulMono(q * toothAngle, gap, angle);
    MulMono(gap, (q + 1) * toothAngle, angle);
    Swap(q, toothAngle, angle);
    Swap(q + 1, toothAngle, angle);
    Plus(q, angle, toothAngle);
    MulMonoRight(1, toothAngle, q * angle);
  }

  lemma Swap(a: nat, b: nat, c: nat)
    ensures (a * b) * c == (a * c) * b
  {}

  lemma Plus(q: nat, angle: nat, t: nat)
    ensures ((q + 1) * angle) * t == (q * angle) * t + angle * t
    ensures 0 <= q * angle
  {
    assert (q + 1) * angle == q * angle + angle;
  }

  lemma ToothShortfall(back: nat, p: nat, toothAngle: nat, gap: nat, angle: uint16)
    requires 0 < gap && back * gap <= p < (back + 1) * gap
    requires p <= gap * angle <= p + angle * toothAngle
    ensures back <= angle && Wrap16(back) == back
    ensures gap * (angle - back) < angle * toothAngle + gap
  {
    GapBack(back, angle, gap);
    Cancel(back, angle, gap);
  }

  lemma Cancel(a: nat, b: nat, c: nat)
    requires 0 < c && a * c <= b * c
    ensures a <= b
  {}

  lemma GapBack(back: nat, angle: nat, gap: nat)
    ensures gap * (angle - back) == gap * angle - back * gap
    ensures (back + 1) * gap == back * gap + gap
    ensures gap * angle == angle * gap
  {}

  // ---- ignition angles ----

  /** The ignitionLimits macro on angles of a 16-bit int. */
  function IgnitionLimits(angle: int): int {
    if angle >= MAX_IGN then angle - MAX_IGN else if angle < 0 then angle + MAX_IGN else angle
  }

  /** The result is the same angle brought into one revolution exactly for angles within one revolution of it. */
  lemma IgnitionLimitsNormalise(angle: int)
    ensures 0 <= IgnitionLimits(angle) < MAX_IGN <==> -MAX_IGN <= angle < 2 * MAX_IGN
    ensures -MAX_IGN <= angle < 2 * MAX_IGN ==> IgnitionLimits(angle) == angle % MAX_IGN
  {}
}
