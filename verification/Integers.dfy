/** The fixed-width unsigned integers of the firmware. */
module Integers {

  type uint8 = n: nat | n < 0x100

  type uint16 = n: nat | n < 0x1_0000

  type uint32 = n: nat | n < 0x1_0000_0000

  function Wrap16(n: nat): uint16 { n % 0x1_0000 }

  function Wrap32(n: nat): uint32 { n % 0x1_0000_0000 }

  lemma MulOrder(a: nat, b: nat, d: nat)
    requires 0 < d
    ensures a * d <= b * d <==> a <= b
    ensures a * d < b * d <==> a < b
  {}

  lemma QuotientBounds(n: nat, d: nat)
    requires 0 < d
    ensures d * (n / d) <= n < d * (n / d) + d
  {
    assert n == d * (n / d) + n % d;
  }

  lemma Commutes(d: nat, q: nat)
    ensures d * q == q * d && d * (q + 1) == (q + 1) * d == d * q + d
  {}

  /** The quotient is the only number of whole divisors that fit. */
  lemma QuotientIs(n: nat, d: nat, q: nat)
    requires 0 < d && d * q <= n < d * (q + 1)
    ensures n / d == q
  {
    var m := n / d;
    QuotientBounds(n, d);
    Commutes(d, m);
    Commutes(d, q);
    MulOrder(q, m + 1, d);
    MulOrder(m, q + 1, d);
  }
}
