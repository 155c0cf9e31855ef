/** The info block of a byte: 256 bits of which the first n, high bit first, are still set. */
module Thermometer {
  import opened Words
  import opened NorFlash

  const BLOCK := 32

  function LowBit(b: byte): nat { if b & 1 == 1 then 1 else 0 }

  function Half(b: byte): byte { b >> 1 }

  /** How many of the low k bits are set. */
  function Ones(b: byte, k: nat): (n: nat)
    ensures n <= k
  {
    if k == 0 then 0 else LowBit(b) + Ones(Half(b), k - 1)
  }

  /** How many bits of the bytes are set. */
  function CountOnes(s: seq<byte>): (n: nat)
    ensures n <= 8 * |s|
  {
    if s == [] then 0 else Ones(s[0], 8) + CountOnes(s[1..])
  }

  /** A byte whose top m bits are set. */
  function TopOnes(m: nat): byte
    requires m <= 8
  {
    [0x00, 0x80, 0xC0, 0xE0, 0xF0, 0xF8, 0xFC, 0xFE, 0xFF][m]
  }

  function Clamp(m: int): (r: nat)
    ensures r <= 8
  {
    if m < 0 then 0 else if m > 8 then 8 else m
  }

  /** The block with n bits left. */
  function Thermo(n: nat): (r: seq<byte>)
    ensures |r| == BLOCK
  {
    seq(BLOCK, j => TopOnes(Clamp(n - 8 * j)))
  }

  lemma OnesOfLowHalves(b: byte)
    ensures Ones(b, 8) == LowBit(b) + LowBit(Half(b)) + LowBit(Half(Half(b))) + LowBit(Half(Half(Half(b))))
      + (LowBit(Half(Half(Half(Half(b))))) + LowBit(Half(Half(Half(Half(Half(b))))))
      + LowBit(Half(Half(Half(Half(Half(Half(b))))))) + LowBit(Half(Half(Half(Half(Half(Half(Half(b)))))))))
  {
    hide LowBit, Half;
    var c := Half(Half(Half(Half(b))));
    assert Ones(b, 8)
        == LowBit(b) + LowBit(Half(b)) + LowBit(Half(Half(b))) + LowBit(Half(Half(Half(b)))) + Ones(c, 4) by {
      assert Ones(b, 8) == LowBit(b) + Ones(Half(b), 7);
      assert Ones(Half(b), 7) == LowBit(Half(b)) + Ones(Half(Half(b)), 6);
      assert Ones(Half(Half(b)), 6) == LowBit(Half(Half(b))) + Ones(Half(Half(Half(b))), 5);
    }
    assert Ones(c, 4) == LowBit(c) + Ones(Half(c), 3);
    assert Ones(Half(c), 3) == LowBit(Half(c)) + Ones(Half(Half(c)), 2);
    assert Ones(Half(Half(c)), 2) == LowBit(Half(Half(c))) + Ones(Half(Half(Half(c))), 1);
    assert Ones(Half(Half(Half(c))), 1) == LowBit(Half(Half(Half(c))));
  }

  lemma TopOnesCounted(m: nat)
    requires m <= 8
    ensures Ones(TopOnes(m), 8) == m
  {
    OnesOfLowHalves(TopOnes(m));
  }

  lemma TopOnesNested(m: nat)
    requires m < 8
    ensures And(TopOnes(m + 1), TopOnes(m)) == TopOnes(m)
  {}

  lemma {:induction false} ThermoCountedFrom(n: nat, j: nat)
    requires n <= 8 * BLOCK && j <= BLOCK
    ensures CountOnes(Thermo(n)[j..]) == if 8 * j <= n then n - 8 * j else 0
    decreases BLOCK - j
  {
    hide TopOnes, Ones;
    if j == BLOCK {
    } else {
      TopOnesCounted(Clamp(n - 8 * j));
      ThermoCountedFrom(n, j + 1);
      assert Thermo(n)[j..][1..] == Thermo(n)[j + 1..];
    }
  }

  /** Counting the set bits recovers n. */
  lemma ThermoCounted(n: nat)
    requires n <= 8 * BLOCK
    ensures CountOnes(Thermo(n)) == n
  {
    hide TopOnes, Ones;
    ThermoCountedFrom(n, 0);
    assert Thermo(n)[0..] == Thermo(n);
  }

  /** The info-block byte to touch when n bits are left, and the value to program there. */
  function InfoIndex(n: nat): nat
    requires 1 <= n
  {
    (n - 1) / 8
  }

  function InfoValue(n: nat): byte
    requires 1 <= n
  {
    (((0xFF as bv16) << (8 - (n - 1 - InfoIndex(n) * 8))) & 0xFF) as byte
  }

  lemma ShiftedOnes(r: nat)
    requires r < 8
    ensures (((0xFF as bv16) << (8 - r)) & 0xFF) as byte == TopOnes(r)
  {
    if r == 0 {} else if r == 1 {} else if r == 2 {} else if r == 3 {}
    else if r == 4 {} else if r == 5 {} else if r == 6 {} else {}
  }

  /** Programming that value clears exactly the next bit. */
  lemma ThermoSteps(n: nat)
    requires 1 <= n <= 8 * BLOCK
    ensures var q := InfoIndex(n);
      q < BLOCK && Thermo(n)[q := And(Thermo(n)[q], InfoValue(n))] == Thermo(n - 1)
  {
    var q := InfoIndex(n);
    var r := n - 1 - q * 8;
    ShiftedOnes(r);
    TopOnesNested(r);
    hide TopOnes, And;
    assert Thermo(n)[q] == TopOnes(r + 1) && Thermo(n - 1)[q] == TopOnes(r);
    forall j | 0 <= j < BLOCK && j != q ensures Thermo(n)[j] == Thermo(n - 1)[j] {}
  }

  /** Counts the set bits of the block, shifting each byte of the buffer out. */
  method Count(buf: array<byte>) returns (count: nat)
    requires buf.Length == BLOCK
    modifies buf
    ensures count == CountOnes(old(buf[..]))
  {
    hide Half;
    count := 0;
    ghost var s := buf[..];
    assert s[0..] == s;
    for j := 0 to BLOCK
      invariant buf[j..] == s[j..]
      invariant count + CountOnes(s[j..]) == CountOnes(s)
    {
      ghost var before := count;
      assert buf[j] == s[j] && s[j..][1..] == s[j + 1..];
      for i := 0 to 8
        invariant buf[j + 1..] == s[j + 1..]
        invariant count + Ones(buf[j], 8 - i) == before + Ones(s[j], 8)
      {
        if buf[j] & 1 == 1 {
          count := count + 1;
        }
        buf[j] := Half(buf[j]);
      }
    }
    assert s[BLOCK..] == [];
  }
}
