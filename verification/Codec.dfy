/** The packet codec: a payload, its XMODEM checksum in little-endian order, byte-stuffed as a whole. */
module Codec {
  import opened Words
  import opened Wrappers
  import opened BitwiseCrc
  import opened Iteration
  import opened CrcAlgebra
  import opened CrcRefinement
  import Cobs
  import CrcChecks
  import CrcProperties

  function LowByteOf(crc: bv16): byte { (crc & 0xff) as byte }

  function HighByteOf(crc: bv16): byte { ((crc >> 8) & 0xff) as byte }

  function PackCrc(crc: bv16): seq<byte> {
    [LowByteOf(crc), HighByteOf(crc)]
  }

  function Joined(low: byte, high: byte): bv16 {
    (low as bv16) | ((high as bv16) << 8)
  }

  function UnpackCrc(data: seq<byte>): Result<bv16> {
    if |data| != 2 then Err("bad CRC len") else Ok(Joined(data[0], data[1]))
  }

  function ExtractCrc(packet: seq<byte>): Result<bv16> {
    if |packet| <= 2 then Err("bad packet len") else UnpackCrc(packet[|packet| - 2..])
  }

  function PacketEncode(payload: seq<byte>): seq<byte> {
    payload + PackCrc(Xmodem(payload))
  }

  function PacketDecode(packet: seq<byte>): Result<seq<byte>> {
    if |packet| <= 2 then Err("bad packet len")
    else match ExtractCrc(packet)
      case Err(reason) => Err(reason)
      case Ok(crc) =>
        var payload := packet[..|packet| - 2];
        if Xmodem(payload) != crc then Err("mismatched CRC") else Ok(payload)
  }

  function SerialEncode(payload: seq<byte>): seq<byte> {
    Cobs.Encode(PacketEncode(payload))
  }

  function SerialDecode(serial: seq<byte>): Result<seq<byte>> {
    if |serial| <= 2 then Err("bad serial len")
    else match Cobs.Decode(serial)
      case None => Err("bad COBS block")
      case Some(packet) => PacketDecode(packet)
  }

  lemma JoinedParts(crc: bv16)
    ensures Joined(LowByteOf(crc), HighByteOf(crc)) == crc
  {}

  lemma PartsOfJoined(low: byte, high: byte)
    ensures LowByteOf(Joined(low, high)) == low && HighByteOf(Joined(low, high)) == high
  {}

  lemma PackingIsExact(crc: bv16, low: byte, high: byte)
    ensures Joined(low, high) == crc <==> low == LowByteOf(crc) && high == HighByteOf(crc)
  {
    hide Joined, LowByteOf, HighByteOf;
    JoinedParts(crc);
    PartsOfJoined(low, high);
  }

  /** The packets that decode are exactly the encodings of nonempty payloads. */
  lemma PacketDecodeExact(packet: seq<byte>, payload: seq<byte>)
    ensures PacketDecode(packet) == Ok(payload) <==> payload != [] && packet == PacketEncode(payload)
  {
    hide Joined, LowByteOf, HighByteOf, Xmodem;
    if |packet| > 2 {
      var p := packet[..|packet| - 2];
      var tail := packet[|packet| - 2..];
      PackingIsExact(Xmodem(p), tail[0], tail[1]);
      assert packet == p + [tail[0], tail[1]];
      if packet == PacketEncode(payload) {
        assert payload == p;
      }
    }
  }

  /** On the wire the checksum follows its payload low byte first. */
  lemma CheckPacket()
    ensures PacketEncode(CrcChecks.DIGITS) == CrcChecks.DIGITS + [0xC3, 0x31]
  {
    hide Xmodem;
    CrcChecks.XmodemCheck();
  }

  /** A payload comes back through packet, stuffing and their inverses exactly when it is not empty. */
  lemma SerialRoundTrip(payload: seq<byte>)
    ensures SerialDecode(SerialEncode(payload)) == Ok(payload) <==> payload != []
    ensures payload == [] ==> SerialDecode(SerialEncode(payload)) == Err("bad packet len")
    ensures Cobs.ZeroFree(SerialEncode(payload)) && 3 <= |SerialEncode(payload)|
  {
    hide Xmodem, LowByteOf, HighByteOf;
    var packet := PacketEncode(payload);
    Cobs.RoundTrip(packet);
    Cobs.EncodingShape(packet);
    PacketDecodeExact(packet, payload);
  }

  /** A payload changed inside two consecutive bytes no longer fits its checksum. */
  lemma PayloadBurstRejected(before: seq<byte>, a: seq<byte>, b: seq<byte>, after: seq<byte>)
    requires |a| == |b| <= 2 && a != b
    ensures PacketDecode(before + b + after + PackCrc(Xmodem(before + a + after))) == Err("mismatched CRC")
  {
    hide Xmodem, LowByteOf, HighByteOf, Joined;
    CrcProperties.XmodemBurst(before, a, b, after);
    var crc, payload := Xmodem(before + a + after), before + b + after;
    var packet := payload + PackCrc(crc);
    assert packet[..|packet| - 2] == payload && packet[|packet| - 2..] == PackCrc(crc);
    PackingIsExact(crc, LowByteOf(crc), HighByteOf(crc));
  }

  // ---- a burst across the end of the payload ----

  /** What one byte adds to an XMODEM register. */
  function ByteEffect(d: byte): bv16 {
    Iterate(Msb16Stepper(CCITT_POLY), 8, AtTop16(d))
  }

  lemma EffectHighByte(d: byte)
    ensures var g := Msb16Stepper(CCITT_POLY);
      HighByteOf(g(g(g(g(g(g(g(g(AtTop16(d)))))))))) == 0 <==> d == 0 || d == 0x89
  {}

  lemma EffectOf89()
    ensures var g := Msb16Stepper(CCITT_POLY); g(g(g(g(g(g(g(g(AtTop16(0x89))))))))) == 0x00A1
  {}

  lemma EffectFacts(d: byte)
    ensures HighByteOf(ByteEffect(d)) == 0 <==> d == 0 || d == 0x89
    ensures ByteEffect(0x89) == 0x00A1
  {
    EffectHighByte(d);
    EffectOf89();
    hide HighByteOf, AtTop16, Msb16Stepper;
    IterateEight(Msb16Stepper(CCITT_POLY), AtTop16(d));
    IterateEight(Msb16Stepper(CCITT_POLY), AtTop16(0x89));
  }

  lemma Msb16StepAdditive(poly: bv16, x: bv16, y: bv16)
    ensures Msb16Step(poly, Xor16(x, y)) == Xor16(Msb16Step(poly, x), Msb16Step(poly, y))
  {
    hide Top, Xor, Xor16, Msb16Step, MsbStep;
    Msb16StepTop(poly, x);
    Msb16StepTop(poly, y);
    Msb16StepTop(poly, Xor16(x, y));
    TopAdditive(x, y);
    TopAdditive(Msb16Step(poly, x), Msb16Step(poly, y));
    MsbStepAdditive(Top(poly), Top(x), Top(y));
    TopInjective(Msb16Step(poly, Xor16(x, y)), Xor16(Msb16Step(poly, x), Msb16Step(poly, y)));
  }

  lemma TopInjective(x: bv16, y: bv16)
    ensures Top(x) == Top(y) <==> x == y
  {}

  lemma EffectAdditive(r: bv16, x: byte, y: byte)
    ensures Iterate(Msb16Stepper(CCITT_POLY), 8, Xor16(r, AtTop16(y)))
         == Xor16(Iterate(Msb16Stepper(CCITT_POLY), 8, Xor16(r, AtTop16(x))), ByteEffect(x ^ y))
  {
    hide Xor16, Msb16Step, AtTop16;
    AtTop16Differs(x, y);
    Xor16Associates(r, AtTop16(x), AtTop16(x ^ y));
    forall a: bv16, b: bv16
      ensures Msb16Step(CCITT_POLY, Xor16(a, b)) == Xor16(Msb16Step(CCITT_POLY, a), Msb16Step(CCITT_POLY, b))
    {
      Msb16StepAdditive(CCITT_POLY, a, b);
    }
    IterateAdditive(Msb16Stepper(CCITT_POLY), Xor16, 8, Xor16(r, AtTop16(x)), AtTop16(x ^ y));
  }

  lemma AtTop16Differs(x: byte, y: byte)
    ensures AtTop16(y) == Xor16(AtTop16(x), AtTop16(x ^ y))
  {}

  lemma Xor16Associates(x: bv16, y: bv16, z: bv16)
    ensures Xor16(Xor16(x, y), z) == Xor16(x, Xor16(y, z))
  {}

  /** Changing the last byte of a string shifts its checksum by the effect of the difference. */
  lemma LastByteEffect(q: seq<byte>, x: byte, y: byte)
    ensures Xmodem(q + [y]) == Xor16(Xmodem(q + [x]), ByteEffect(x ^ y))
  {
    hide Xor16, AtTop16, Msb16Stepper, ByteEffect;
    var r := Msb16(CCITT_POLY, 0, q);
    CrcProperties.Msb16Splits(CCITT_POLY, 0, q, [x]);
    CrcProperties.Msb16Splits(CCITT_POLY, 0, q, [y]);
    assert [x][1..] == [] && [y][1..] == [];
    EffectAdditive(r, x, y);
  }

  lemma HighByteKept(crc: bv16, effect: bv16)
    ensures HighByteOf(Xor16(crc, effect)) == HighByteOf(crc) <==> HighByteOf(effect) == 0
  {}

  lemma LowByteShifted(crc: bv16)
    ensures LowByteOf(Xor16(crc, 0x00A1)) == LowByteOf(crc) ^ 0xA1
  {}

  lemma SameByte(x: byte, y: byte)
    ensures x ^ y == 0 <==> x == y
  {}

  /** The last payload byte and the low checksum byte are neighbours on the wire, and a change to
      both passes the check in exactly one case. */
  lemma StraddlingBurst(q: seq<byte>, x: byte, y: byte, low: byte)
    requires x != y
    ensures var crc := Xmodem(q + [x]);
      PacketDecode(q + [y] + [low, HighByteOf(crc)]).Ok? <==> x ^ y == 0x89 && low == LowByteOf(crc) ^ 0xA1
  {
    var crc, effect := Xmodem(q + [x]), ByteEffect(x ^ y);
    EffectFacts(x ^ y);
    hide Joined, LowByteOf, HighByteOf, Xmodem, ByteEffect, Xor16, AtTop16, Msb16Stepper;
    SameByte(x, y);
    LastByteEffect(q, x, y);
    HighByteKept(crc, effect);
    LowByteShifted(crc);
    var packet := q + [y] + [low, HighByteOf(crc)];
    assert packet[..|packet| - 2] == q + [y] && packet[|packet| - 2..] == [low, HighByteOf(crc)];
    PackingIsExact(Xmodem(q + [y]), low, HighByteOf(crc));
  }
}
