/** From payloads to payloads: encoded, delimited, cut anywhere, reassembled and decoded. */
module EndToEnd {
  import opened Words
  import opened Wrappers
  import opened Chunks
  import opened PacketServer
  import Cobs
  import Codec

  /** What the server puts on the wire for one encoded packet. */
  function Delimited(data: seq<byte>): seq<byte> {
    [0] + data + [0]
  }

  /** The bytes sent for a list of payloads. */
  function Wire(payloads: seq<seq<byte>>): seq<byte> {
    if payloads == [] then [] else Delimited(Codec.SerialEncode(payloads[0])) + Wire(payloads[1..])
  }

  function Encodings(payloads: seq<seq<byte>>): seq<seq<byte>> {
    seq(|payloads|, i requires 0 <= i < |payloads| => Codec.SerialEncode(payloads[i]))
  }

  /** The frames on the wire are the encodings, and then whatever follows. */
  lemma {:induction false} FramesOfWire(payloads: seq<seq<byte>>, more: seq<byte>)
    ensures FramesAfter(Wire(payloads) + more) == Encodings(payloads) + FramesAfter(more)
    decreases payloads
  {
    hide Codec.SerialEncode, FramesAfter, PacketServer.FindZero;
    if payloads == [] {
      assert Wire(payloads) + more == more && Encodings(payloads) + FramesAfter(more) == FramesAfter(more);
    } else {
      var p, rest := Codec.SerialEncode(payloads[0]), Wire(payloads[1..]) + more;
      Codec.SerialRoundTrip(payloads[0]);
      FramesAfterFrame([], p + [0] + rest);
      FramesAfterFrame(p, rest);
      DelimitedThen(p, Wire(payloads[1..]), more);
      FramesOfWire(payloads[1..], more);
      FirstEncoding(payloads);
      assert [p] + (Encodings(payloads[1..]) + FramesAfter(more)) == Encodings(payloads) + FramesAfter(more);
    }
  }

  lemma FirstEncoding(payloads: seq<seq<byte>>)
    requires payloads != []
    ensures Encodings(payloads) == [Codec.SerialEncode(payloads[0])] + Encodings(payloads[1..])
  {
    hide Codec.SerialEncode;
  }

  lemma DelimitedThen(p: seq<byte>, rest: seq<byte>, more: seq<byte>)
    ensures Delimited(p) + rest + more == [] + [0] + (p + [0] + (rest + more))
  {}

  lemma FramesOfNothing()
    ensures FramesAfter([]) == []
  {}

  /** Every encoding on the wire is a frame that the server handles. */
  lemma {:induction false} AheadOnWire(payloads: seq<seq<byte>>, more: seq<byte>)
    ensures Ahead(Wire(payloads) + more, |payloads|)
    decreases payloads
  {
    hide Codec.SerialEncode, Ahead;
    if payloads == [] {
      NoneAhead(Wire(payloads) + more);
    } else {
      var p, rest := Codec.SerialEncode(payloads[0]), Wire(payloads[1..]);
      Codec.SerialRoundTrip(payloads[0]);
      AheadOnWire(payloads[1..], more);
      DelimitedThen(p, rest, more);
      AheadFrame(p, rest + more, |payloads|);
      AheadZero(p + [0] + (rest + more), |payloads|);
      assert [] + [0] + (p + [0] + (rest + more)) == [0] + (p + [0] + (rest + more));
    }
  }

  /** Behind the opening delimiter of the first frame too. */
  lemma AheadOfWire(s: seq<byte>, payloads: seq<seq<byte>>)
    requires s != [] && Wire(payloads) <= s
    ensures payloads != [] ==> s[0] == 0
    ensures Ahead(s[1..], |payloads|)
  {
    hide Codec.SerialEncode, Ahead, Wire;
    var more := s[|Wire(payloads)|..];
    assert s == Wire(payloads) + more;
    AheadOnWire(payloads, more);
    if payloads == [] {
      NoneAhead(s[1..]);
    } else {
      WireOpens(payloads);
      assert s == [0] + s[1..];
      AheadZero(s[1..], |payloads|);
    }
  }

  lemma WireOpens(payloads: seq<seq<byte>>)
    requires payloads != []
    ensures Wire(payloads) != [] && Wire(payloads)[0] == 0
  {
    hide Codec.SerialEncode;
  }

  function Least(a: nat, b: nat): nat { if a <= b then a else b }

  /** The first m reads hold the first n payloads whole. */
  ghost predicate Arrived(payloads: seq<seq<byte>>, n: nat, chunks: seq<seq<byte>>, m: nat) {
    1 <= m <= |chunks| && n <= |payloads| && Wire(payloads[..n]) <= Flatten(chunks[..m])
  }

  lemma {:induction false} FlattenLast(chunks: seq<seq<byte>>)
    requires chunks != []
    ensures Flatten(chunks) == Flatten(chunks[..|chunks| - 1]) + chunks[|chunks| - 1]
    decreases chunks
  {
    if |chunks| == 1 {
      assert chunks[1..] == [] && chunks[..0] == [];
      assert chunks[0] + [] == chunks[0] && [] + chunks[0] == chunks[0];
    } else {
      FlattenLast(chunks[1..]);
      assert chunks[1..][..|chunks| - 2] == chunks[..|chunks| - 1][1..];
      var most := Flatten(chunks[1..][..|chunks| - 2]);
      assert chunks[0] + (most + chunks[|chunks| - 1]) == chunks[0] + most + chunks[|chunks| - 1];
    }
  }

  /** n payloads that have arrived by read m are handled by n - 1 reads later at the latest, and until then
      one payload a read. */
  lemma HandledInTime(payloads: seq<seq<byte>>, n: nat, chunks: seq<seq<byte>>, m: nat)
    requires [] !in chunks && Arrived(payloads, n, chunks, m)
    ensures Least(n, |chunks| - m + 1) <= |Run([], chunks).1|
  {
    hide Run, Ahead, Wire;
    if n != 0 {
      var early, later := chunks[..m], chunks[m..];
      var before, last := early[..m - 1], early[m - 1];
      assert last in chunks && (forall c :: c in before || c in later ==> c in chunks);
      FlattenLast(early);
      AheadOfWire(Flatten(early), payloads[..n]);
      Prompt(before, last, later, n);
      assert chunks == before + ([last] + later);
    }
  }

  /** However the wire bytes are cut, and wherever reading has got to, the packets handled decode,
      one by one and in order, to the first payloads sent; the frames of the rest of the payloads are
      still waiting in the buffer and the unread bytes. Of n payloads that have arrived by read m, that read
      and each one after it handles one, until all n are. */
  lemma Delivered(payloads: seq<seq<byte>>, chunks: seq<seq<byte>>, unread: seq<byte>)
    requires [] !in chunks && chunks != [] && [] !in payloads
    requires Flatten(chunks) + unread == Wire(payloads)
    ensures var (buffer, handled) := Run([], chunks);
      && |handled| <= |payloads|
      && (forall i :: 0 <= i < |handled| ==> Codec.SerialDecode(handled[i]) == Ok(payloads[i]))
      && Frames(buffer + unread) == Encodings(payloads[|handled|..])
      && (forall n: nat, m: nat :: Arrived(payloads, n, chunks, m) ==> Least(n, |chunks| - m + 1) <= |handled|)
  {
    AllInTime(payloads, chunks);
    DeliveredInOrder(payloads, chunks, unread);
  }

  lemma AllInTime(payloads: seq<seq<byte>>, chunks: seq<seq<byte>>)
    requires [] !in chunks
    ensures forall n: nat, m: nat :: Arrived(payloads, n, chunks, m) ==>
      Least(n, |chunks| - m + 1) <= |Run([], chunks).1|
  {
    hide Run;
    forall n: nat, m: nat | Arrived(payloads, n, chunks, m)
      ensures Least(n, |chunks| - m + 1) <= |Run([], chunks).1|
    {
      HandledInTime(payloads, n, chunks, m);
    }
  }

  lemma DeliveredInOrder(payloads: seq<seq<byte>>, chunks: seq<seq<byte>>, unread: seq<byte>)
    requires [] !in chunks && chunks != [] && [] !in payloads
    requires Flatten(chunks) + unread == Wire(payloads)
    ensures var (buffer, handled) := Run([], chunks);
      && |handled| <= |payloads|
      && (forall i :: 0 <= i < |handled| ==> Codec.SerialDecode(handled[i]) == Ok(payloads[i]))
      && Frames(buffer + unread) == Encodings(payloads[|handled|..])
  {
    hide Codec.SerialEncode, Codec.SerialDecode, Frames, FramesAfter, Run, Wire;
    var (buffer, handled) := Run([], chunks);
    AllFrames(payloads, chunks, unread);
    forall i | 0 <= i < |handled| ensures Codec.SerialDecode(handled[i]) == Ok(payloads[i]) {
      assert handled[i] == (handled + Frames(buffer + unread))[i] == Codec.SerialEncode(payloads[i]);
      assert payloads[i] in payloads;
      Codec.SerialRoundTrip(payloads[i]);
    }
    assert Frames(buffer + unread) == Encodings(payloads)[|handled|..];
    assert Encodings(payloads)[|handled|..] == Encodings(payloads[|handled|..]);
  }

  lemma AllFrames(payloads: seq<seq<byte>>, chunks: seq<seq<byte>>, unread: seq<byte>)
    requires [] !in chunks && chunks != []
    requires Flatten(chunks) + unread == Wire(payloads)
    ensures var (buffer, handled) := Run([], chunks);
      handled + Frames(buffer + unread) == Encodings(payloads)
  {
    hide Frames, FramesAfter, Run, Wire;
    var wire := Wire(payloads);
    FirstByte(payloads, chunks, unread);
    StreamConserved([], chunks, unread);
    assert [] + Flatten(chunks) + unread == wire;
    FramesAtDelimiter(wire, []);
    FramesAfterZero(wire, []);
    assert wire + [] == wire && wire[1..] + [] == wire[1..];
    FramesOfNothing();
    FramesOfWire(payloads, []);
    assert Encodings(payloads) + [] == Encodings(payloads);
  }

  lemma FirstByte(payloads: seq<seq<byte>>, chunks: seq<seq<byte>>, unread: seq<byte>)
    requires [] !in chunks && chunks != [] && Flatten(chunks) + unread == Wire(payloads)
    ensures payloads != [] && Wire(payloads)[0] == 0
    ensures ([] + chunks[0])[0] == 0
  {
    hide Codec.SerialEncode;
    assert chunks[0] in chunks;
    assert (Flatten(chunks) + unread)[0] == chunks[0][0];
  }

  /** Once the whole wire has arrived, as many reads as there are payloads hand all of them over, first
      and in order, whatever bytes those reads bring. */
  lemma AllDelivered(payloads: seq<seq<byte>>, chunks: seq<seq<byte>>, m: nat)
    requires [] !in chunks && [] !in payloads
    requires 1 <= m <= |chunks| && m + |payloads| <= |chunks| + 1 && Wire(payloads) <= Flatten(chunks[..m])
    ensures var (_, handled) := Run([], chunks);
      && |payloads| <= |handled|
      && forall i :: 0 <= i < |payloads| ==> Codec.SerialDecode(handled[i]) == Ok(payloads[i])
  {
    hide Codec.SerialEncode, Codec.SerialDecode, Frames, FramesAfter, Run, Wire, Encodings;
    if payloads != [] {
      assert payloads[..|payloads|] == payloads;
      HandledInTime(payloads, |payloads|, chunks, m);
      var (buffer, handled) := Run([], chunks);
      var more := WireFirst(payloads, chunks, m);
      var others := Frames(buffer + []);
      assert handled + others == Encodings(payloads) + FramesAfter(more);
      EncodingAt(payloads);
      forall i | 0 <= i < |payloads| ensures Codec.SerialDecode(handled[i]) == Ok(payloads[i]) {
        assert handled[i] == (handled + others)[i] == (Encodings(payloads) + FramesAfter(more))[i];
        assert payloads[i] in payloads;
        Codec.SerialRoundTrip(payloads[i]);
      }
    }
  }

  lemma EncodingAt(payloads: seq<seq<byte>>)
    ensures |Encodings(payloads)| == |payloads|
    ensures forall i :: 0 <= i < |payloads| ==> Encodings(payloads)[i] == Codec.SerialEncode(payloads[i])
  {
    hide Codec.SerialEncode;
  }

  /** The packets handled and the frames left are those of the wire and of what came behind it. */
  lemma WireFirst(payloads: seq<seq<byte>>, chunks: seq<seq<byte>>, m: nat) returns (more: seq<byte>)
    requires [] !in chunks && payloads != [] && 1 <= m <= |chunks| && Wire(payloads) <= Flatten(chunks[..m])
    ensures var (buffer, handled) := Run([], chunks);
      handled + Frames(buffer + []) == Encodings(payloads) + FramesAfter(more)
  {
    hide Frames, FramesAfter, Run, Encodings;
    FlattenPrefix(chunks, m);
    var stream := Flatten(chunks);
    assert Wire(payloads) <= stream;
    more := stream[|Wire(payloads)|..];
    assert stream == Wire(payloads) + more;
    WireOpens(payloads);
    hide Wire;
    assert chunks[0] in chunks;
    assert stream[0] == chunks[0][0] == ([] + chunks[0])[0];
    StreamConserved([], chunks, []);
    assert [] + stream + [] == stream && stream + [] == stream && stream[1..] + [] == stream[1..];
    FramesAtDelimiter(stream, []);
    FramesAfterZero(stream, []);
    FramesOfWire(payloads, more);
  }

  lemma {:induction false} FlattenPrefix(chunks: seq<seq<byte>>, m: nat)
    requires m <= |chunks|
    ensures Flatten(chunks[..m]) <= Flatten(chunks)
    decreases m
  {
    if m != 0 {
      FlattenPrefix(chunks[1..], m - 1);
      assert chunks[..m][1..] == chunks[1..][..m - 1];
    }
  }
}
