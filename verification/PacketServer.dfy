/** The server's packet reader: zero-delimited frames picked out of a byte stream that arrives in
    arbitrary pieces, at most one frame per call. */
module PacketServer {
  import opened Words
  import opened Chunks

  // ---- frames of a stream ----

  /** Index of the first zero at or after from, or the length. */
  function FindZero(s: seq<byte>, from: nat): (i: nat)
    requires from <= |s|
    ensures from <= i <= |s| && (i < |s| ==> s[i] == 0)
    ensures forall k :: from <= k < i ==> s[k] != 0
    decreases |s| - from
  {
    if from == |s| || s[from] == 0 then from else FindZero(s, from + 1)
  }

  /** Complete frames of at least three bytes in s, where s begins just after a delimiter. */
  function FramesAfter(s: seq<byte>): seq<seq<byte>>
    decreases |s|
  {
    var end := FindZero(s, 0);
    if end == |s| then []
    else (if 3 <= end then [s[..end]] else []) + FramesAfter(s[end + 1..])
  }

  /** Complete frames of at least three bytes in s; what precedes the first delimiter is noise. */
  function Frames(s: seq<byte>): seq<seq<byte>> {
    var start := FindZero(s, 0);
    if start == |s| then [] else FramesAfter(s[start + 1..])
  }

  // ---- one call ----

  datatype Read = Data(bytes: seq<byte>) | Exhausted

  /** What one call makes of the buffered and newly read bytes: the new buffer and the packets handled. */
  function Interpret(w: seq<byte>): (seq<byte>, seq<seq<byte>>)
    requires w != []
  {
    if w[0] == 0 then
      var t := TrimZeros(w);
      var end := FindZero(t, 1);
      if end == |t| then (t, [])
      else (t[end..], if 4 <= end then [t[1..end]] else [])
    else
      var t := DropZeros(w[FindZero(w, 0)..]);
      if t == [] then ([], [])
      else
        var end := FindZero(t, 1);
        if end == |t| then (t, [])
        else (t[end..], if 4 <= end then [t[1..end]] else [])
  }

  /** All but one of the leading zeros removed. */
  function TrimZeros(s: seq<byte>): (t: seq<byte>)
    requires s != [] && s[0] == 0
    ensures t != [] && t[0] == 0 && |t| <= |s| && (|t| > 1 ==> t[1] != 0)
    decreases |s|
  {
    if |s| > 1 && s[1] == 0 then TrimZeros(s[1..]) else s
  }

  /** All leading zeros removed. */
  function DropZeros(s: seq<byte>): (t: seq<byte>)
    ensures |t| <= |s| && (t != [] ==> t[0] != 0)
    decreases |s|
  {
    if s != [] && s[0] == 0 then DropZeros(s[1..]) else s
  }

  // ---- what one call does with the bytes it finds ----

  lemma FindZeroIs(s: seq<byte>, from: nat, i: nat)
    requires from <= i <= |s| && (i < |s| ==> s[i] == 0)
    requires forall k :: from <= k < i ==> s[k] != 0
    ensures FindZero(s, from) == i
  {}

  function Zeros(k: nat): seq<byte> {
    seq(k, _ => 0)
  }

  /** w is delimiters, at least one, then bytes that are none, as far as the end. */
  ghost predicate Open(w: seq<byte>, k: nat, p: seq<byte>) {
    1 <= k && 0 !in p && w == Zeros(k) + p
  }

  /** w is delimiters, at least one, then a frame, its delimiter, and the rest. */
  ghost predicate Closed(w: seq<byte>, k: nat, p: seq<byte>, rest: seq<byte>) {
    1 <= k && p != [] && 0 !in p && w == Zeros(k) + (p + [0] + rest)
  }

  lemma {:induction false} TrimmedZeros(k: nat, s: seq<byte>)
    requires 1 <= k && (s != [] ==> s[0] != 0)
    ensures TrimZeros(Zeros(k) + s) == [0] + s
    decreases k
  {
    if k == 1 {
      assert Zeros(1) + s == [0] + s;
    } else {
      assert (Zeros(k) + s)[1..] == Zeros(k - 1) + s;
      TrimmedZeros(k - 1, s);
    }
  }

  lemma {:induction false} DroppedZeros(k: nat, s: seq<byte>)
    requires s != [] ==> s[0] != 0
    ensures DropZeros(Zeros(k) + s) == s
    decreases k
  {
    if k == 0 {
      assert Zeros(0) + s == s;
    } else {
      assert (Zeros(k) + s)[1..] == Zeros(k - 1) + s;
      DroppedZeros(k - 1, s);
    }
  }

  /** The first frame is handed over whole, and the rest is kept with its delimiter in front; frames of
      less than three bytes are skipped. */
  lemma HandsOver(w: seq<byte>, k: nat, p: seq<byte>, rest: seq<byte>)
    requires Closed(w, k, p, rest)
    ensures w != [] && Interpret(w) == ([0] + rest, if 3 <= |p| then [p] else [])
    ensures |Interpret(w).0| < |w|
  {
    hide TrimZeros;
    TrimmedZeros(k, p + [0] + rest);
    var t := [0] + (p + [0] + rest);
    FindZeroIs(t, 1, |p| + 1);
    assert t[1..|p| + 1] == p && t[|p| + 1..] == [0] + rest;
  }

  /** An unfinished frame is kept, with one delimiter in front. */
  lemma KeepsOpen(w: seq<byte>, k: nat, p: seq<byte>)
    requires Open(w, k, p)
    ensures w != [] && Interpret(w) == ([0] + p, [])
  {
    hide TrimZeros;
    TrimmedZeros(k, p);
    FindZeroIs([0] + p, 1, |p| + 1);
  }

  /** After noise, the delimiters go too, and with them the first byte of the frame behind them. */
  lemma SkipsNoise(n: seq<byte>, w: seq<byte>, k: nat, p: seq<byte>, rest: seq<byte>)
    requires n != [] && 0 !in n
    ensures Interpret(n) == ([], [])
    ensures Open(w, k, p) ==> Interpret(n + w) == (p, [])
    ensures Closed(w, k, p, rest) ==> Interpret(n + w) == ([0] + rest, if 4 <= |p| then [p[1..]] else [])
  {
    hide DropZeros;
    FindZeroIs(n, 0, |n|);
    DroppedZeros(0, []);
    assert n[|n|..] == Zeros(0) + [];
    if w != [] && w[0] == 0 {
      FindZeroIs(n + w, 0, |n|);
      assert (n + w)[|n|..] == w;
      if Open(w, k, p) {
        DroppedZeros(k, p);
        if p != [] {
          FindZeroIs(p, 1, |p|);
        }
      }
      if Closed(w, k, p, rest) {
        var t := p + [0] + rest;
        DroppedZeros(k, t);
        FindZeroIs(t, 1, |p|);
        assert t[|p|..] == [0] + rest && t[1..|p|] == p[1..];
      }
    }
  }

  lemma AlignedShapes(w: seq<byte>)
    requires w != []
    ensures forall k, p, rest :: Closed(w, k, p, rest) ==>
      Interpret(w) == ([0] + rest, if 3 <= |p| then [p] else [])
    ensures forall k, p :: Open(w, k, p) ==> Interpret(w) == ([0] + p, [])
  {
    hide Interpret, Open, Closed;
    forall k, p, rest | Closed(w, k, p, rest)
      ensures Interpret(w) == ([0] + rest, if 3 <= |p| then [p] else [])
    {
      HandsOver(w, k, p, rest);
    }
    forall k, p | Open(w, k, p) ensures Interpret(w) == ([0] + p, []) {
      KeepsOpen(w, k, p);
    }
  }

  method ReadPackets(read: Read, buffer: seq<byte>)
    returns (mybuffer: seq<byte>, handled: seq<seq<byte>>, raised: bool)
    ensures raised <==> read == Data([])
    ensures read.Exhausted? || raised ==> mybuffer == buffer && handled == []
    ensures read.Data? && !raised ==> (mybuffer, handled) == Interpret(buffer + read.bytes)
    ensures read.Data? && !raised ==> forall k, p, rest :: Closed(buffer + read.bytes, k, p, rest) ==>
      mybuffer == [0] + rest && handled == if 3 <= |p| then [p] else []
    ensures read.Data? && !raised ==> forall k, p :: Open(buffer + read.bytes, k, p) ==>
      mybuffer == [0] + p && handled == []
  {
    hide Open, Closed;
    if read.Data? && read.bytes != [] {
      AlignedShapes(buffer + read.bytes);
    }
    mybuffer, handled, raised := buffer, [], false;
    if read.Exhausted? {
      return;
    }
    var myread := read.bytes;
    if |myread| == 0 {
      raised := true;
      return;
    }
    mybuffer := mybuffer + myread;
    ghost var w := mybuffer;
    ghost var aligned := w;
    if mybuffer[0] == 0 {
      aligned := TrimZeros(w);
      if |mybuffer| < 2 {
        return;
      }
      while mybuffer[1] == 0
        invariant 2 <= |mybuffer| && mybuffer[0] == 0 && TrimZeros(mybuffer) == aligned
        decreases |mybuffer|
      {
        mybuffer := [mybuffer[0]] + mybuffer[2..];
        if |mybuffer| == 1 {
          assert mybuffer == aligned;
          return;
        }
      }
    } else {
      ghost var tail := w[FindZero(w, 0)..];
      aligned := DropZeros(tail);
      while mybuffer[0] != 0
        invariant mybuffer != [] && mybuffer[FindZero(mybuffer, 0)..] == tail
        decreases |mybuffer|
      {
        ShiftFind(mybuffer, 0);
        mybuffer := mybuffer[1..];
        if |mybuffer| == 0 {
          return;
        }
      }
      while mybuffer[0] == 0
        invariant mybuffer != [] && DropZeros(mybuffer) == aligned
        decreases |mybuffer|
      {
        mybuffer := mybuffer[1..];
        if |mybuffer| == 0 {
          return;
        }
      }
    }
    assert mybuffer == aligned;
    var packetEnd := FindZero(mybuffer, 1);
    if packetEnd == |mybuffer| {
      return;
    }
    if packetEnd <= 2 {
      mybuffer := mybuffer[packetEnd..];
      return;
    }
    var mypacket := mybuffer[1..packetEnd];
    mybuffer := mybuffer[packetEnd..];
    if |mypacket| <= 2 {
      return;
    }
    handled := [mypacket];
  }

  /** Searching the tail of a sequence is searching the sequence further along. */
  lemma {:induction false} ShiftFind(s: seq<byte>, from: nat)
    requires from < |s|
    ensures FindZero(s[1..], from) + 1 == FindZero(s, from + 1)
    decreases |s| - from
  {
    if from + 1 < |s| && s[from + 1] != 0 {
      ShiftFind(s, from + 1);
    }
  }

  // ---- conservation ----

  /** A frame followed by its delimiter, with anything after it. */
  lemma FramesAfterFrame(p: seq<byte>, rest: seq<byte>)
    requires 0 !in p
    ensures FramesAfter(p + [0] + rest) == (if 3 <= |p| then [p] else []) + FramesAfter(rest)
  {
    var s := p + [0] + rest;
    FindZeroIs(s, 0, |p|);
    assert s[..|p|] == p && s[|p| + 1..] == rest;
  }

  lemma FramesAtDelimiter(s: seq<byte>, u: seq<byte>)
    requires s != [] && s[0] == 0
    ensures Frames(s + u) == FramesAfter(s[1..] + u)
  {
    hide FramesAfter;
    FindZeroIs(s + u, 0, 0);
    assert (s + u)[1..] == s[1..] + u;
  }

  lemma FramesAfterZero(s: seq<byte>, u: seq<byte>)
    requires s != [] && s[0] == 0
    ensures FramesAfter(s + u) == FramesAfter(s[1..] + u)
  {
    FramesAfterFrame([], s[1..] + u);
    assert [] + [0] + (s[1..] + u) == s + u;
  }

  lemma {:induction false} TrimKeepsFrames(s: seq<byte>, u: seq<byte>)
    requires s != [] && s[0] == 0
    ensures FramesAfter(TrimZeros(s)[1..] + u) == FramesAfter(s[1..] + u)
    decreases |s|
  {
    if |s| > 1 && s[1] == 0 {
      FramesAfterZero(s[1..], u);
      TrimKeepsFrames(s[1..], u);
    }
  }

  lemma {:induction false} DropKeepsFrames(s: seq<byte>, u: seq<byte>)
    ensures FramesAfter(DropZeros(s) + u) == FramesAfter(s + u)
    decreases |s|
  {
    if s != [] && s[0] == 0 {
      FramesAfterZero(s, u);
      DropKeepsFrames(s[1..], u);
    }
  }

  /** Noise up to the first delimiter, and the delimiters there, do not matter. */
  lemma FramesPastNoise(w: seq<byte>, u: seq<byte>)
    requires w != []
    ensures var g := FindZero(w, 0);
      Frames(w + u) == if g == |w| then Frames(u) else FramesAfter(DropZeros(w[g..]) + u)
  {
    var g := FindZero(w, 0);
    if g == |w| {
      PureNoise(w, u);
    } else {
      hide FramesAfter;
      FindZeroIs(w + u, 0, g);
      assert (w + u)[g + 1..] == w[g..][1..] + u;
      DropKeepsFrames(w[g..], u);
      FramesAfterZero(w[g..], u);
    }
  }

  lemma PureNoise(w: seq<byte>, u: seq<byte>)
    requires forall k :: 0 <= k < |w| ==> w[k] != 0
    ensures Frames(w + u) == Frames(u)
  {
    hide FramesAfter;
    var j := FindZero(u, 0);
    FindZeroIs(w + u, 0, |w| + j);
    if j < |u| {
      assert (w + u)[|w| + j + 1..] == u[j + 1..];
    }
  }

  /** The states from which a call loses nothing, whatever arrives later: the bytes start with a
      delimiter, or hold none, or the packet after the first delimiters is one too short to handle. */
  predicate InSync(w: seq<byte>)
    requires w != []
  {
    || w[0] == 0
    || FindZero(w, 0) == |w|
    || var t := DropZeros(w[FindZero(w, 0)..]);
       t != [] && FindZero(t, 1) < |t| && FindZero(t, 1) <= 2
  }

  ghost predicate Conserves(w: seq<byte>)
    requires w != []
  {
    forall u :: Frames(w + u) == Interpret(w).1 + Frames(Interpret(w).0 + u)
  }

  lemma AlignedCall(w: seq<byte>, u: seq<byte>)
    requires w != [] && w[0] == 0
    ensures Frames(w + u) == Interpret(w).1 + Frames(Interpret(w).0 + u)
    ensures Interpret(w).0 != [] && Interpret(w).0[0] == 0
  {
    var t := TrimZeros(w);
    var end := FindZero(t, 1);
    FramesAtDelimiter(w, u);
    TrimKeepsFrames(w, u);
    FramesAtDelimiter(t, u);
    if end < |t| {
      SplitFrame(t, end, u);
    }
  }

  lemma SplitFrame(t: seq<byte>, end: nat, u: seq<byte>)
    requires 1 <= end < |t| && t[end] == 0 && forall k :: 1 <= k < end ==> t[k] != 0
    ensures FramesAfter(t[1..] + u) == (if 4 <= end then [t[1..end]] else []) + Frames(t[end..] + u)
  {
    FramesAfterFrame(t[1..end], t[end + 1..] + u);
    assert t[1..end] + [0] + (t[end + 1..] + u) == t[1..] + u;
    FramesAtDelimiter(t[end..], u);
    assert t[end..][1..] == t[end + 1..];
  }

  lemma SplitWholeFrame(t: seq<byte>, end: nat, u: seq<byte>)
    requires end < |t| && t[end] == 0 && forall k :: 0 <= k < end ==> t[k] != 0
    ensures FramesAfter(t + u) == (if 3 <= end then [t[..end]] else []) + Frames(t[end..] + u)
  {
    FramesAfterFrame(t[..end], t[end + 1..] + u);
    assert t[..end] + [0] + (t[end + 1..] + u) == t + u;
    FramesAtDelimiter(t[end..], u);
    assert t[end..][1..] == t[end + 1..];
  }

  /** What a call that starts inside noise keeps and what it should have kept. */
  lemma NoisyCall(w: seq<byte>, u: seq<byte>)
    requires w != [] && w[0] != 0 && FindZero(w, 0) < |w|
    ensures var t := DropZeros(w[FindZero(w, 0)..]);
      && Frames(w + u) == FramesAfter(t + u)
      && (t != [] && FindZero(t, 1) < |t| ==>
            var end := FindZero(t, 1);
            && Frames(w + u) == (if 3 <= end then [t[..end]] else []) + Frames(t[end..] + u)
            && Interpret(w) == (t[end..], if 4 <= end then [t[1..end]] else []))
  {
    var t := DropZeros(w[FindZero(w, 0)..]);
    FramesPastNoise(w, u);
    if t != [] && FindZero(t, 1) < |t| {
      SplitWholeFrame(t, FindZero(t, 1), u);
    }
  }

  function Later(): seq<byte> { [1, 1, 1, 0] }

  /** Bytes whose arrival shows a loss: three of a frame and a delimiter. */
  lemma LostFrame(t: seq<byte>)
    requires 0 !in t
    ensures FramesAfter(t + Later()) != [] && Frames(t + Later()) == []
  {
    FramesAfterFrame(t + [1, 1, 1], []);
    assert t + [1, 1, 1] + [0] + [] == t + [1, 1, 1, 0];
    FindZeroIs(t + [1, 1, 1, 0], 0, |t| + 3);
    assert (t + [1, 1, 1, 0])[|t| + 4..] == [];
  }

  /** A call loses no frame, now or later, exactly when the bytes it works on are in sync. */
  lemma ConservesIffInSync(w: seq<byte>)
    requires w != []
    ensures Conserves(w) <==> InSync(w)
  {
    if InSync(w) {
      hide Frames, FramesAfter;
      forall u ensures Frames(w + u) == Interpret(w).1 + Frames(Interpret(w).0 + u) {
        if w[0] == 0 {
          AlignedCall(w, u);
        } else if FindZero(w, 0) == |w| {
          FramesPastNoise(w, u);
          assert [] + u == u;
        } else {
          NoisyCall(w, u);
        }
      }
    } else {
      NoisyLoss(w);
    }
  }

  lemma NoisyLoss(w: seq<byte>)
    requires w != [] && !InSync(w)
    ensures !Conserves(w)
  {
    var t := DropZeros(w[FindZero(w, 0)..]);
    if t == [] || FindZero(t, 1) == |t| {
      DelimiterLost(w, t);
    } else {
      FirstByteLost(w, t, FindZero(t, 1));
    }
  }

  /** With no end in sight the call strips the opening delimiter, so the next frame is taken for noise. */
  lemma DelimiterLost(w: seq<byte>, t: seq<byte>)
    requires w != [] && w[0] != 0 && FindZero(w, 0) < |w| && t == DropZeros(w[FindZero(w, 0)..])
    requires t == [] || FindZero(t, 1) == |t|
    ensures !Conserves(w)
  {
    var u := Later();
    NoisyCall(w, u);
    OpenCall(w);
    hide Frames, FramesAfter, Interpret, DropZeros, FindZero, Later;
    LostFrame(t);
    assert Frames(w + u) != [] + Frames(t + u);
  }

  lemma OpenCall(w: seq<byte>)
    requires w != [] && w[0] != 0 && FindZero(w, 0) < |w|
    requires var t := DropZeros(w[FindZero(w, 0)..]); t == [] || FindZero(t, 1) == |t|
    ensures var t := DropZeros(w[FindZero(w, 0)..]); Interpret(w) == (t, []) && 0 !in t
  {
    hide DropZeros;
  }

  /** With an end in sight the call drops the packet's first byte. */
  lemma FirstByteLost(w: seq<byte>, t: seq<byte>, end: nat)
    requires w != [] && w[0] != 0 && FindZero(w, 0) < |w| && t == DropZeros(w[FindZero(w, 0)..])
    requires t != [] && end == FindZero(t, 1) < |t| && 3 <= end
    ensures !Conserves(w)
  {
    NoisyCall(w, []);
    hide Frames, FramesAfter, Interpret, DropZeros, FindZero;
    var later := Frames(t[end..] + []);
    assert Frames(w + []) == [t[..end]] + later;
    if 4 <= end {
      DifferentHeads(t[..end], t[1..end], later);
    } else {
      assert |[t[..end]] + later| != |[] + later|;
    }
  }

  lemma DifferentHeads(a: seq<byte>, b: seq<byte>, rest: seq<seq<byte>>)
    requires |a| != |b|
    ensures [a] + rest != [b] + rest
  {
    assert ([a] + rest)[0] == a && ([b] + rest)[0] == b;
  }

  // ---- whole streams ----

  /** Successive calls, one per chunk: the final buffer and every packet handled. */
  function Run(buffer: seq<byte>, chunks: seq<seq<byte>>): (seq<byte>, seq<seq<byte>>)
    requires [] !in chunks
    decreases chunks
  {
    if chunks == [] then (buffer, [])
    else
      var (next, packets) := Interpret(buffer + chunks[0]);
      var (last, more) := Run(next, chunks[1..]);
      (last, packets + more)
  }

  /** At every moment, the packets handled so far and the frames still in the buffer and in the
      unread stream are the frames of the whole stream. */
  lemma {:induction false} StreamConserved(buffer: seq<byte>, chunks: seq<seq<byte>>, unread: seq<byte>)
    requires [] !in chunks && chunks != []
    requires (buffer + chunks[0])[0] == 0
    ensures var (last, handled) := Run(buffer, chunks);
      && Frames(buffer + Flatten(chunks) + unread) == handled + Frames(last + unread)
      && last != [] && last[0] == 0
    decreases chunks
  {
    hide Frames, FramesAfter, Interpret;
    var w, rest := buffer + chunks[0], chunks[1..];
    var (next, packets) := Interpret(w);
    AlignedCall(w, Flatten(rest) + unread);
    assert buffer + Flatten(chunks) + unread == w + (Flatten(rest) + unread);
    if rest == [] {
      assert Flatten(rest) + unread == unread;
      assert packets + [] == packets;
    } else {
      assert (next + rest[0])[0] == next[0];
      StreamConserved(next, rest, unread);
      var (last, more) := Run(next, rest);
      assert next + Flatten(rest) + unread == next + (Flatten(rest) + unread);
      assert packets + (more + Frames(last + unread)) == packets + more + Frames(last + unread);
    }
  }

  // ---- how soon ----

  /** s, which begins just after a delimiter, starts with n complete frames of at least three bytes, give
      or take extra delimiters. */
  predicate Ahead(s: seq<byte>, n: nat)
    decreases |s|
  {
    n == 0 ||
    var end := FindZero(s, 0);
    end < |s| && if end == 0 then Ahead(s[1..], n) else 3 <= end && Ahead(s[end + 1..], n - 1)
  }

  lemma AheadZero(s: seq<byte>, n: nat)
    ensures Ahead([0] + s, n) <==> Ahead(s, n)
  {
    FindZeroIs([0] + s, 0, 0);
    assert ([0] + s)[1..] == s;
  }

  lemma {:induction false} AheadZeros(k: nat, s: seq<byte>, n: nat)
    ensures Ahead(Zeros(k) + s, n) <==> Ahead(s, n)
    decreases k
  {
    hide Ahead;
    if k == 0 {
      assert Zeros(0) + s == s;
    } else {
      AheadZeros(k - 1, s, n);
      AheadZero(Zeros(k - 1) + s, n);
      assert Zeros(k) + s == [0] + (Zeros(k - 1) + s);
    }
  }

  lemma AheadFrame(p: seq<byte>, rest: seq<byte>, n: nat)
    requires p != [] && 0 !in p && 1 <= n
    ensures Ahead(p + [0] + rest, n) <==> 3 <= |p| && Ahead(rest, n - 1)
  {
    var s := p + [0] + rest;
    FindZeroIs(s, 0, |p|);
    assert s[|p| + 1..] == rest;
  }

  lemma NothingAhead(p: seq<byte>)
    requires 0 !in p
    ensures !Ahead(p, 1)
  {
    FindZeroIs(p, 0, |p|);
  }

  /** More bytes take nothing away, and n frames are also fewer. */
  lemma {:induction false} AheadGrows(s: seq<byte>, u: seq<byte>, n: nat, m: nat)
    requires Ahead(s, n) && m <= n
    ensures Ahead(s + u, m)
    decreases |s|
  {
    if m != 0 {
      var end := FindZero(s, 0);
      FindZeroIs(s + u, 0, end);
      assert (s + u)[end + 1..] == s[end + 1..] + u;
      AheadGrows(s[end + 1..], u, if end == 0 then n else n - 1, if end == 0 then m else m - 1);
    }
  }

  /** Every string that starts with a delimiter has one of the two shapes. */
  lemma ShapeOf(w: seq<byte>) returns (k: nat, p: seq<byte>, rest: seq<byte>)
    requires w != [] && w[0] == 0
    ensures Open(w, k, p) || Closed(w, k, p, rest)
    decreases |w|
  {
    if |w| > 1 && w[1] == 0 {
      k, p, rest := ShapeOf(w[1..]);
      k := k + 1;
      assert Zeros(k) == [0] + Zeros(k - 1);
      assert w == [0] + w[1..];
    } else {
      var end := FindZero(w, 1);
      k, p, rest := 1, w[1..end], [];
      assert Zeros(1) == [0];
      if end < |w| {
        rest := w[end + 1..];
        assert w == Zeros(1) + (p + [0] + rest);
      } else {
        assert w == Zeros(1) + p;
      }
    }
  }

  /** One call takes at most one frame off what is ahead, and takes one if it is complete. */
  lemma CallTakesOne(w: seq<byte>, u: seq<byte>, n: nat)
    requires w != [] && w[0] == 0 && Ahead((w + u)[1..], n)
    ensures var (next, packets) := Interpret(w);
      && next != [] && next[0] == 0 && |packets| <= 1
      && Ahead((next + u)[1..], if |packets| <= n then n - |packets| else 0)
      && (1 <= n && Ahead(w[1..], 1) ==> |packets| == 1)
  {
    hide Interpret, Ahead, TrimZeros, DropZeros;
    var k, p, rest := ShapeOf(w);
    if Open(w, k, p) {
      KeepsOpen(w, k, p);
      assert w[1..] == Zeros(k - 1) + p && (w + u)[1..] == Zeros(k - 1) + (p + u);
      AheadZeros(k - 1, p, 1);
      AheadZeros(k - 1, p + u, n);
      NothingAhead(p);
      assert ([0] + p + u)[1..] == p + u;
    } else {
      HandsOver(w, k, p, rest);
      assert w[1..] == Zeros(k - 1) + (p + [0] + rest);
      assert (w + u)[1..] == Zeros(k - 1) + (p + [0] + (rest + u));
      AheadZeros(k - 1, p + [0] + (rest + u), n);
      assert ([0] + rest + u)[1..] == rest + u;
      if n == 0 {
        NoneAhead(rest + u);
      } else {
        AheadFrame(p, rest + u, n);
      }
    }
  }

  lemma NoneAhead(s: seq<byte>)
    ensures Ahead(s, 0)
  {}

  /** While complete frames wait, every call hands one over. */
  lemma {:induction false} WaitingFrames(buffer: seq<byte>, chunks: seq<seq<byte>>, n: nat)
    requires [] !in chunks && chunks != [] && (buffer + chunks[0])[0] == 0
    requires Ahead((buffer + chunks[0])[1..], n)
    ensures n <= |Run(buffer, chunks).1| || |chunks| <= |Run(buffer, chunks).1|
    decreases chunks
  {
    hide Interpret, Ahead;
    var w, rest := buffer + chunks[0], chunks[1..];
    if n != 0 {
      assert w + [] == w && w[1..] + [] == w[1..];
      AheadGrows(w[1..], [], n, 1);
      CallTakesOne(w, [], n);
      var (next, packets) := Interpret(w);
      if rest != [] {
        assert next + [] == next && (next + rest[0])[1..] == next[1..] + rest[0];
        AheadGrows(next[1..], rest[0], n - 1, n - 1);
        WaitingFrames(next, rest, n - 1);
      }
    }
  }

  /** Calls made while frames are still arriving take off what is ahead no more than they hand over. */
  lemma {:induction false} ArrivingFrames(buffer: seq<byte>, chunks: seq<seq<byte>>, u: seq<byte>, n: nat)
    requires [] !in chunks && buffer + Flatten(chunks) + u != [] && (buffer + Flatten(chunks) + u)[0] == 0
    requires Ahead((buffer + Flatten(chunks) + u)[1..], n)
    ensures var (last, handled) := Run(buffer, chunks);
      && last + u != [] && (last + u)[0] == 0
      && Ahead((last + u)[1..], if |handled| <= n then n - |handled| else 0)
    decreases chunks
  {
    hide Interpret, Ahead;
    if chunks == [] {
      assert buffer + Flatten(chunks) + u == buffer + u;
    } else {
      var w, rest := buffer + chunks[0], chunks[1..];
      assert chunks[0] in chunks;
      assert buffer + Flatten(chunks) + u == w + (Flatten(rest) + u);
      CallTakesOne(w, Flatten(rest) + u, n);
      var (next, packets) := Interpret(w);
      assert next + Flatten(rest) + u == next + (Flatten(rest) + u);
      ArrivingFrames(next, rest, u, if |packets| <= n then n - |packets| else 0);
    }
  }

  lemma {:induction false} RunSplits(buffer: seq<byte>, a: seq<seq<byte>>, b: seq<seq<byte>>)
    requires [] !in a && [] !in b
    ensures [] !in a + b
    ensures var (mid, first) := Run(buffer, a); var (last, second) := Run(mid, b);
      Run(buffer, a + b) == (last, first + second)
    decreases a
  {
    hide Interpret;
    if a == [] {
      assert a + b == b && [] + Run(buffer, b).1 == Run(buffer, b).1;
    } else {
      var (next, packets) := Interpret(buffer + a[0]);
      assert (a + b)[0] == a[0] && (a + b)[1..] == a[1..] + b;
      RunSplits(next, a[1..], b);
      var (mid, first) := Run(next, a[1..]);
      assert packets + (first + Run(mid, b).1) == packets + first + Run(mid, b).1;
    }
  }

  /** Once n frames have arrived, the call that saw the last of them and each later one hand a frame over
      until all n are, whatever arrives in the meantime. */
  lemma Prompt(before: seq<seq<byte>>, last: seq<byte>, later: seq<seq<byte>>, n: nat)
    requires [] !in before && last != [] && [] !in later
    requires (Flatten(before) + last)[0] == 0 && Ahead((Flatten(before) + last)[1..], n)
    ensures [] !in before + ([last] + later)
    ensures var handled := Run([], before + ([last] + later)).1; n <= |handled| || 1 + |later| <= |handled|
  {
    hide Interpret, Ahead, Run;
    assert [] + Flatten(before) + last == Flatten(before) + last;
    ArrivingFrames([], before, last, n);
    RunSplits([], before, [last] + later);
    var (buffer, handled) := Run([], before);
    WaitingFrames(buffer, [last] + later, if |handled| <= n then n - |handled| else 0);
  }

  // ---- the server's loop ----

  /** The nonempty reads up to the first empty one, which kills the server. */
  function Received(arrivals: seq<Read>): (chunks: seq<seq<byte>>)
    ensures [] !in chunks
  {
    if arrivals == [] || arrivals[0] == Data([]) then []
    else (if arrivals[0].Data? then [arrivals[0].bytes] else []) + Received(arrivals[1..])
  }

  lemma ReceivedUnfolds(read: Read, rest: seq<Read>)
    ensures Received([read] + rest)
         == if read == Data([]) then [] else (if read.Data? then [read.bytes] else []) + Received(rest)
  {
    assert ([read] + rest)[1..] == rest;
  }

  /** What arrives in two parts, the first without an empty read, is received in two parts. */
  lemma {:induction false} ReceivedJoins(a: seq<Read>, b: seq<Read>)
    requires Data([]) !in a
    ensures Received(a + b) == Received(a) + Received(b)
    decreases a
  {
    hide Received;
    if a == [] {
      ReceivedNothing();
      assert a + b == b && [] + Received(b) == Received(b);
    } else {
      var rest := a[1..];
      ReceivedJoins(rest, b);
      OneReadFirst(a[0], rest, b);
      assert a == [a[0]] + rest;
    }
  }

  lemma OneReadFirst(read: Read, rest: seq<Read>, b: seq<Read>)
    requires read != Data([]) && Received(rest + b) == Received(rest) + Received(b)
    ensures Received([read] + rest + b) == Received([read] + rest) + Received(b)
  {
    hide Received;
    ReceivedUnfolds(read, rest);
    ReceivedUnfolds(read, rest + b);
    assert [read] + rest + b == [read] + (rest + b);
    var first: seq<seq<byte>> := if read.Data? then [read.bytes] else [];
    assert first + (Received(rest) + Received(b)) == first + Received(rest) + Received(b);
  }

  /** Nonempty reads count in order, empty-handed ones do not count, and after an empty one nothing does. */
  lemma ReceivedOne(c: seq<byte>, b: seq<Read>)
    ensures Received([Exhausted] + b) == Received(b)
    ensures Received([Data(c)] + b) == if c == [] then [] else [c] + Received(b)
  {
    ReceivedUnfolds(Exhausted, b);
    ReceivedUnfolds(Data(c), b);
    hide Received;
    assert [] + Received(b) == Received(b);
  }

  lemma ReceivedNothing()
    ensures Received([]) == []
  {}

  lemma RunUnfolds(buffer: seq<byte>, c: seq<byte>, rest: seq<seq<byte>>)
    requires [] !in [c] + rest
    ensures c != [] && [] !in rest
    ensures var (next, packets) := Interpret(buffer + c);
      && Run(buffer, [c] + rest).0 == Run(next, rest).0
      && Run(buffer, [c] + rest).1 == packets + Run(next, rest).1
  {
    hide Interpret;
    var chunks := [c] + rest;
    assert chunks[0] == c && chunks[1..] == rest;
    assert c in chunks && forall r :: r in rest ==> r in chunks;
  }

  lemma RunOfNothing(buffer: seq<byte>)
    ensures Run(buffer, []) == (buffer, [])
  {}

  /** The packets handled before call i and those that the remaining arrivals lead to are all packets. */
  ghost predicate Reading(buffer: seq<byte>, handled: seq<seq<byte>>, arrivals: seq<Read>, i: nat) {
    && i <= |arrivals|
    && var (last, more) := Run(buffer, Received(arrivals[i..]));
       Run([], Received(arrivals)) == (last, handled + more)
  }

  lemma ReadingStarts(arrivals: seq<Read>)
    ensures Reading([], [], arrivals, 0)
  {
    hide Run, Received;
    assert arrivals[0..] == arrivals;
    assert [] + Run([], Received(arrivals)).1 == Run([], Received(arrivals)).1;
  }

  lemma ReadingSteps(buffer: seq<byte>, handled: seq<seq<byte>>, arrivals: seq<Read>, i: nat)
    requires i < |arrivals| && Reading(buffer, handled, arrivals, i)
    ensures arrivals[i].Exhausted? ==> Reading(buffer, handled + [], arrivals, i + 1)
    ensures arrivals[i] == Data([]) ==> Run([], Received(arrivals)) == (buffer, handled)
    ensures arrivals[i].Data? && arrivals[i].bytes != [] ==>
      var (next, packets) := Interpret(buffer + arrivals[i].bytes);
      Reading(next, handled + packets, arrivals, i + 1)
  {
    hide Run, Interpret;
    var rest := Received(arrivals[i + 1..]);
    assert arrivals[i..][1..] == arrivals[i + 1..];
    if arrivals[i].Exhausted? {
      assert [] + rest == rest && handled + [] == handled;
    } else if arrivals[i].bytes == [] {
      RunOfNothing(buffer);
      assert handled + [] == handled;
    } else {
      RunUnfolds(buffer, arrivals[i].bytes, rest);
      hide Received;
      var (next, packets) := Interpret(buffer + arrivals[i].bytes);
      var (last, more) := Run(next, rest);
      assert handled + (packets + more) == handled + packets + more;
    }
  }

  lemma ReadingEnds(buffer: seq<byte>, handled: seq<seq<byte>>, arrivals: seq<Read>)
    requires Reading(buffer, handled, arrivals, |arrivals|)
    ensures Run([], Received(arrivals)) == (buffer, handled)
  {
    hide Run;
    assert arrivals[|arrivals|..] == [] && handled + [] == handled;
    RunOfNothing(buffer);
  }

  /** The reading loop: the buffer is carried from call to call. */
  method RunThread(arrivals: seq<Read>) returns (mybuffer: seq<byte>, handled: seq<seq<byte>>)
    ensures (mybuffer, handled) == Run([], Received(arrivals))
  {
    hide Interpret, Run, Received, Reading;
    mybuffer, handled := [], [];
    var i := 0;
    ReadingStarts(arrivals);
    while i < |arrivals|
      invariant 0 <= i <= |arrivals| && Reading(mybuffer, handled, arrivals, i)
    {
      ReadingSteps(mybuffer, handled, arrivals, i);
      var packets, raised;
      mybuffer, packets, raised := ReadPackets(arrivals[i], mybuffer);
      if raised {
        return;
      }
      handled := handled + packets;
      i := i + 1;
    }
    ReadingEnds(mybuffer, handled, arrivals);
  }
}
