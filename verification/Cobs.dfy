/** Consistent overhead byte stuffing: a byte string rewritten without zero bytes, and back. */
module Cobs {
  import opened Words
  import opened Wrappers

  function ToByte(n: nat): byte
    requires n < 256
  {
    n as byte
  }

  function ToNat(b: byte): nat { b as int }

  lemma NatThroughByte(n: nat)
    requires n < 256
    ensures (n as byte) as int == n
  {
    assert n % 256 == n;
  }

  lemma NatRoundTrip(n: nat)
    requires n < 256
    ensures ToNat(ToByte(n)) == n
  {
    NatThroughByte(n);
  }

  lemma ZeroByte()
    ensures ToByte(0) == 0
  {}

  lemma ByteOfNat(n: nat)
    requires n < 256
    ensures ToNat(ToByte(n)) == n && (ToByte(n) == 0 <==> n == 0)
  {
    NatRoundTrip(n);
    ZeroByte();
    NatRoundTrip(0);
    hide ToByte, ToNat;
  }

  predicate ZeroFree(s: seq<byte>) { 0 !in s }

  // ---- what the loops compute ----

  /** The encoding of run + s, where run holds the bytes copied since the last code byte. */
  function EncodeFrom(run: seq<byte>, s: seq<byte>): seq<byte>
    requires |run| < 254
    decreases s
  {
    if s == [] then [ToByte(|run| + 1)] + run
    else if s[0] == 0 then [ToByte(|run| + 1)] + run + EncodeFrom([], s[1..])
    else if |run| == 253 then [ToByte(255)] + run + [s[0]] + EncodeFrom([], s[1..])
    else EncodeFrom(run + [s[0]], s[1..])
  }

  function Encode(s: seq<byte>): seq<byte> {
    EncodeFrom([], s)
  }

  /** How many bytes the block starting at s takes; a zero code stands alone, like a one. */
  function BlockSize(s: seq<byte>): (n: nat)
    requires s != []
    ensures 1 <= n
  {
    if ToNat(s[0]) == 0 then 1 else ToNat(s[0])
  }

  /** What the block starting at s decodes to: its data, then a zero unless it is full or last. */
  function BlockBytes(s: seq<byte>): seq<byte>
    requires s != [] && BlockSize(s) <= |s|
  {
    var n := BlockSize(s);
    s[1..n] + if ToNat(s[0]) != 255 && n != |s| then [0] else []
  }

  function Prepended(a: seq<byte>, d: Option<seq<byte>>): Option<seq<byte>> {
    match d
    case None => None
    case Some(b) => Some(a + b)
  }

  /** The decoding, or None where a block runs past the end. */
  function Decode(s: seq<byte>): Option<seq<byte>>
    decreases |s|
  {
    if s == [] then Some([])
    else
      var n := BlockSize(s);
      if n > |s| then None
      else Prepended(BlockBytes(s), Decode(s[n..]))
  }

  // ---- what that means ----

  lemma DecodeBlock(code: nat, run: seq<byte>, rest: seq<byte>)
    requires 1 <= code <= 255 && |run| + 1 == code
    requires Decode(rest).Some?
    ensures Decode([ToByte(code)] + run + rest)
         == Some(run + (if code != 255 && rest != [] then [0] else []) + Decode(rest).value)
  {
    hide ToByte, ToNat;
    ByteOfNat(code);
    var s := [ToByte(code)] + run + rest;
    assert BlockSize(s) == code;
    assert s[code..] == rest && s[1..code] == run;
    assert BlockBytes(s) == run + if code != 255 && rest != [] then [0] else [];
  }

  lemma {:induction false} EncodeFromNonempty(run: seq<byte>, s: seq<byte>)
    requires |run| < 254
    ensures |run| + |s| + 1 <= |EncodeFrom(run, s)| <= |run| + |s| + (|run| + |s|) / 254 + 1
    decreases s
  {
    hide ToByte;
    if s == [] {
    } else if s[0] == 0 {
      EncodeFromNonempty([], s[1..]);
    } else if |run| == 253 {
      EncodeFromNonempty([], s[1..]);
    } else {
      EncodeFromNonempty(run + [s[0]], s[1..]);
    }
  }

  /** The decoding of a string that starts with the block of a run. */
  lemma DecodesTo(s: seq<byte>, code: nat, run: seq<byte>, rest: seq<byte>, tail: seq<byte>)
    requires 1 <= code <= 255 && |run| + 1 == code
    requires s == [ToByte(code)] + run + rest && Decode(rest) == Some(tail)
    ensures Decode(s) == Some(run + (if code != 255 && rest != [] then [0] else []) + tail)
  {
    hide ToByte, Decode;
    DecodeBlock(code, run, rest);
  }

  lemma {:induction false} DecodeEncodeFrom(run: seq<byte>, s: seq<byte>)
    requires |run| < 254
    ensures Decode(EncodeFrom(run, s)) == Some(run + s)
    decreases s
  {
    hide ToByte, ToNat, Decode;
    if s == [] {
      DecodeNothing();
      DecodesTo(EncodeFrom(run, s), |run| + 1, run, [], []);
      assert run + [] + [] == run + s;
    } else if s[0] == 0 {
      DecodeEncodeFrom([], s[1..]);
      EncodeFromNonempty([], s[1..]);
      AfterZero(run, s);
    } else if |run| == 253 {
      DecodeEncodeFrom([], s[1..]);
      AfterFull(run, s);
    } else {
      assert EncodeFrom(run, s) == EncodeFrom(run + [s[0]], s[1..]);
      hide EncodeFrom;
      DecodeEncodeFrom(run + [s[0]], s[1..]);
      assert run + s == run + [s[0]] + s[1..];
    }
  }

  lemma FirstAndRest(run: seq<byte>, s: seq<byte>, filler: seq<byte>)
    requires s != []
    ensures [] + s[1..] == s[1..]
    ensures filler == [s[0]] ==> run + s == run + filler + s[1..]
    ensures filler == [] ==> run + s == (run + [s[0]]) + filler + s[1..]
  {}

  lemma EncodeZero(run: seq<byte>, s: seq<byte>)
    requires |run| < 254 && s != [] && s[0] == 0
    ensures EncodeFrom(run, s) == [ToByte(|run| + 1)] + run + EncodeFrom([], s[1..])
  {
    hide ToByte;
  }

  lemma EncodeFull(run: seq<byte>, s: seq<byte>)
    requires |run| == 253 && s != [] && s[0] != 0
    ensures EncodeFrom(run, s) == [ToByte(255)] + (run + [s[0]]) + EncodeFrom([], s[1..])
  {
    hide ToByte;
    Associative([ToByte(255)], run, [s[0]]);
  }

  lemma AfterZero(run: seq<byte>, s: seq<byte>)
    requires |run| < 254 && s != [] && s[0] == 0
    requires EncodeFrom([], s[1..]) != [] && Decode(EncodeFrom([], s[1..])) == Some([] + s[1..])
    ensures Decode(EncodeFrom(run, s)) == Some(run + s)
  {
    EncodeZero(run, s);
    hide ToByte, ToNat, Decode, EncodeFrom;
    FirstAndRest(run, s, [0]);
    DecodesTo(EncodeFrom(run, s), |run| + 1, run, EncodeFrom([], s[1..]), s[1..]);
  }

  lemma AfterFull(run: seq<byte>, s: seq<byte>)
    requires |run| == 253 && s != [] && s[0] != 0
    requires Decode(EncodeFrom([], s[1..])) == Some([] + s[1..])
    ensures Decode(EncodeFrom(run, s)) == Some(run + s)
  {
    EncodeFull(run, s);
    hide ToByte, ToNat, Decode, EncodeFrom;
    FirstAndRest(run, s, []);
    DecodesTo(EncodeFrom(run, s), 255, run + [s[0]], EncodeFrom([], s[1..]), s[1..]);
  }

  lemma DecodeNothing()
    ensures Decode([]) == Some([])
  {}

  /** Decoding undoes encoding, for strings of every length and content. */
  lemma RoundTrip(s: seq<byte>)
    ensures Decode(Encode(s)) == Some(s)
  {
    DecodeEncodeFrom([], s);
    assert [] + s == s;
  }

  lemma {:induction false} EncodeFromZeroFree(run: seq<byte>, s: seq<byte>)
    requires |run| < 254 && ZeroFree(run)
    ensures ZeroFree(EncodeFrom(run, s))
    decreases s
  {
    hide ToByte;
    ByteOfNat(|run| + 1);
    ByteOfNat(255);
    if s == [] {
    } else if s[0] == 0 {
      EncodeFromZeroFree([], s[1..]);
    } else if |run| == 253 {
      EncodeFromZeroFree([], s[1..]);
    } else {
      EncodeFromZeroFree(run + [s[0]], s[1..]);
    }
  }

  /** The encoding has no zero byte and costs one byte, plus one per 254. */
  lemma EncodingShape(s: seq<byte>)
    ensures ZeroFree(Encode(s))
    ensures |s| + 1 <= |Encode(s)| <= |s| + |s| / 254 + 1
  {
    EncodeFromZeroFree([], s);
    EncodeFromNonempty([], s);
  }

  lemma {:induction false} EncodeRun(run: seq<byte>, p: seq<byte>, s: seq<byte>)
    requires ZeroFree(p) && |run| + |p| < 254
    ensures EncodeFrom(run, p + s) == EncodeFrom(run + p, s)
    decreases p
  {
    hide ToByte;
    if p == [] {
      assert p + s == s && run + p == run;
    } else {
      EncodeOne(run, p + s);
      hide EncodeFrom;
      assert (p + s)[0] == p[0] && (p + s)[1..] == p[1..] + s;
      assert run + [p[0]] + p[1..] == run + p;
      EncodeRun(run + [p[0]], p[1..], s);
    }
  }

  lemma EncodeOne(run: seq<byte>, s: seq<byte>)
    requires |run| < 253 && s != [] && s[0] != 0
    ensures EncodeFrom(run, s) == EncodeFrom(run + [s[0]], s[1..])
  {
    hide ToByte;
  }

  /** The format, block by block: a code byte one more than the bytes behind it, which a zero follows unless
      the block is full or the last. */
  lemma EncodeBlocks(p: seq<byte>, rest: seq<byte>)
    requires ZeroFree(p) && |p| <= 254
    ensures |p| <= 253 ==> Encode(p) == [(|p| + 1) as byte] + p
    ensures |p| <= 253 ==> Encode(p + ([0] + rest)) == [(|p| + 1) as byte] + p + Encode(rest)
    ensures |p| == 254 ==> Encode(p + rest) == [0xFF] + p + Encode(rest)
  {
    CodeByte(|p| + 1);
    hide ToByte, EncodeFrom;
    if |p| <= 253 {
      EncodeRun([], p, []);
      EncodeRun([], p, [0] + rest);
      assert p + [] == p && [] + p == p && ([0] + rest)[1..] == rest;
      EncodeZero(p, [0] + rest);
      EncodeLast(p);
    } else {
      var most, s := p[..253], [p[253]] + rest;
      EncodeRun([], most, s);
      assert most + s == p + rest && [] + most == most && s[1..] == rest && most + [s[0]] == p;
      EncodeFull(most, s);
    }
  }

  lemma EncodeLast(p: seq<byte>)
    requires |p| < 254
    ensures EncodeFrom(p, []) == [ToByte(|p| + 1)] + p
  {}

  lemma CodeByte(n: nat)
    requires n < 256
    ensures ToByte(n) == n as byte
    ensures n == 255 ==> ToByte(n) == 0xFF
  {
    ByteOfNat(255);
  }

  /** A block that runs past the end does not decode, and a zero in place of a code byte stands for an
      empty block. */
  lemma DecodeEdges(code: nat, run: seq<byte>, rest: seq<byte>)
    requires code <= 255
    ensures |run| + 1 < code ==> Decode([ToByte(code)] + run) == None
    ensures Decode([0] + rest) == Decode([ToByte(1)] + rest)
  {
    ByteOfNat(code);
    ByteOfNat(1);
    ByteOfNat(0);
    ZeroByte();
    hide ToByte, ToNat, Decode;
    DecodeUnfolds([ToByte(code)] + run);
    EmptyBlock(0, rest);
    EmptyBlock(ToByte(1), rest);
  }

  lemma EmptyBlock(code: byte, rest: seq<byte>)
    requires ToNat(code) == 0 || ToNat(code) == 1
    ensures Decode([code] + rest) == Prepended(if rest == [] then [] else [0], Decode(rest))
  {
    var s := [code] + rest;
    DecodeUnfolds(s);
    hide Decode, ToNat, Prepended;
    assert s[1..] == rest && s[1..1] == [];
    assert BlockBytes(s) == if rest == [] then [] else [0];
  }

  /** Whatever the input, the decoding is shorter than it. */
  lemma {:induction false} DecodingShape(s: seq<byte>)
    requires Decode(s).Some?
    ensures |Decode(s).value| <= DecodeLimit(|s|)
    decreases |s|
  {
    hide ToNat;
    if s == [] {
    } else {
      DecodingShape(s[BlockSize(s)..]);
    }
  }

  // ---- the loops ----

  /** What the encoder's buffer holds: finished blocks up to code_index, a gap there for the code
      byte, and the bytes of the current run up to write_index. */
  ghost predicate Encoding(out: seq<byte>, code_index: nat, write_index: nat, s: seq<byte>, read_index: nat) {
    && read_index <= |s|
    && code_index < write_index <= code_index + 254
    && write_index <= |Encode(s)| <= |out|
    && out[..code_index] + EncodeFrom(out[code_index + 1..write_index], s[read_index..]) == Encode(s)
  }

  lemma EncodingStarts(out: seq<byte>, s: seq<byte>)
    requires |s| + |s| / 254 + 1 <= |out|
    ensures Encoding(out, 0, 1, s, 0)
  {
    EncodeFromNonempty([], s);
    assert out[1..1] == [] && s[0..] == s;
    assert out[..0] + Encode(s) == Encode(s);
  }

  /** Filling the gap and opening the next block, after a zero or after 254 copied bytes. */
  lemma EncodingCloses(out: seq<byte>, c: nat, w: nat, s: seq<byte>, r: nat)
    requires Encoding(out, c, w, s, r) && r < |s| && s[r] == 0
    ensures w < |out| && Encoding(out[c := ToByte(w - c)], w, w + 1, s, r + 1)
  {
    hide ToByte, ToNat;
    var run, rest := out[c + 1..w], s[r + 1..];
    assert s[r..][1..] == rest;
    var out' := out[c := ToByte(w - c)];
    assert out'[..w] == out[..c] + ([ToByte(|run| + 1)] + run);
    EncodeFromNonempty([], rest);
    assert out'[w + 1..w + 1] == [];
  }

  lemma EncodingCopies(out: seq<byte>, c: nat, w: nat, s: seq<byte>, r: nat)
    requires Encoding(out, c, w, s, r) && r < |s| && s[r] != 0
    ensures w < |out|
    ensures w - c < 254 ==> Encoding(out[w := s[r]], c, w + 1, s, r + 1)
    ensures w - c == 254 ==> w + 1 < |out| && Encoding(out[w := s[r]][c := ToByte(255)], w + 1, w + 2, s, r + 1)
  {
    hide ToByte, ToNat;
    var run, rest := out[c + 1..w], s[r + 1..];
    assert s[r..][1..] == rest;
    EncodeFromNonempty(run, s[r..]);
    var out' := out[w := s[r]];
    assert out'[..c] == out[..c] && out'[c + 1..w + 1] == run + [s[r]];
    if w - c < 254 {
      EncodeFromNonempty(run + [s[r]], rest);
    } else {
      var out'' := out'[c := ToByte(255)];
      assert out''[..w + 1] == out[..c] + ([ToByte(255)] + run + [s[r]]);
      EncodeFromNonempty([], rest);
      assert out''[w + 2..w + 2] == [];
    }
  }

  lemma EncodingEnds(out: seq<byte>, c: nat, w: nat, s: seq<byte>)
    requires Encoding(out, c, w, s, |s|)
    ensures out[c := ToByte(w - c)][..w] == Encode(s)
  {
    hide ToByte;
    var out' := out[c := ToByte(w - c)];
    assert out'[..w] == out[..c] + ([ToByte(w - c)] + out[c + 1..w]);
  }

  method CobsEncode(input: array<byte>, length: nat, output: array<byte>) returns (written: nat)
    requires length <= input.Length && input != output
    requires length + length / 254 + 1 <= output.Length
    modifies output
    ensures written == |Encode(input[..length])| <= output.Length
    ensures output[..written] == Encode(input[..length])
    ensures output[written..] == old(output[written..])
  {
    hide ToByte, Encode, EncodeFrom, Encoding;
    ghost var s := input[..length];
    ghost var before := output[..];
    var read_index, write_index, code_index, code := 0, 1, 0, 1;
    EncodingStarts(before, s);
    while read_index < length
      invariant read_index <= length && code_index < write_index <= output.Length
      invariant code == write_index - code_index <= 254
      invariant Encoding(output[..], code_index, write_index, s, read_index)
      invariant output[write_index..] == before[write_index..]
      invariant input[..length] == s
    {
      ghost var out := output[..];
      if input[read_index] == 0 {
        EncodingCloses(out, code_index, write_index, s, read_index);
        output[code_index] := ToByte(code);
        assert output[..] == out[code_index := ToByte(code)];
        code := 1;
        code_index := write_index;
        write_index := write_index + 1;
        read_index := read_index + 1;
      } else {
        EncodingCopies(out, code_index, write_index, s, read_index);
        output[write_index] := input[read_index];
        assert output[..] == out[write_index := s[read_index]];
        write_index := write_index + 1;
        read_index := read_index + 1;
        code := code + 1;
        if code == 255 {
          output[code_index] := ToByte(code);
          assert output[..] == out[write_index - 1 := s[read_index - 1]][code_index := ToByte(255)];
          code := 1;
          code_index := write_index;
          write_index := write_index + 1;
        }
      }
    }
    EncodingEnds(output[..], code_index, write_index, s);
    ghost var out := output[..];
    output[code_index] := ToByte(code);
    assert output[..] == out[code_index := ToByte(code)];
    return write_index;
  }

  lemma Associative(a: seq<byte>, b: seq<byte>, d: seq<byte>)
    ensures a + b + d == a + (b + d)
  {}

  lemma PrependedTwice(a: seq<byte>, b: seq<byte>, d: Option<seq<byte>>)
    ensures Prepended(a, Prepended(b, d)) == Prepended(a + b, d)
  {
    if d.Some? {
      Associative(a, b, d.value);
    }
  }

  /** What the decoder has done: the decoding of the whole is the written bytes and the decoding
      of the unread ones, if those decode. */
  ghost predicate Decoding(written: seq<byte>, s: seq<byte>, read_index: nat) {
    read_index <= |s| && Decode(s) == Prepended(written, Decode(s[read_index..]))
  }

  lemma DecodingStarts(s: seq<byte>)
    ensures Decoding([], s, 0)
  {
    assert s[0..] == s;
    if Decode(s).Some? {
      assert [] + Decode(s).value == Decode(s).value;
    }
  }

  lemma DecodeUnfolds(u: seq<byte>)
    requires u != []
    ensures Decode(u) == if BlockSize(u) > |u| then None else Prepended(BlockBytes(u), Decode(u[BlockSize(u)..]))
  {
    hide BlockSize, BlockBytes, Prepended;
  }

  lemma BlockOf(s: seq<byte>, r: nat)
    requires r < |s| && r + BlockSize(s[r..]) <= |s|
    ensures var n := BlockSize(s[r..]);
      BlockBytes(s[r..]) == s[r + 1..r + n] + if ToNat(s[r]) != 255 && r + n != |s| then [0] else []
  {
    hide ToNat;
    assert s[r..][1..BlockSize(s[r..])] == s[r + 1..r + BlockSize(s[r..])];
  }

  lemma DecodingSteps(written: seq<byte>, s: seq<byte>, r: nat)
    requires Decoding(written, s, r) && r < |s|
    ensures var n := BlockSize(s[r..]);
      if r + n > |s| then Decode(s) == None
      else Decoding(written + BlockBytes(s[r..]), s, r + n)
  {
    var u := s[r..];
    var n := BlockSize(u);
    DecodeUnfolds(u);
    if r + n <= |s| {
      hide Decode, BlockSize, BlockBytes, ToNat, Prepended;
      assert u[n..] == s[r + n..];
      PrependedTwice(written, BlockBytes(u), Decode(s[r + n..]));
    } else {
      hide Decode, BlockSize, BlockBytes, ToNat;
    }
  }

  /** No decoding of length bytes is longer than this. */
  function DecodeLimit(length: nat): nat { if length == 0 then 0 else length - 1 }

  /** Steps over the code byte at read and copies the code - 1 bytes after it. */
  method CopyBlock(input: array<byte>, read: nat, output: array<byte>, write: nat, code: nat)
    returns (read_index: nat, write_index: nat)
    requires input != output && read < input.Length && read + code <= input.Length
    requires write <= output.Length && write + code <= output.Length + 1
    modifies output
    ensures read_index == read + (if code == 0 then 1 else code)
    ensures write_index == write + (if code == 0 then 0 else code - 1)
    ensures output[..write_index] == old(output[..write]) + input[read + 1..read_index]
    ensures forall k :: write_index <= k < output.Length ==> output[k] == old(output[k])
  {
    read_index, write_index := read + 1, write;
    var i := 1;
    while i < code
      invariant 1 <= i && (i <= code || i == 1)
      invariant read_index == read + i && write_index == write + i - 1
      invariant output[..write_index] == old(output[..write]) + input[read + 1..read_index]
      invariant forall k :: write_index <= k < output.Length ==> output[k] == old(output[k])
    {
      output[write_index] := input[read_index];
      write_index := write_index + 1;
      read_index := read_index + 1;
      i := i + 1;
    }
  }

  method CobsDecode(input: array<byte>, length: nat, output: array<byte>) returns (written: nat)
    requires length <= input.Length && input != output
    requires DecodeLimit(length) <= output.Length
    modifies output
    ensures match Decode(input[..length])
            case None => written == 0
            case Some(d) => written == |d| <= output.Length && output[..written] == d
    ensures forall k :: DecodeLimit(length) <= k < output.Length ==> output[k] == old(output[k])
  {
    hide ToNat, Decode, Decoding, BlockBytes, BlockSize;
    ghost var s := input[..length];
    var read_index, write_index := 0, 0;
    DecodingStarts(s);
    while read_index < length
      invariant read_index <= length && write_index <= output.Length
      invariant if read_index == length && length > 0 then write_index < read_index else write_index <= read_index
      invariant Decoding(output[..write_index], s, read_index)
      invariant input[..length] == s
      invariant forall k :: DecodeLimit(length) <= k < output.Length ==> output[k] == old(output[k])
    {
      ghost var done, u := output[..write_index], s[read_index..];
      DecodingSteps(done, s, read_index);
      var code := input[read_index];
      SizeOfBlock(u, code);
      if read_index + ToNat(code) > length && ToNat(code) != 1 {
        return 0;
      }
      BlockOf(s, read_index);
      ghost var copied := s[read_index + 1..read_index + BlockSize(u)];
      read_index, write_index := CopyBlock(input, read_index, output, write_index, ToNat(code));
      assert output[..write_index] == done + copied;
      if ToNat(code) != 255 && read_index != length {
        output[write_index] := 0;
        write_index := write_index + 1;
        assert output[..write_index] == (done + copied) + [0];
        Associative(done, copied, [0]);
      } else {
        assert (done + copied) + [] == done + copied;
        Associative(done, copied, []);
      }
    }
    DecodingEnds(output[..write_index], s);
    return write_index;
  }

  lemma SizeOfBlock(u: seq<byte>, code: byte)
    requires u != [] && u[0] == code
    ensures BlockSize(u) == if ToNat(code) == 0 then 1 else ToNat(code)
  {}

  lemma DecodingEnds(written: seq<byte>, s: seq<byte>)
    requires Decoding(written, s, |s|)
    ensures Decode(s) == Some(written)
  {
    DecodeNothing();
    assert s[|s|..] == [];
    assert written + [] == written;
  }
}
