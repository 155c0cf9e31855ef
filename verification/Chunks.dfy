/** Byte streams that arrive in pieces. */
module Chunks {
  import opened Words

  function Flatten(chunks: seq<seq<byte>>): seq<byte> {
    if chunks == [] then [] else chunks[0] + Flatten(chunks[1..])
  }

  /** Feeding the chunks one call after another. */
  function Chunked<R>(absorb: (R, seq<byte>) -> R, r: R, chunks: seq<seq<byte>>): R
    decreases chunks
  {
    if chunks == [] then r else Chunked(absorb, absorb(r, chunks[0]), chunks[1..])
  }

  ghost predicate Streams<R(!new)>(absorb: (R, seq<byte>) -> R) {
    && (forall r :: absorb(r, []) == r)
    && (forall r, a, b :: absorb(r, a + b) == absorb(absorb(r, a), b))
  }

  lemma {:induction false} ChunkedIsWhole<R(!new)>(absorb: (R, seq<byte>) -> R, r: R, chunks: seq<seq<byte>>)
    requires Streams(absorb)
    ensures Chunked(absorb, r, chunks) == absorb(r, Flatten(chunks))
    decreases chunks
  {
    if chunks == [] {
    } else {
      ChunkedIsWhole(absorb, absorb(r, chunks[0]), chunks[1..]);
    }
  }
}
