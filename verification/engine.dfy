/** The decompression engine seen from the reader: one session (`lz4f`
    decompression context) that is fed chunks of container bytes and answers
    each with the decoded bytes it produced. Its algorithm is not modelled. */
module Engine {
  import opened Bytes

  /** `decode(fed, chunk)` is the output of the session for `chunk` after the
      chunks `fed` were given to it, in order. */
  type Decoder = (seq<seq<byte>>, seq<byte>) -> seq<byte>

  /** Everything the session outputs while `chunks` are fed one after the
      other to a session that has already seen `prior`. */
  function Outputs(decode: Decoder, prior: seq<seq<byte>>, chunks: seq<seq<byte>>): seq<byte>
    decreases |chunks|
  {
    if chunks == [] then []
    else decode(prior, chunks[0]) + Outputs(decode, prior + [chunks[0]], chunks[1..])
  }

  /** Feeding `a` then `b` outputs what feeding `a` outputs followed by what
      feeding `b` outputs afterwards. */
  lemma {:induction false} OutputsAppend(decode: Decoder, prior: seq<seq<byte>>, a: seq<seq<byte>>, b: seq<seq<byte>>)
    ensures Outputs(decode, prior, a + b) == Outputs(decode, prior, a) + Outputs(decode, prior + a, b)
    decreases |a|
  {
    if a != [] {
      assert (a + b)[0] == a[0];
      assert (a + b)[1..] == a[1..] + b;
      assert prior + [a[0]] + a[1..] == prior + a;
      OutputsAppend(decode, prior + [a[0]], a[1..], b);
    } else {
      assert a + b == b;
      assert prior + a == prior;
    }
  }

  /** The chunks laid end to end. */
  function Concat(chunks: seq<seq<byte>>): seq<byte>
    decreases |chunks|
  {
    if chunks == [] then [] else chunks[0] + Concat(chunks[1..])
  }
}
