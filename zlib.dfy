/**
  * The zlib inflate primitive, seen only through its interface: an init result, and a decoding
  * round that takes the stream's input window and output capacity and reports a return code,
  * how many input bytes it consumed and which bytes it wrote. DEFLATE decoding itself is not modelled.
  */
module Zlib {

  type byte = b: int | 0 <= b < 256

  /** C `unsigned` / zlib `uInt`: 32 bits. */
  type Unsigned = n: int | 0 <= n < 0x1_0000_0000

  // Return codes of zlib.h that the engine names
  const Z_OK: int := 0
  const Z_STREAM_END: int := 1
  const Z_NEED_DICT: int := 2
  const Z_STREAM_ERROR: int := -2
  const Z_DATA_ERROR: int := -3
  const Z_MEM_ERROR: int := -4
  const Z_BUF_ERROR: int := -5

  /** The decoder state of one gzip member: the input it has taken and how much it has produced. */
  datatype CodecState = CodecState(fed: seq<byte>, produced: nat)

  /** The state right after inflateInit2. */
  const Fresh := CodecState([], 0)

  /** What one call of `inflate(&stream, Z_NO_FLUSH)` does: return code, bytes taken from next_in, bytes written to next_out. */
  datatype RoundResult = RoundResult(status: int, consumed: nat, output: seq<byte>)

  /**
    * The library as an oracle. `initStatus` is what inflateInit2 returns; `step` is one inflate round
    * from a decoder state, an input window and an output capacity; `pending` bounds how much work
    * the decoder can still do without taking more input (used only to state that it makes progress).
    */
  datatype Codec = Codec(
    initStatus: int,
    step: (CodecState, seq<byte>, Unsigned) -> RoundResult,
    pending: CodecState -> nat)

  /** The decoder state after a round. */
  function Advance(st: CodecState, input: seq<byte>, r: RoundResult): CodecState
    requires r.consumed <= |input|
  {
    CodecState(st.fed + input[..r.consumed], st.produced + |r.output|)
  }

  /** The return codes after which the stream cannot continue: Z_NEED_DICT, Z_DATA_ERROR, Z_MEM_ERROR. */
  predicate HardError(status: int)
  {
    status == Z_NEED_DICT || status == Z_DATA_ERROR || status == Z_MEM_ERROR
  }

  /**
    * What the engine relies on from one inflate round: it takes no more than the input window and
    * writes no more than the capacity; and a round that takes no input and reports neither
    * Z_BUF_ERROR ("no progress possible") nor a hard error still makes progress: either it ends a
    * member that has already seen input, or it lowers `pending`.
    */
  ghost predicate Honest(z: Codec, st: CodecState, input: seq<byte>, cap: Unsigned)
  {
    var r := z.step(st, input, cap);
    && r.consumed <= |input|
    && |r.output| <= cap
    && (r.consumed == 0 && r.status != Z_BUF_ERROR && !HardError(r.status) ==>
          if r.status == Z_STREAM_END then st.fed != []
          else z.pending(Advance(st, input, r)) < z.pending(st))
  }

  /** The oracle assumption: every round, from every state, is honest. */
  ghost predicate WellBehaved(z: Codec)
  {
    forall st: CodecState, input: seq<byte>, cap: Unsigned :: Honest(z, st, input, cap)
  }
}
