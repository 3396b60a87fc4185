/**
  * The streaming gzip inflate engine (struct prgm_gzip and the three functions over it).
  * The engine owns a zlib stream, writes the codec's output into a caller-owned buffer of fixed
  * size, and hands each window to the caller's sink; its decoding loop is specified round by
  * round by InflateSpec.
  */
module GzipInflate {
  import opened Lexbor
  import opened Zlib
  import opened InflateSpec

  /** A C pointer that may be NULL. */
  datatype Option<T> = None | Some(value: T)

  /** What the sink's ctx pointer leads to: the record of every call the sink has answered. */
  class Context {
    var seen: seq<SinkCall>

    constructor ()
      ensures seen == []
    {
      seen := [];
    }

    /** `gzip->cb(gzip, gzip->out_buf, have)`: the sink answers from its history and the call, and remembers the call. */
    method Deliver(cb: Callback, call: SinkCall) returns (answer: Status)
      modifies this
      ensures seen == old(seen) + [call]
      ensures answer == cb(old(seen), call)
    {
      answer := cb(seen, call);
      seen := seen + [call];
    }
  }

  /** struct prgm_gzip. The z_stream is represented by the decoder state, liveness and avail_in/avail_out. */
  class Gzip {
    var codec: CodecState
    var codecLive: bool        // inflateInit2 succeeded and inflateEnd has not been called since
    var availIn: Unsigned      // stream.avail_in
    var availOut: Unsigned     // stream.avail_out
    var ret: int
    var count: nat
    var cb: Option<Callback>
    var ctx: Context?
    var outBuf: array?<byte>
    var outBufSize: Unsigned
    ghost var log: seq<byte>   // every input byte the codec has taken, over all members

    /** Storage for an engine, before prgm_gzip_inflate_init. */
    constructor ()
      ensures !codecLive && count == 0 && cb.None? && ctx == null && outBuf == null && outBufSize == 0 && log == []
    {
      codec, codecLive, availIn, availOut, ret, count := Fresh, false, 0, 0, 0, 0;
      cb, ctx, outBuf, outBufSize := None, null, null, 0;
      log := [];
    }

    /**
      * What every successful init establishes and every call keeps: the arguments init checked, a
      * buffer that holds out_buf_size bytes, the counter at 0 (quirk of the source: re-init clears
      * it), and a decoder that has seen only the latest bytes of the log.
      */
    ghost predicate Valid()
      reads this
    {
      && outBuf != null && ctx != null && cb.Some?
      && 0 < outBufSize <= outBuf.Length
      && count == 0
      && IsSuffix(codec.fed, log)
    }

    ghost function View(): Fields
      reads this, outBuf, ctx
    {
      Fields(codec, codecLive, ret, count, availIn, availOut, outBufSize,
             if outBuf == null then [] else outBuf[..],
             if ctx == null then [] else ctx.seen,
             log)
    }

    /** memset(gzip, 0, sizeof(prgm_gzip_t)): every field of the engine zeroed; the ghost log is kept. */
    method Clear()
      modifies this
      ensures codec == Fresh && !codecLive && availIn == 0 && availOut == 0 && ret == 0 && count == 0
      ensures cb == None && ctx == null && outBuf == null && outBufSize == 0 && log == old(log)
    {
      codec, codecLive, availIn, availOut, ret, count := Fresh, false, 0, 0, 0, 0;
      cb, ctx, outBuf, outBufSize := None, null, null, 0;
    }

    /** `inflate(&stream, Z_NO_FLUSH)`: one zlib round over the stream's windows; it writes from the start of out_buf. */
    method Decode(input: seq<byte>, z: Codec) returns (code: int)
      requires Valid() && WellBehaved(z) && |input| == availIn && availOut <= outBufSize
      modifies this`codec, this`availIn, this`availOut, this`log, outBuf
      ensures Valid()
      ensures Honest(z, old(codec), input, old(availOut))
      ensures View() == Decoded(old(View()), input, z.step(old(codec), input, old(availOut)))
      ensures code == z.step(old(codec), input, old(availOut)).status
    {
      var r := z.step(codec, input, availOut);
      assert Honest(z, codec, input, availOut);
      var i := 0;
      while i < |r.output|
        invariant 0 <= i <= |r.output|
        invariant forall k :: 0 <= k < i ==> outBuf[k] == r.output[k]
        invariant forall k :: i <= k < outBuf.Length ==> outBuf[k] == old(outBuf[k])
        modifies outBuf
      {
        outBuf[i] := r.output[i];
        i := i + 1;
      }
      assert outBuf[..] == r.output + old(outBuf[..])[|r.output|..];
      SuffixGrows(codec.fed, log, input[..r.consumed]);
      codec := Advance(codec, input, r);
      availIn := availIn - r.consumed;
      availOut := availOut - |r.output|;
      log := log + input[..r.consumed];
      code := r.status;
    }

    /**
      * One round of prgm_gzip_inflate's loop (the body of the inner do/while, with where control goes
      * next): reset the output window, run the codec, dispatch on its code, hand the window to the
      * sink, then finish, repeat over the same window, move the cursor, or start the next member.
      * `done` says that the source returns here; `pos` and `size` are the locals `data` (as an
      * offset into the chunk) and `size`.
      */
    method Round(data: seq<byte>, z: Codec, pos: nat, size: Unsigned)
      returns (done: bool, status: Status, ghost left: nat, pos': nat, size': Unsigned)
      requires Valid() && codecLive && WellBehaved(z) && AtRound(View(), data, pos, size)
      modifies this, outBuf, ctx
      ensures Valid() && outBuf == old(outBuf) && ctx == old(ctx) && cb == old(cb)
      ensures RoundStep(z, cb.value, data, old(View()), pos, size)
              == if done then Finish(Outcome(status, left, View())) else Resume(View(), pos', size')
      ensures !done ==> codecLive
    {
      ghost var step := RoundStep(z, cb.value, data, View(), pos, size);
      pos', size' := pos, size;

      availOut := outBufSize;   // next_out = out_buf
      var code := Decode(data[pos + (size - availIn)..], z);
      ret := code;
      assert step == AfterCodec(z, cb.value, data, View(), pos, size);
      if HardError(ret) {
        // goto failed
        codecLive := false;     // inflateEnd
        return true, Error, availIn, pos', size';
      }
      if ret == Z_BUF_ERROR {
        return true, Ok, availIn, pos', size';
      }

      var have := outBufSize - availOut;
      var answer := ctx.Deliver(cb.value, SinkCall(count, outBuf[..have]));
      assert step == AfterSink(z, data, View(), answer, pos, size);
      done, status, left, pos', size' := Settle(data, z, answer, pos, size);
    }

    /**
      * The rest of a round, once the sink has answered: stop or fail on its answer, start the next
      * member after a Z_STREAM_END, repeat over the same window when the buffer was filled, and
      * otherwise move the cursor past what the codec took.
      */
    method Settle(data: seq<byte>, z: Codec, answer: Status, pos: nat, size: Unsigned)
      returns (done: bool, status: Status, ghost left: nat, pos': nat, size': Unsigned)
      requires Valid() && codecLive && pos + size == |data| && availIn <= size
      modifies this, outBuf, ctx
      ensures Valid() && outBuf == old(outBuf) && ctx == old(ctx) && cb == old(cb)
      ensures AfterSink(z, data, old(View()), answer, pos, size)
              == if done then Finish(Outcome(status, left, View())) else Resume(View(), pos', size')
      ensures !done ==> codecLive
    {
      pos', size' := pos, size;
      if answer != Ok {
        if answer == Stop {
          return true, Stop, availIn, pos', size';
        }
        codecLive := false;     // goto failed: inflateEnd
        return true, Error, availIn, pos', size';
      }

      if ret == Z_STREAM_END {
        count := count + 1;
        pos', size' := pos + (size - availIn), availIn;
        codecLive := false;     // inflateEnd
        var init := InflateInit(this, outBuf, outBufSize, cb, ctx, z);
        if init != Ok {
          return true, init, size', pos', size';
        }
        // the re-init stored the fake window avail_in = out_buf_size, so `avail_in == 0` never holds here
        assert availIn != 0;
        availIn := size';       // goto next_chunk: next_in = data; avail_in = size
        return false, Ok, size', pos', size';
      }
      if availOut == 0 {
        // the buffer was filled: the inner do/while runs another round over the same window
        return false, Ok, availIn, pos', size';
      }
      pos', size' := pos + (size - availIn), availIn;
      if size' == 0 {
        return true, Ok, 0, pos', size';
      }
      availIn := size';         // next outer iteration: next_in = data; avail_in = size
      return false, Ok, size', pos', size';
    }

    /**
      * prgm_gzip_inflate(gzip, data, size). The nested do/while loops and the `goto next_chunk`
      * restart are one loop of rounds here; the call ends where a round says the source returns.
      */
    method Inflate(data: seq<byte>, z: Codec) returns (status: Status, ghost left: nat)
      requires Valid() && codecLive && WellBehaved(z) && |data| < 0x1_0000_0000
      modifies this, outBuf, ctx
      ensures Valid() && outBuf == old(outBuf) && ctx == old(ctx) && cb == old(cb)
      ensures Outcome(status, left, View()) == Decompress(z, cb.value, data, old(View()))
      ensures outBufSize == old(outBufSize)
      ensures status == Ok || status == Stop || status == Error
      ensures status == Error <==> !codecLive
      ensures status == Ok ==> left == 0 || ret == Z_BUF_ERROR
      ensures left <= |data| && log == old(log) + data[..|data| - left]
      ensures old(ctx.seen) <= ctx.seen
      ensures forall i :: |old(ctx.seen)| <= i < |ctx.seen| ==> ctx.seen[i].count == 0 && |ctx.seen[i].data| <= outBufSize
    {
      var pos: nat, size: Unsigned := 0, |data|;
      ghost var start := old(View()).(availIn := |data|);
      availIn := size;   // next_in = data; avail_in = size
      assert View() == start;
      ghost var goal := Rounds(z, cb.value, data, start, 0, |data|);
      RoundsAccounting(z, cb.value, data, start, 0, |data|);
      RoundsShape(z, cb.value, data, start, 0, |data|);
      RoundsSinkCalls(z, cb.value, data, start, 0, |data|);
      while true
        invariant Valid() && codecLive
        invariant outBuf == old(outBuf) && ctx == old(ctx) && cb == old(cb)
        invariant AtRound(View(), data, pos, size)
        invariant Rounds(z, cb.value, data, View(), pos, size) == goal
        decreases availIn, Phase(codec), z.pending(codec)
      {
        ghost var here := View();
        var done;
        done, status, left, pos, size := Round(data, z, pos, size);
        if done {
          assert goal == Outcome(status, left, View());
          return;
        }
        assert Progress(z, here, View());
      }
    }
  }

  /** prgm_gzip_inflate_init(gzip, out_buf, out_size, cb, ctx). */
  method InflateInit(gzip: Gzip?, outBuf: array?<byte>, outSize: Unsigned, cb: Option<Callback>, ctx: Context, z: Codec)
    returns (status: Status)
    requires outBuf != null ==> outSize <= outBuf.Length
    modifies gzip
    ensures gzip == null ==> status == ObjectIsNull
    ensures gzip != null && (outBuf == null || outSize == 0 || cb.None?) ==> status == WrongArgs && unchanged(gzip)
    ensures gzip != null && outBuf != null && outSize != 0 && cb.Some? ==>
              && gzip.Valid()
              && gzip.outBuf == outBuf && gzip.outBufSize == outSize && gzip.cb == cb && gzip.ctx == ctx
              && gzip.codec == Fresh && gzip.codecLive == (z.initStatus == Z_OK) && gzip.ret == z.initStatus
              && gzip.count == 0 && gzip.availIn == outSize && gzip.availOut == 0 && gzip.log == old(gzip.log)
              && status == (if z.initStatus == Z_OK then Ok else Error)
  {
    if gzip == null {
      return ObjectIsNull;
    }
    if outBuf == null || outSize == 0 || cb.None? {
      return WrongArgs;
    }
    gzip.Clear();
    // the fake input window before inflateInit2, then cb, ctx, out_buf, out_buf_size
    gzip.availIn, gzip.cb, gzip.ctx, gzip.outBuf, gzip.outBufSize := outSize, cb, ctx, outBuf, outSize;
    // inflateInit2(&stream, 32 + MAX_WBITS)
    gzip.ret, gzip.codecLive := z.initStatus, z.initStatus == Z_OK;
    assert IsSuffix([], gzip.log);
    status := if gzip.ret != Z_OK then Error else Ok;
  }

  /** prgm_gzip_inflate_destroy(gzip, self_destroy); freeing the engine's storage is represented by the returned null. */
  method InflateDestroy(gzip: Gzip?, selfDestroy: bool) returns (r: Gzip?)
    modifies gzip
    ensures gzip == null ==> r == null
    ensures gzip != null ==> !gzip.codecLive && r == (if selfDestroy then null else gzip)
    ensures gzip != null ==>
              && gzip.View() == old(gzip.View()).(live := false)
              && gzip.outBuf == old(gzip.outBuf) && gzip.ctx == old(gzip.ctx) && gzip.cb == old(gzip.cb)
  {
    if gzip == null {
      return null;
    }
    gzip.codecLive := false;  // inflateEnd
    if selfDestroy {
      return null;
    }
    return gzip;
  }
}
