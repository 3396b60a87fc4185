# Streaming gzip inflate engine

A Dafny model of lexbor's streaming gzip inflate engine: the state record `struct prgm_gzip` and
the three functions over it, `prgm_gzip_inflate_init`, `prgm_gzip_inflate_destroy` and
`prgm_gzip_inflate`. One call of the engine takes a chunk of compressed bytes. It drives a zlib
stream over that chunk, round by round, and each round refills one caller-owned output buffer of
fixed size. After every round that does not fail, the engine hands the filled window to the
caller's sink. The sink's answer, OK, STOP or anything else, decides whether decoding continues.
At the end of a gzip member (RFC 1952, section 2.2: a gzip file is a series of members) the engine
re-initialises itself in place. It then decodes the rest of the same chunk as the next member.

Files:

- `lexbor.dfy` (`Lexbor`): the `lxb_status_t` codes the engine returns or reads from the sink.
- `zlib.dfy` (`Zlib`): zlib as an oracle. `Codec` holds `initStatus`, the result of
  `inflateInit2`, and `step`, one `inflate(&stream, Z_NO_FLUSH)` round. `step` maps a decoder
  state, the input window and the output capacity to a return code, a count of consumed bytes and
  the bytes written. It also holds `pending`, a measure used only for termination. `WellBehaved`
  is everything the engine relies on from zlib:
  - a round consumes at most the window and writes at most the capacity;
  - a round that consumes nothing and reports neither `Z_BUF_ERROR` nor a hard error makes
    progress.

  A `Codec` has a single `initStatus`, so every `inflateInit2` made through one `Codec` returns the
  same code. The failing re-init at a member end (source/gzip/inflate.c:115-116) is therefore
  reached only when `Inflate` is given a `Codec` whose `initStatus` differs from the one
  `InflateInit` saw.
- `inflate_spec.dfy` (`InflateSpec`): the decoding loop as functions.
  - `RoundStep` is one round of the loop. `AfterCodec` and `AfterSink` are its two halves.
  - `Rounds` is the loop to its end. `Decompress` is a whole call.
  - Lemmas state each exit path of a round. Inductive lemmas state what holds over a whole call.
- `gzip.dfy` (`GzipInflate`): the engine itself, imperative.
  - Class `Gzip` has the struct's fields. `Decode` writes zlib's output into the `outBuf` array in
    place.
  - `Round`, `Settle` and `Inflate` are the loop. `InflateInit` and `InflateDestroy` are the other
    two functions.
  - Class `Context` stands for the sink's `ctx` and records every sink call.
  - `Inflate` is proved to produce exactly `Decompress` of the state before the call. The
    properties proved about `Rounds` then become its postconditions.

Quirks of the code that the model keeps as written:

- `count` is not a running member counter. `count++` (source/gzip/inflate.c:105) is followed by a
  re-init whose `memset` (line 22) zeroes the whole struct, so `count` is 0 after every member and
  the sink only ever sees 0 (`Gzip.Valid`, `RoundsSinkCalls`).
- Codec return codes that the `switch` does not list fall into `default` (lines 89-90) and are
  handled like `Z_OK`: the sink is called and decoding goes on (`SinkSeesRound`,
  `BufferDecidesRepeat`).
- A member end never returns from the test at line 119. The re-init stores the fake window
  `avail_in = out_size` (line 29), which is never 0, so control always goes to `next_chunk` with
  the leftover size, which may be 0 (`MemberEndReinitialises`). `Settle` asserts that `availIn` is
  non-zero at that point.
- The sink is called after every round that is neither a hard error nor `Z_BUF_ERROR`, even when
  the round wrote nothing (line 93). This happens, for instance, after a round that filled the
  buffer exactly (`SinkSeesRound`).
- On `Z_BUF_ERROR` the call returns OK and leaves any unconsumed input bytes untaken, without
  reporting them (lines 86-87). `left` in `Outcome` records how many there are.
- Once the stream is ended (after an ERROR, a failed init or re-init, or destroy), zlib answers
  every round with `Z_STREAM_ERROR` and takes nothing. That code also falls into `default`, so a
  further call on a non-empty chunk with a sink that answers OK hands the sink empty windows
  forever (`EndedStreamRepeats`). Such a codec is outside the oracle assumption
  (`EndedStreamIsNotWellBehaved`), and `Inflate` requires a live codec.

## Model

| member | source | states |
|---|---|---|
| GzipInflate.Gzip.constructor | source/gzip.h:27-41 | storage for an engine before init: no codec, no buffer, no sink, counter 0 |
| GzipInflate.Gzip.Clear | source/gzip/inflate.c:22 | the memset: every field of the engine zeroed, counter, buffer, sink and ctx included |
| GzipInflate.InflateInit | source/gzip/inflate.c:10-44 | a null engine gives OBJECT_IS_NULL; a null buffer, a zero size or a null sink gives WRONG_ARGS and leaves the engine untouched; otherwise the engine is valid: all state zeroed, buffer, size, sink and ctx recorded exactly as given, the fake window avail_in = out_size, and ERROR exactly when inflateInit2 does not return Z_OK |
| GzipInflate.InflateDestroy | source/gzip/inflate.c:46-60 | a null engine gives null; otherwise the codec is ended and nothing else changes, and the result is null when self_destroy is set and the same engine when not |
| GzipInflate.Context.Deliver | source/gzip/inflate.c:95 | the sink answers from everything it was handed before and the current call, and the call is appended to its history |
| GzipInflate.Gzip.Decode | source/gzip/inflate.c:75-78 | one zlib round: it takes at most the window and writes at most the capacity, from the start of the buffer in place; the cursor and window shrink by what it took; the bytes taken are appended to the log; the decoder still holds only the latest bytes of the log |
| GzipInflate.Gzip.Round | source/gzip/inflate.c:74-125 | one pass of the loop body does exactly what `RoundStep` says, whether it ends the call or goes on, and the engine stays valid and live when it goes on |
| GzipInflate.Gzip.Settle | source/gzip/inflate.c:96-131 | the part of a round after the sink answers does exactly what `AfterSink` says: stop, fail, re-init at a member end, repeat over a full buffer, or move the cursor |
| GzipInflate.Gzip.Inflate | source/gzip/inflate.c:62-140 | a call gives exactly `Decompress` of the engine's state before it, and keeps the buffer, size, sink and ctx; it returns only OK, STOP or ERROR; ERROR exactly when the codec ends up torn down; OK only with no byte left or on Z_BUF_ERROR; the codec took exactly the chunk's bytes up to the leftover, in order; the sink's history only grows, and every new call has counter 0 and a window no larger than the buffer |
| InflateSpec.Decoded | source/gzip/inflate.c:75-78 | one inflate call: the window shrinks by what the codec took and the capacity by what it wrote; the output sits at the start of the buffer and the rest of the buffer is kept; the bytes taken are the front of the window and are appended to the log and to the decoder's input |
| InflateSpec.Reinit | source/gzip/inflate.c:22-43 | the re-init reached from lines 112-114: a fresh decoder, counter and output window zeroed, ret the init code, live exactly when it is Z_OK, the fake window avail_in = out_buf_size, and the buffer, its size and the sink's history kept |
| InflateSpec.AfterCodec | source/gzip/inflate.c:80-95 | the switch and the sink call: nothing more is taken from the chunk; at most one sink call, with the current counter and a window that fits the buffer; only OK, STOP or ERROR end the call, ERROR exactly when a live codec is torn down, OK only with nothing left or on Z_BUF_ERROR, STOP only when the sink just answered STOP |
| InflateSpec.AfterSink | source/gzip/inflate.c:96-131 | after the sink answers: no input is taken or dropped; the decoder goes on, or is replaced by a fresh one with the counter at 0; the buffer and history are kept; STOP exactly on a STOP answer; OK only when nothing is left; ERROR exactly when a live codec is torn down |
| InflateSpec.Rounds | source/gzip/inflate.c:68-133 | a call returns only OK, STOP or ERROR; on a live codec, ERROR exactly when the codec is torn down at the end; OK only when no byte of the chunk is left or on Z_BUF_ERROR |
| InflateSpec.Decompress | source/gzip/inflate.c:62-140 | a whole call: its exits as for Rounds; consumed plus leftover is the chunk, the codec having taken exactly the chunk's first bytes up to the leftover, in order; the buffer size is kept |
| InflateSpec.RoundStep | source/gzip/inflate.c:74-129 | a round that does not end the call keeps the loop's shape (cursor plus size spans the chunk, the window lies inside size) and lowers the measure (avail_in, then member started, then pending work); a round that ends it returns OK, STOP or ERROR, ERROR exactly when a live codec is torn down, OK only with nothing left or on Z_BUF_ERROR, STOP only when the sink just answered STOP |
| InflateSpec.HardErrorFails | source/gzip/inflate.c:80-84 | Z_NEED_DICT, Z_DATA_ERROR or Z_MEM_ERROR: the round ends the call with ERROR, the codec is torn down (the `failed` label, lines 135-139), the sink is not called and the code is kept in ret |
| InflateSpec.BufErrorStopsSoftly | source/gzip/inflate.c:86-87 | Z_BUF_ERROR: the call returns OK at once, the sink is not called, and the counter and the codec's liveness are unchanged |
| InflateSpec.SinkSeesRound | source/gzip/inflate.c:93-102 | any other code (unlisted ones included): the sink is called exactly once, with the current counter and exactly the bytes the codec wrote, never more than the buffer; STOP ends the call with STOP and the codec live; any other non-OK answer ends it with ERROR and the codec torn down |
| InflateSpec.MemberEndReinitialises | source/gzip/inflate.c:104-123 | Z_STREAM_END with an OK sink: a fresh decoder with counter 0 and the same buffer size; a failing re-init is returned as ERROR with the leftover untouched; otherwise the next member resumes at exactly the leftover (cursor advanced by what the codec took, size the leftover), even when nothing is left |
| InflateSpec.BufferDecidesRepeat | source/gzip/inflate.c:126-133 | Z_OK or an unlisted code with an OK sink: a completely filled buffer repeats the round over the same cursor and size; otherwise the cursor moves past what the codec took, and the call returns OK exactly when nothing is left |
| InflateSpec.RoundsAccounting | source/gzip/inflate.c:104-131 | over a whole call, the leftover is at most the window, and the bytes the codec took are exactly the chunk's bytes from the window's start up to the leftover, in order, none lost or taken twice at member boundaries |
| InflateSpec.RoundsShape | source/gzip/inflate.c:112-114 | over a whole call, re-inits keep the buffer and its size, and the current member's decoder has seen only the latest bytes the engine took |
| InflateSpec.RoundsSinkCalls | source/gzip/inflate.c:93-112 | over a whole call, the sink's history only grows, every window it is handed fits the buffer, and with the counter at 0 (as after every init) every call sees 0 and the counter stays 0 |
| InflateSpec.RoundsStop | source/gzip/inflate.c:96-98 | a call returns STOP only when the sink was called during it and answered STOP to its last call |
| InflateSpec.EndedStreamRepeats | source/gzip/inflate.c:89-95 | on an ended stream zlib answers Z_STREAM_ERROR and takes nothing; with an OK sink the round hands the sink an empty window and resumes at the same cursor, size, window and decoder |
| InflateSpec.EndedStreamIsNotWellBehaved | source/gzip/inflate.c:126-131 | a codec that answers Z_STREAM_ERROR and does nothing on every round breaks the oracle assumption, so the loop over it is not shown to end |

## Left out

- zlib's internals (`inflateInit2`, `inflate`, `inflateEnd`): DEFLATE decoding is a foreign library. It appears only as the `Codec` oracle. `inflateEnd` sets `codecLive` to false.
- Termination: the loop terminates because of the oracle assumption `Zlib.WellBehaved` (`pending` must go down in a round that takes no input). This is assumed of zlib, not proved.
- The z_stream pointers `next_in` and `next_out` are not modelled as pointers. `next_in` is the offset `pos + (size - availIn)` into the chunk. `next_out` is always the start of `outBuf`.
- The fields `zalloc`, `zfree` and `opaque` are not modelled (lines 24-26): they are set to `Z_NULL`, which the memset already does.
- The unused struct fields `in_size` and `out_size` (source/gzip.h:31-32) are not modelled.
- The sink's view of the engine is limited to the member counter. The sink cannot read or write other fields through its `gzip` argument.
- The buffer pointer handed to the sink is not modelled. The sink receives the bytes of the window.
- `ctx` is modelled as a non-null `Context` object that records the sink's history. A NULL ctx, which the source accepts, is not modelled.
- `lexbor_free` in destroy: freeing the engine's storage is represented by the returned null, not by a memory model.
- GzipInflate.Gzip.Inflate: requires a valid, live engine. On an ended stream (after a failed init, an ERROR or destroy) zlib answers Z_STREAM_ERROR, which falls into `default`; for a non-empty chunk and a sink answering OK the source then never returns (`EndedStreamRepeats`). That non-terminating call is not modelled as a method.
- GzipInflate.Gzip.Inflate: requires the chunk to be shorter than 2^32 bytes, as the `unsigned size` parameter is.
- `count`'s width (`size_t`) is not modelled. Every init resets the counter to 0, so it never gets past 1 before the next reset.
- source/warc_test.c and source/warc_entry_by_index.c are not part of this model. They are file I/O, command-line handling and calls into other lexbor parsers.
- Concurrency: there is none in the engine.
