# speaker-test1 playback loop, modelled in Dafny

`spkr-test1.c` plays raw interleaved 16-bit stereo audio from standard input on
an ALSA playback device for `RUNTIME` seconds. After setting up the device it
runs a pacing loop. The loop computes a pass budget from the negotiated period
time. Each pass reads one buffer and waits for the device (`snd_pcm_avail`,
retried on -EAGAIN). It then writes the period with `snd_pcm_writei`, walking a
write cursor (`frames`, `offset`): -EAGAIN is retried, -EPIPE (underrun) is
followed by `snd_pcm_prepare`, and only a positive result moves the cursor.
After the loop the program drains and closes the device and frees the buffer.

This project models that loop. `read`, `snd_pcm_avail` and `snd_pcm_writei` are
oracles: two sequences of result codes, one for the input and one for the
device (avail and writei results in call order). A run is recorded as a trace
of calls with their arguments and results.

- `session.dfy` (`Session`): the constants, the configuration and the C
  arithmetic. The configuration holds the literal the cursor restarts from
  (`NUMFRAMES`), the bytes per frame the offset advances by (2 in the source),
  and the negotiated period size and period time. The pass budget is here, and
  so is unsigned `frames` arithmetic modulo 2^64.
- `protocol.dfy` (`CallProtocol`): the reference definition of the calls.
  `Phase` is the control location of `main()`. `Step` says which call can come
  next and how its result moves the loop. `Replay` folds `Step` over a trace.
- `playback.dfy` (`Playback`): the loop itself, with its four `while`/`do-while`
  loops, as methods with loop invariants. `Play` is proved to produce a trace
  that `Replay` accepts. Each call in it consumes the next oracle result.
  The run either finishes teardown or stops at a call whose oracle is used up.
  The real program would still be blocked or spinning at that call.
- `protocol_lemmas.dfy` (`ProtocolProperties`): properties of every accepted
  trace.
- `quirks.dfy` (`Quirks`): the two cursor discrepancies listed under Findings.

## Model

| member | source | states |
|---|---|---|
| `Session.Config.BufferBytes` | spkr-test1.c:82-84 | `size = frames * 4`: the buffer holds exactly one negotiated period of 4-byte frames |
| `CallProtocol.LoopHead` | spkr-test1.c:99 | the test of `while (loops > 0)`: another pass reads exactly while passes are left, and otherwise the loop is over |
| `CallProtocol.WriteHead` | spkr-test1.c:119 | the test of `while (frames > 0)`: the device is written to again, from the same cursor, exactly while frames remain; otherwise control returns to the pass-loop test |
| `CallProtocol.Step` | spkr-test1.c:99-156 | the reference definition of the next call in each control location and of how its result moves `loops`, `frames` and `offset`; its contract states that a call consuming a result happens only where that kind of result is awaited, that a read ends the loop exactly when it returns 0, and that a write offers the current cursor and is repeated unchanged after -EAGAIN |
| `Session.LoopBudget` | spkr-test1.c:92 | the budget is the number of whole period times that fit into `RUNTIME` seconds: `budget * val <= RUNTIME * 10^6 < (budget + 1) * val` |
| `Session.WrapFrames` | spkr-test1.c:148 | `frames -= rc` on an unsigned long: an in-range difference is kept, a negative one wraps by 2^64 |
| `Playback.Play` | spkr-test1.c:92-158 | the calls made form a trace the protocol accepts; each call got the next result of its oracle; the run finishes exactly when teardown is complete, and otherwise stops only at a call whose oracle is exhausted |
| `Playback.PlayPass` | spkr-test1.c:99-151 | one pass only extends the trace and reads at most once, as its first call, with `loops` already decremented; it reports end of file exactly when that read returned 0, and then makes no other call and reaches the loop exit; any other result, short reads included, leads to the avail wait and the write loop, after which the loop head is reached with the decremented `loops`; a pass stops early only at an exhausted oracle |
| `Playback.ShutDown` | spkr-test1.c:154-156 | from the end of the loop, exactly drain, close and free are appended, in that order, and together they reach the end of the run without consuming any input or device result |
| `Playback.AwaitDevice` | spkr-test1.c:111-114 | only `snd_pcm_avail` calls are made, one per device result consumed; every one but the last returned -EAGAIN; unless the results ran out, the last one is the first result other than -EAGAIN, and it leads to the write loop with a fresh cursor |
| `Playback.WriteRetrying` | spkr-test1.c:123-126 | only `snd_pcm_writei` calls with the unchanged cursor are made, one per device result consumed; every one but the last returned -EAGAIN; unless the results ran out, `rc` is the last result, the first other than -EAGAIN, and the loop stands at the protocol step of that result |
| `Playback.WritePeriod` | spkr-test1.c:116-151 | the write loop starts at `numFrames`/0, prepares after -EPIPE, and returns to the pass-loop head with `loops` unchanged once no frames remain |
| `ProtocolProperties.PassesCountDown` | spkr-test1.c:99-101 | the k-th read happens with `loops == budget - 1 - k`, so `loops` is decremented once per pass before the read, and at most `budget` passes run |
| `ProtocolProperties.ExitReasons` | spkr-test1.c:99-104 | the loop is left only when the budget is exhausted with no end of file, or when the last read returned 0 and no earlier one did |
| `ProtocolProperties.EndOfFileExits` | spkr-test1.c:101-104 | a read returning 0 is followed only by a prefix of drain, close, free: no avail and no write in that pass or later |
| `ProtocolProperties.AfterRead` | spkr-test1.c:105-113 | any non-zero read result, a short read or -1 included, is followed by the wait for the device |
| `ProtocolProperties.AfterAvail` | spkr-test1.c:111-117 | -EAGAIN from avail is followed by another avail; any other result is followed by a write of `numFrames` frames at offset 0 |
| `ProtocolProperties.AfterWrite` | spkr-test1.c:123-150 | -EPIPE is followed by exactly one prepare and then the same write again; -EAGAIN, 0 and other negative results repeat the same write; a positive result moves the cursor by `frames -= rc`, `offset += rc * step`, and the write loop continues exactly when frames remain |
| `ProtocolProperties.PrepareFollowsUnderrun` | spkr-test1.c:128-134 | every prepare directly follows a write that returned -EPIPE |
| `ProtocolProperties.CursorInvariant` | spkr-test1.c:116-150 | if the device never accepts more frames than offered, every write has `0 < frames <= numFrames` and `offset == step * (numFrames - frames)` |
| `ProtocolProperties.PeriodAccounting` | spkr-test1.c:116-151 | within one pass with no overrun, the accepted frames never exceed `numFrames`; the write loop ends exactly when they sum to `numFrames`; before that, `frames` is the remainder and `offset` is `step` bytes per accepted frame |
| `ProtocolProperties.TeardownOnce` | spkr-test1.c:154-156 | a finished run holds exactly one drain, one close and one free, as its last three calls in that order, whichever way the loop ended |
| `ProtocolProperties.NoTeardownInLoop` | spkr-test1.c:99-156 | no drain, close or free happens before the loop is over |
| `ProtocolProperties.AfterLoop` | spkr-test1.c:152-156 | after the loop the only calls are drain, close and free in that order, and the three together end the run |
| `ProtocolProperties.ResultsDetermineRun` | spkr-test1.c:99-151 | two runs that received the same results call by call are the same run: the program's only inputs are the call results |
| `Quirks.SourceShortWriteRepeatsFrames` | spkr-test1.c:149 | as written: a 1024-frame period taken in two halves of 512 has its second write start at byte 1024 instead of byte 2048 |
| `Quirks.CorrectedWritesResume` | spkr-test1.c:146-150 | with a 4-byte step, every write after a partial one starts at the first frame the device has not taken |
| `Quirks.SourceWritesInsideLargeBuffer` | spkr-test1.c:84-149 | with the source's 2-byte step and a negotiated period of at least NUMFRAMES, writes never leave the buffer, when no write is answered with more frames than it offered |
| `Quirks.SourceOverreadsShortPeriod` | spkr-test1.c:116 | as written: with a negotiated period of 512 frames (2048 bytes), the first write of a pass offers 1024 frames (4096 bytes) from the buffer |
| `Quirks.CorrectedWritesInsideBuffer` | spkr-test1.c:82-84 | restarting at the negotiated period with a 4-byte step, every write ends exactly at the end of the buffer, when no write is answered with more frames than it offered |

## Findings

| source | as written | input that shows it | evidently intended | confidence | as-written member | corrected member |
|---|---|---|---|---|---|---|
| spkr-test1.c:149 | `offset += (rc * 2)` advances 2 bytes per accepted frame, but a frame is 4 bytes (line 84) | period 1024 frames; writei returns 512, then 512: the second write starts at byte 1024, so frames 256-511 are sent twice and frames 768-1023 never | `offset += rc * 4` | high; not executed | `Quirks.SourceShortWriteRepeatsFrames` | `Quirks.CorrectedWritesResume` |
| spkr-test1.c:116 | `frames = NUMFRAMES` restarts the cursor at 1024 regardless of the negotiated period that sized the buffer (lines 82-85) | device coerces the period to 512 frames: buffer is 2048 bytes, the first write offers 4096 bytes from it | restart at the negotiated period size | medium (needs a device that coerces the period); not executed | `Quirks.SourceOverreadsShortPeriod` | `Quirks.CorrectedWritesInsideBuffer` |

The loop is modelled once, over a configuration. `Session.SourceConfig` gives
the values the program is built with: a restart at `NUMFRAMES` and a 2-byte
step. `Quirks.CorrectedConfig` gives the intended values: a restart at the
negotiated period and a 4-byte step. `Playback.Play` and every lemma in
`ProtocolProperties` hold for both.

## Left out

- A negotiated period time of 0 is excluded (`Config.Valid` requires
  `periodMicros > 0`). On it, `loops = RUNTIME * 1000000 / val` at
  spkr-test1.c:92 divides by zero, which C leaves undefined.
- Device opening and hardware-parameter negotiation (spkr-test1.c:34-89) are
  left out. Their fatal `exit(1)` paths are left out with them. Their outputs
  are the `periodFrames` and `periodMicros` fields of the configuration.
- The `read`, `snd_pcm_avail`, `snd_pcm_writei`, `snd_pcm_prepare` and
  `snd_pcm_drain` calls are not modelled as operations. Their blocking and
  non-blocking behaviour is left out too. Results come from the oracle
  sequences, and calls are recorded in the trace.
- The audio bytes are not modelled. This covers the buffer contents, the stale
  tail a short read leaves and the `malloc` of the buffer. Only offsets and
  frame counts are tracked, and the final `free` is recorded as a call.
- All `printf`/`fprintf` diagnostics are left out (lines 94-97, 103-107, 121,
  131-144). This includes the short-write check at line 141, which only logs.
- The -EAGAIN busy-spins and the retry after a persistent negative result are
  not proved to terminate. A run ends when the supplied results are used up.
  `Play` then reports the run as unfinished, with the exhausted oracle named by
  the phase it stopped in.
- Playback.Play: `offset` is a C `int`, but the model uses an unbounded
  integer, so 32-bit overflow is not modelled. With the source's 2-byte step,
  overflow needs more than 2^30 frames accepted in one pass (2^29 with a
  4-byte step), which only a device accepting more than it was
  offered could cause.
- `snd_pcm_uframes_t` is taken to be 64 bits wide. On a 32-bit build it is 32
  bits, which changes only where an overrun wraps `frames`.
- ProtocolProperties.CursorInvariant: this holds only for runs in which no
  write returns more frames than it offered. With such a result, unsigned
  `frames` wraps and the invariant fails, just as it does in the source.
- ProtocolProperties.PeriodAccounting: this carries the same no-overrun
  hypothesis, for the same reason.
- `rc` is an `int`, but it stores the `ssize_t` result of `read`
  (spkr-test1.c:101), the `snd_pcm_sframes_t` result of `snd_pcm_avail`
  (spkr-test1.c:113) and the `snd_pcm_sframes_t` result of `snd_pcm_writei`
  (spkr-test1.c:125). None of these narrowings is modelled, since results are
  taken as integers. `read` returns at most the buffer size and the device
  results are bounded by the ring buffer, so no behaviour depends on it.
