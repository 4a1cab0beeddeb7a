/**
 * The playback loop of `main()` in spkr-test1.c, after device setup: the
 * pass loop, the `snd_pcm_avail` and `snd_pcm_writei` retry loops, the
 * write cursor and the teardown. The input stream and the device are
 * oracles: `input` holds the successive results of `read`, `device` the
 * successive results of `snd_pcm_avail` and `snd_pcm_writei` in the order
 * the loop calls them. When the loop needs a result the oracle does not
 * hold, the run stops there unfinished; the real program would still be
 * blocked or spinning at that call.
 *
 * The retry loops of the write portion are split out of `Play` as methods
 * of their own; each takes the trace so far and the position in the device
 * oracle and hands back the extended trace and position.
 */
module Playback {
  import opened Session
  import opened CallProtocol

  /** The trace records the first `ri` input results and the first `di` device results. */
  ghost predicate Consumed(trace: seq<Event>, input: seq<int>, ri: int, device: seq<int>, di: int) {
    0 <= ri <= |input| && ReadResults(trace) == input[..ri] &&
    0 <= di <= |device| && DeviceResults(trace) == device[..di]
  }

  /** One `snd_pcm_avail` call for each of `device[lo..hi]`, in order. */
  function Polls(device: seq<int>, lo: nat, hi: nat): seq<Event>
    requires lo <= hi <= |device|
    decreases hi - lo
  {
    if hi == lo then [] else Polls(device, lo, hi - 1) + [Avail(device[hi - 1])]
  }

  /** One `snd_pcm_writei(handle, buffer + offset, frames)` call for each of `device[lo..hi]`, in order. */
  function Attempts(offset: int, frames: UFrames, device: seq<int>, lo: nat, hi: nat): seq<Event>
    requires lo <= hi <= |device|
    decreases hi - lo
  {
    if hi == lo then [] else Attempts(offset, frames, device, lo, hi - 1) + [Write(offset, frames, device[hi - 1])]
  }

  /** After the polls for `device[lo..hi]`, the trace has consumed the device results up to `hi`. */
  lemma {:induction false} PollsConsume(t: seq<Event>, device: seq<int>, lo: nat, hi: nat)
    requires lo <= hi <= |device| && DeviceResults(t) == device[..lo]
    ensures DeviceResults(t + Polls(device, lo, hi)) == device[..hi]
    ensures ReadResults(t + Polls(device, lo, hi)) == ReadResults(t)
    decreases hi - lo
  {
    if hi == lo {
      assert t + Polls(device, lo, hi) == t;
    } else {
      PollsConsume(t, device, lo, hi - 1);
      var t' := t + Polls(device, lo, hi - 1);
      assert t + Polls(device, lo, hi) == t' + [Avail(device[hi - 1])];
      RecordsSnoc(t', Avail(device[hi - 1]));
      assert device[..hi - 1] + [device[hi - 1]] == device[..hi];
    }
  }

  /** After the write attempts for `device[lo..hi]`, the trace has consumed the device results up to `hi`. */
  lemma {:induction false} AttemptsConsume(t: seq<Event>, offset: int, frames: UFrames, device: seq<int>, lo: nat, hi: nat)
    requires lo <= hi <= |device| && DeviceResults(t) == device[..lo]
    ensures DeviceResults(t + Attempts(offset, frames, device, lo, hi)) == device[..hi]
    ensures ReadResults(t + Attempts(offset, frames, device, lo, hi)) == ReadResults(t)
    decreases hi - lo
  {
    if hi == lo {
      assert t + Attempts(offset, frames, device, lo, hi) == t;
    } else {
      AttemptsConsume(t, offset, frames, device, lo, hi - 1);
      var t' := t + Attempts(offset, frames, device, lo, hi - 1);
      assert t + Attempts(offset, frames, device, lo, hi) == t' + [Write(offset, frames, device[hi - 1])];
      RecordsSnoc(t', Write(offset, frames, device[hi - 1]));
      assert device[..hi - 1] + [device[hi - 1]] == device[..hi];
    }
  }

  /** Appending one call to a trace takes one protocol step from the phase the trace reached. */
  lemma StepOnce(c: Config, t: seq<Event>, p: Phase, e: Event)
    requires c.Valid() && Replay(c, t) == Some(p)
    ensures Replay(c, t + [e]) == Step(c, p, e)
  {
    RunFromSnoc(c, Initial(c), t, e);
  }

  /**
   * `do { rc = snd_pcm_avail(handle); } while (rc == -11);`: afterwards the
   * loop is at the head of the write loop with a fresh cursor, unless the
   * device oracle ran out while polling.
   */
  method AwaitDevice(c: Config, device: seq<int>, di0: nat, trace0: seq<Event>, loops: int)
    returns (trace: seq<Event>, di: nat, stalled: bool)
    requires c.Valid()
    requires di0 <= |device| && DeviceResults(trace0) == device[..di0]
    requires Replay(c, trace0) == Some(Polling(loops))
    ensures di0 <= di <= |device| && DeviceResults(trace) == device[..di]
    ensures ReadResults(trace) == ReadResults(trace0)
    // only avail calls were made, one per device result consumed
    ensures trace == trace0 + Polls(device, di0, di)
    // every avail but the last returned -EAGAIN
    ensures forall k :: di0 <= k < di - 1 ==> device[k] == -EAGAIN
    ensures stalled ==> di == |device| && Replay(c, trace) == Some(Polling(loops))
    ensures stalled && di > di0 ==> device[di - 1] == -EAGAIN
    ensures !stalled ==> di > di0 && device[di - 1] != -EAGAIN
    ensures !stalled ==> Replay(c, trace) == Some(WriteHead(loops, c.numFrames, 0))
  {
    trace, di, stalled := trace0, di0, false;
    var rc := -EAGAIN;
    while rc == -EAGAIN && di < |device|
      invariant di0 <= di <= |device|
      invariant trace == trace0 + Polls(device, di0, di)
      invariant forall k :: di0 <= k < di - 1 ==> device[k] == -EAGAIN
      invariant di > di0 ==> rc == device[di - 1]
      invariant di == di0 ==> rc == -EAGAIN
      invariant Replay(c, trace) == Some(if rc == -EAGAIN then Polling(loops) else WriteHead(loops, c.numFrames, 0))
      decreases |device| - di
    {
      rc := device[di];
      StepOnce(c, trace, Polling(loops), Avail(rc));
      trace := trace + [Avail(rc)];
      di := di + 1;
    }
    // out of device results while the device still answers -EAGAIN
    stalled := rc == -EAGAIN;
    PollsConsume(trace0, device, di0, di);
  }

  /**
   * `do { rc = snd_pcm_writei(handle, buffer + offset, frames); } while (rc == -11);`:
   * afterwards the last call made is a write of the unchanged cursor whose
   * result is not -EAGAIN, unless the device oracle ran out first.
   */
  method WriteRetrying(c: Config, device: seq<int>, di0: nat, trace0: seq<Event>,
                       loops: int, frames: UFrames, offset: int)
    returns (trace: seq<Event>, di: nat, rc: int, stalled: bool)
    requires c.Valid()
    requires di0 <= |device| && DeviceResults(trace0) == device[..di0]
    requires Replay(c, trace0) == Some(Writing(loops, frames, offset))
    ensures di0 <= di <= |device| && DeviceResults(trace) == device[..di]
    ensures ReadResults(trace) == ReadResults(trace0)
    // only writes of the unchanged cursor were made, one per device result consumed
    ensures trace == trace0 + Attempts(offset, frames, device, di0, di)
    // every write but the last returned -EAGAIN
    ensures forall k :: di0 <= k < di - 1 ==> device[k] == -EAGAIN
    ensures stalled ==> di == |device| && Replay(c, trace) == Some(Writing(loops, frames, offset))
    ensures stalled && di > di0 ==> device[di - 1] == -EAGAIN
    ensures !stalled ==> di > di0 && rc == device[di - 1] && rc != -EAGAIN
    ensures !stalled ==> Replay(c, trace) == Step(c, Writing(loops, frames, offset), Write(offset, frames, rc))
  {
    trace, di, stalled := trace0, di0, false;
    rc := -EAGAIN;  // the do-while's first test: the body always runs once
    while rc == -EAGAIN && di < |device|
      invariant di0 <= di <= |device|
      invariant trace == trace0 + Attempts(offset, frames, device, di0, di)
      invariant forall k :: di0 <= k < di - 1 ==> device[k] == -EAGAIN
      invariant di > di0 ==> rc == device[di - 1]
      invariant di == di0 ==> rc == -EAGAIN
      // -EAGAIN leaves the cursor where it was, so this also covers the state before the first call
      invariant Replay(c, trace) == Step(c, Writing(loops, frames, offset), Write(offset, frames, rc))
      decreases |device| - di
    {
      rc := device[di];
      StepOnce(c, trace, Writing(loops, frames, offset), Write(offset, frames, rc));
      trace := trace + [Write(offset, frames, rc)];
      di := di + 1;
    }
    stalled := rc == -EAGAIN;
    AttemptsConsume(trace0, offset, frames, device, di0, di);
  }

  /**
   * The write portion of one pass: restart the cursor at `numFrames`
   * frames and offset 0, and write until no frames remain. An underrun
   * (-EPIPE) is followed by one `snd_pcm_prepare`; only a positive result
   * moves the cursor.
   */
  method WritePeriod(c: Config, device: seq<int>, di0: nat, trace0: seq<Event>, loops: int)
    returns (trace: seq<Event>, di: nat, stalled: bool)
    requires c.Valid()
    requires di0 <= |device| && DeviceResults(trace0) == device[..di0]
    requires Replay(c, trace0) == Some(WriteHead(loops, c.numFrames, 0))
    ensures di0 <= di <= |device| && DeviceResults(trace) == device[..di]
    ensures ReadResults(trace) == ReadResults(trace0)
    ensures trace0 <= trace
    ensures stalled ==> di == |device| && Replay(c, trace).Some? && Needs(Replay(c, trace).value) == NeedsDevice
    ensures !stalled ==> Replay(c, trace) == Some(LoopHead(loops))
  {
    trace, di, stalled := trace0, di0, false;
    var frames: UFrames := c.numFrames;
    var offset: int := 0;
    while frames > 0
      invariant di0 <= di <= |device| && DeviceResults(trace) == device[..di]
      invariant ReadResults(trace) == ReadResults(trace0)
      invariant Replay(c, trace) == Some(WriteHead(loops, frames, offset))
      invariant trace0 <= trace
      decreases |device| - di
    {
      var rc;
      trace, di, rc, stalled := WriteRetrying(c, device, di, trace, loops, frames, offset);
      if stalled {
        return;
      }
      if rc == -EPIPE {
        // underrun: reset the device, the same frames are written again
        StepOnce(c, trace, Recovering(loops, frames, offset), Prepare);
        RecordsSnoc(trace, Prepare);
        trace := trace + [Prepare];
      }
      if rc > 0 {
        frames := WrapFrames(frames - rc);
        offset := offset + c.offsetStep * rc;
      }
    }
  }

  /** The run stopped at a call whose oracle is used up. */
  ghost predicate Starved(c: Config, trace: seq<Event>, input: seq<int>, device: seq<int>)
    requires c.Valid()
  {
    Replay(c, trace).Some? &&
    var p := Replay(c, trace).value;
    (Needs(p) == NeedsRead && ReadResults(trace) == input) ||
    (Needs(p) == NeedsDevice && DeviceResults(trace) == device)
  }

  /** How one pass of the loop ended. */
  datatype PassEnd = Played | EndOfInput | Stalled

  /**
   * One pass of `while (loops > 0)`, after `loops--`: read one buffer, stop
   * at end of file, otherwise wait for the device and write the period. A
   * short read is only reported, so it is written like a full one.
   */
  method PlayPass(c: Config, input: seq<int>, ri0: nat, device: seq<int>, di0: nat,
                  trace0: seq<Event>, loops: int)
    returns (trace: seq<Event>, ri: nat, di: nat, end: PassEnd)
    requires c.Valid()
    requires Consumed(trace0, input, ri0, device, di0)
    requires Replay(c, trace0) == Some(Top(loops + 1))
    ensures Consumed(trace, input, ri, device, di)
    // the pass only extends the trace, and reads at most once, as its first call
    ensures trace0 <= trace && ri0 <= ri <= ri0 + 1 && di0 <= di
    ensures ri == ri0 ==> end == Stalled && ri0 == |input| && trace == trace0
    ensures ri == ri0 + 1 ==> |trace| > |trace0| && trace[|trace0|] == Read(loops, input[ri0])
    // end of file exactly when that read returned 0, and then nothing else is called
    ensures end != Stalled ==> ri == ri0 + 1
    ensures end == EndOfInput ==> input[ri0] == 0 && di == di0 && trace == trace0 + [Read(loops, 0)]
    ensures ri == ri0 + 1 && end != EndOfInput ==> input[ri0] != 0
    ensures end == Played ==> Replay(c, trace) == Some(LoopHead(loops))
    ensures end == EndOfInput ==> Replay(c, trace) == Some(Exit)
    ensures end == Stalled ==> Starved(c, trace, input, device)
  {
    trace, ri, di, end := trace0, ri0, di0, Stalled;
    if ri < |input| {
      var rc := input[ri];
      ri := ri + 1;
      StepOnce(c, trace, Top(loops + 1), Read(loops, rc));
      RecordsSnoc(trace, Read(loops, rc));
      trace := trace + [Read(loops, rc)];
      if rc == 0 {
        end := EndOfInput;
      } else {
        var stalled;
        trace, di, stalled := AwaitDevice(c, device, di, trace, loops);
        if !stalled {
          trace, di, stalled := WritePeriod(c, device, di, trace, loops);
          end := if stalled then Stalled else Played;
        }
      }
    }
  }

  /** Drain, close and free from the end of the loop reach the end of the run and consume no result. */
  lemma ShutDownFacts(c: Config, t: seq<Event>)
    requires c.Valid() && Replay(c, t) == Some(Exit)
    ensures Replay(c, t + [Drain] + [Close] + [Free]) == Some(Done)
    ensures ReadResults(t + [Drain] + [Close] + [Free]) == ReadResults(t)
    ensures DeviceResults(t + [Drain] + [Close] + [Free]) == DeviceResults(t)
  {
    var t1 := t + [Drain];
    var t2 := t1 + [Close];
    StepOnce(c, t, Exit, Drain);
    StepOnce(c, t1, Closing, Close);
    StepOnce(c, t2, Freeing, Free);
    RecordsSnoc(t, Drain);
    RecordsSnoc(t1, Close);
    RecordsSnoc(t2, Free);
  }

  /** After the loop: `snd_pcm_drain`, `snd_pcm_close` and `free(buffer)`, once each and in that order. */
  method ShutDown(c: Config, trace0: seq<Event>) returns (trace: seq<Event>)
    requires c.Valid() && Replay(c, trace0) == Some(Exit)
    ensures trace == trace0 + [Drain, Close, Free]
    ensures Replay(c, trace) == Some(Done)
    ensures ReadResults(trace) == ReadResults(trace0) && DeviceResults(trace) == DeviceResults(trace0)
  {
    trace := trace0 + [Drain];
    trace := trace + [Close];
    trace := trace + [Free];
    ShutDownFacts(c, trace0);
  }

  method Play(c: Config, input: seq<int>, device: seq<int>) returns (trace: seq<Event>, finished: bool)
    requires c.Valid()
    // the calls made are ones the program makes, in its order
    ensures Replay(c, trace).Some?
    // each call received the next result of its oracle
    ensures |ReadResults(trace)| <= |input| && ReadResults(trace) == input[..|ReadResults(trace)|]
    ensures |DeviceResults(trace)| <= |device| && DeviceResults(trace) == device[..|DeviceResults(trace)|]
    // the run reaches the end of teardown, or stops only at a call whose oracle is used up
    ensures finished <==> Replay(c, trace) == Some(Done)
    ensures !finished ==> Starved(c, trace, input, device)
  {
    var ri: nat, di: nat := 0, 0;
    trace, finished := [], false;
    var loops: int := LoopBudget(c.runtimeSecs, c.periodMicros);

    while loops > 0
      invariant Consumed(trace, input, ri, device, di)
      invariant Replay(c, trace) == Some(LoopHead(loops))
      decreases loops
    {
      loops := loops - 1;
      var end;
      trace, ri, di, end := PlayPass(c, input, ri, device, di, trace, loops);
      if end == Stalled {
        return;
      } else if end == EndOfInput {
        break;  // end of file on input
      }
    }

    trace := ShutDown(c, trace);
    finished := true;
  }
}
