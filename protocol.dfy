/**
 * The call protocol of the playback loop in `main()`: which library call
 * the program makes next, with which arguments, given the results of the
 * calls before it. A run of the program is a trace of events; `Step` says
 * how one event moves the program between control locations (`Phase`), and
 * `Replay` folds it over a whole trace. Every trace `Playback.Play` makes
 * is accepted by `Replay`.
 */
module CallProtocol {
  import opened Session

  datatype Option<T> = None | Some(value: T)

  /** One call the loop makes, with its arguments and its result. */
  datatype Event =
    | Read(loops: int, ret: int)                   // read(0, buffer, size) in the pass that left `loops` passes
    | Avail(ret: int)                              // snd_pcm_avail(handle)
    | Write(offset: int, frames: UFrames, ret: int) // snd_pcm_writei(handle, buffer + offset, frames)
    | Prepare                                      // snd_pcm_prepare(handle)
    | Drain                                        // snd_pcm_drain(handle)
    | Close                                        // snd_pcm_close(handle)
    | Free                                         // free(buffer)

  /** The control location of `main()` between two calls, with the live counters. */
  datatype Phase =
    | Top(loops: int)                                 // at `while (loops > 0)` with loops > 0
    | Polling(loops: int)                             // inside the `snd_pcm_avail` retry loop
    | Writing(loops: int, frames: UFrames, offset: int) // about to call `snd_pcm_writei`, frames > 0
    | Recovering(loops: int, frames: UFrames, offset: int) // after an underrun, about to prepare
    | Exit                                            // the loop is over, about to drain
    | Closing
    | Freeing
    | Done

  /** The test of `while (loops > 0)`. */
  function LoopHead(loops: int): (p: Phase)
    // another pass reads exactly while passes are left; otherwise the loop is over
    ensures Needs(p) == NeedsRead <==> loops > 0
    ensures loops <= 0 ==> p == Exit
  {
    if loops > 0 then Top(loops) else Exit
  }

  /** The test of `while (frames > 0)`. */
  function WriteHead(loops: int, frames: UFrames, offset: int): (p: Phase)
    // the device is written to again exactly while frames remain, from the same cursor
    ensures Needs(p) == NeedsDevice <==> frames > 0
    ensures frames > 0 ==> p.Writing? && p.frames == frames && p.offset == offset
    ensures frames == 0 ==> p == LoopHead(loops)
  {
    if frames > 0 then Writing(loops, frames, offset) else LoopHead(loops)
  }

  function Initial(c: Config): Phase
    requires c.Valid()
  {
    LoopHead(c.Budget())
  }

  /** The phase after event `e` happens in phase `p`, or None if `main()` cannot make that call there. */
  function Step(c: Config, p: Phase, e: Event): (r: Option<Phase>)
    // a call that consumes a result happens only where that kind of result is awaited
    ensures r.Some? && e.Read? ==> Needs(p) == NeedsRead
    ensures r.Some? && (e.Avail? || e.Write?) ==> Needs(p) == NeedsDevice
    ensures r.Some? && Needs(p) == NeedsNothing ==> Returned(e) == 0
    // a read ends the loop exactly when it returns 0
    ensures r.Some? && e.Read? ==> (r.value == Exit <==> e.ret == 0)
    // a write offers the current cursor; -EAGAIN leaves everything as it was
    ensures r.Some? && e.Write? ==> p.Writing? && e.offset == p.offset && e.frames == p.frames
    ensures r.Some? && e.Write? && e.ret == -EAGAIN ==> r.value == p
  {
    match p
    case Top(l) =>
      // `loops--` happens before the read
      if !e.Read? || e.loops != l - 1 then None
      else if e.ret == 0 then Some(Exit)
      else Some(Polling(l - 1))
    case Polling(l) =>
      if !e.Avail? then None
      else if e.ret == -EAGAIN then Some(Polling(l))
      else Some(WriteHead(l, c.numFrames, 0))
    case Writing(l, f, o) =>
      if !e.Write? || e.offset != o || e.frames != f then None
      else if e.ret == -EPIPE then Some(Recovering(l, f, o))
      else if e.ret > 0 then Some(WriteHead(l, WrapFrames(f - e.ret), o + c.offsetStep * e.ret))
      else Some(Writing(l, f, o))
    case Recovering(l, f, o) => if e == Prepare then Some(Writing(l, f, o)) else None
    case Exit => if e == Drain then Some(Closing) else None
    case Closing => if e == Close then Some(Freeing) else None
    case Freeing => if e == Free then Some(Done) else None
    case Done => None
  }

  /** The phase reached from `p` after the events of `t`, if `main()` can make them. */
  function RunFrom(c: Config, p: Phase, t: seq<Event>): Option<Phase>
    decreases |t|
  {
    if t == [] then Some(p)
    else
      match RunFrom(c, p, t[..|t| - 1])
      case None => None
      case Some(q) => Step(c, q, t[|t| - 1])
  }

  /** Running `t + [e]` is running `t` and then taking one step with `e`. */
  lemma RunFromSnoc(c: Config, p: Phase, t: seq<Event>, e: Event)
    ensures RunFrom(c, p, t + [e]) ==
      match RunFrom(c, p, t)
      case None => None
      case Some(q) => Step(c, q, e)
  {
    assert (t + [e])[..|t|] == t;
  }

  function Replay(c: Config, t: seq<Event>): Option<Phase>
    requires c.Valid()
  {
    RunFrom(c, Initial(c), t)
  }

  /** The result an event received from the input or the device (0 for calls whose result is ignored). */
  function Returned(e: Event): int {
    match e
    case Read(_, r) => r
    case Avail(r) => r
    case Write(_, _, r) => r
    case _ => 0
  }

  /** Results of the `read` calls in `t`, in order. */
  function ReadResults(t: seq<Event>): seq<int>
    decreases |t|
  {
    if t == [] then []
    else ReadResults(t[..|t| - 1]) + (if t[|t| - 1].Read? then [t[|t| - 1].ret] else [])
  }

  /** The value of `loops` in each pass that read, in order. */
  function PassNumbers(t: seq<Event>): seq<int>
    decreases |t|
  {
    if t == [] then []
    else PassNumbers(t[..|t| - 1]) + (if t[|t| - 1].Read? then [t[|t| - 1].loops] else [])
  }

  /** Results of the `snd_pcm_avail` and `snd_pcm_writei` calls in `t`, in order. */
  function DeviceResults(t: seq<Event>): seq<int>
    decreases |t|
  {
    if t == [] then []
    else DeviceResults(t[..|t| - 1]) + (if t[|t| - 1].Avail? || t[|t| - 1].Write? then [t[|t| - 1].ret] else [])
  }

  /** The teardown calls in `t`, in order. */
  function Teardown(t: seq<Event>): seq<Event>
    decreases |t|
  {
    if t == [] then []
    else Teardown(t[..|t| - 1]) + (if t[|t| - 1].Drain? || t[|t| - 1].Close? || t[|t| - 1].Free? then [t[|t| - 1]] else [])
  }

  /** Frames the device accepted in `t`: the sum of the positive `snd_pcm_writei` results. */
  function Accepted(t: seq<Event>): int
    decreases |t|
  {
    if t == [] then 0
    else Accepted(t[..|t| - 1]) + (if t[|t| - 1].Write? && t[|t| - 1].ret > 0 then t[|t| - 1].ret else 0)
  }

  /** The record of `t + [e]` is the record of `t` followed by that of `e`. */
  lemma RecordsSnoc(t: seq<Event>, e: Event)
    ensures ReadResults(t + [e]) == ReadResults(t) + (if e.Read? then [e.ret] else [])
    ensures PassNumbers(t + [e]) == PassNumbers(t) + (if e.Read? then [e.loops] else [])
    ensures DeviceResults(t + [e]) == DeviceResults(t) + (if e.Avail? || e.Write? then [e.ret] else [])
    ensures Teardown(t + [e]) == Teardown(t) + (if e.Drain? || e.Close? || e.Free? then [e] else [])
    ensures Accepted(t + [e]) == Accepted(t) + (if e.Write? && e.ret > 0 then e.ret else 0)
  {
    assert (t + [e])[..|t|] == t;
  }

  /** No write was answered with more frames than it offered (what ALSA promises of `snd_pcm_writei`). */
  ghost predicate NoOverrun(t: seq<Event>) {
    forall i :: 0 <= i < |t| && t[i].Write? ==> t[i].ret <= t[i].frames
  }

  /** What the next call in a phase consumes. */
  datatype Demand = NeedsRead | NeedsDevice | NeedsNothing

  function Needs(p: Phase): Demand {
    match p
    case Top(_) => NeedsRead
    case Polling(_) => NeedsDevice
    case Writing(_, _, _) => NeedsDevice
    case _ => NeedsNothing
  }
}
