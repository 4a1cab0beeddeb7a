/**
 * What every trace the playback loop can produce satisfies: the pass
 * budget and its count-down, the end-of-file exit, the retry and underrun
 * reactions, the write-cursor invariant and its per-pass accounting, the
 * single ordered teardown, and that the call results alone determine the
 * trace.
 */
module ProtocolProperties {
  import opened Session
  import opened CallProtocol

  /** Running `a + b` is running `a` and then `b` from where `a` ended. */
  lemma {:induction false} RunFromSplit(c: Config, p: Phase, a: seq<Event>, b: seq<Event>)
    ensures RunFrom(c, p, a).None? ==> RunFrom(c, p, a + b).None?
    ensures RunFrom(c, p, a).Some? ==> RunFrom(c, p, a + b) == RunFrom(c, RunFrom(c, p, a).value, b)
    decreases |b|
  {
    if b == [] {
      assert a + b == a;
    } else {
      var b', e := b[..|b| - 1], b[|b| - 1];
      assert b == b' + [e];
      assert a + b == (a + b') + [e];
      RunFromSplit(c, p, a, b');
      RunFromSnoc(c, p, a + b', e);
      if RunFrom(c, p, a).Some? {
        RunFromSnoc(c, RunFrom(c, p, a).value, b', e);
      }
    }
  }

  /** Every prefix of an accepted trace is accepted, and event `i` is a step from the phase before it. */
  lemma PhaseBefore(c: Config, t: seq<Event>, i: nat)
    requires c.Valid() && Replay(c, t).Some? && i < |t|
    ensures Replay(c, t[..i]).Some?
    ensures Replay(c, t[..i + 1]) == Step(c, Replay(c, t[..i]).value, t[i])
    ensures Replay(c, t[..i + 1]).Some?
  {
    RunFromSplit(c, Initial(c), t[..i + 1], t[i + 1..]);
    assert t[..i + 1] + t[i + 1..] == t;
    RunFromSnoc(c, Initial(c), t[..i], t[i]);
    assert t[..i] + [t[i]] == t[..i + 1];
  }

  // ---------------------------------------------------------------------
  // The pass budget, the exits from the loop and teardown

  /** How the loop ended: the budget ran out with no end of file, or the last read hit end of file. */
  ghost predicate LoopEnded(c: Config, t: seq<Event>)
    requires c.Valid()
  {
    var rs := ReadResults(t);
    (0 !in rs && |rs| == c.Budget()) ||
    (|rs| > 0 && rs[|rs| - 1] == 0 && 0 !in rs[..|rs| - 1])
  }

  /** The k-th read happened with `loops == Budget - 1 - k`. */
  ghost predicate CountsDown(c: Config, t: seq<Event>)
    requires c.Valid()
  {
    var ps := PassNumbers(t);
    |ps| == |ReadResults(t)| <= c.Budget() &&
    forall k :: 0 <= k < |ps| ==> ps[k] == c.Budget() - 1 - k
  }

  /** Inside the loop with `l` passes left: no end of file yet and no teardown call. */
  ghost predicate InLoop(c: Config, t: seq<Event>, l: int)
    requires c.Valid()
  {
    l == c.Budget() - |ReadResults(t)| && 0 !in ReadResults(t) && Teardown(t) == []
  }

  /** What the trace so far says about the phase it leads to. */
  ghost predicate Inv(c: Config, t: seq<Event>, p: Phase)
    requires c.Valid()
  {
    CountsDown(c, t) &&
    match p
    case Top(l) => InLoop(c, t, l) && l > 0
    case Polling(l) => InLoop(c, t, l)
    case Writing(l, _, _) => InLoop(c, t, l)
    case Recovering(l, _, _) => InLoop(c, t, l)
    case Exit => LoopEnded(c, t) && Teardown(t) == []
    case Closing => LoopEnded(c, t) && Teardown(t) == [Drain] && |t| >= 1 && t[|t| - 1] == Drain
    case Freeing => LoopEnded(c, t) && Teardown(t) == [Drain, Close] && |t| >= 2 && t[|t| - 2..] == [Drain, Close]
    case Done => LoopEnded(c, t) && Teardown(t) == [Drain, Close, Free] && |t| >= 3 && t[|t| - 3..] == [Drain, Close, Free]
  }

  /** A read from the loop head keeps the count-down and either stays in the loop or ends it by end of file. */
  lemma InvStepRead(c: Config, t: seq<Event>, l: int, e: Event)
    requires c.Valid() && Inv(c, t, Top(l)) && Step(c, Top(l), e).Some?
    ensures Inv(c, t + [e], Step(c, Top(l), e).value)
  {
    RecordsSnoc(t, e);
    var rs, ps := ReadResults(t), PassNumbers(t);
    var rs', ps' := ReadResults(t + [e]), PassNumbers(t + [e]);
    assert rs' == rs + [e.ret] && ps' == ps + [l - 1];
    assert rs'[..|rs'| - 1] == rs;
    assert CountsDown(c, t + [e]);
  }

  /** Calls inside a pass leave the reads and the teardown alone; the pass may end at the loop head. */
  lemma InvStepPass(c: Config, t: seq<Event>, q: Phase, e: Event)
    requires c.Valid() && (q.Polling? || q.Writing? || q.Recovering?)
    requires Inv(c, t, q) && Step(c, q, e).Some?
    ensures Inv(c, t + [e], Step(c, q, e).value)
  {
    RecordsSnoc(t, e);
    assert ReadResults(t + [e]) == ReadResults(t) && PassNumbers(t + [e]) == PassNumbers(t);
    assert Teardown(t + [e]) == [];
    assert CountsDown(c, t + [e]) && InLoop(c, t + [e], q.loops);
    var p := Step(c, q, e).value;
    if !(p.Polling? || p.Writing? || p.Recovering?) {
      assert p == LoopHead(q.loops);
      InvLoopHead(c, t + [e], q.loops);
    }
  }

  /** Back at `while (loops > 0)` inside the loop: either another pass or the budget is spent. */
  lemma InvLoopHead(c: Config, t: seq<Event>, l: int)
    requires c.Valid() && CountsDown(c, t) && InLoop(c, t, l)
    ensures Inv(c, t, LoopHead(l))
  {
  }

  /** Drain, close and free follow one another at the end of the trace. */
  lemma InvStepDrain(c: Config, t: seq<Event>)
    requires c.Valid() && Inv(c, t, Exit)
    ensures Inv(c, t + [Drain], Closing)
  {
    RecordsSnoc(t, Drain);
  }

  lemma InvStepClose(c: Config, t: seq<Event>)
    requires c.Valid() && Inv(c, t, Closing)
    ensures Inv(c, t + [Close], Freeing)
  {
    RecordsSnoc(t, Close);
    var t' := t + [Close];
    assert t'[|t'| - 2..] == [t[|t| - 1], Close];
  }

  lemma InvStepFree(c: Config, t: seq<Event>)
    requires c.Valid() && Inv(c, t, Freeing)
    ensures Inv(c, t + [Free], Done)
  {
    RecordsSnoc(t, Free);
    var t' := t + [Free];
    assert t'[|t'| - 3..] == t[|t| - 2..] + [Free];
  }

  lemma {:induction false} ReplayInv(c: Config, t: seq<Event>)
    requires c.Valid() && Replay(c, t).Some?
    ensures Inv(c, t, Replay(c, t).value)
    decreases |t|
  {
    if t == [] {
      assert ReadResults(t) == [] && PassNumbers(t) == [] && Teardown(t) == [];
    } else {
      var t', e := t[..|t| - 1], t[|t| - 1];
      assert t == t' + [e];
      RunFromSnoc(c, Initial(c), t', e);
      ReplayInv(c, t');
      var q := Replay(c, t').value;
      assert Replay(c, t) == Step(c, q, e);
      if q.Top? {
        InvStepRead(c, t', q.loops, e);
      } else if q.Polling? || q.Writing? || q.Recovering? {
        InvStepPass(c, t', q, e);
      } else if q.Exit? {
        assert e == Drain && Replay(c, t) == Some(Closing);
        InvStepDrain(c, t');
      } else if q.Closing? {
        assert e == Close && Replay(c, t) == Some(Freeing);
        InvStepClose(c, t');
      } else {
        assert q.Freeing? && e == Free && Replay(c, t) == Some(Done);
        InvStepFree(c, t');
      }
    }
  }

  /**
   * Each pass decrements `loops` once before it reads: the k-th read of any
   * run happens with `loops == Budget - 1 - k`, so at most `Budget` passes run.
   */
  lemma PassesCountDown(c: Config, t: seq<Event>)
    requires c.Valid() && Replay(c, t).Some?
    ensures |PassNumbers(t)| == |ReadResults(t)| <= c.Budget()
    ensures forall k :: 0 <= k < |PassNumbers(t)| ==> PassNumbers(t)[k] == c.Budget() - 1 - k
  {
    ReplayInv(c, t);
  }

  /** The loop is left only by exhausting the budget or by end of file (what follows is `AfterLoop`). */
  lemma ExitReasons(c: Config, t: seq<Event>)
    requires c.Valid() && Replay(c, t).Some?
    requires Replay(c, t).value in {Exit, Closing, Freeing, Done}
    ensures LoopEnded(c, t)
  {
    ReplayInv(c, t);
  }

  /** A run that completes ends with exactly one drain, one close and one free, in that order. */
  lemma TeardownOnce(c: Config, t: seq<Event>)
    requires c.Valid() && Replay(c, t) == Some(Done)
    ensures Teardown(t) == [Drain, Close, Free]
    ensures |t| >= 3 && t[|t| - 3..] == [Drain, Close, Free]
    ensures LoopEnded(c, t)
  {
    ReplayInv(c, t);
  }

  /** No teardown call happens while the loop is still running. */
  lemma {:induction false} NoTeardownInLoop(c: Config, t: seq<Event>)
    requires c.Valid() && Replay(c, t).Some?
    requires Replay(c, t).value !in {Closing, Freeing, Done}
    ensures Teardown(t) == []
  {
    ReplayInv(c, t);
  }

  /** From the end of the loop, the only calls are a prefix of drain, close, free, and all three lead to Done. */
  lemma {:induction false} AfterLoop(c: Config, w: seq<Event>)
    requires RunFrom(c, Exit, w).Some?
    ensures |w| <= 3 && w == [Drain, Close, Free][..|w|]
    ensures RunFrom(c, Exit, w) == Some([Exit, Closing, Freeing, Done][|w|])
    decreases |w|
  {
    if w != [] {
      var w', e := w[..|w| - 1], w[|w| - 1];
      assert w == w' + [e];
      RunFromSnoc(c, Exit, w', e);
      AfterLoop(c, w');
    }
  }

  /** End of file on input ends the loop: nothing but the teardown calls follows, no avail and no write. */
  lemma EndOfFileExits(c: Config, t: seq<Event>, i: nat)
    requires c.Valid() && Replay(c, t).Some? && i < |t|
    requires t[i].Read? && t[i].ret == 0
    ensures |t| <= i + 4 && t[i + 1..] == [Drain, Close, Free][..|t| - i - 1]
  {
    PhaseBefore(c, t, i);
    assert Replay(c, t[..i + 1]) == Some(Exit);
    RunFromSplit(c, Initial(c), t[..i + 1], t[i + 1..]);
    assert t[..i + 1] + t[i + 1..] == t;
    AfterLoop(c, t[i + 1..]);
  }

  // ---------------------------------------------------------------------
  // What follows each call

  /** A read that is not end of file (a full or a short one) is followed by the wait for the device. */
  lemma AfterRead(c: Config, t: seq<Event>, i: nat)
    requires c.Valid() && Replay(c, t).Some? && i + 1 < |t|
    requires t[i].Read? && t[i].ret != 0
    ensures t[i + 1].Avail?
  {
    PhaseBefore(c, t, i);
    PhaseBefore(c, t, i + 1);
    assert t[..i + 1][..i] == t[..i];
  }

  /**
   * -EAGAIN from `snd_pcm_avail` is retried; any other result starts the
   * write portion with the cursor at `numFrames` frames and offset 0.
   */
  lemma AfterAvail(c: Config, t: seq<Event>, i: nat)
    requires c.Valid() && Replay(c, t).Some? && i + 1 < |t|
    requires t[i].Avail?
    ensures t[i].ret == -EAGAIN ==> t[i + 1].Avail?
    ensures t[i].ret != -EAGAIN && c.numFrames > 0 ==>
      t[i + 1].Write? && t[i + 1].frames == c.numFrames && t[i + 1].offset == 0
  {
    PhaseBefore(c, t, i);
    PhaseBefore(c, t, i + 1);
  }

  /**
   * The reaction to a `snd_pcm_writei` result. Only a positive result moves
   * the cursor (`frames -= rc`, `offset += rc * offsetStep`); -EAGAIN, 0 and
   * every other negative result retry the same frames; -EPIPE is followed
   * by exactly one `snd_pcm_prepare` and then by the same write again.
   */
  lemma AfterWrite(c: Config, t: seq<Event>, i: nat)
    requires c.Valid() && Replay(c, t).Some? && i + 1 < |t|
    requires t[i].Write?
    ensures t[i].ret == -EPIPE ==> t[i + 1] == Prepare
    ensures t[i].ret == -EPIPE && i + 2 < |t| ==>
      t[i + 2].Write? && t[i + 2].frames == t[i].frames && t[i + 2].offset == t[i].offset
    ensures t[i].ret <= 0 && t[i].ret != -EPIPE ==>
      t[i + 1].Write? && t[i + 1].frames == t[i].frames && t[i + 1].offset == t[i].offset
    ensures t[i].ret > 0 ==> (t[i + 1].Write? <==> WrapFrames(t[i].frames - t[i].ret) > 0)
    ensures t[i].ret > 0 && t[i + 1].Write? ==>
      t[i + 1].frames == WrapFrames(t[i].frames - t[i].ret) &&
      t[i + 1].offset == t[i].offset + c.offsetStep * t[i].ret
    ensures 0 < t[i].ret <= t[i].frames && t[i + 1].Write? ==> t[i + 1].frames == t[i].frames - t[i].ret
  {
    PhaseBefore(c, t, i);
    PhaseBefore(c, t, i + 1);
    if t[i].ret == -EPIPE && i + 2 < |t| {
      PhaseBefore(c, t, i + 2);
    }
  }

  /** Every `snd_pcm_prepare` directly follows a write that reported an underrun. */
  lemma PrepareFollowsUnderrun(c: Config, t: seq<Event>, i: nat)
    requires c.Valid() && Replay(c, t).Some? && i < |t|
    requires t[i] == Prepare
    ensures i > 0 && t[i - 1].Write? && t[i - 1].ret == -EPIPE
  {
    PhaseBefore(c, t, i);
    PhaseBefore(c, t, i - 1);
    assert t[..i][..i - 1] == t[..i - 1];
  }

  // ---------------------------------------------------------------------
  // The write cursor

  /** The cursor invariant: `offset` is `offsetStep` bytes per frame already written. */
  ghost predicate CursorAt(c: Config, frames: int, offset: int) {
    0 < frames <= c.numFrames && offset == c.offsetStep * (c.numFrames - frames)
  }

  /**
   * If the device never accepts more frames than offered, every write of
   * every pass is made with `0 < frames <= numFrames` and
   * `offset == offsetStep * (numFrames - frames)`.
   */
  lemma {:induction false} CursorInvariant(c: Config, t: seq<Event>)
    requires c.Valid() && Replay(c, t).Some? && NoOverrun(t)
    ensures forall i :: 0 <= i < |t| && t[i].Write? ==> CursorAt(c, t[i].frames, t[i].offset)
    ensures var p := Replay(c, t).value;
      p.Writing? || p.Recovering? ==> CursorAt(c, p.frames, p.offset)
    decreases |t|
  {
    if t != [] {
      var t', e := t[..|t| - 1], t[|t| - 1];
      assert t == t' + [e];
      RunFromSnoc(c, Initial(c), t', e);
      assert NoOverrun(t') by {
        forall i | 0 <= i < |t'| && t'[i].Write? ensures t'[i].ret <= t'[i].frames {
          assert t'[i] == t[i];
        }
      }
      CursorInvariant(c, t');
      CursorStep(c, Replay(c, t').value, e);
      forall i | 0 <= i < |t| && t[i].Write? ensures CursorAt(c, t[i].frames, t[i].offset) {
        if i < |t'| {
          assert t[i] == t'[i];
        }
      }
    }
  }

  /** One call keeps the cursor invariant, provided a write is not answered with more than it offered. */
  lemma CursorStep(c: Config, q: Phase, e: Event)
    requires Step(c, q, e).Some?
    requires q.Writing? || q.Recovering? ==> CursorAt(c, q.frames, q.offset)
    requires e.Write? ==> e.ret <= e.frames
    ensures e.Write? ==> CursorAt(c, e.frames, e.offset)
    ensures var p := Step(c, q, e).value;
      p.Writing? || p.Recovering? ==> CursorAt(c, p.frames, p.offset)
  {
    if e.Write? && 0 < e.ret {
      var f, r := e.frames, e.ret;
      assert c.offsetStep * (c.numFrames - (f - r)) == c.offsetStep * (c.numFrames - f) + c.offsetStep * r;
    }
  }

  /** Where one pass of the write portion stands after `a` accepted frames. */
  ghost predicate PeriodState(c: Config, l: int, a: int, p: Phase) {
    0 <= a <= c.numFrames &&
    (p == LoopHead(l) <==> a == c.numFrames) &&
    (a < c.numFrames ==>
      (p.Writing? || p.Recovering?) && p.loops == l &&
      p.frames == c.numFrames - a && p.offset == c.offsetStep * a)
  }

  lemma PeriodStep(c: Config, l: int, a: int, q: Phase, e: Event)
    requires c.numFrames > 0 && PeriodState(c, l, a, q)
    requires e.Write? || e.Prepare?
    requires e.Write? ==> e.ret <= e.frames
    requires Step(c, q, e).Some?
    ensures PeriodState(c, l, a + (if e.Write? && e.ret > 0 then e.ret else 0), Step(c, q, e).value)
  {
    assert q.Writing? || q.Recovering?;
    if e.Write? && e.ret > 0 {
      assert c.offsetStep * a + c.offsetStep * e.ret == c.offsetStep * (a + e.ret);
    }
  }

  /**
   * One pass of the write portion, from its fresh cursor: over any run `w`
   * of writes and prepares in which the device never accepts more than
   * offered, the accepted frames never exceed `numFrames`; the pass is
   * over exactly when they sum to `numFrames`; until then `frames` is what
   * remains and `offset` is `offsetStep` bytes per accepted frame.
   */
  lemma {:induction false} PeriodAccounting(c: Config, l: int, w: seq<Event>)
    requires c.numFrames > 0
    requires forall i :: 0 <= i < |w| ==> w[i].Write? || w[i].Prepare?
    requires NoOverrun(w)
    requires RunFrom(c, Writing(l, c.numFrames, 0), w).Some?
    ensures var p, a := RunFrom(c, Writing(l, c.numFrames, 0), w).value, Accepted(w);
      0 <= a <= c.numFrames &&
      (p == LoopHead(l) <==> a == c.numFrames) &&
      (a < c.numFrames ==>
        (p.Writing? || p.Recovering?) && p.loops == l &&
        p.frames == c.numFrames - a && p.offset == c.offsetStep * a)
    decreases |w|
  {
    var start := Writing(l, c.numFrames, 0);
    if w == [] {
      assert PeriodState(c, l, 0, start);
    } else {
      var w', e := w[..|w| - 1], w[|w| - 1];
      assert w == w' + [e];
      RunFromSnoc(c, start, w', e);
      RecordsSnoc(w', e);
      assert forall i :: 0 <= i < |w'| ==> w'[i] == w[i];
      PeriodAccounting(c, l, w');
      PeriodStep(c, l, Accepted(w'), RunFrom(c, start, w').value, e);
    }
  }

  // ---------------------------------------------------------------------
  // The results decide the run

  /** In each phase the next call and its arguments are fixed; only its result varies. */
  lemma StepDeterministic(c: Config, p: Phase, e1: Event, e2: Event)
    requires Step(c, p, e1).Some? && Step(c, p, e2).Some?
    requires Returned(e1) == Returned(e2)
    ensures e1 == e2
  {
  }

  /** Two runs that received the same results, call by call, are the same run. */
  lemma {:induction false} ResultsDetermineRun(c: Config, t1: seq<Event>, t2: seq<Event>)
    requires c.Valid() && Replay(c, t1).Some? && Replay(c, t2).Some?
    requires |t1| == |t2|
    requires forall i :: 0 <= i < |t1| ==> Returned(t1[i]) == Returned(t2[i])
    ensures t1 == t2
    decreases |t1|
  {
    if t1 != [] {
      var n := |t1| - 1;
      PhaseBefore(c, t1, n);
      PhaseBefore(c, t2, n);
      assert t1[..n + 1] == t1 && t2[..n + 1] == t2;
      ResultsDetermineRun(c, t1[..n], t2[..n]);
      StepDeterministic(c, Replay(c, t1[..n]).value, t1[n], t2[n]);
      assert t1 == t1[..n] + [t1[n]] && t2 == t2[..n] + [t2[n]];
    }
  }
}
