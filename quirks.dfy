/**
 * Two places where the write cursor of spkr-test1.c disagrees with the
 * buffer it walks. The buffer holds one negotiated period of 4-byte frames
 * (line 84), but the cursor restarts from the literal NUMFRAMES (line 116)
 * and advances 2 bytes per accepted frame (line 149). The source behaviour
 * is `SourceConfig`; the evidently intended one is `CorrectedConfig`. The
 * loop and its protocol are the same for both, only the configuration
 * differs.
 */
module Quirks {
  import opened Session
  import opened CallProtocol
  import opened ProtocolProperties

  /** Restart the cursor at the negotiated period and advance it by whole frames. */
  function CorrectedConfig(periodFrames: UFrames, periodMicros: nat): Config {
    Config(RUNTIME, periodFrames, BYTES_PER_FRAME, periodFrames, periodMicros)
  }

  /** After a partial write, the next write starts at the first frame the device has not taken. */
  ghost predicate WritesResumeAtNextFrame(t: seq<Event>) {
    forall i :: 0 <= i && i + 1 < |t| && t[i].Write? && t[i].ret > 0 && t[i + 1].Write? ==>
      t[i + 1].offset == t[i].offset + BYTES_PER_FRAME * t[i].ret
  }

  /** Every write hands the device only bytes that lie inside the buffer. */
  ghost predicate WritesInsideBuffer(c: Config, t: seq<Event>) {
    forall i :: 0 <= i < |t| && t[i].Write? ==>
      0 <= t[i].offset && t[i].offset + BYTES_PER_FRAME * t[i].frames <= c.BufferBytes()
  }

  // ---------------------------------------------------------------------
  // `offset += (rc * 2)`

  /**
   * With the source's 2-byte step, a device that takes a 1024-frame period
   * in two halves gets the second write from byte 1024, the middle of frame
   * 256, instead of byte 2048 where frame 512 begins.
   */
  lemma SourceShortWriteRepeatsFrames()
    ensures exists t :: Replay(SourceConfig(NUMFRAMES, 10666), t).Some? && NoOverrun(t) && !WritesResumeAtNextFrame(t)
  {
    var c := SourceConfig(NUMFRAMES, 10666);
    assert c.Budget() == 937;
    var e0, e1, e2, e3 := Read(936, 4096), Avail(1024), Write(0, 1024, 512), Write(1024, 512, 512);
    RunFromSnoc(c, Initial(c), [], e0);
    assert Replay(c, [e0]) == Some(Polling(936));
    RunFromSnoc(c, Initial(c), [e0], e1);
    assert [e0] + [e1] == [e0, e1];
    assert Replay(c, [e0, e1]) == Some(Writing(936, 1024, 0));
    RunFromSnoc(c, Initial(c), [e0, e1], e2);
    assert [e0, e1] + [e2] == [e0, e1, e2];
    assert Replay(c, [e0, e1, e2]) == Some(Writing(936, 512, 1024));
    RunFromSnoc(c, Initial(c), [e0, e1, e2], e3);
    var t := [e0, e1, e2] + [e3];
    assert Replay(c, t) == Some(Top(936));
    assert t[3].offset != t[2].offset + BYTES_PER_FRAME * t[2].ret;
    assert !WritesResumeAtNextFrame(t);
  }

  /** With a step of one whole frame, every write resumes exactly where the device stopped. */
  lemma CorrectedWritesResume(periodFrames: UFrames, periodMicros: nat, t: seq<Event>)
    requires periodMicros > 0
    requires Replay(CorrectedConfig(periodFrames, periodMicros), t).Some?
    ensures WritesResumeAtNextFrame(t)
  {
    var c := CorrectedConfig(periodFrames, periodMicros);
    forall i | 0 <= i && i + 1 < |t| && t[i].Write? && t[i].ret > 0 && t[i + 1].Write?
      ensures t[i + 1].offset == t[i].offset + BYTES_PER_FRAME * t[i].ret
    {
      AfterWrite(c, t, i);
    }
  }

  /**
   * The 2-byte step never leads a write outside the buffer while the
   * negotiated period is at least NUMFRAMES: each write covers bytes
   * `2 * (NUMFRAMES - frames)` to `2 * (NUMFRAMES + frames)`. The
   * damage is to which bytes are played, not to memory.
   */
  lemma SourceWritesInsideLargeBuffer(periodFrames: nat, periodMicros: nat, t: seq<Event>)
    requires periodMicros > 0 && periodFrames >= NUMFRAMES
    requires Replay(SourceConfig(periodFrames, periodMicros), t).Some? && NoOverrun(t)
    ensures WritesInsideBuffer(SourceConfig(periodFrames, periodMicros), t)
  {
    CursorInvariant(SourceConfig(periodFrames, periodMicros), t);
  }

  // ---------------------------------------------------------------------
  // `frames = NUMFRAMES`

  /**
   * When the device settles on a 512-frame period the buffer has 2048
   * bytes, yet the first write of a pass hands the device 1024 frames,
   * 4096 bytes, from it.
   */
  lemma SourceOverreadsShortPeriod()
    ensures exists t :: (Replay(SourceConfig(512, 5333), t).Some? && NoOverrun(t) &&
                         !WritesInsideBuffer(SourceConfig(512, 5333), t))
  {
    var c := SourceConfig(512, 5333);
    assert c.Budget() == 1875;
    var e0, e1, e2 := Read(1874, 2048), Avail(512), Write(0, 1024, 512);
    RunFromSnoc(c, Initial(c), [], e0);
    assert Replay(c, [e0]) == Some(Polling(1874));
    RunFromSnoc(c, Initial(c), [e0], e1);
    assert [e0] + [e1] == [e0, e1];
    assert Replay(c, [e0, e1]) == Some(Writing(1874, 1024, 0));
    RunFromSnoc(c, Initial(c), [e0, e1], e2);
    var t := [e0, e1] + [e2];
    assert Replay(c, t) == Some(Writing(1874, 512, 1024));
    assert t[2].offset + BYTES_PER_FRAME * t[2].frames > c.BufferBytes();
  }

  /** Restarting at the negotiated period, every write ends exactly at the end of the buffer. */
  lemma CorrectedWritesInsideBuffer(periodFrames: UFrames, periodMicros: nat, t: seq<Event>)
    requires periodMicros > 0
    requires Replay(CorrectedConfig(periodFrames, periodMicros), t).Some? && NoOverrun(t)
    ensures WritesInsideBuffer(CorrectedConfig(periodFrames, periodMicros), t)
    ensures forall i :: 0 <= i < |t| && t[i].Write? ==>
      t[i].offset + BYTES_PER_FRAME * t[i].frames == CorrectedConfig(periodFrames, periodMicros).BufferBytes()
  {
    CursorInvariant(CorrectedConfig(periodFrames, periodMicros), t);
  }
}
