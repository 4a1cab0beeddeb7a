/**
 * Session-level constants and configuration of the speaker test program:
 * the compile-time constants of spkr-test1.c, the two values that device
 * negotiation hands back (period size and period time), and the arithmetic
 * the playback loop does on C integer types.
 */
module Session {

  /** Seconds of audio to play (RUNTIME). */
  const RUNTIME: nat := 10
  /** The frame count the write cursor restarts from every pass (NUMFRAMES). */
  const NUMFRAMES: nat := 1024
  /** Bytes the source adds to the write offset per accepted frame (`rc * 2`). */
  const SOURCE_OFFSET_STEP: nat := 2
  /** Bytes in one interleaved frame: 2 channels of signed 16-bit samples. */
  const BYTES_PER_FRAME: nat := 4
  const MICROS_PER_SECOND: nat := 1000000
  /** Largest value of a C `int`. */
  const INT_MAX: int := 0x7fff_ffff
  /** 2^64: the range of `snd_pcm_uframes_t` (an `unsigned long`). */
  const ULONG_MODULUS: nat := 0x1_0000_0000_0000_0000
  /** Linux errno values; ALSA reports them negated. */
  const EAGAIN: int := 11
  const EPIPE: int := 32

  /** A value of `snd_pcm_uframes_t`. */
  type UFrames = x: int | 0 <= x < ULONG_MODULUS

  /**
   * Everything the playback loop depends on besides the call results.
   * `numFrames` and `offsetStep` are literals in the source (NUMFRAMES and
   * the 2 in `rc * 2`); `periodFrames` and `periodMicros` come back from
   * hardware-parameter negotiation.
   */
  datatype Config = Config(
    runtimeSecs: nat,
    numFrames: UFrames,
    offsetStep: nat,
    periodFrames: nat,
    periodMicros: nat)
  {
    /** Negotiation succeeded with a non-zero period time, and the runtime in
        microseconds fits the C `int` the source computes it in. */
    predicate Valid() {
      periodMicros > 0 && runtimeSecs * MICROS_PER_SECOND <= INT_MAX
    }

    /** `size`: the buffer holds one negotiated period of frames. */
    function BufferBytes(): (bytes: nat)
      ensures bytes % BYTES_PER_FRAME == 0 && bytes / BYTES_PER_FRAME == periodFrames
    {
      periodFrames * BYTES_PER_FRAME
    }

    /** The initial value of `loops`. */
    function Budget(): nat
      requires Valid()
    {
      LoopBudget(runtimeSecs, periodMicros)
    }
  }

  /** The configuration the source is built with, around the negotiated values. */
  function SourceConfig(periodFrames: nat, periodMicros: nat): Config {
    Config(RUNTIME, NUMFRAMES, SOURCE_OFFSET_STEP, periodFrames, periodMicros)
  }

  /**
   * `loops = RUNTIME * 1000000 / val`: the number of whole periods that fit
   * into the runtime. All operands are non-negative, so C's truncating
   * division and Dafny's agree.
   */
  function LoopBudget(runtimeSecs: nat, periodMicros: nat): (loops: nat)
    requires periodMicros > 0
    ensures loops * periodMicros <= runtimeSecs * MICROS_PER_SECOND
    ensures runtimeSecs * MICROS_PER_SECOND < (loops + 1) * periodMicros
  {
    var total := runtimeSecs * MICROS_PER_SECOND;
    var q := total / periodMicros;
    assert total == q * periodMicros + total % periodMicros;
    assert (q + 1) * periodMicros == q * periodMicros + periodMicros;
    q
  }

  /**
   * Subtraction on `snd_pcm_uframes_t`: reduction modulo 2^64. A difference
   * that is already in range is unchanged; a negative one wraps to the top.
   */
  function WrapFrames(x: int): (r: UFrames)
    ensures 0 <= x < ULONG_MODULUS ==> r == x
    ensures x < 0 && 0 <= x + ULONG_MODULUS ==> r == x + ULONG_MODULUS
  {
    x % ULONG_MODULUS
  }
}
