/**
 The fixed-timestep clock of `engineUpdate`: irregular callbacks carrying a
 millisecond timestamp are turned into a number of fixed steps of 1e3/60 ms,
 each of which runs one `engineObjectsUpdate`. The debug speed keys are left
 out because `debug` is the constant 0 in this build, so the 50 ms cap always
 applies.
 */
module Clock {
  import opened Scalar

  const FrameRate: int := 60
  /** `1e3 / frameRate`, the length of one fixed step, as the double the
      engine computes: 16.666666666666668, which is 4691249611844267 / 2^48
      exactly and a little more than 1000/60. */
  const StepMs: real := 4691249611844267.0 / 281474976710656.0
  /** The cap `min(frameTimeBufferMS, 50)` puts on the buffer. */
  const MaxBufferMs: real := 50.0
  /** Buffers in (-SmoothMs, 0) are borrowed so that one step still runs. */
  const SmoothMs: real := 9.0

  /** The engine's time-keeping globals. */
  datatype Clock = Clock(lastMs: real, bufferMs: real, frame: nat, time: real, timeReal: real)

  /** Every global starts at 0. */
  const Start := Clock(0.0, 0.0, 0, 0.0, 0.0)

  /** The outcome of one callback: how many fixed steps ran, and the clock
      afterwards. */
  datatype Tick = Tick(steps: nat, clock: Clock)

  /** The number of passes the catch-up loop makes from buffer `b`: the
      smallest count that takes the buffer below zero. */
  function StepsFor(b: real): (n: nat)
    ensures b - n as real * StepMs < 0.0
    ensures n > 0 ==> b - (n - 1) as real * StepMs >= 0.0
    ensures n == 0 <==> b < 0.0
  {
    if b < 0.0 then 0
    else
      var q := b / StepMs;
      DivBounds(b, StepMs);
      assert q * StepMs == b;
      var k := q.Floor;
      MulSigns(q - k as real, StepMs);
      MulSigns(k as real + 1.0 - q, StepMs);
      k + 1
  }

  /** The catch-up loop itself, stepping the buffer down until it is
      negative; it runs exactly `StepsFor` passes. */
  method Drain(buffer: real) returns (steps: nat, rest: real)
    ensures steps == StepsFor(buffer)
    ensures rest == buffer - steps as real * StepMs
    ensures rest < 0.0
  {
    steps, rest := 0, buffer;
    while rest >= 0.0
      invariant rest == buffer - steps as real * StepMs
      invariant steps > 0 ==> rest + StepMs >= 0.0
      invariant steps == 0 ==> rest == buffer
      decreases rest.Floor + 1
    {
      rest := rest - StepMs;
      steps := steps + 1;
    }
    StepsUnique(buffer, steps);
  }

  /** Only one count satisfies the characterisation of `StepsFor`. */
  lemma StepsUnique(b: real, n: nat)
    requires b - n as real * StepMs < 0.0
    requires n > 0 ==> b - (n - 1) as real * StepMs >= 0.0
    requires n == 0 ==> b < 0.0
    ensures n == StepsFor(b)
  {
  }

  /** One call of `engineUpdate(nowMs)`. The whole delta goes into the real
      clock; the buffer gets it only when not paused, then is capped. When
      not paused, a buffer in (-9, 0) is borrowed (set to zero and added
      back after the loop), and `time` is the frame count before the last
      step's increment, in seconds. */
  function EngineUpdate(c: Clock, nowMs: real, paused: bool): (t: Tick)
    ensures t.clock.lastMs == nowMs
    ensures t.clock.timeReal == c.timeReal + (nowMs - c.lastMs) / 1000.0
    ensures t.clock.frame == c.frame + t.steps
    ensures t.steps <= 3
    ensures paused ==> t.steps == 0 && t.clock.bufferMs == Min(c.bufferMs, MaxBufferMs)
    ensures !paused ==> t.clock.bufferMs < 0.0
    ensures t.steps == 0 ==> t.clock.time == c.time
    ensures t.steps > 0 ==> t.clock.time == (t.clock.frame - 1) as real / FrameRate as real
  {
    var delta := nowMs - c.lastMs;
    var buffered := Min(c.bufferMs + (if paused then 0.0 else delta), MaxBufferMs);
    var timeReal := c.timeReal + delta / 1000.0;
    if paused then
      Tick(0, Clock(nowMs, buffered, c.frame, c.time, timeReal))
    else
      var smooth := if buffered < 0.0 && buffered > -SmoothMs then buffered else 0.0;
      var start := buffered - smooth;
      var n := StepsFor(start);
      AtMostThree(start);
      var frame := c.frame + n;
      Tick(n, Clock(nowMs, start - n as real * StepMs + smooth, frame,
                    if n > 0 then (frame - 1) as real / FrameRate as real else c.time,
                    timeReal))
  }

  /** A buffer of at most 50 ms drains in at most three steps. */
  lemma AtMostThree(b: real)
    requires b <= MaxBufferMs
    ensures StepsFor(b) <= 3
  {
  }

  /** A callback whose buffer lands in (-9, 0) runs exactly one step, and the
      borrowed amount is returned afterwards: the buffer ends one step lower
      than it was. */
  lemma SmoothedCallback(c: Clock, nowMs: real)
    requires var b := Min(c.bufferMs + (nowMs - c.lastMs), MaxBufferMs); -SmoothMs < b < 0.0
    ensures var t := EngineUpdate(c, nowMs, false);
      t.steps == 1 && t.clock.bufferMs == Min(c.bufferMs + (nowMs - c.lastMs), MaxBufferMs) - StepMs
  {
    assert StepsFor(0.0) == 1;
  }

  /** A buffer at the cap runs three steps, not the four an exact 1000/60
      would give: three double steps already exceed 50 ms. The buffer is
      left just below zero. */
  lemma CappedCallback(c: Clock, nowMs: real)
    requires c.bufferMs + (nowMs - c.lastMs) >= MaxBufferMs
    ensures var t := EngineUpdate(c, nowMs, false);
      t.steps == 3 && -0.000000000000004 < t.clock.bufferMs < 0.0
  {
    StepsUnique(MaxBufferMs, 3);
  }

  /** The double step is longer than the exact 1000/60, and three of them
      exceed the cap. */
  lemma StepAboveExact()
    ensures StepMs > 1000.0 / 60.0
    ensures 3.0 * StepMs > MaxBufferMs && 2.0 * StepMs < MaxBufferMs
  {
  }

  /** The buffer stays within one step and the smoothing window below zero
      and never exceeds the cap, as long as timestamps do not go backwards. */
  ghost predicate BufferBounded(c: Clock) {
    -StepMs - SmoothMs <= c.bufferMs <= MaxBufferMs
  }

  lemma BufferStaysBounded(c: Clock, nowMs: real, paused: bool)
    requires BufferBounded(c)
    requires nowMs >= c.lastMs
    ensures BufferBounded(EngineUpdate(c, nowMs, paused).clock)
  {
    var t := EngineUpdate(c, nowMs, paused);
    var buffered := Min(c.bufferMs + (if paused then 0.0 else nowMs - c.lastMs), MaxBufferMs);
    if !paused && buffered >= 0.0 {
      var n := StepsFor(buffered);
      assert t.clock.bufferMs == buffered - n as real * StepMs;
      assert buffered - (n - 1) as real * StepMs >= 0.0;
      assert (n - 1) as real * StepMs == n as real * StepMs - StepMs;
    } else if !paused && buffered > -SmoothMs {
      assert t.clock.bufferMs == buffered - StepMs;
    }
  }

  /** The clock after a run of callbacks at the given timestamps. */
  function Run(c: Clock, stamps: seq<real>, paused: bool): (r: Clock)
    ensures r.frame >= c.frame
    decreases |stamps|
  {
    if |stamps| == 0 then c else Run(EngineUpdate(c, stamps[0], paused).clock, stamps[1..], paused)
  }

  /** Over any run, the frame counter grows by at most three per callback,
      and not at all while paused. */
  lemma {:induction false} RunFrames(c: Clock, stamps: seq<real>, paused: bool)
    ensures Run(c, stamps, paused).frame <= c.frame + 3 * |stamps|
    ensures paused ==> Run(c, stamps, paused).frame == c.frame
    decreases |stamps|
  {
    if |stamps| > 0 {
      RunFrames(EngineUpdate(c, stamps[0], paused).clock, stamps[1..], paused);
    }
  }
}
