/** The countdown/stopwatch state machine of core/TimerEngine.cs. Remaining
    and elapsed time are recomputed on every poll from stored absolute
    instants, never accumulated tick by tick. Instants are DateTime ticks
    (100 ns); the clock reading is the parameter `now`. */
module Core {
  import opened Common

  const TicksPerSecond: int := 10_000_000

  datatype TimerMode = Countdown | Stopwatch

  /** How a call ends: normally, or with the exception the C# method
      throws. */
  datatype Status = Done | InvalidOperation | ArgumentOutOfRange

  /** Math.Ceiling of a tick span's TotalSeconds: the smallest whole number of
      seconds that covers the span. */
  function CeilSeconds(ticks: int): (r: int)
    ensures (r - 1) * TicksPerSecond < ticks <= r * TicksPerSecond
  {
    -((-ticks) / TicksPerSecond)
  }

  /** Math.Floor of a tick span's TotalSeconds: the largest whole number of
      seconds the span covers. */
  function FloorSeconds(ticks: int): (r: int)
    ensures r * TicksPerSecond <= ticks < (r + 1) * TicksPerSecond
  {
    ticks / TicksPerSecond
  }

  function Max0(x: int): nat { if x < 0 then 0 else x }

  /** Whole seconds still to go before `target`, rounded up. */
  function Remaining(target: int, now: int): (r: int)
    ensures (r - 1) * TicksPerSecond < target - now <= r * TicksPerSecond
  {
    CeilSeconds(target - now)
  }

  /** Whole seconds gone since `start`, rounded down and never negative. */
  function Elapsed(start: int, now: int): (r: nat)
    ensures now < start ==> r == 0
    ensures start <= now ==> r * TicksPerSecond <= now - start < (r + 1) * TicksPerSecond
  {
    Max0(FloorSeconds(now - start))
  }

  /** The countdown shows 0 exactly once the deadline has been reached: a
      fraction of a second still to go shows as 1. */
  lemma RemainingReachesZeroAtDeadline(target: int, now: int)
    ensures Remaining(target, now) <= 0 <==> target <= now
    ensures target - TicksPerSecond < now < target ==> Remaining(target, now) == 1
  {
  }

  /** A later poll never shows more time remaining. */
  lemma RemainingNonIncreasing(target: int, now: int, later: int)
    requires now <= later
    ensures Remaining(target, later) <= Remaining(target, now)
  {
  }

  /** The stopwatch counts a second only once it has fully passed. */
  lemma ElapsedCountsWholeSeconds(start: int, now: int)
    ensures Elapsed(start, now) >= 1 <==> now - start >= TicksPerSecond
    ensures Elapsed(start, now) * TicksPerSecond <= Max0(now - start)
  {
  }

  /** A later poll never shows less time elapsed. */
  lemma ElapsedNonDecreasing(start: int, now: int, later: int)
    requires now <= later
    ensures Elapsed(start, now) <= Elapsed(start, later)
  {
  }

  class TimerEngine {
    var mode: TimerMode
    var running: bool
    var shownSeconds: int
    var baseSeconds: int
    var startUtc: Option<int>
    var targetUtc: Option<int>

    /** The values the engine keeps in range: shown and base seconds are
        non-negative Int32 values. */
    ghost predicate Valid()
      reads this
    {
      0 <= shownSeconds <= Int32Max && 0 <= baseSeconds <= Int32Max
    }

    /** The invariant the host keeps when it starts a countdown only in
        Countdown mode and a stopwatch only in Stopwatch mode: while running,
        exactly the instant of the current mode is set; when idle, none. */
    ghost predicate InstantsMatchMode()
      reads this
    {
      if running then
        (mode == Countdown ==> targetUtc.Some? && startUtc.None?) &&
        (mode == Stopwatch ==> startUtc.Some? && targetUtc.None?)
      else startUtc.None? && targetUtc.None?
    }

    /** The clock reading `now` keeps the seconds that the current mode's
        branch computes from it within Int32: a countdown's Math.Ceiling cast
        and a stopwatch's _baseSeconds + elapsed are not checked in the
        source. An instant the current mode does not read is unconstrained. */
    ghost predicate InInt32Range(now: int)
      reads this
    {
      running ==>
        (mode == Countdown && targetUtc.Some? ==> Remaining(targetUtc.value, now) <= Int32Max) &&
        (mode == Stopwatch && startUtc.Some? ==> baseSeconds + Elapsed(startUtc.value, now) <= Int32Max)
    }

    constructor ()
      ensures Valid() && InstantsMatchMode()
      ensures mode == Countdown && !running && shownSeconds == 0 && baseSeconds == 0
      ensures startUtc == None && targetUtc == None
    {
      mode := Countdown;
      running := false;
      shownSeconds := 0;
      baseSeconds := 0;
      startUtc := None;
      targetUtc := None;
    }

    method SetMode(newMode: TimerMode) returns (status: Status)
      requires Valid()
      modifies this
      ensures Valid()
      ensures old(running) ==> status == InvalidOperation && unchanged(this)
      ensures !old(running) ==> (status == Done && mode == newMode && !running &&
        shownSeconds == 0 && baseSeconds == 0 && startUtc == None && targetUtc == None)
      ensures old(InstantsMatchMode()) ==> InstantsMatchMode()
    {
      if running { return InvalidOperation; }
      mode := newMode;
      Reset();
      status := Done;
    }

    method StartCountdown(seconds: int, now: int) returns (status: Status)
      requires Valid() && seconds <= Int32Max
      modifies this
      ensures Valid()
      ensures seconds <= 0 ==> status == ArgumentOutOfRange && unchanged(this)
      ensures 0 < seconds ==> (status == Done && running && shownSeconds == seconds &&
        targetUtc == Some(now + seconds * TicksPerSecond) && startUtc == None)
      ensures mode == old(mode) && baseSeconds == old(baseSeconds)
      ensures status == Done && mode == Countdown ==> InstantsMatchMode()
      ensures status == Done ==> Remaining(targetUtc.value, now) == seconds
    {
      if seconds <= 0 { return ArgumentOutOfRange; }
      targetUtc := Some(now + seconds * TicksPerSecond);
      shownSeconds := seconds;
      running := true;
      startUtc := None;
      status := Done;
    }

    method StartStopwatch(startSeconds: int, now: int)
      requires Valid() && startSeconds <= Int32Max
      modifies this
      ensures Valid()
      ensures baseSeconds == Max0(startSeconds) && shownSeconds == baseSeconds
      ensures startUtc == Some(now) && running && targetUtc == None
      ensures mode == old(mode)
      ensures mode == Stopwatch ==> InstantsMatchMode()
    {
      baseSeconds := Max0(startSeconds);
      startUtc := Some(now);
      shownSeconds := baseSeconds;
      running := true;
      targetUtc := None;
    }

    method Pause(now: int)
      requires Valid() && InInt32Range(now)
      modifies this
      ensures Valid()
      ensures !old(running) ==> unchanged(this)
      ensures old(running) ==> !running && mode == old(mode)
      ensures old(running) && mode == Countdown ==>
        targetUtc == None && startUtc == old(startUtc) && baseSeconds == old(baseSeconds) &&
        shownSeconds == (if old(targetUtc).Some? then Max0(Remaining(old(targetUtc).value, now))
                         else old(shownSeconds))
      ensures old(running) && mode == Stopwatch ==>
        startUtc == None && targetUtc == old(targetUtc) &&
        (old(startUtc).Some? ==>
           baseSeconds == old(baseSeconds) + Elapsed(old(startUtc).value, now) &&
           shownSeconds == baseSeconds) &&
        (old(startUtc).None? ==>
           baseSeconds == old(baseSeconds) && shownSeconds == old(shownSeconds))
      ensures old(InstantsMatchMode()) ==> InstantsMatchMode()
    {
      if !running { return; }
      running := false;

      if mode == Countdown {
        if targetUtc.Some? {
          var remain := Max0(CeilSeconds(targetUtc.value - now));
          shownSeconds := remain;
        }
        targetUtc := None;
      } else {
        if startUtc.Some? {
          baseSeconds := baseSeconds + Max0(FloorSeconds(now - startUtc.value));
          shownSeconds := baseSeconds;
        }
        startUtc := None;
      }
    }

    method Reset()
      modifies this
      ensures !running && shownSeconds == 0 && baseSeconds == 0
      ensures startUtc == None && targetUtc == None
      ensures mode == old(mode)
      ensures Valid() && InstantsMatchMode()
    {
      running := false;
      shownSeconds := 0;
      baseSeconds := 0;
      startUtc := None;
      targetUtc := None;
    }

    method Tick(now: int) returns (beep: bool, stopped: bool)
      requires Valid() && InInt32Range(now)
      modifies this
      ensures Valid()
      ensures mode == old(mode) && baseSeconds == old(baseSeconds) && startUtc == old(startUtc)
      ensures !old(running) ==> !beep && !stopped && unchanged(this)
      ensures beep ==> stopped && !running && mode == Countdown
      ensures stopped <==> old(running) && !running
      ensures old(running) && mode == Countdown ==>
        if old(targetUtc).None? then
          !beep && stopped && shownSeconds == old(shownSeconds) && targetUtc == None
        else if Remaining(old(targetUtc).value, now) <= 0 then
          beep && stopped && shownSeconds == 0 && targetUtc == None
        else
          !beep && !stopped && running && shownSeconds == Remaining(old(targetUtc).value, now) &&
          shownSeconds >= 1 && targetUtc == old(targetUtc)
      ensures old(running) && mode == Stopwatch ==>
        !beep && targetUtc == old(targetUtc) &&
        if startUtc.None? then
          stopped && shownSeconds == old(shownSeconds)
        else
          !stopped && running && shownSeconds == baseSeconds + Elapsed(startUtc.value, now)
      ensures old(InstantsMatchMode()) ==> InstantsMatchMode()
    {
      if !running { return false, false; }

      if mode == Countdown {
        if targetUtc.None? {
          running := false;
          return false, true;
        }
        var remain := CeilSeconds(targetUtc.value - now);
        if remain <= 0 {
          shownSeconds := 0;
          running := false;
          targetUtc := None;
          return true, true;
        }
        shownSeconds := remain;
        return false, false;
      } else {
        if startUtc.None? {
          running := false;
          return false, true;
        }
        var elapsed := Max0(FloorSeconds(now - startUtc.value));
        shownSeconds := baseSeconds + elapsed;
        return false, false;
      }
    }
  }

  /** A countdown beeps once: the tick that sees the deadline passed stops the
      engine, and every later tick does nothing. */
  method CountdownBeepsOnce(e: TimerEngine, now: int, later: int)
    returns (first: (bool, bool), second: (bool, bool))
    requires e.Valid() && e.InInt32Range(now) && e.InInt32Range(later)
    modifies e
    ensures first.0 ==> second == (false, false) && !e.running
  {
    var beep, stopped := e.Tick(now);
    first := (beep, stopped);
    beep, stopped := e.Tick(later);
    second := (beep, stopped);
  }

  /** Reset twice leaves what Reset once leaves. */
  method ResetIsIdempotent(e: TimerEngine)
    modifies e
    ensures !e.running && e.shownSeconds == 0 && e.baseSeconds == 0
    ensures e.startUtc == None && e.targetUtc == None && e.mode == old(e.mode)
  {
    e.Reset();
    e.Reset();
  }

  /** The engine does not check the mode when a run starts: a stopwatch
      started in Countdown mode and paused keeps its start instant, so
      InstantsMatchMode holds only under the host's discipline. */
  method StopwatchInCountdownModeLeavesStartSet(now: int, later: int) returns (e: TimerEngine)
    ensures e.mode == Countdown && !e.running && e.startUtc == Some(now)
    ensures e.baseSeconds == Int32Max
    ensures !e.InstantsMatchMode()
  {
    e := new TimerEngine();
    e.StartStopwatch(Int32Max, now);
    e.Pause(later);
  }

  /** The scenario of a ten-second countdown: 9.4 s in it shows 1, at 10.1 s it
      beeps and stops, and the next tick does nothing. */
  method CountdownScenario(t0: int) returns (shown: seq<int>, beeps: seq<bool>, stops: seq<bool>)
    ensures shown == [1, 0, 0]
    ensures beeps == [false, true, false] && stops == [false, true, false]
  {
    var e := new TimerEngine();
    var status := e.StartCountdown(10, t0);
    var beep, stopped := e.Tick(t0 + 94_000_000);
    shown, beeps, stops := [e.shownSeconds], [beep], [stopped];
    beep, stopped := e.Tick(t0 + 101_000_000);
    shown, beeps, stops := shown + [e.shownSeconds], beeps + [beep], stops + [stopped];
    beep, stopped := e.Tick(t0 + 120_000_000);
    shown, beeps, stops := shown + [e.shownSeconds], beeps + [beep], stops + [stopped];
  }

  /** The stopwatch scenario: 2.9 s in it shows 2, and pausing there keeps 2
      as the accumulated base. */
  method StopwatchScenario(t0: int) returns (shownAtTick: int, baseAtPause: int, shownAtPause: int)
    ensures shownAtTick == 2 && baseAtPause == 2 && shownAtPause == 2
  {
    var e := new TimerEngine();
    var _ := e.SetMode(Stopwatch);
    e.StartStopwatch(0, t0);
    var beep, stopped := e.Tick(t0 + 29_000_000);
    shownAtTick := e.shownSeconds;
    e.Pause(t0 + 29_000_000);
    baseAtPause, shownAtPause := e.baseSeconds, e.shownSeconds;
  }
}
