/**
 * The game clock: a self-rescheduling single-shot timer with an `active`
 * flag, a start reference and the elapsed time it publishes. The current
 * time is a parameter; a scheduled callback is counted in `pending`.
 */
module GameTimer {
  datatype Mode = Slow | Medium | Fast

  const DefaultMode := Medium

  /** The value start reference and elapsed time are reset to. */
  const ResetValue := 0

  /** Ticks per second of each mode. */
  function TicksPerSecond(m: Mode): (n: nat)
    ensures n > 0
  {
    match m
    case Slow => 5
    case Medium => 10
    case Fast => 30
  }

  /** Delay in milliseconds between two firings, as an exact rational. */
  function IntervalMs(m: Mode): real {
    1000.0 / TicksPerSecond(m) as real
  }

  lemma Intervals()
    ensures IntervalMs(Slow) == 200.0
    ensures IntervalMs(Medium) == 100.0
    ensures IntervalMs(Fast) * 30.0 == 1000.0
    ensures IntervalMs(Fast) < IntervalMs(Medium) < IntervalMs(Slow)
  {
  }

  class Timer {
    const mode: Mode
    /** `isRecordingActive`: whether a firing schedules the next one. */
    var active: bool
    /** `startTimeRef`: the time the elapsed time is measured from; 0 means none. */
    var startTime: int
    /** The elapsed time in milliseconds the game observes. */
    var time: int
    /** Callbacks scheduled and not yet fired; start and resume never cancel one. */
    var pending: nat

    constructor (mode: Mode)
      ensures this.mode == mode
      ensures !active && startTime == ResetValue && time == ResetValue && pending == 0
    {
      this.mode := mode;
      active := false;
      startTime := ResetValue;
      time := ResetValue;
      pending := 0;
    }

    /** `onTimerUpdate` at time `now`: refresh the elapsed time, and re-arm while active. */
    method OnTimerUpdate(now: int)
      modifies this
      ensures active == old(active) && startTime == old(startTime)
      ensures old(startTime) > ResetValue ==> time == now - old(startTime)
      ensures old(startTime) <= ResetValue ==> time == old(time)
      ensures pending == if old(active) then old(pending) + 1 else old(pending)
    {
      if startTime > ResetValue {
        time := now - startTime;
      }
      // setTimeout followed, when inactive, by clearTimeout of that same timer
      if active {
        pending := pending + 1;
      }
    }

    /** One scheduled callback fires at time `now`. */
    method Fire(now: int)
      requires pending > 0
      modifies this
      ensures active == old(active) && startTime == old(startTime)
      ensures old(startTime) > ResetValue ==> time == now - old(startTime)
      ensures old(startTime) <= ResetValue ==> time == old(time)
      ensures pending == if old(active) then old(pending) else old(pending) - 1
    {
      pending := pending - 1;
      OnTimerUpdate(now);
    }

    /** Reset, take `now` as the start reference, activate and fire once at once. */
    method Start(now: int)
      modifies this
      ensures active && startTime == now && time == 0
      ensures pending == old(pending) + 1
    {
      Stop();
      startTime := now;
      active := true;
      OnTimerUpdate(now);
    }

    /** Only clears the flag: an already scheduled callback still fires once, and does not re-arm. */
    method Pause()
      modifies this
      ensures !active
      ensures startTime == old(startTime) && time == old(time) && pending == old(pending)
    {
      active := false;
    }

    /** Reactivate, measuring from `now - time` so that the elapsed time carries on, and schedule a firing. */
    method Resume(now: int)
      modifies this
      ensures active && time == old(time) && now - startTime == old(time)
      ensures pending == old(pending) + 1
    {
      active := true;
      startTime := now - time;
      pending := pending + 1;
    }

    /** Clears start reference and elapsed time; neither the flag nor a pending callback is touched. */
    method Stop()
      modifies this
      ensures startTime == ResetValue && time == ResetValue
      ensures active == old(active) && pending == old(pending)
    {
      startTime := ResetValue;
      time := ResetValue;
    }
  }

  /**
   * Pausing a running clock: the one callback already scheduled still fires,
   * refreshes the elapsed time once more, and leaves nothing scheduled; a
   * resume right after that continues from the refreshed elapsed time.
   */
  method PauseGraceThenResume(t: Timer, grace: int, later: int)
    requires t.active && t.pending == 1 && t.startTime > ResetValue
    modifies t
    ensures t.pending == 1 && t.active
    ensures t.time == grace - old(t.startTime)
    ensures later - t.startTime == grace - old(t.startTime)
  {
    t.Pause();
    t.Fire(grace);
    assert t.pending == 0 && t.time == grace - old(t.startTime);
    t.Resume(later);
  }

  /**
   * After a stop the start reference is 0, so any number of firings leaves the
   * elapsed time at 0. A clock still active (as a collision leaves it) re-arms
   * on every firing and goes on firing for ever; an inactive one fires only
   * the callbacks already scheduled.
   */
  method FiringsAfterStop(t: Timer, nows: seq<int>)
    requires (t.active && t.pending >= 1) || |nows| <= t.pending
    modifies t
    ensures t.time == ResetValue && t.startTime == ResetValue
    ensures t.active == old(t.active)
    ensures t.pending == if old(t.active) then old(t.pending) else old(t.pending) - |nows|
  {
    t.Stop();
    var k := 0;
    while k < |nows|
      invariant 0 <= k <= |nows|
      invariant t.time == ResetValue && t.startTime == ResetValue
      invariant t.active == old(t.active)
      invariant t.pending == if old(t.active) then old(t.pending) else old(t.pending) - k
    {
      t.Fire(nows[k]);
      k := k + 1;
    }
  }
}
