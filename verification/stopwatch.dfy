/**
 * The `useStopwatch` hook as an object: its refs and state are fields that
 * the control operations and the interval tick update in place. Every
 * method leaves the fields equal to the corresponding transition of
 * `StopwatchSpec` applied to the fields before the call.
 */
module StopwatchHook {
  import opened StopwatchSpec

  class Stopwatch {
    var isPaused: bool
    var lastTime: int
    var accumulated: int
    var milliseconds: int
    var laps: seq<int>

    /** The fields as a value of the specification's state. */
    ghost function Snapshot(): State
      reads this
    {
      State(isPaused, lastTime, accumulated, milliseconds, laps)
    }

    /** Mounting the hook at clock reading `now`. */
    constructor (now: int)
      ensures Snapshot() == Initial(now)
    {
      milliseconds := 0;
      isPaused := true;
      laps := [];
      lastTime := now;
      accumulated := 0;
    }

    method Resume(now: int)
      modifies this
      ensures Snapshot() == StopwatchSpec.Resume(old(Snapshot()), now)
    {
      if !isPaused {
        return;
      }
      isPaused := false;
      lastTime := now;
    }

    method Pause(now: int)
      modifies this
      ensures Snapshot() == StopwatchSpec.Pause(old(Snapshot()), now)
    {
      if isPaused {
        return;
      }
      isPaused := true;
      var currentTime := now;
      accumulated := accumulated + (currentTime - lastTime);
      lastTime := currentTime;
    }

    method Reset(now: int)
      modifies this
      ensures Snapshot() == StopwatchSpec.Reset(old(Snapshot()), now)
    {
      isPaused := true;
      lastTime := now;
      milliseconds := 0;
      laps := [];
      accumulated := 0;
    }

    method Lap()
      modifies this
      ensures Snapshot() == StopwatchSpec.Lap(old(Snapshot()))
    {
      var lapTime := milliseconds - accumulated;
      laps := laps + [lapTime];
    }

    /** The body of the interval callback, which only exists while running. */
    method Tick(now: int)
      modifies this
      ensures Snapshot() == StopwatchSpec.Tick(old(Snapshot()), now)
    {
      if isPaused {
        return;
      }
      var currentTime := now;
      var timePassed := currentTime - lastTime;
      milliseconds := timePassed + accumulated;
    }
  }

  /**
   * A reset in the middle of a run, after a lap: the display, the laps and
   * the committed time are cleared and the stopwatch is paused.
   */
  method ResetMidRun(t0: int, t1: int, t2: int, t3: int) returns (w: Stopwatch)
    ensures w.isPaused && w.milliseconds == 0 && w.laps == [] && w.accumulated == 0
  {
    w := new Stopwatch(t0);
    w.Resume(t1);
    w.Tick(t2);
    w.Lap();
    assert w.laps == [t2 - t1] && w.milliseconds == t2 - t1 && !w.isPaused;
    w.Reset(t3);
  }
}
