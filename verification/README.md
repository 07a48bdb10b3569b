# Stopwatch engine of `useStopwatch`, modelled in Dafny

`src/hooks/useStopWatch.tsx` implements a stopwatch as a React hook. It has two
run states, paused and running. It keeps five pieces of state:

- `isPaused`;
- `lastTime`, the anchor: the clock reading at the last resume, pause or reset;
- `accumulatedTime`, the committed running time, updated only at pause and reset;
- `milliseconds`, the displayed elapsed time, refreshed by a 10 ms interval while running;
- `laps`, the list of lap entries.

The control operations are `resume`, `pause`, `reset` and `lap`. The interval
callback is the fifth transition, called "tick" here.

The project has two modules:

- `StopwatchSpec` (`stopwatch_spec.dfy`) describes the hook's state as a
  datatype `State`, with one pure transition function per operation
  (`Resume`, `Pause`, `Reset`, `Lap`, `Tick`) and the mount state `Initial`.
  Traces of operations (`Op`, `Run`) and a monotonic-clock predicate
  (`ClockFrom`) support the lemmas about behaviour over time.
- `StopwatchHook` (`stopwatch.dfy`) is the hook as a class `Stopwatch`. Its
  fields are updated in place by guarded methods. Each method's
  postcondition equates the new fields with the matching `StopwatchSpec`
  transition applied to the old fields.

`Date.now()` is a parameter `now: int` of every operation that reads the clock.
`Elapsed(s, now)` is the running total that the tick computes:
`accumulated + (now - lastTime)` while running, and `accumulated` while paused.

Two behaviours of the code are kept exactly as written:

- `pause` does not refresh `milliseconds`. After a pause, the display still
  shows the last tick, which may be below the committed time. One might expect
  "displayed time = committed time + current running interval" to hold at all
  times, but the code does not keep it. The model proves only
  `0 <= milliseconds <= Elapsed` (`RunSane`).
- `lap` records `milliseconds - accumulated`. Once a tick has happened since
  the last resume, this is the time since that resume, as of the last tick.
  It is not the time since the previous lap (`LapsInOneRun`). Right after a
  pause it is negative whenever the clock moved on after the last tick
  (`LapAfterPause`). After a resume but before that run's first tick, the
  display still holds the previous run's last tick, so the entry is that
  tick's reading minus the pause's reading, which is at most zero when the
  clock never goes backwards
  (`LapBeforeFirstTick`).

## Model

| member | source | states |
|---|---|---|
| `StopwatchSpec.Initial` | src/hooks/useStopWatch.tsx:16-21 | mounting yields a paused state with zero display, zero committed time, no laps and zero running total, and that state is sane at the mount time |
| `StopwatchSpec.Resume` | src/hooks/useStopWatch.tsx:23-27 | afterwards the stopwatch is running; while running already nothing changes; from paused the anchor becomes `now`; display, committed time and laps never change; the running total does not jump |
| `StopwatchSpec.Pause` | src/hooks/useStopWatch.tsx:29-35 | afterwards the stopwatch is paused; while paused already nothing changes; from running the anchor becomes `now`; the committed time becomes the running total at `now`; display and laps are untouched |
| `StopwatchSpec.Reset` | src/hooks/useStopWatch.tsx:37-43 | from any state the result is the mount state at `now`: paused, zero display, no laps, zero committed time, anchor `now` |
| `StopwatchSpec.ResetIdempotent` | src/hooks/useStopWatch.tsx:37-43 | two resets at the same clock reading give the same state as one |
| `StopwatchSpec.Lap` | src/hooks/useStopWatch.tsx:45-50 | exactly one entry, `milliseconds - accumulated`, is appended after the earlier entries; no other field changes |
| `StopwatchSpec.Tick` | src/hooks/useStopWatch.tsx:52-59 | while running the display becomes the running total at `now`, and nothing else changes; while paused the tick changes nothing |
| `StopwatchSpec.StepSane` | src/hooks/useStopWatch.tsx:23-59 | one operation whose clock reading does not go backwards keeps the committed time non-negative, the anchor not after the latest reading, and the display between zero and the running total |
| `StopwatchSpec.RunSane` | src/hooks/useStopWatch.tsx:23-59 | the same three facts hold after every trace whose clock readings never decrease |
| `StopwatchSpec.AnchorNotAfterLaterReading` | src/hooks/useStopWatch.tsx:23-43 | with a clock that never goes backwards, the anchor after any prefix of a trace is at or before every later clock reading in that trace |
| `StopwatchSpec.RunMonotone` | src/hooks/useStopWatch.tsx:29-58 | along a trace without reset and with a monotonic clock, the committed time, the running total and the displayed time never decrease |
| `StopwatchSpec.RunLapsGrow` | src/hooks/useStopWatch.tsx:37-50 | along a trace without reset, earlier lap entries stay in place and the list grows by exactly the number of laps taken |
| `StopwatchSpec.ResetLast` | src/hooks/useStopWatch.tsx:37-43 | any trace that ends in a reset ends in the mount state, with the lap list empty |
| `StopwatchSpec.PausedFrozen` | src/hooks/useStopWatch.tsx:52-58 | while paused, any trace of pauses, laps and ticks leaves the stopwatch paused and the display, committed time and anchor unchanged |
| `StopwatchSpec.TwoIntervals` | src/hooks/useStopWatch.tsx:23-35 | resume, pause, resume, pause from the mount state commits exactly the two running intervals and not the idle gap |
| `StopwatchSpec.LapsInOneRun` | src/hooks/useStopWatch.tsx:45-58 | two laps within one run, each after a tick, both record the time since the resume, so the second entry is not the time since the first lap |
| `StopwatchSpec.LapAfterPause` | src/hooks/useStopWatch.tsx:29-50 | a lap right after a pause records the last tick's reading minus the pause's reading |
| `StopwatchSpec.LapBeforeFirstTick` | src/hooks/useStopWatch.tsx:23-50 | a lap after a resume but before that run's first tick records the previous run's last tick reading minus the pause's reading |
| `StopwatchHook.Stopwatch.constructor` | src/hooks/useStopWatch.tsx:16-21 | the new object's fields are the mount state |
| `StopwatchHook.Stopwatch.Resume` | src/hooks/useStopWatch.tsx:23-27 | the fields after the call are `StopwatchSpec.Resume` of the fields before it |
| `StopwatchHook.Stopwatch.Pause` | src/hooks/useStopWatch.tsx:29-35 | the fields after the call are `StopwatchSpec.Pause` of the fields before it, so the committed time is the running total at `now` |
| `StopwatchHook.Stopwatch.Reset` | src/hooks/useStopWatch.tsx:37-43 | the fields after the call are the mount state at `now` |
| `StopwatchHook.Stopwatch.Lap` | src/hooks/useStopWatch.tsx:45-50 | the fields after the call are `StopwatchSpec.Lap` of the fields before it: one entry `milliseconds - accumulated` appended |
| `StopwatchHook.Stopwatch.Tick` | src/hooks/useStopWatch.tsx:55-58 | the fields after the call are `StopwatchSpec.Tick` of the fields before it: the display is refreshed only while running |
| `StopwatchHook.ResetMidRun` | src/hooks/useStopWatch.tsx:37-43 | whatever the clock readings, a reset after resume, tick and lap leaves the object paused, with zero display, no laps and zero committed time |

## Left out

- React plumbing is not modelled: `useState`, `useRef`, re-rendering, batched `setState` updates, and closures that capture a stale `isPaused` or `milliseconds`. Each control call is one atomic step on the current state.
- Interval scheduling is not modelled: `setInterval`, `clearInterval` and the 10 ms cadence. Only the callback body is modelled, as `Tick`. The callback exists only while running, so `Tick` is guarded by `isPaused`.
- `Date.now()` is not modelled as a clock. Each reading is a parameter. Clock monotonicity is a hypothesis of the trace lemmas (`ClockFrom`), not something the operations require.
- Numbers are unbounded integers. JavaScript numbers are doubles, so precision loss beyond 2^53 ms is not modelled.
- `minLapTime` and `maxLapTime` are not modelled. The interface declares them, but the hook never computes or returns them.
