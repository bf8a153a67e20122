/**
 * `Timer`: an elapsed/interval accumulator whose `Progress` is recomputed by
 * every setter. Time is a real number; the frame's delta time is a parameter.
 */
module Timing {

  /** `IsComplete` as a fact about elapsed time: progress reaches 1 exactly when elapsed reaches the interval. */
  lemma CompleteIffElapsedReachesInterval(elapsed: real, interval: real)
    ensures interval > 0.0 ==> (elapsed / interval >= 1.0 <==> elapsed >= interval)
  {
    if interval > 0.0 {
      var p := elapsed / interval;
      assert elapsed == p * interval;
      if p >= 1.0 {
        assert p * interval >= 1.0 * interval;
      } else {
        assert p * interval < 1.0 * interval;
      }
    }
  }

  class Timer {
    var interval: real
    var elapsed: real
    var progress: real

    /** `Progress` always equals `elapsed / interval`; the interval must not be zero. */
    ghost predicate Valid()
      reads this
    {
      interval != 0.0 && progress == elapsed / interval
    }

    /**
     * `new Timer(interval)`: the constructor stores the interval only;
     * elapsed and progress start at zero, which agrees with `0 / interval`.
     */
    constructor (interval: real := 1.0)
      requires interval != 0.0
      ensures Valid()
      ensures this.interval == interval && elapsed == 0.0 && progress == 0.0
    {
      this.interval := interval;
      elapsed := 0.0;
      progress := 0.0;
    }

    /** `IsComplete`: progress has reached one. */
    predicate IsComplete()
      reads this
      ensures Valid() && interval > 0.0 ==> (IsComplete() <==> elapsed >= interval)
    {
      CompleteIffElapsedReachesInterval(elapsed, interval);
      progress >= 1.0
    }

    /** `UpdateProgress`. */
    method UpdateProgress()
      requires interval != 0.0
      modifies this`progress
      ensures Valid()
    {
      progress := elapsed / interval;
    }

    /** The `Interval` setter. */
    method SetInterval(value: real)
      requires value != 0.0
      modifies this
      ensures Valid()
      ensures interval == value && elapsed == old(elapsed) && progress == elapsed / value
    {
      interval := value;
      UpdateProgress();
    }

    /** The `Elapsed` setter. */
    method SetElapsed(value: real)
      requires interval != 0.0
      modifies this
      ensures Valid()
      ensures elapsed == value && interval == old(interval) && progress == value / interval
    {
      elapsed := value;
      UpdateProgress();
    }

    /** `Step()` and `timer++`: one frame's `deltaTime` is added to elapsed. */
    method Step(deltaTime: real)
      requires Valid()
      modifies this
      ensures Valid()
      ensures elapsed == old(elapsed) + deltaTime && interval == old(interval)
      ensures interval > 0.0 ==> (IsComplete() <==> elapsed >= interval)
    {
      SetElapsed(elapsed + deltaTime);
      CompleteIffElapsedReachesInterval(elapsed, interval);
    }

    /** `timer++`: steps the timer and yields the same timer. */
    method Increment(deltaTime: real) returns (t: Timer)
      requires Valid()
      modifies this
      ensures t == this && Valid()
      ensures elapsed == old(elapsed) + deltaTime && interval == old(interval)
    {
      Step(deltaTime);
      t := this;
    }

    /** `Step(speedScale)`: the frame's `deltaTime`, scaled, is added to elapsed. */
    method StepScaled(deltaTime: real, speedScale: real)
      requires Valid()
      modifies this
      ensures Valid()
      ensures elapsed == old(elapsed) + deltaTime * speedScale && interval == old(interval)
    {
      SetElapsed(elapsed + deltaTime * speedScale);
    }

    /** `Reset()`: elapsed goes back to zero and the interval is kept. */
    method Reset()
      requires Valid()
      modifies this
      ensures Valid()
      ensures elapsed == 0.0 && interval == old(interval) && progress == 0.0
      ensures !IsComplete()
    {
      SetElapsed(0.0);
    }

    /** `Reset(interval)`: the interval is replaced and elapsed goes back to zero. */
    method ResetInterval(newInterval: real)
      requires newInterval != 0.0
      modifies this
      ensures Valid()
      ensures elapsed == 0.0 && interval == newInterval && progress == 0.0
      ensures !IsComplete()
    {
      interval := newInterval;
      SetElapsed(0.0);
    }
  }
}
