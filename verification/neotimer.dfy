/** libs/neotimer.py: a millisecond software timer polled from the main
    loop.  The clock is a parameter: every operation takes the `ticks_ms()`
    reading `now` it would see (one reading per call). */
module Neotimer {

  /** MicroPython's tick counter wraps at 2^30. */
  const TicksPeriod: int := 0x4000_0000
  const TicksHalf: int := 0x2000_0000

  /** `ticks_diff(a, b)`: the signed distance from `b` to `a` on the
      wrapping tick counter. */
  function TicksDiff(a: int, b: int): (d: int)
    ensures -TicksHalf <= d < TicksHalf
    ensures (d - (a - b)) % TicksPeriod == 0
  {
    (a - b + TicksHalf) % TicksPeriod - TicksHalf
  }

  /** Within half a period the distance is the plain difference. */
  lemma {:induction false} TicksDiffExact(a: int, b: int)
    requires -TicksHalf <= a - b < TicksHalf
    ensures TicksDiff(a, b) == a - b
  {
  }

  /** `repetitions == -1` means unlimited. */
  datatype Timer = Timer(duration: int, last: int, started: bool, done: bool, repetitions: int)

  function Elapsed(t: Timer, now: int): int
  {
    TicksDiff(now, t.last)
  }

  /** `Neotimer(duration)`. */
  function Init(duration: int, now: int): (t: Timer)
    ensures !t.started && !t.done && t.repetitions == -1 && Elapsed(t, now) == 0
  {
    Timer(duration, now, false, false, -1)
  }

  /** `reset()`: stopped, not done, timing from now. */
  function Reset(t: Timer, now: int): (t': Timer)
    ensures !t'.started && !t'.done && t'.last == now && Elapsed(t', now) == 0
    ensures t'.duration == t.duration && t'.repetitions == t.repetitions
  {
    t.(started := false, last := now, done := false)
  }

  /** `start()`: started, not done, timing from now. */
  function Start(t: Timer, now: int): (t': Timer)
    ensures t'.started && !t'.done && t'.last == now && Elapsed(t', now) == 0
    ensures t'.duration == t.duration && t'.repetitions == t.repetitions
  {
    Reset(t, now).(started := true)
  }

  /** `stop()`: stopped, returning the time since the last (re)start. */
  function Stop(t: Timer, now: int): (r: (Timer, int))
    ensures r.0 == t.(started := false) && r.1 == Elapsed(t, now)
  {
    (t.(started := false), Elapsed(t, now))
  }

  /** `restart()`: resumes a timer that has not finished. */
  function Restart(t: Timer): (t': Timer)
    ensures t.done ==> t' == t
    ensures !t.done ==> t' == t.(started := true)
  {
    if !t.done then t.(started := true) else t
  }

  /** `finished()`: a started timer whose duration has passed; it then
      records that it is done. */
  function Finished(t: Timer, now: int): (r: (Timer, bool))
    ensures r.1 <==> t.started && Elapsed(t, now) >= t.duration
    ensures r.0 == t.(done := t.done || r.1)
  {
    if !t.started then (t, false)
    else if Elapsed(t, now) >= t.duration then (t.(done := true), true)
    else (t, false)
  }

  /** `debounce_signal(signal)`: true for a true signal once the duration
      has passed since the last (re)start, re-arming the timer. */
  function Debounce(t: Timer, signal: bool, now: int): (r: (Timer, bool))
    ensures r.1 <==> signal && (t.started ==> Elapsed(t, now) >= t.duration) &&
                     (!t.started ==> 0 >= t.duration)
    ensures r.0.started && r.0.duration == t.duration && r.0.repetitions == t.repetitions
    ensures r.1 ==> r.0.last == now
    ensures !r.1 && t.started ==> r.0.last == t.last
  {
    var t1 := if !t.started then Start(t, now) else t;
    if signal then
      var (t2, f) := Finished(t1, now);
      if f then (Start(t2, now), true) else (t2, false)
    else (t1, false)
  }

  /** Debouncing a run of calls, each with its signal and clock reading. */
  function Debounces(t: Timer, calls: seq<(bool, int)>): (r: seq<bool>)
    ensures |r| == |calls|
    decreases |calls|
  {
    if calls == [] then []
    else
      var (t', f) := Debounce(t, calls[0].0, calls[0].1);
      [f] + Debounces(t', calls[1..])
  }

  /** After a running timer last (re)started at `t.last`, the first true
      result of a run of calls comes at least the duration later: two true
      results are at least the duration apart. */
  lemma {:induction false} DebounceSpacing(t: Timer, calls: seq<(bool, int)>, i: int)
    requires t.started
    requires 0 <= i < |calls| && Debounces(t, calls)[i]
    requires forall j :: 0 <= j < i ==> !Debounces(t, calls)[j]
    ensures TicksDiff(calls[i].1, t.last) >= t.duration
    decreases i
  {
    var (t', f) := Debounce(t, calls[0].0, calls[0].1);
    assert Debounces(t, calls) == [f] + Debounces(t', calls[1..]);
    if i > 0 {
      assert !f by { assert Debounces(t, calls)[0] == f; }
      forall j | 0 <= j < i - 1
        ensures !Debounces(t', calls[1..])[j]
      {
        assert Debounces(t', calls[1..])[j] == Debounces(t, calls)[j + 1];
      }
      assert Debounces(t', calls[1..])[i - 1] == Debounces(t, calls)[i];
      DebounceSpacing(t', calls[1..], i - 1);
    }
  }

  /** `hold_signal(signal)`: a false signal stops and resets the timer;
      a true one starts it if stopped and reports whether the duration has
      passed. */
  function Hold(t: Timer, signal: bool, now: int): (r: (Timer, bool))
    ensures !signal ==> !r.1 && !r.0.started && r.0 == Reset(t, now)
    ensures signal ==> r.0.started
    ensures signal && t.started ==> (r.1 <==> Elapsed(t, now) >= t.duration) && r.0.last == t.last
    ensures signal && !t.started ==> (r.1 <==> 0 >= t.duration) && r.0.last == now
  {
    if signal then
      var t1 := if !t.started then Start(t, now) else t;
      Finished(t1, now)
    else (Reset(t, now), false)
  }

  /** Once the held signal has been reported, it stays reported while it is
      held and the clock moves on. */
  lemma {:induction false} HoldStays(t: Timer, now: int, later: int)
    requires Hold(t, true, now).1
    requires Elapsed(Hold(t, true, now).0, later) >= Elapsed(Hold(t, true, now).0, now)
    ensures Hold(Hold(t, true, now).0, true, later).1
  {
  }

  /** `repeat_execution()`: true when the duration has passed, stopping
      the timer; a stopped timer starts timing from this call. */
  function Repeat(t: Timer, now: int): (r: (Timer, bool))
    ensures r.1 <==> t.started && Elapsed(t, now) >= t.duration
    ensures r.1 ==> r.0 == Reset(t, now)
    ensures !r.1 && !t.started ==> r.0 == t.(started := true, last := now)
    ensures !r.1 && t.started ==> r.0 == t
  {
    var (t1, f) := Finished(t, now);
    if f then (Reset(t1, now), true)
    else if !t1.started then (t1.(started := true, last := now), false)
    else (t1, false)
  }

  /** A true result stops the timer; the next call restarts timing from
      its own clock reading, so it cannot be true again unless the duration
      is not positive. */
  lemma {:induction false} RepeatRestarts(t: Timer, now: int, next: int)
    requires Repeat(t, now).1
    ensures var t1 := Repeat(t, now).0;
      !Repeat(t1, next).1 && Repeat(t1, next).0.last == next && Repeat(t1, next).0.started
  {
  }

  /** `repeat_execution_times(count)`: with a count other than -1, the
      first call fixes the remaining repetitions and each true result uses
      one up; with -1 it is `repeat_execution`. */
  function RepeatTimes(t: Timer, count: int, now: int): (r: (Timer, bool))
    ensures count == -1 ==> r == Repeat(t, now)
    ensures count != -1 && t.repetitions == 0 ==> r == (t, false)
    ensures count != -1 && r.1 ==> r.0.repetitions == (if t.repetitions == -1 then count else t.repetitions) - 1
    ensures count != -1 && !r.1 ==> r.0.repetitions == (if t.repetitions == -1 then count else t.repetitions)
  {
    if count != -1 then
      var t1 := if t.repetitions == -1 then t.(repetitions := count) else t;
      if t1.repetitions == 0 then (t1, false)
      else
        var (t2, f) := Repeat(t1, now);
        if f then (t2.(repetitions := t2.repetitions - 1), true) else (t2, false)
    else Repeat(t, now)
  }

  /** `reset_repetitions()`. */
  function ResetRepetitions(t: Timer): (t': Timer)
    ensures t' == t.(repetitions := -1)
  {
    t.(repetitions := -1)
  }

  /** The results of calling `repeat_execution_times(count)` at each clock
      reading in turn. */
  function RepeatRun(t: Timer, count: int, times: seq<int>): (r: seq<bool>)
    ensures |r| == |times|
    decreases |times|
  {
    if times == [] then []
    else
      var (t', f) := RepeatTimes(t, count, times[0]);
      [f] + RepeatRun(t', count, times[1..])
  }

  function Trues(s: seq<bool>): (n: nat)
    ensures n <= |s|
  {
    if s == [] then 0 else (if s[0] then 1 else 0) + Trues(s[1..])
  }

  /** Until repetitions are reset, a non-negative count yields at most that
      many true results. */
  lemma {:induction false} RepeatAtMost(t: Timer, count: int, times: seq<int>)
    requires count >= 0 && t.repetitions >= -1
    ensures Trues(RepeatRun(t, count, times)) <= if t.repetitions == -1 then count else t.repetitions
    decreases |times|
  {
    if times != [] {
      var (t', f) := RepeatTimes(t, count, times[0]);
      assert RepeatRun(t, count, times) == [f] + RepeatRun(t', count, times[1..]);
      assert ([f] + RepeatRun(t', count, times[1..]))[1..] == RepeatRun(t', count, times[1..]);
      RepeatAtMost(t', count, times[1..]);
    }
  }

  /** `waiting()`: started and not yet finished (the check records a
      finish as `finished()` does). */
  function Waiting(t: Timer, now: int): (r: (Timer, bool))
    ensures r.1 <==> t.started && Elapsed(t, now) < t.duration
    ensures r.0 == (if t.started then Finished(t, now).0 else t)
  {
    if t.started then
      var (t1, f) := Finished(t, now);
      (t1, !f)
    else (t, false)
  }
}
