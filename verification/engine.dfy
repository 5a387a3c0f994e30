/** The engine object of pico_timecode.py: run mode, the transmit and
    receive timecodes, and the clock micro-adjust controller.

    The controller drives the eight PIO clock-divider registers, which always
    hold the same value, so one integer `divider` stands for all of them.  Its
    three one-shot timers are modelled by the period each was armed with
    (`Some(ms)`) or `None` when idle; a timer firing is an explicit event
    (`TimerFired`).  The locks around divider writes are no-ops here. */
module Engine {
  import opened Wrappers
  import opened Bits
  import opened TimecodeValue

  /** Run modes.  A mode above `Monitor` counts down good packets while
      jamming to incoming timecode. */
  const Halted := -1
  const Run := 0
  const Monitor := 1
  const Jam := 64

  datatype TimerId = T1 | T2 | T3

  datatype Engine = Engine(
    mode: int,
    flashframe: int,
    flashtime: int,
    tc: Timecode,
    rc: Timecode,
    calval: real,
    nextCalval: real,
    period: int,
    timer1: Option<int>,
    timer2: Option<int>,
    timer3: Option<int>,
    stopped: bool,
    powersave: bool,
    stop: bool,
    divider: int)

  /** The constructor.  The divider registers hold whatever the hardware
      was left with, so their value is a parameter. */
  function Init(divider: int): (e: Engine)
    ensures e.mode == Run && e.stopped && !e.powersave
    ensures e.period == 10000 && e.calval == 0.0 && e.nextCalval == 0.0
    ensures e.timer1.None? && e.timer2.None? && e.timer3.None?
    ensures e.tc == Default() && e.rc == Default()
  {
    Engine(Run, 0, 0, Default(), Default(), 0.0, 0.0, 10000, None, None, None,
           true, false, false, divider)
  }

  predicate IsRunning(e: Engine)
  {
    !e.stopped
  }

  /** `set_stopped(s)`.  Stopping also cancels the timers, drops powersave
      and the clock flag of the outgoing user bits, clears the global stop
      request and forgets the calibration value. */
  function SetStopped(e: Engine, s: bool): (r: Engine)
    ensures r.stopped == s && r.mode == e.mode && r.divider == e.divider
    ensures !s ==> r == e.(stopped := false)
    ensures s ==> r.timer1.None? && r.timer2.None? && r.timer3.None?
    ensures s ==> !r.powersave && !r.stop && r.calval == 0.0 && r.nextCalval == 0.0
    ensures s ==> r.tc == e.tc.(bgf1 := false)
  {
    if s then
      e.(stopped := true, powersave := false, tc := e.tc.(bgf1 := false),
         timer1 := None, timer2 := None, timer3 := None, stop := false,
         calval := 0.0, nextCalval := 0.0)
    else
      e.(stopped := false)
  }

  // ---------------------------------------------------------------------
  // Clock dividers

  /** The frame rates `config_clocks` knows and their dividers for a 120 MHz
      system clock (16.16 fixed point); any other rate leaves the registers
      alone. */
  function BaseDivider(fps: real): (r: Option<int>)
    ensures r.Some? <==> fps in {30.0, 29.97, 25.0, 24.98, 24.0, 23.98}
    ensures r.Some? ==> r.value % 256 == 0
  {
    if fps == 30.0 then Some(0x061a_8000)
    else if fps == 29.97 then Some(0x061c_1000)
    else if fps == 25.0 then Some(0x0753_0000)
    else if fps == 24.98 then Some(0x0754_e000)
    else if fps == 24.0 then Some(0x07a1_2000)
    else if fps == 23.98 then Some(0x07a3_1400)
    else None
  }

  /** The exact frame rate a label stands for: the NTSC labels 29.97, 24.98
      and 23.98 are 30, 25 and 24 scaled by 1000/1001. */
  function ExactRate(fps: real): (r: real)
    ensures fps in {30.0, 25.0, 24.0} ==> r == fps
    ensures fps in {29.97, 24.98, 23.98} ==> r == Nominal(fps) as real * 1000.0 / 1001.0
  {
    if fps == 29.97 then 30000.0 / 1001.0
    else if fps == 24.98 then 25000.0 / 1001.0
    else if fps == 23.98 then 24000.0 / 1001.0
    else fps
  }

  /** Every entry of the divider table runs the PIO at exactly 2560 cycles
      per frame of its exact rate: 120 MHz * 65536 / 2560 = 3 072 000 000. */
  lemma {:induction false} DividerRealisesRate(fps: real)
    requires BaseDivider(fps).Some?
    ensures BaseDivider(fps).value as real * ExactRate(fps) == 3_072_000_000.0
  {
  }

  /** `config_clocks(fps, calval)`: a calibration of zero means "use the
      stored one"; the whole part of the calibration, truncated toward zero,
      moves the divider in steps of 0x100. */
  function ConfigClocks(e: Engine, fps: real, calval: real): (r: Engine)
    ensures r == e.(divider := r.divider)
    ensures BaseDivider(fps).None? ==> r.divider == e.divider
    ensures BaseDivider(fps).Some? ==>
      r.divider == BaseDivider(fps).value - TruncReal(if calval == 0.0 then e.calval else calval) * 0x100
  {
    var c := if calval == 0.0 then e.calval else calval;
    match BaseDivider(fps) {
      case None => e
      case Some(d) => e.(divider := d - TruncReal(c) * 256)
    }
  }

  /** `inc_divider`: a slower clock by one fractional step. */
  function IncDivider(e: Engine): (r: Engine)
    ensures r == e.(divider := r.divider) && r.divider - e.divider == 0x100
  {
    e.(divider := e.divider + 0x100)
  }

  /** `dec_divider`: a faster clock by one fractional step. */
  function DecDivider(e: Engine): (r: Engine)
    ensures r == e.(divider := r.divider) && e.divider - r.divider == 0x100
  {
    e.(divider := e.divider - 0x100)
  }

  // ---------------------------------------------------------------------
  // Micro-adjust

  /** `int(period * (abs(calval) % 1))`: how many milliseconds of the period
      run on the second divider value. */
  function DitherPart(period: int, calval: real): (part: int)
    ensures period >= 0 ==> 0 <= part <= period
    ensures period > 0 ==> part < period
  {
    var x := Scaled(period, FracAbs(calval));
    if period >= 0 then TruncBelow(x, period); TruncReal(x)
    else TruncReal(x)
  }

  /** A number of milliseconds scaled by a fraction in [0, 1) stays within
      it. */
  function Scaled(p: int, f: real): (x: real)
    requires 0.0 <= f < 1.0
    ensures p >= 0 ==> 0.0 <= x <= p as real
    ensures p > 0 ==> x < p as real
  {
    var a := p as real;
    ScaleFacts(a, f);
    a * f
  }

  /** A number scaled by a fraction in [0, 1): at most itself when it is
      not negative, strictly below it when it is positive. */
  lemma {:induction false} ScaleFacts(a: real, f: real)
    requires 0.0 <= f < 1.0
    ensures a >= 0.0 ==> 0.0 <= a * f <= a
    ensures a > 0.0 ==> a * f < a
  {
    if a > 0.0 {
      ScaleBelow(a, f);
    } else if a == 0.0 {
      ZeroScaled(a, f);
    }
  }

  /** Zero scaled by anything is zero. */
  lemma {:induction false} ZeroScaled(a: real, f: real)
    requires a == 0.0
    ensures a * f == 0.0
  {
  }

  /** Scaling a positive number by a fraction in [0, 1) keeps it in
      [0, itself). */
  lemma {:induction false} ScaleBelow(a: real, f: real)
    requires a > 0.0 && 0.0 <= f < 1.0
    ensures 0.0 <= a * f < a
  {
    var g := 1.0 - f;
    PosProduct(a, g);
    Distrib(a, f);
    if f > 0.0 {
      PosProduct(a, f);
    }
  }

  /** Multiplication distributes over the complement of a fraction. */
  lemma {:induction false} Distrib(a: real, f: real)
    ensures a * (1.0 - f) == a - a * f
  {
  }

  /** The product of two positive numbers is positive. */
  lemma {:induction false} PosProduct(a: real, b: real)
    requires a > 0.0 && b > 0.0
    ensures a * b > 0.0
  {
  }

  /** Truncating a number in [0, p] gives an integer in [0, p], below p
      when the number is. */
  lemma {:induction false} TruncBelow(x: real, p: int)
    requires 0.0 <= x <= p as real
    ensures 0 <= TruncReal(x) <= p
    ensures x < p as real ==> TruncReal(x) < p
  {
    var n := TruncReal(x);
    assert n as real <= x < n as real + 1.0;
  }

  /** `micro_adjust(calval, period)`.  Stopped, it only cancels the timers.
      Running, it records the new calibration (and the new period when one is
      given); only with timers 1 and 2 both idle does it commit the
      calibration to the dividers and arm timer 2 for the period, the safety
      timer 3 two seconds later, and timer 1 for the share of the period
      spent on the first divider value when the calibration has a fractional
      part. */
  function MicroAdjust(e: Engine, calval: real, period: int): (r: Engine)
    ensures e.stopped ==> r == e.(timer1 := None, timer2 := None, timer3 := None)
    ensures !e.stopped ==> r.nextCalval == calval
    ensures !e.stopped ==> r.period == (if period > 0 then period else e.period)
    ensures !e.stopped && (e.timer1.Some? || e.timer2.Some?) ==>
      r == e.(nextCalval := calval, period := r.period)
    ensures !e.stopped && e.timer1.None? && e.timer2.None? ==>
      && r.calval == calval
      && r.timer2 == Some(r.period) && r.timer3 == Some(r.period + 2000)
      && (r.timer1.Some? <==> DitherPart(r.period, calval) > 0)
      && (r.timer1.Some? ==> r.timer1.value == r.period - DitherPart(r.period, calval))
      && (BaseDivider(e.tc.fps).None? ==> r.divider == e.divider)
      && (BaseDivider(e.tc.fps).Some? ==>
            r.divider == BaseDivider(e.tc.fps).value - TruncReal(calval) * 0x100)
    ensures r.mode == e.mode && r.tc == e.tc && r.stopped == e.stopped
  {
    if e.stopped then
      e.(timer1 := None, timer2 := None, timer3 := None)
    else
      var e1 := e.(nextCalval := calval, period := if period > 0 then period else e.period);
      if e1.timer1.None? && e1.timer2.None? then
        var e2 := ConfigClocks(e1.(calval := calval), e1.tc.fps, calval);
        var part := DitherPart(e2.period, calval);
        e2.(timer2 := Some(e2.period), timer3 := Some(e2.period + 2000),
            timer1 := if part > 0 then Some(e2.period - part) else None)
      else
        e1
  }

  /** `timer_re_init`: what a timer firing does.  Nothing once stopped, and
      nothing for a timer that is no longer armed.  Timer 1 moves the divider
      one step toward the second dither value; timer 2 (or the safety timer 3)
      cancels the others and starts the next period with the pending
      calibration. */
  function TimerFired(e: Engine, id: TimerId): (r: Engine)
    ensures e.stopped ==> r == e
    ensures !e.stopped && id == T1 && e.timer1.Some? ==>
      r.timer1.None? && r.timer2 == e.timer2 && r.timer3 == e.timer3 &&
      (if e.calval > 0.0 then e.divider - r.divider == 0x100 else r.divider - e.divider == 0x100)
    ensures !e.stopped && id != T1 && (if id == T2 then e.timer2 else e.timer3).Some? ==>
      r.calval == e.nextCalval && r.timer2.Some? && r.timer3.Some?
    ensures r.mode == e.mode && r.tc == e.tc && r.stopped == e.stopped
  {
    if e.stopped then e
    else match id {
      case T1 =>
        if e.timer1.None? then e
        else (if e.calval > 0.0 then DecDivider(e) else IncDivider(e)).(timer1 := None)
      case T2 =>
        if e.timer2.None? then e
        else MicroAdjust(e.(timer1 := None, timer2 := None), e.nextCalval, 0)
      case T3 =>
        if e.timer3.None? then e
        else MicroAdjust(e.(timer1 := None, timer2 := None), e.nextCalval, 0)
    }
  }

  /** What the controller keeps true: a positive period; no timer armed once
      stopped; timers 2 and 3 armed together, 3 two seconds after 2; and the
      dither timer 1 only inside a period, due strictly before timer 2. */
  predicate Inv(e: Engine)
  {
    && e.period > 0
    && (e.stopped ==> e.timer1.None? && e.timer2.None? && e.timer3.None?)
    && (e.timer2.Some? <==> e.timer3.Some?)
    && (e.timer2.Some? ==> e.timer2.value > 0 && e.timer3.value == e.timer2.value + 2000)
    && (e.timer1.Some? ==> e.timer2.Some? && 0 < e.timer1.value < e.timer2.value)
  }

  lemma {:induction false} InitInv(divider: int)
    ensures Inv(Init(divider))
  {
  }

  lemma {:induction false} SetStoppedInv(e: Engine, s: bool)
    requires Inv(e)
    ensures Inv(SetStopped(e, s))
  {
  }

  lemma {:induction false} MicroAdjustInv(e: Engine, calval: real, period: int)
    requires Inv(e)
    ensures Inv(MicroAdjust(e, calval, period))
  {
    if !e.stopped && e.timer1.None? && e.timer2.None? {
      MicroAdjustArms(e, calval, period);
    }
  }

  /** A commit arms a consistent set of timers whatever was pending in
      timer 3. */
  lemma {:induction false} MicroAdjustArms(e: Engine, calval: real, period: int)
    requires e.period > 0 && !e.stopped && e.timer1.None? && e.timer2.None?
    ensures Inv(MicroAdjust(e, calval, period))
  {
  }

  lemma {:induction false} TimerFiredInv(e: Engine, id: TimerId)
    requires Inv(e)
    ensures Inv(TimerFired(e, id))
  {
    if !e.stopped && id != T1 {
      MicroAdjustArms(e.(timer1 := None, timer2 := None), e.nextCalval, 0);
    }
  }

  /** Once stopped the controller is inert: every timer event is a no-op and
      micro-adjusting leaves the divider and the calibration where they are. */
  lemma {:induction false} StoppedIsInert(e: Engine, id: TimerId, calval: real, period: int)
    requires Inv(e) && e.stopped
    ensures TimerFired(e, id) == e
    ensures MicroAdjust(e, calval, period) == e
  {
  }

  /** The divider value averaged over one period, weighted by time: the
      committed value until timer 1 fires, the value it switches to for the
      rest of the period. */
  function Weighted(e: Engine): real
    requires e.timer2.Some?
  {
    var p := e.timer2.value;
    if e.timer1.Some? then Mix(e.divider, TimerFired(e, T1).divider, e.timer1.value, p)
    else e.divider as real * p as real
  }

  /** `d` held for `t1` ms, then `d2` for the rest of `p` ms. */
  function Mix(d: int, d2: int, t1: int, p: int): real
  {
    d as real * t1 as real + d2 as real * (p - t1) as real
  }

  /** Dithering realises the fractional calibration on average: over one
      period the time-weighted divider is within one step (0x100) times one
      millisecond of the ideal `base - 0x100 * calval` held for the whole
      period. */
  lemma {:induction false} DitherAverage(e: Engine, c: real)
    requires Inv(e) && !e.stopped && e.timer1.None? && e.timer2.None?
    requires BaseDivider(e.tc.fps).Some?
    ensures MicroAdjust(e, c, 0).timer2 == Some(e.period)
    ensures NearIdeal(Weighted(MicroAdjust(e, c, 0)), BaseDivider(e.tc.fps).value, c, e.period)
  {
    DitherCommit(e, c);
    WeightedBound(MicroAdjust(e, c, 0), BaseDivider(e.tc.fps).value, c, e.period);
  }

  /** A time-weighted divider over `p` ms lies within one step (0x100)
      times one millisecond of `base - 0x100 * c` held for all of them. */
  predicate NearIdeal(weighted: real, base: int, c: real, p: int)
  {
    var ideal := (base as real - 256.0 * c) * p as real;
    -256.0 < weighted - ideal < 256.0
  }

  /** `DitherAverage` for any state a commit leaves behind. */
  lemma {:induction false} WeightedBound(e1: Engine, base: int, c: real, p: int)
    requires p > 0 && !e1.stopped && e1.calval == c
    requires e1.divider == base - TruncReal(c) * 256 && e1.timer2 == Some(p)
    requires e1.timer1.Some? <==> DitherPart(p, c) > 0
    requires e1.timer1.Some? ==> e1.timer1.value == p - DitherPart(p, c)
    ensures NearIdeal(Weighted(e1), base, c, p)
  {
    var t := TruncReal(c);
    var part := DitherPart(p, c);
    var d := base - t * 256;
    TruncFrac(c);
    var f := FracAbs(c);
    var x := Scaled(p, f);
    assert part == TruncReal(x) && x == p as real * f;
    DitherBound(base, t, c, f, p, part);
    if part > 0 {
      assert TimerFired(e1, T1).divider == (if c > 0.0 then d - 256 else d + 256);
    }
  }

  /** What a commit from idle timers leaves behind. */
  lemma {:induction false} DitherCommit(e: Engine, c: real)
    requires Inv(e) && !e.stopped && e.timer1.None? && e.timer2.None?
    requires BaseDivider(e.tc.fps).Some?
    ensures var e1 := MicroAdjust(e, c, 0);
      var part := DitherPart(e.period, c);
      var d := BaseDivider(e.tc.fps).value - TruncReal(c) * 256;
      && e1.divider == d && e1.calval == c && e1.timer2 == Some(e.period)
      && (e1.timer1.Some? <==> part > 0)
      && (e1.timer1.Some? ==> e1.timer1.value == e.period - part)
      && !e1.stopped
  {
  }

  /** Truncation and the fractional part of the magnitude recompose the
      number. */
  lemma {:induction false} TruncFrac(c: real)
    ensures c >= 0.0 ==> c == TruncReal(c) as real + FracAbs(c)
    ensures c < 0.0 ==> c == TruncReal(c) as real - FracAbs(c)
  {
  }

  /** The arithmetic behind `DitherAverage`, over plain numbers. */
  lemma {:induction false} DitherBound(base: int, t: int, c: real, f: real, p: int, part: int)
    requires p > 0 && 0 <= part < p && 0.0 <= f < 1.0
    requires c >= 0.0 ==> c == t as real + f
    requires c < 0.0 ==> c == t as real - f
    requires part as real <= p as real * f < part as real + 1.0
    ensures var d := base - t * 256;
      var d2 := if c > 0.0 then d - 256 else d + 256;
      var weighted := if part > 0 then Mix(d, d2, p - part, p) else d as real * p as real;
      var ideal := (base as real - 256.0 * c) * p as real;
      -256.0 < weighted - ideal < 256.0
  {
    var d := base - t * 256;
    var dr, pr, q := d as real, p as real, part as real;
    var s := if c > 0.0 then -256.0 else 256.0;
    var x := pr * f;
    var ideal := (base as real - 256.0 * c) * pr;
    assert dr == base as real - 256.0 * t as real;
    if c == 0.0 {
      assert t == 0 && f == 0.0 && x == 0.0;
    }
    if c >= 0.0 {
      assert base as real - 256.0 * c == dr + -256.0 * f;
      ScaledSum(dr, -256.0, f, pr);
      assert ideal == dr * pr - 256.0 * x;
    } else {
      assert base as real - 256.0 * c == dr + 256.0 * f;
      ScaledSum(dr, 256.0, f, pr);
      assert ideal == dr * pr + 256.0 * x;
    }
    if part > 0 {
      var d2 := if c > 0.0 then d - 256 else d + 256;
      assert d2 as real == dr + s && (p - part) as real == pr - q;
      MixSplit(dr, s, pr, q);
      assert Mix(d, d2, p - part, p) == dr * pr + s * q;
    }
  }

  /** `(d + s * f) * p`, multiplied out. */
  lemma {:induction false} ScaledSum(d: real, s: real, f: real, p: real)
    ensures (d + s * f) * p == d * p + s * (p * f)
  {
  }

  /** `d` held for `p - q`, then `d + s` for `q`, multiplied out. */
  lemma {:induction false} MixSplit(d: real, s: real, p: real, q: real)
    ensures d * (p - q) + (d + s) * q == d * p + s * q
  {
  }

  // ---------------------------------------------------------------------
  // Flash time

  /** `set_flashtime(ft)`: the frame to flash on, kept as its raw snapshot. */
  function SetFlashtime(e: Engine, ft: Timecode): (r: Engine)
    ensures r == e.(flashtime := r.flashtime)
    ensures r.flashtime == ToRaw(ft)
  {
    e.(flashtime := B2I(ft.df) * 128 + ft.time.hh * 0x100_0000 + ft.time.mm * 0x1_0000 +
                    ft.time.ss * 0x100 + ft.time.ff)
  }
}
