/** The timecode value of pico_timecode.py: HH:MM:SS:FF with a frame rate,
    the drop-frame flag, the colour-frame and binary-group flags and eight
    user-bit nibbles.  Every method of the Python class mutates `self`; here
    each one is a pure function from the old value to the new one.  The lock
    taken around each update is a no-op in this single-threaded model.

    The four time fields are grouped in `Time` and the eight user-bit nibbles
    in `UserBits`; the Python object keeps them as flat attributes. */
module TimecodeValue {
  import opened Wrappers
  import opened Bits
  import opened Text

  datatype Time = Time(hh: int, mm: int, ss: int, ff: int)

  datatype UserBits = UserBits(uf1: int, uf2: int, uf3: int, uf4: int,
                               uf5: int, uf6: int, uf7: int, uf8: int)

  datatype Timecode = Timecode(
    fps: real,
    df: bool,
    time: Time,
    cf: bool,
    bgf0: bool, bgf1: bool, bgf2: bool,
    user: UserBits)

  /** The constructor's value: 30 fps, 00:00:00:00, user bits "PICO" in
      ASCII mode (bgf0 set, bgf2 clear). */
  function Default(): (t: Timecode)
    ensures t.fps == 30.0 && !t.df && t.time == Time(0, 0, 0, 0)
    ensures t.bgf0 && !t.bgf1 && !t.bgf2 && !t.cf
  {
    Timecode(30.0, false, Time(0, 0, 0, 0), false, true, false, false,
             UserBits(0x0, 0x5, 0x9, 0x4, 0x3, 0x4, 0xF, 0x4))
  }

  /** `int(fps + 0.1)`: the whole number of frame labels per second, so that
      29.97 and 23.98 count 30 and 24 labels. */
  function Nominal(fps: real): (n: int)
    ensures fps + 0.1 >= 0.0 ==> n as real <= fps + 0.1 < n as real + 1.0
  {
    TruncReal(fps + 0.1)
  }

  function B2I(b: bool): (r: int)
    ensures 0 <= r <= 1 && (r == 1 <==> b)
  {
    if b then 1 else 0
  }

  /** The time fields are in range for `n` labels per second. */
  predicate InRange(c: Time, n: int)
  {
    n >= 1 && 0 <= c.hh < 24 && 0 <= c.mm < 60 && 0 <= c.ss < 60 && 0 <= c.ff < n
  }

  predicate Valid(t: Timecode)
  {
    InRange(t.time, Nominal(t.fps))
  }

  /** A label that drop-frame counting skips: frames 0 and 1 of the first
      second of every minute not divisible by ten (SMPTE ST 12-1). */
  predicate IsDroppedLabel(c: Time)
  {
    c.ss == 0 && (c.ff == 0 || c.ff == 1) && c.mm % 10 != 0
  }

  /** A drop-frame value never shows a skipped label. */
  predicate DropLegal(t: Timecode)
  {
    t.df ==> !IsDroppedLabel(t.time)
  }

  // ---------------------------------------------------------------------
  // Counting on the time fields, for `n` labels per second

  /** The forward branch of `validate_for_drop_frame`: a skipped label moves
      on to frame 2. */
  function DropForward(c: Time): (r: Time)
    ensures !IsDroppedLabel(r)
    ensures r.hh == c.hh && r.mm == c.mm && r.ss == c.ss
    ensures r.ff == if IsDroppedLabel(c) then 2 else c.ff
  {
    if IsDroppedLabel(c) then c.(ff := c.ff + (2 - c.ff)) else c
  }

  /** The backward branch of `validate_for_drop_frame` as written: from a
      skipped label it goes to the last frame of 59:59 of the previous hour
      (hour 23 before hour 0), although only the previous minute is meant. */
  function DropBackward(c: Time, n: int): (r: Time)
    ensures !IsDroppedLabel(c) ==> r == c
    ensures IsDroppedLabel(c) ==> r.mm == 59 && r.ss == 59 && r.ff == n - 1
    ensures IsDroppedLabel(c) && 0 <= c.hh < 24 ==> r.hh == (c.hh + 23) % 24
  {
    if IsDroppedLabel(c) then
      Time(if c.hh == 0 then 23 else c.hh - 1, 59, 59, n - 1)
    else c
  }

  /** The counting-up part of `next_frame`: frames carry into seconds at
      `n`, seconds into minutes and minutes into hours at 60, and hours wrap
      to 0 at 24. */
  function CountUp(c: Time, n: int): Time
  {
    if c.ff + 1 < n then c.(ff := c.ff + 1)
    else if c.ss + 1 < 60 then c.(ff := 0, ss := c.ss + 1)
    else if c.mm + 1 < 60 then c.(ff := 0, ss := 0, mm := c.mm + 1)
    else if c.hh + 1 < 24 then Time(c.hh + 1, 0, 0, 0)
    else Time(0, 0, 0, 0)
  }

  /** The counting-down part of `prev_frame`: the mirror image of `CountUp`. */
  function CountDown(c: Time, n: int): Time
  {
    if c.ff - 1 >= 0 then c.(ff := c.ff - 1)
    else if c.ss - 1 >= 0 then c.(ff := n - 1, ss := c.ss - 1)
    else if c.mm - 1 >= 0 then c.(ff := n - 1, ss := 59, mm := c.mm - 1)
    else if c.hh - 1 >= 0 then Time(c.hh - 1, 59, 59, n - 1)
    else Time(23, 59, 59, n - 1)
  }

  function StepUp(df: bool, c: Time, n: int): (r: Time)
    ensures df ==> !IsDroppedLabel(r)
  {
    var u := CountUp(c, n);
    if df then DropForward(u) else u
  }

  function StepDown(df: bool, c: Time, n: int): Time
  {
    var u := CountDown(c, n);
    if df then DropBackward(u, n) else u
  }

  /** The backward step with the drop-frame rule going to the last frame of
      the previous minute.  A skipped label has minutes not divisible by
      ten, so that minute is never negative. */
  function StepDownFixed(df: bool, c: Time, n: int): (r: Time)
    ensures df && IsDroppedLabel(CountDown(c, n)) ==>
      r == Time(CountDown(c, n).hh, CountDown(c, n).mm - 1, 59, n - 1)
    ensures !(df && IsDroppedLabel(CountDown(c, n))) ==> r == CountDown(c, n)
  {
    var u := CountDown(c, n);
    if df && IsDroppedLabel(u) then u.(mm := u.mm - 1, ss := 59, ff := n - 1) else u
  }

  // ---------------------------------------------------------------------
  // The methods of the class

  /** `validate_for_drop_frame(reverse)`, exactly as written. */
  function ValidateForDropFrame(t: Timecode, reverse: bool): (r: Timecode)
    ensures r == t.(time := r.time)
    ensures !reverse ==> DropLegal(r)
    ensures !(t.df && IsDroppedLabel(t.time)) ==> r == t
  {
    if !t.df then t
    else if reverse then t.(time := DropBackward(t.time, Nominal(t.fps)))
    else t.(time := DropForward(t.time))
  }

  /** One iteration of `next_frame`: count up, then re-validate in
      drop-frame mode. */
  function NextFrameOnce(t: Timecode): (r: Timecode)
    ensures r == t.(time := r.time)
    ensures DropLegal(r)
  {
    t.(time := StepUp(t.df, t.time, Nominal(t.fps)))
  }

  /** `next_frame(repeats)`.  A negative count never reaches zero in the
      source's `while repeats:` loop, so the count is a natural number. */
  function NextFrame(t: Timecode, repeats: nat): (r: Timecode)
    ensures r == t.(time := r.time)
    ensures repeats > 0 ==> DropLegal(r)
    decreases repeats
  {
    if repeats == 0 then t else NextFrame(NextFrameOnce(t), repeats - 1)
  }

  /** One iteration of `prev_frame`, exactly as written. */
  function PrevFrameOnce(t: Timecode): (r: Timecode)
    ensures r == t.(time := r.time)
  {
    t.(time := StepDown(t.df, t.time, Nominal(t.fps)))
  }

  function PrevFrame(t: Timecode, repeats: nat): (r: Timecode)
    ensures r == t.(time := r.time)
    decreases repeats
  {
    if repeats == 0 then t else PrevFrame(PrevFrameOnce(t), repeats - 1)
  }

  /** `prev_frame` with the corrected backward drop-frame rule. */
  function PrevFrameOnceFixed(t: Timecode): (r: Timecode)
    ensures r == t.(time := r.time)
  {
    t.(time := StepDownFixed(t.df, t.time, Nominal(t.fps)))
  }

  /** `set_fps_df`: any pair is accepted; drop-frame mode re-validates. */
  function SetFpsDf(t: Timecode, fps: real, df: bool): (r: Timecode)
    ensures r == t.(fps := fps, df := df, time := r.time)
    ensures r.time == if df && IsDroppedLabel(t.time) then t.time.(ff := 2) else t.time
  {
    ValidateForDropFrame(t.(fps := fps, df := df), false)
  }

  // ---------------------------------------------------------------------
  // Stepping laws

  /** Seconds since midnight, and the frame count since midnight. */
  function Seconds(c: Time): int
  {
    (c.hh * 60 + c.mm) * 60 + c.ss
  }

  function Index(c: Time, n: int): int
  {
    Seconds(c) * n + c.ff
  }

  const DaySeconds: int := 86400

  /** Counting up keeps every field in range.  Drop-frame mode needs at least
      three labels per second, since a skip lands on frame 2. */
  lemma {:induction false} NextFrameKeepsRange(t: Timecode)
    requires Valid(t) && (t.df ==> Nominal(t.fps) >= 3)
    ensures Valid(NextFrameOnce(t))
  {
  }

  /** The last frame of the day is followed by 00:00:00:00. */
  lemma {:induction false} NextFrameWraps(t: Timecode)
    requires Nominal(t.fps) >= 1
    requires t.time == Time(23, 59, 59, Nominal(t.fps) - 1)
    ensures NextFrameOnce(t).time == Time(0, 0, 0, 0)
  {
  }

  /** From a legal label a step moves to the next frame of the same
      second, or to the next second of the day, landing on frame 0 or, past a
      dropped pair, on frame 2. */
  lemma {:induction false} StepUpSeconds(df: bool, c: Time, n: int)
    requires InRange(c, n) && (df ==> !IsDroppedLabel(c))
    ensures c.ff + 1 < n ==> StepUp(df, c, n) == c.(ff := c.ff + 1)
    ensures c.ff + 1 >= n ==>
      var r := StepUp(df, c, n);
      (r.ff == 0 || (df && r.ff == 2)) &&
      Seconds(r) == (if Seconds(c) + 1 < DaySeconds then Seconds(c) + 1 else 0) &&
      (Seconds(c) + 1 >= DaySeconds ==> r.ff == 0)
  {
    var u := CountUp(c, n);
    if c.ff + 1 < n {
      assert u == c.(ff := c.ff + 1);
      assert df ==> !IsDroppedLabel(u);
    } else if c.ss + 1 < 60 {
      assert u == c.(ff := 0, ss := c.ss + 1);
      assert Seconds(u) == Seconds(c) + 1;
    } else if c.mm + 1 < 60 {
      assert u == Time(c.hh, c.mm + 1, 0, 0);
      assert Seconds(u) == Seconds(c) + 1;
    } else if c.hh + 1 < 24 {
      assert u == Time(c.hh + 1, 0, 0, 0);
      assert Seconds(u) == Seconds(c) + 1;
    } else {
      assert u == Time(0, 0, 0, 0);
      assert Seconds(c) + 1 == DaySeconds;
    }
  }

  /** In non-drop-frame mode the frame count advances by one, modulo a day. */
  lemma {:induction false} NextFrameIndexNdf(t: Timecode)
    requires Valid(t) && !t.df
    ensures var n := Nominal(t.fps);
      Index(NextFrameOnce(t).time, n) == (Index(t.time, n) + 1) % (DaySeconds * n)
  {
    var n := Nominal(t.fps);
    IndexStep(false, t.time, n);
  }

  /** In drop-frame mode a step from a legal label advances the frame count
      by one, or by three where it passes over a dropped pair. */
  lemma {:induction false} NextFrameIndexDf(t: Timecode)
    requires Valid(t) && t.df && DropLegal(t) && Nominal(t.fps) >= 3
    ensures var n := Nominal(t.fps); var d := DaySeconds * n;
      var i := Index(NextFrameOnce(t).time, n);
      i == (Index(t.time, n) + 1) % d || i == (Index(t.time, n) + 3) % d
  {
    var n := Nominal(t.fps);
    IndexStep(true, t.time, n);
  }

  /** The frame count after one step, in either mode. */
  lemma {:induction false} IndexStep(df: bool, c: Time, n: int)
    requires InRange(c, n) && (df ==> n >= 3 && !IsDroppedLabel(c))
    ensures var r := StepUp(df, c, n); var d := DaySeconds * n;
      Index(r, n) == (Index(c, n) + 1) % d ||
      (df && r.ff == 2 && Index(r, n) == (Index(c, n) + 3) % d)
  {
    var r := StepUp(df, c, n);
    StepUpSeconds(df, c, n);
    var k := if r.ff == 2 && c.ff + 1 >= n then 3 else 1;
    IndexArith(Seconds(c), c.ff, Seconds(r), r.ff, n, k);
  }

  /** The arithmetic behind `IndexStep`: with `n` frames per second, moving
      one frame on, or one second on to frame `k - 1`, adds `k` to the frame
      count modulo a day. */
  lemma {:induction false} IndexArith(s: int, f: int, s2: int, f2: int, n: int, k: int)
    requires 0 <= s < DaySeconds && 0 <= f < n && 0 <= f2 < n
    requires (s2 == s && f2 == f + 1 && k == 1) ||
             (f == n - 1 && s + 1 < DaySeconds && s2 == s + 1 && f2 == k - 1) ||
             (f == n - 1 && s + 1 == DaySeconds && s2 == 0 && f2 == 0 && k == 1)
    ensures s2 * n + f2 == (s * n + f + k) % (DaySeconds * n)
  {
    var d := DaySeconds * n;
    MulLess(s, n, DaySeconds);
    if s2 == s && f2 == f + 1 {
      ModSmall(s * n + f + 1, d);
    } else if s + 1 < DaySeconds {
      assert (s + 1) * n == s * n + n;
      MulLess(s + 1, n, DaySeconds);
      ModSmall(s * n + f + k, d);
    } else {
      assert s * n + f + 1 == d;
      ModSelf(d);
    }
  }

  lemma {:induction false} MulLess(a: int, n: int, b: int)
    requires 0 <= a < b && 0 < n
    ensures 0 <= a * n && a * n + n <= b * n
  {
    assert b * n - a * n == (b - a) * n;
    MulNonneg(b - a - 1, n);
    assert (b - a) * n == (b - a - 1) * n + n;
    MulNonneg(a, n);
  }

  lemma {:induction false} ModSmall(x: int, d: int)
    requires 0 <= x < d
    ensures x % d == x
  {
    DivModUnique(x, d, 0, x);
  }

  lemma {:induction false} ModSelf(d: int)
    requires 0 < d
    ensures d % d == 0
  {
    DivModUnique(d, d, 1, 0);
  }

  /** Counting up then down, or down then up, is the identity in range. */
  lemma {:induction false} CountInverse(c: Time, n: int)
    requires InRange(c, n)
    ensures CountDown(CountUp(c, n), n) == c
    ensures CountUp(CountDown(c, n), n) == c
  {
  }

  /** Without drop-frame, `prev_frame` undoes `next_frame` ... */
  lemma {:induction false} PrevAfterNextNdf(t: Timecode)
    requires Valid(t) && !t.df
    ensures PrevFrameOnce(NextFrameOnce(t)) == t
  {
    CountInverse(t.time, Nominal(t.fps));
  }

  /** ... and `next_frame` undoes `prev_frame`. */
  lemma {:induction false} NextAfterPrevNdf(t: Timecode)
    requires Valid(t) && !t.df
    ensures NextFrameOnce(PrevFrameOnce(t)) == t
  {
    CountInverse(t.time, Nominal(t.fps));
  }

  /** As written, stepping back from 00:01:00;02 at 29.97 drop-frame lands on
      23:59:59;29 of the previous day instead of 00:00:59;29, and stepping
      forward from there does not come back. */
  lemma {:induction false} PrevFrameDropFrameDefect()
    ensures var t := Default().(fps := 29.97, df := true, time := Time(0, 1, 0, 2));
      Valid(t) && DropLegal(t) &&
      PrevFrameOnce(t).time == Time(23, 59, 59, 29) &&
      NextFrameOnce(PrevFrameOnce(t)) != t
  {
    assert Nominal(29.97) == 30;
    assert CountDown(Time(0, 1, 0, 2), 30) == Time(0, 1, 0, 1);
    assert CountUp(Time(23, 59, 59, 29), 30) == Time(0, 0, 0, 0);
  }

  /** With the corrected backward rule, drop-frame stepping is invertible on
      legal labels: back then forward is the identity ... */
  lemma {:induction false} NextAfterPrevFixed(t: Timecode)
    requires Valid(t) && DropLegal(t) && (t.df ==> Nominal(t.fps) >= 3)
    ensures NextFrameOnce(PrevFrameOnceFixed(t)) == t
  {
    var n := Nominal(t.fps);
    var c := t.time;
    CountInverse(c, n);
    var u := CountDown(c, n);
    if t.df && IsDroppedLabel(u) {
      assert c.ff == 2 && u.ff == 1;
      assert CountUp(Time(c.hh, c.mm - 1, 59, n - 1), n) == c.(ff := 0);
    }
  }

  /** ... and forward then back is the identity too. */
  lemma {:induction false} PrevAfterNextFixed(t: Timecode)
    requires Valid(t) && DropLegal(t) && (t.df ==> Nominal(t.fps) >= 3)
    ensures PrevFrameOnceFixed(NextFrameOnce(t)) == t
  {
    var n := Nominal(t.fps);
    var c := t.time;
    CountInverse(c, n);
    var u := CountUp(c, n);
    if t.df && IsDroppedLabel(u) {
      assert u.ff == 0 && u.ss == 0 && 1 <= u.mm;
      assert CountDown(u.(ff := 2), n) == u.(ff := 1);
    }
  }

  // ---------------------------------------------------------------------
  // The 32-bit raw snapshot

  /** `to_raw`: df at bit 7, hours from bit 24, minutes from bit 16,
      seconds from bit 8, frames from bit 0. */
  function ToRaw(t: Timecode): int
  {
    B2I(t.df) * 128 + t.time.hh * 16777216 + t.time.mm * 65536 + t.time.ss * 256 + t.time.ff
  }

  predicate RawFits(c: Time)
  {
    0 <= c.hh < 32 && 0 <= c.mm < 64 && 0 <= c.ss < 64 && 0 <= c.ff < 32
  }

  /** `from_raw`: `(raw & (m << s)) >> s` is the field `(raw >> s) & m`. */
  function FromRaw(t: Timecode, raw: int): (r: Timecode)
    ensures r == t.(df := r.df, time := r.time)
    ensures RawFits(r.time)
  {
    assert Pow2(5) == 32 && Pow2(6) == 64;
    t.(df := Field(raw, 7, 1) == 1,
       time := Time(Field(raw, 24, 5), Field(raw, 16, 6), Field(raw, 8, 6), Field(raw, 0, 5)))
  }

  /** The raw snapshot keeps df and the time fields, so `from_raw` restores
      them; everything else comes from the value read into. */
  lemma {:induction false} RawRoundTrip(t: Timecode, into: Timecode)
    requires RawFits(t.time)
    ensures FromRaw(into, ToRaw(t)) == into.(df := t.df, time := t.time)
  {
    var raw := ToRaw(t);
    var d := B2I(t.df);
    var c := t.time;
    Pow2Table();
    assert Field(raw, 0, 5) == c.ff by {
      FieldOf(raw, 0, 5, 0, c.ff, d * 4 + c.ss * 8 + c.mm * 2048 + c.hh * 524288);
    }
    assert Field(raw, 7, 1) == d by {
      FieldOf(raw, 7, 1, c.ff, d, c.ss + c.mm * 256 + c.hh * 65536);
    }
    assert Field(raw, 8, 6) == c.ss by {
      FieldOf(raw, 8, 6, d * 128 + c.ff, c.ss, c.mm * 4 + c.hh * 1024);
    }
    assert Field(raw, 16, 6) == c.mm by {
      FieldOf(raw, 16, 6, c.ss * 256 + d * 128 + c.ff, c.mm, c.hh * 4);
    }
    assert Field(raw, 24, 5) == c.hh by {
      FieldOf(raw, 24, 5, c.mm * 65536 + c.ss * 256 + d * 128 + c.ff, c.hh, 0);
    }
  }

  /** Two in-range values with the same raw snapshot agree on df and time. */
  lemma {:induction false} RawInjective(a: Timecode, b: Timecode)
    requires RawFits(a.time) && RawFits(b.time) && ToRaw(a) == ToRaw(b)
    ensures a.df == b.df && a.time == b.time
  {
    RawRoundTrip(a, a);
    RawRoundTrip(b, a);
  }

  // ---------------------------------------------------------------------
  // The ASCII form

  /** The character codes `to_ascii` emits: each digit, or 10 for ':' and
      -2 for '.', plus 0x30. */
  function AsciiCodes(t: Timecode, sep: bool): (r: seq<int>)
    ensures |r| == if sep then 11 else 8
  {
    var c := t.time;
    var h1, h0 := TruncDiv(c.hh, 10) + 0x30, c.hh % 10 + 0x30;
    var m1, m0 := TruncDiv(c.mm, 10) + 0x30, c.mm % 10 + 0x30;
    var s1, s0 := TruncDiv(c.ss, 10) + 0x30, c.ss % 10 + 0x30;
    var f1, f0 := TruncDiv(c.ff, 10) + 0x30, c.ff % 10 + 0x30;
    if sep then [h1, h0, 10 + 0x30, m1, m0, 10 + 0x30, s1, s0,
                 (if t.df then -2 else 10) + 0x30, f1, f0]
    else [h1, h0, m1, m0, s1, s0, f1, f0]
  }

  /** `to_ascii(sep)`.  `chr` fails on codes outside its domain, which only
      fields far out of range can produce. */
  function ToAscii(t: Timecode, sep: bool): (r: Option<string>)
    ensures r.Some? ==> |r.value| == (if sep then 11 else 8)
  {
    Chrs(AsciiCodes(t, sep))
  }

  predicate TwoDigits(c: Time)
  {
    0 <= c.hh < 100 && 0 <= c.mm < 100 && 0 <= c.ss < 100 && 0 <= c.ff < 100
  }

  predicate IsDigit(c: char) { '0' <= c <= '9' }

  /** Two-digit fields render as digits, with ':' separators and '.' in
      place of the last one exactly when df is set; without separators the
      form is eight digits. */
  lemma {:induction false} ToAsciiShape(t: Timecode, sep: bool)
    requires TwoDigits(t.time)
    ensures ToAscii(t, sep).Some?
    ensures var s := ToAscii(t, sep).value;
      if sep then
        |s| == 11 && s[2] == ':' && s[5] == ':' && (s[8] == '.' <==> t.df) &&
        (!t.df ==> s[8] == ':') &&
        IsDigit(s[0]) && IsDigit(s[1]) && IsDigit(s[3]) && IsDigit(s[4]) &&
        IsDigit(s[6]) && IsDigit(s[7]) && IsDigit(s[9]) && IsDigit(s[10])
      else
        |s| == 8 && forall i :: 0 <= i < 8 ==> IsDigit(s[i])
  {
    var c := AsciiCodes(t, sep);
    assert forall i :: 0 <= i < |c| ==> IsScalar(c[i]);
    var s := ToAscii(t, sep).value;
    assert Ords(s) == c;
    assert forall i :: 0 <= i < |s| ==> s[i] as int == c[i];
  }

  /** `from_ascii(start, sep)`: the string's UTF-8 bytes minus '0', read
      two digits per field with no range check.  With separators df is set
      iff index 8 is not ':'; without them df is left as it was.  A string
      too short for the indices read fails (IndexError). */
  function FromAscii(t: Timecode, start: string, sep: bool): (r: Option<Timecode>)
    ensures r.Some? <==> |Utf8(start)| >= (if sep then 11 else 8)
    ensures r.Some? ==> r.value == t.(df := r.value.df, time := r.value.time)
    ensures r.Some? && !sep ==> r.value.df == t.df
    ensures r.Some? ==> DropLegal(r.value)
  {
    var b := Utf8(start);
    var time := seq(|b|, i requires 0 <= i < |b| => b[i] - 0x30);
    if sep then
      if |time| < 11 then None
      else
        var u := t.(df := time[8] != 10,
                    time := Time(time[0] * 10 + time[1], time[3] * 10 + time[4],
                                 time[6] * 10 + time[7], time[9] * 10 + time[10]));
        Some(ValidateForDropFrame(u, false))
    else
      if |time| < 8 then None
      else
        var u := t.(time := Time(time[0] * 10 + time[1], time[2] * 10 + time[3],
                                 time[4] * 10 + time[5], time[6] * 10 + time[7]));
        Some(ValidateForDropFrame(u, false))
  }

  /** Any eight digits are accepted, whatever the values. */
  lemma {:induction false} FromAsciiNoRangeCheck(t: Timecode)
    requires !t.df
    ensures FromAscii(t, "99999999", false) == Some(t.(time := Time(99, 99, 99, 99)))
  {
    assert Utf8("99999999") == Ords("99999999") by {
      Utf8IsOrdsIffAscii("99999999");
    }
  }

  /** `from_ascii(to_ascii())` restores the time and df of a legal value. */
  lemma {:induction false} AsciiRoundTrip(t: Timecode, into: Timecode)
    requires TwoDigits(t.time) && DropLegal(t)
    ensures FromAscii(into, ToAscii(t, true).value, true) ==
            Some(into.(df := t.df, time := t.time))
  {
    AsciiBytes(t, true);
  }

  /** Without separators the time comes back and df stays with the value
      read into. */
  lemma {:induction false} AsciiRoundTripNoSep(t: Timecode, into: Timecode)
    requires TwoDigits(t.time) && DropLegal(into.(time := t.time))
    ensures FromAscii(into, ToAscii(t, false).value, false) == Some(into.(time := t.time))
  {
    AsciiBytes(t, false);
  }

  /** The rendered form is ASCII, so its UTF-8 bytes are its codes. */
  lemma {:induction false} AsciiBytes(t: Timecode, sep: bool)
    requires TwoDigits(t.time)
    ensures ToAscii(t, sep).Some?
    ensures Utf8(ToAscii(t, sep).value) == AsciiCodes(t, sep)
  {
    ToAsciiShape(t, sep);
    var s := ToAscii(t, sep).value;
    assert Ords(s) == AsciiCodes(t, sep);
    assert IsAscii(s);
    Utf8IsOrdsIffAscii(s);
  }
}
