/** The two jobs of the real-time loop in `pico_timecode_thread`: checking
    received packets while jamming, and refilling the transmit FIFO one frame
    at a time with the choice of LED flash for the frame after.

    The loop's local variables (`scratch`, the `df` setting captured at
    start and the `send_sync` toggle) live in `Thread` beside the engine.
    FIFO levels, the PIO machines and the LED and MTC trigger words are
    outputs or guards supplied by the caller. */
module Realtime {
  import opened Wrappers
  import opened Bits
  import opened TimecodeValue
  import opened Ltc
  import opened Engine

  datatype Thread = Thread(eng: Engine, scratch: Timecode, df: bool, sendSync: bool)

  /** The words pushed for one transmitted frame: the raw snapshot for the
      MTC encoder, the LTC words, and the two LED/MTC trigger words. */
  datatype TxOut = TxOut(raw: int, words: seq<int>, blink: seq<int>)

  /** Thread start: mark the engine running, give the receive and scratch
      timecodes the transmit rate and drop-frame setting, send sync with the
      first packet, and start the micro-adjust controller. */
  function Start(e: Engine): (th: Thread)
    ensures th.sendSync && th.df == e.tc.df
    ensures th.scratch.fps == e.tc.fps && th.scratch.df == e.tc.df
    ensures th.eng.rc.fps == e.tc.fps && th.eng.rc.df == e.tc.df
    ensures !th.eng.stopped && th.eng.mode == e.mode && th.eng.tc == e.tc
  {
    var fps := e.tc.fps;
    var df := e.tc.df;
    var e1 := SetStopped(e, false).(rc := SetFpsDf(e.rc, fps, df));
    Thread(MicroAdjust(e1, e1.calval, 0), SetFpsDf(Default(), fps, df), df, true)
  }

  // ---------------------------------------------------------------------
  // Jam

  /** A received raw snapshot `r` is refused when its drop-frame bit differs
      from the configured one, when it is not the frame the scratch copy
      expected (an expectation of 0 accepts anything), or when it is 0. */
  predicate JamFails(s: int, r: int, df: bool)
  {
    Field(r, 7, 1) != B2I(df) || (s != 0 && s != r) || r == 0
  }

  /** What the scratch copy expects after receiving `r`: the frame after
      it. */
  function Expect(scratch: Timecode, r: int): (x: Timecode)
    ensures x == scratch.(df := x.df, time := x.time)
  {
    NextFrame(FromRaw(scratch, r), 1)
  }

  /** The validation step for an already decoded packet `rc`.  Above
      `Monitor` every packet is checked: a refused one restarts the count at
      `Jam`, an accepted one counts down.  The scratch copy follows every
      non-zero packet, refused or not.  Reaching `Monitor` jams the transmit
      timecode to two frames after the packet and copies its clock flag. */
  function JamStep(th: Thread, rc: Timecode): (r: Thread)
    ensures r.eng.rc == rc && r.df == th.df && r.sendSync == th.sendSync
    ensures th.eng.mode <= Monitor ==> r == th.(eng := th.eng.(rc := rc))
    ensures th.eng.mode > Monitor ==>
      var s := ToRaw(th.scratch);
      var raw := ToRaw(rc);
      && (JamFails(s, raw, th.df) ==> r.eng.mode == Jam)
      && (!JamFails(s, raw, th.df) ==> r.eng.mode == th.eng.mode - 1)
      && r.scratch == (if raw != 0 then Expect(th.scratch, raw) else th.scratch)
      && (r.eng.mode == Monitor ==>
            r.eng.tc == NextFrame(FromRaw(th.eng.tc, raw), 2).(bgf1 := rc.bgf1))
      && (r.eng.mode != Monitor ==> r.eng.tc == th.eng.tc)
    ensures r.eng == th.eng.(rc := rc, mode := r.eng.mode, tc := r.eng.tc)
  {
    var e := th.eng.(rc := rc);
    if e.mode > Monitor then
      var s := ToRaw(th.scratch);
      var raw := ToRaw(rc);
      var fail := JamFails(s, raw, th.df);
      var scratch := if raw != 0 then Expect(th.scratch, raw) else th.scratch;
      var e2 := e.(mode := if fail then Jam else e.mode - 1);
      var e3 := if e2.mode == Monitor then
          e2.(tc := NextFrame(FromRaw(e2.tc, raw), 2).(bgf1 := rc.bgf1))
        else e2;
      th.(eng := e3, scratch := scratch)
    else
      th.(eng := e)
  }

  /** Receiving one packet of two words: decode it into the receive
      timecode (the result flag is ignored), then validate. */
  function RxPacket(th: Thread, p: seq<int>): (r: Thread)
    ensures r.eng.rc == FromLtcPacket(th.eng.rc, p).0
  {
    JamStep(th, FromLtcPacket(th.eng.rc, p).0)
  }

  /** A non-drop-frame 00:00:00:00 has the raw snapshot 0, which is always
      refused, so such a packet restarts the count even when it is genuine. */
  lemma {:induction false} MidnightRestarts(th: Thread, rc: Timecode)
    requires th.eng.mode > Monitor
    requires !rc.df && rc.time == Time(0, 0, 0, 0)
    ensures JamStep(th, rc).eng.mode == Jam
  {
  }

  /** Validating a sequence of decoded packets in order. */
  function JamAll(th: Thread, rcs: seq<Timecode>): (r: Thread)
    ensures r.df == th.df
    decreases |rcs|
  {
    if rcs == [] then th else JamAll(JamStep(th, rcs[0]), rcs[1..])
  }

  /** A run of packets that the jam check accepts: each has the configured
      drop-frame bit and a non-zero snapshot, the first is what the scratch
      copy expects (or the expectation is still 0), and each later one is the
      frame after its predecessor. */
  predicate Consecutive(th: Thread, rcs: seq<Timecode>)
  {
    && (forall i :: 0 <= i < |rcs| ==> ToRaw(rcs[i]) != 0 && Field(ToRaw(rcs[i]), 7, 1) == B2I(th.df))
    && (|rcs| > 0 ==> ToRaw(th.scratch) == 0 || ToRaw(th.scratch) == ToRaw(rcs[0]))
    && (forall i :: 0 < i < |rcs| ==> ToRaw(rcs[i]) == ToRaw(Expect(th.scratch, ToRaw(rcs[i - 1]))))
  }

  /** Consecutive packets count the mode down by one each, as long as it
      stays above `Monitor` before each of them. */
  lemma {:induction false} JamCountdown(th: Thread, rcs: seq<Timecode>)
    requires th.eng.mode - |rcs| >= Monitor
    requires Consecutive(th, rcs)
    ensures JamAll(th, rcs).eng.mode == th.eng.mode - |rcs|
    decreases |rcs|
  {
    if rcs != [] {
      var th1 := JamStep(th, rcs[0]);
      var rest := rcs[1..];
      assert th1.scratch == Expect(th.scratch, ToRaw(rcs[0]));
      assert Consecutive(th1, rest) by {
        forall i | 0 < i < |rest|
          ensures ToRaw(rest[i]) == ToRaw(Expect(th1.scratch, ToRaw(rest[i - 1])))
        {
          assert FromRaw(th1.scratch, ToRaw(rest[i - 1])) == FromRaw(th.scratch, ToRaw(rest[i - 1]));
          assert rest[i] == rcs[i + 1] && rest[i - 1] == rcs[i];
        }
        forall i | 0 <= i < |rest|
          ensures ToRaw(rest[i]) != 0 && Field(ToRaw(rest[i]), 7, 1) == B2I(th1.df)
        {
          assert rest[i] == rcs[i + 1];
        }
        if |rest| > 0 {
          assert rest[0] == rcs[1];
        }
      }
      JamCountdown(th1, rest);
    }
  }

  /** On landing at `Monitor` the transmit timecode runs one frame ahead of
      the frame the scratch copy now expects to receive next. */
  lemma {:induction false} JamLandsAhead(th: Thread, rc: Timecode)
    requires th.eng.mode > Monitor && th.eng.tc.fps == th.scratch.fps
    requires JamStep(th, rc).eng.mode == Monitor
    ensures ToRaw(rc) != 0
    ensures JamStep(th, rc).eng.tc.time == NextFrameOnce(JamStep(th, rc).scratch).time
  {
    var raw := ToRaw(rc);
    var a := FromRaw(th.eng.tc, raw);
    var b := FromRaw(th.scratch, raw);
    assert a.df == b.df && a.time == b.time;
    assert NextFrameOnce(a).time == NextFrameOnce(b).time;
    assert NextFrame(a, 2).time == NextFrameOnce(NextFrameOnce(a)).time;
  }

  // ---------------------------------------------------------------------
  // Transmit

  /** The refill loop's guard: not jamming, and the buffer FIFO has room for
      the next packet (three words with sync, two without). */
  predicate TxReady(th: Thread, fifoLevel: int)
  {
    th.eng.mode <= Monitor && fifoLevel < 7 - B2I(th.sendSync)
  }

  /** Whether the LED flashes on frame `tc`: a non-negative `flashframe`
      picks a frame number in every second, otherwise the one raw snapshot
      `flashtime`. */
  predicate Flash(e: Engine, tc: Timecode)
  {
    if e.flashframe >= 0 then tc.time.ff == e.flashframe else ToRaw(tc) == e.flashtime
  }

  /** The LED patterns 10100010101010011111111101 (flash) and
      10100010101010001010101000 (dark), and the MTC trigger pattern
      10101010101010101010101010001010, in hex. */
  const FlashOn := 0x28a_a7fd
  const FlashOff := 0x28a_a2a8
  const BlinkTail := 0xaaaa_aa8a

  /** The two words for the LED/MTC trigger machine: the LED pattern
      (shifted up six bits over a count of 19) and the fixed MTC pattern. */
  function BlinkWords(flash: bool): (w: seq<int>)
    ensures |w| == 2 && w[1] == BlinkTail
    ensures Field(w[0], 0, 6) == 19
    ensures flash <==> w[0] / 64 == FlashOn
  {
    var pattern := if flash then FlashOn else FlashOff;
    Pow2Table();
    FieldOf(pattern * 64 + 19, 0, 6, 0, 19, pattern);
    [pattern * 64 + 19, BlinkTail]
  }

  /** One pass of the refill loop: send the current frame (its raw snapshot
      and its LTC words, with sync every other frame), step to the next
      frame, and choose the LED pattern for it. */
  function TxFrame(th: Thread): (r: (Thread, TxOut))
    ensures r.1.raw == ToRaw(th.eng.tc)
    ensures r.1.words == ToLtcPacket(th.eng.tc, th.sendSync)
    ensures r.0 == th.(eng := th.eng.(tc := NextFrameOnce(th.eng.tc)), sendSync := !th.sendSync)
    ensures r.1.blink == BlinkWords(Flash(th.eng, r.0.eng.tc))
  {
    var e := th.eng;
    var tc := NextFrameOnce(e.tc);
    (th.(eng := e.(tc := tc), sendSync := !th.sendSync),
     TxOut(ToRaw(e.tc), ToLtcPacket(e.tc, th.sendSync), BlinkWords(Flash(e, tc))))
  }

  /** Two consecutive frames send five words: one group of three framed by
      sync in its first low half and its last high half, and one group of
      two; the toggle comes back to where it started. */
  lemma {:induction false} TxAlternates(th: Thread)
    ensures var (th1, o1) := TxFrame(th);
      var (th2, o2) := TxFrame(th1);
      var framed := if th.sendSync then o1.words else o2.words;
      && |o1.words| + |o2.words| == 5
      && th2.sendSync == th.sendSync
      && Field(framed[0], 0, 16) == Sync && Field(framed[2], 16, 16) == Sync
  {
    var (th1, o1) := TxFrame(th);
    var (th2, o2) := TxFrame(th1);
    if th.sendSync {
      SyncFraming(Packet(th.eng.tc));
    } else {
      SyncFraming(Packet(th1.eng.tc));
    }
  }

  /** With a flash time set from `ft` and no flash frame, the LED flashes on
      exactly the frame that shows `ft`'s time and drop-frame flag. */
  lemma {:induction false} FlashOnTime(th: Thread, ft: Timecode)
    requires th.eng.flashframe < 0 && RawFits(ft.time)
    requires RawFits(NextFrameOnce(th.eng.tc).time)
    ensures var e := SetFlashtime(th.eng, ft);
      var next := NextFrameOnce(e.tc);
      TxFrame(th.(eng := e)).1.blink == BlinkWords(next.time == ft.time && next.df == ft.df)
  {
    var e := SetFlashtime(th.eng, ft);
    var next := NextFrameOnce(e.tc);
    if ToRaw(next) == ToRaw(ft) {
      RawInjective(next, ft);
    }
  }
}
