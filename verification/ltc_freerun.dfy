/** ltc_freerun.py: the stand-alone free-running generator.  One thread
    builds each codeword from its globals (no colour-frame or binary-group
    flags, the correction in byte 3), packs it into FIFO words the same way
    as the earlier pico-timecode.py, and counts on; another prints the
    time. */
module LtcFreerun {
  import opened Wrappers
  import opened Bits
  import opened Text
  import opened TimecodeValue
  import opened Ltc
  import opened PicoTimecodeV1

  /** The globals that reach the codeword: the flags the thread clears
      are cleared, whatever `bf0` and `bf2` say. */
  function Quiet(t: Timecode): (r: Timecode)
    ensures r.time == t.time && r.user == t.user && r.fps == t.fps && r.df == t.df
    ensures !r.cf && !r.bgf0 && !r.bgf1 && !r.bgf2
  {
    t.(cf := false, bgf0 := false, bgf1 := false, bgf2 := false)
  }

  /** The eight codeword bytes one loop iteration sends. */
  function FreerunBytes(t: Timecode): (b: seq<int>)
    ensures |b| == 8
  {
    var q := Quiet(t);
    CorrectBytes(q, BuildBytes(q, Flags(false, false, false), false), false, 3)
  }

  /** These are the fixed codec revision's bytes for the quiet value. */
  lemma {:induction false} FreerunIsFixed(t: Timecode)
    ensures FreerunBytes(t) == BuildPacketBytesFixed(Quiet(t))
  {
    assert Placement(Quiet(t)) == Flags(false, false, false);
  }

  /** Each group of FIFO words is the current codec's packet for the same
      time and user bits with all flags clear, so the loop alternates
      sync-framed and plain packets just as `to_ltc_packet` is used. */
  lemma {:induction false} FreerunSendsPacket(t: Timecode, syncSent: bool)
    requires LtcFits(t)
    ensures TxWords(FreerunBytes(t), syncSent).0 == ToLtcPacket(Quiet(t), !syncSent)
  {
    FreerunIsFixed(t);
    assert Quiet(t).(cf := false) == Quiet(t);
    SendsCurrentPacket(Quiet(t), syncSent);
  }

  /** With the 13 ones of the sync word, every codeword sent has an even
      number of ones. */
  lemma {:induction false} FreerunParityEven(t: Timecode)
    requires LtcFits(t)
    ensures (SyncOnes + Ones(FreerunBytes(t))) % 2 == 0
  {
    FreerunIsFixed(t);
    FixedParityEven(Quiet(t));
  }

  /** The counting at the end of the loop: frames carry once they reach
      the frame rate, and the drop-frame skip is applied only on a carry
      into a new second. */
  function FreerunStep(t: Timecode): (r: Timecode)
    ensures r == t.(time := r.time)
  {
    var c := t.time;
    if ((c.ff + 1) as real) < t.fps then t.(time := c.(ff := c.ff + 1))
    else
      var u := CountUpV1(c, t.fps);
      if t.df && u.ss == 0 && u.ff == 0 && u.mm % 10 != 0 then t.(time := u.(ff := 2))
      else t.(time := u)
  }

  /** From a value that shows no skipped label (the frame count never
      goes negative), at a rate within one below its label count, the loop
      counts exactly like `next_frame`. */
  lemma {:induction false} FreerunAgrees(t: Timecode)
    requires DropLegal(t) && t.time.ff >= 0
    requires (Nominal(t.fps) - 1) as real < t.fps <= Nominal(t.fps) as real
    ensures FreerunStep(t) == NextFrameOnce(t)
  {
    NextFrameAgrees(t);
  }

  /** Counting from a legal value never shows a skipped label. */
  lemma {:induction false} FreerunKeepsLegal(t: Timecode)
    requires DropLegal(t) && t.time.ff >= 0
    ensures DropLegal(FreerunStep(t))
  {
    var c := t.time;
    if ((c.ff + 1) as real) < t.fps {
      assert t.df ==> !(c.ss == 0 && c.ff == 0 && c.mm % 10 != 0);
    }
  }

  /** Counting keeps every field in range for the label count; in
      drop-frame mode a skip needs at least three labels per second. */
  lemma {:induction false} FreerunKeepsRange(t: Timecode)
    requires Valid(t) && (t.df ==> Nominal(t.fps) >= 3)
    requires t.fps <= Nominal(t.fps) as real
    ensures Valid(FreerunStep(t))
  {
    var c := t.time;
    if ((c.ff + 1) as real) < t.fps {
      assert c.ff + 1 < Nominal(t.fps);
    }
  }

  /** The start value: the bytes of the start string minus '0', two per
      field, and frame 0 of a skipped minute moved on to frame 2.  Fewer
      than eleven bytes fail (IndexError). */
  function StartTime(t: Timecode, start: seq<int>): (r: Option<Timecode>)
    ensures r.Some? <==> |start| >= 11
    ensures r.Some? ==> r.value == t.(time := r.value.time)
  {
    var time := seq(|start|, i requires 0 <= i < |start| => start[i] - 0x30);
    if |time| < 11 then None
    else
      var c := Time(time[0] * 10 + time[1], time[3] * 10 + time[4],
                    time[6] * 10 + time[7], time[9] * 10 + time[10]);
      if t.df && c.ss == 0 && c.ff == 0 && c.mm % 10 != 0 then Some(t.(time := c.(ff := 2)))
      else Some(t.(time := c))
  }

  /** The start check agrees with `from_ascii` except on frame 1 of a
      skipped minute, which it leaves in place. */
  lemma {:induction false} StartAgrees(t: Timecode, start: seq<int>)
    requires |start| >= 11
    ensures var c := StartTime(t, start).value.time;
      if t.df && c.ss == 0 && c.ff == 1 && c.mm % 10 != 0
      then FromAsciiV1(t, start).value.time == c.(ff := 2)
      else FromAsciiV1(t, start) == StartTime(t, start)
  {
  }

  /** The firmware's own start string. */
  lemma {:induction false} StartsAtMidnight(t: Timecode)
    ensures StartTime(t, [0x30, 0x30, 0x3A, 0x30, 0x30, 0x3A, 0x30, 0x30, 0x3A, 0x30, 0x30]) ==
            Some(t.(time := Time(0, 0, 0, 0)))
  {
  }

  /** The display thread's codes: digits, with all three separators ';'
      in drop-frame mode and ':' otherwise. */
  function DisplayCodes(t: Timecode): (r: seq<int>)
    ensures |r| == 11
  {
    var c := t.time;
    var sep := 10 + B2I(t.df) + 0x30;
    [TruncDiv(c.hh, 10) + 0x30, c.hh % 10 + 0x30, sep,
     TruncDiv(c.mm, 10) + 0x30, c.mm % 10 + 0x30, sep,
     TruncDiv(c.ss, 10) + 0x30, c.ss % 10 + 0x30, sep,
     TruncDiv(c.ff, 10) + 0x30, c.ff % 10 + 0x30]
  }

  function Display(t: Timecode): (r: Option<string>)
    ensures r.Some? ==> |r.value| == 11
  {
    Chrs(DisplayCodes(t))
  }

  /** The display differs from the codec's rendering only in the first two
      separators, which also turn to ';' in drop-frame mode; reading it
      back restores the time. */
  lemma {:induction false} DisplayShape(t: Timecode, into: Timecode)
    requires TwoDigits(t.time) && DropLegal(into.(time := t.time))
    ensures Display(t).Some?
    ensures var sep := 0x3A + B2I(t.df);
      Ords(Display(t).value) == AsciiCodesV1(t)[2 := sep][5 := sep]
    ensures FromAsciiV1(into, Ords(Display(t).value)) == Some(into.(time := t.time))
  {
    var c := DisplayCodes(t);
    DisplayScalars(t);
    DisplayCodesShape(t);
    AsciiV1Bytes(t);
    AsciiV1RoundTrip(t, into);
    ReadBackSkipsSeparators(into, c, AsciiCodesV1(t));
  }

  lemma {:induction false} DisplayScalars(t: Timecode)
    requires TwoDigits(t.time)
    ensures forall i :: 0 <= i < 11 ==> IsScalar(DisplayCodes(t)[i])
  {
    var c := DisplayCodes(t);
    assert forall i :: 0 <= i < 11 ==> 0x30 <= c[i] < 0x40;
  }

  lemma {:induction false} DisplayCodesShape(t: Timecode)
    ensures var sep := 0x3A + B2I(t.df);
      DisplayCodes(t) == AsciiCodesV1(t)[2 := sep][5 := sep]
  {
  }

  /** Reading back looks only at the digit positions. */
  lemma {:induction false} ReadBackSkipsSeparators(into: Timecode, a: seq<int>, b: seq<int>)
    requires |a| == |b| == 11
    requires forall i :: 0 <= i < 11 && i != 2 && i != 5 && i != 8 ==> a[i] == b[i]
    ensures FromAsciiV1(into, a) == FromAsciiV1(into, b)
  {
    var ta := seq(|a|, i requires 0 <= i < |a| => a[i] - 0x30);
    var tb := seq(|b|, i requires 0 <= i < |b| => b[i] - 0x30);
    assert forall i :: 0 <= i < 11 && i != 2 && i != 5 && i != 8 ==> ta[i] == tb[i];
  }
}
