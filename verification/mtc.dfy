/** MIDI Time Code output of pico_timecode.py (the `MTC` class).

    Messages follow the MIDI Time Code part of the MIDI 1.0 Detailed
    Specification: the Full Message is the universal real-time SysEx
    F0 7F 7F 01 01 hr mn sc fr F7, and a Quarter Frame is F1 followed by one
    data byte carrying a piece number (0..7) and a nibble of the time.  Both
    travel as four-byte USB-MIDI event packets, the first byte a Code Index
    Number (CIN) as in section 4 of the USB Device Class Definition for MIDI
    Devices 1.0: 0x4 "SysEx starts or continues", 0x5/0x6/0x7 "SysEx ends
    with the following one/two/three bytes".

    The USB transmit buffer is treated as always having room; the time is
    the 32-bit raw snapshot `tx_raw` of the frame being sent. */
module Mtc {
  import opened Bits
  import opened TimecodeValue

  /** One USB-MIDI event packet: the CIN and three MIDI bytes. */
  type Event = seq<int>

  const CinSysexStart := 0x4
  const CinSysexEnd1 := 0x5
  const CinSysexEnd2 := 0x6
  const CinSysexEnd3 := 0x7

  predicate IsEnd(cin: int)
  {
    cin == CinSysexEnd1 || cin == CinSysexEnd2 || cin == CinSysexEnd3
  }

  /** How many of the three MIDI bytes a SysEx CIN carries. */
  function CinLength(cin: int): (n: int)
    ensures 1 <= n <= 3
  {
    if cin == CinSysexEnd1 then 1 else if cin == CinSysexEnd2 then 2 else 3
  }

  // ---------------------------------------------------------------------
  // SysEx packetisation

  /** The `while p:` loop of `send_sysex`: three bytes at a time, then an
      end packet with the last one or two bytes.  Three-byte packets are
      tagged 0x7 as written; with `fixed` those that are followed by more
      bytes are tagged 0x4 instead. */
  function PlayOut(p: seq<int>, fixed: bool): (r: seq<Event>)
    ensures forall i :: 0 <= i < |r| ==> |r[i]| == 4
    ensures |p| > 0 <==> |r| > 0
    decreases |p|
  {
    if |p| == 0 then []
    else if |p| > 2 then
      [[if fixed && |p| > 3 then CinSysexStart else CinSysexEnd3, p[0], p[1], p[2]]] + PlayOut(p[3..], fixed)
    else if |p| > 1 then [[CinSysexEnd2, p[0], p[1], 0]]
    else [[CinSysexEnd1, p[0], 0, 0]]
  }

  /** `send_sysex(p)`: a message longer than three bytes opens with a start
      packet of its first three bytes; the rest is played out. */
  function SendSysexAs(p: seq<int>, fixed: bool): (r: seq<Event>)
    ensures forall i :: 0 <= i < |r| ==> |r[i]| == 4
    ensures |p| > 0 <==> |r| > 0
  {
    if |p| > 3 then [[CinSysexStart, p[0], p[1], p[2]]] + PlayOut(p[3..], fixed)
    else PlayOut(p, fixed)
  }

  /** `send_sysex` as written. */
  function SendSysex(p: seq<int>): (r: seq<Event>)
    ensures forall i :: 0 <= i < |r| ==> |r[i]| == 4
  {
    SendSysexAs(p, false)
  }

  /** `send_sysex` with continuation packets tagged 0x4. */
  function SendSysexFixed(p: seq<int>): (r: seq<Event>)
    ensures forall i :: 0 <= i < |r| ==> |r[i]| == 4
  {
    SendSysexAs(p, true)
  }

  /** What a receiver reads from a run of SysEx packets: the bytes each
      CIN says it carries, in order. */
  function Payload(es: seq<Event>): seq<int>
    requires forall i :: 0 <= i < |es| ==> |es[i]| == 4
  {
    if es == [] then [] else es[0][1..1 + CinLength(es[0][0])] + Payload(es[1..])
  }

  /** Every packet is zero past the bytes its CIN carries. */
  predicate ZeroPadded(es: seq<Event>)
    requires forall i :: 0 <= i < |es| ==> |es[i]| == 4
  {
    forall i, j :: 0 <= i < |es| && 1 + CinLength(es[i][0]) <= j < 4 ==> es[i][j] == 0
  }

  /** USB-MIDI framing of one SysEx message: every packet but the last
      continues it, and the last one ends it. */
  predicate Framed(es: seq<Event>)
    requires forall i :: 0 <= i < |es| ==> |es[i]| == 4
  {
    && |es| > 0
    && (forall i :: 0 <= i < |es| - 1 ==> es[i][0] == CinSysexStart)
    && IsEnd(es[|es| - 1][0])
  }

  lemma {:induction false} PayloadAppend(a: seq<Event>, b: seq<Event>)
    requires forall i :: 0 <= i < |a| ==> |a[i]| == 4
    requires forall i :: 0 <= i < |b| ==> |b[i]| == 4
    ensures Payload(a + b) == Payload(a) + Payload(b)
    decreases |a|
  {
    if a != [] {
      var ab := a + b;
      var tail := a[1..];
      assert forall i :: 0 <= i < |ab| ==> |ab[i]| == 4 by {
        forall i | 0 <= i < |ab|
          ensures |ab[i]| == 4
        {
          if i < |a| { assert ab[i] == a[i]; } else { assert ab[i] == b[i - |a|]; }
        }
      }
      assert forall i :: 0 <= i < |tail| ==> |tail[i]| == 4 by {
        forall i | 0 <= i < |tail|
          ensures |tail[i]| == 4
        {
          assert tail[i] == a[i + 1];
        }
      }
      assert ab[0] == a[0] && ab[1..] == tail + b;
      PayloadAppend(tail, b);
      PayloadCons(ab);
      PayloadCons(a);
      var h, pa, pb := a[0][1..1 + CinLength(a[0][0])], Payload(tail), Payload(b);
      assert h + (pa + pb) == (h + pa) + pb;
    } else {
      assert a + b == b;
    }
  }

  /** The payload of a non-empty list is its first packet's bytes, then the
      rest's. */
  lemma {:induction false} PayloadCons(es: seq<Event>)
    requires es != [] && forall i :: 0 <= i < |es| ==> |es[i]| == 4
    ensures Payload(es) == es[0][1..1 + CinLength(es[0][0])] + Payload(es[1..])
  {
  }

  lemma {:induction false} PlayOutPayload(p: seq<int>, fixed: bool)
    ensures Payload(PlayOut(p, fixed)) == p
    ensures ZeroPadded(PlayOut(p, fixed))
    decreases |p|
  {
    var r := PlayOut(p, fixed);
    if |p| > 2 {
      var head: Event := [if fixed && |p| > 3 then CinSysexStart else CinSysexEnd3, p[0], p[1], p[2]];
      PlayOutPayload(p[3..], fixed);
      PayloadAppend([head], PlayOut(p[3..], fixed));
      assert Payload([head]) == p[..3];
      assert p[..3] + p[3..] == p;
      var rest := PlayOut(p[3..], fixed);
      forall i, j | 0 <= i < |r| && 1 + CinLength(r[i][0]) <= j < 4 ensures r[i][j] == 0 {
        if i > 0 {
          assert r[i] == rest[i - 1];
        }
      }
    } else if |p| == 2 {
      assert Payload(r) == r[0][1..3];
    } else if |p| == 1 {
      assert Payload(r) == r[0][1..2];
    }
  }

  /** The packets carry exactly the message, zero padded, with or without
      the continuation fix. */
  lemma {:induction false} SysexPayload(p: seq<int>, fixed: bool)
    ensures Payload(SendSysexAs(p, fixed)) == p
    ensures ZeroPadded(SendSysexAs(p, fixed))
  {
    PlayOutPayload(p, fixed);
    if |p| > 3 {
      var head: Event := [CinSysexStart, p[0], p[1], p[2]];
      var rest := PlayOut(p[3..], fixed);
      PlayOutPayload(p[3..], fixed);
      PayloadAppend([head], rest);
      assert Payload([head]) == p[..3];
      assert p[..3] + p[3..] == p;
      var r := SendSysexAs(p, fixed);
      forall i, j | 0 <= i < |r| && 1 + CinLength(r[i][0]) <= j < 4 ensures r[i][j] == 0 {
        if i > 0 {
          assert r[i] == rest[i - 1];
        }
      }
    }
  }

  lemma {:induction false} PlayOutFramed(p: seq<int>)
    requires |p| > 0
    ensures Framed(PlayOut(p, true))
    decreases |p|
  {
    if |p| > 3 {
      PlayOutFramed(p[3..]);
      var rest := PlayOut(p[3..], true);
      var r := PlayOut(p, true);
      assert r[1..] == rest;
      forall i | 0 <= i < |r| - 1 ensures r[i][0] == CinSysexStart {
        if i > 0 {
          assert r[i] == rest[i - 1];
        }
      }
    }
  }

  /** With the fix every non-empty message is framed as one SysEx. */
  lemma {:induction false} SysexFramedFixed(p: seq<int>)
    requires |p| > 0
    ensures Framed(SendSysexFixed(p))
  {
    if |p| > 3 {
      PlayOutFramed(p[3..]);
      var rest := PlayOut(p[3..], true);
      var r := SendSysexFixed(p);
      assert r[1..] == rest;
      forall i | 0 <= i < |r| - 1 ensures r[i][0] == CinSysexStart {
        if i > 0 {
          assert r[i] == rest[i - 1];
        }
      }
    } else {
      PlayOutFramed(p);
    }
  }

  /** As written, a message of more than six bytes has its second packet
      tagged "ends" although more packets follow, so it is not framed as
      one SysEx. */
  lemma {:induction false} SysexEndsEarly(p: seq<int>)
    requires |p| > 6
    ensures |SendSysex(p)| > 2 && SendSysex(p)[1][0] == CinSysexEnd3
    ensures !Framed(SendSysex(p))
  {
    var rest := p[3..];
    assert PlayOut(rest, false)[0][0] == CinSysexEnd3;
    assert |PlayOut(rest[3..], false)| > 0;
  }

  // ---------------------------------------------------------------------
  // Full Message

  /** `send_long_mtc`'s message: hours with the 30 fps rate code (0b11) in
      bits 5-6, then minutes, seconds and frames, each masked from the raw
      snapshot. */
  function LongMtc(raw: int): (m: seq<int>)
    ensures |m| == 10 && m[..5] == [0xF0, 0x7F, 0x7F, 0x01, 0x01] && m[9] == 0xF7
    ensures forall i :: 0 <= i < 10 ==> 0 <= m[i] < 256
  {
    Pow2Table();
    [0xF0, 0x7F, 0x7F, 0x01, 0x01,
     Field(raw, 24, 5) + 0x60, Field(raw, 16, 6), Field(raw, 8, 6), Field(raw, 0, 6), 0xF7]
  }

  function SendLongMtc(raw: int): (r: seq<Event>)
    ensures forall i :: 0 <= i < |r| ==> |r[i]| == 4
  {
    SendSysex(LongMtc(raw))
  }

  /** The Full Message carries the time of the snapshot and the 30 fps rate
      code. */
  lemma {:induction false} LongMtcTime(t: Timecode)
    requires RawFits(t.time)
    ensures var m := LongMtc(ToRaw(t));
      m[5] % 32 == t.time.hh && m[5] / 32 == 3 &&
      m[6] == t.time.mm && m[7] == t.time.ss && m[8] == t.time.ff
  {
    var raw := ToRaw(t);
    RawRoundTrip(t, t);
    Pow2Table();
    FieldOf(raw, 0, 6, 0, t.time.ff, B2I(t.df) * 2 + t.time.ss * 4 + t.time.mm * 1024 + t.time.hh * 262144);
  }

  /** The Full Message goes out as four packets tagged start, end, end,
      end-with-one-byte; with the fix, start, continue, continue,
      end-with-one-byte. */
  lemma {:induction false} LongMtcPackets(raw: int)
    ensures |SendLongMtc(raw)| == 4
    ensures SendLongMtc(raw)[0][0] == 4 && SendLongMtc(raw)[1][0] == 7
    ensures SendLongMtc(raw)[2][0] == 7 && SendLongMtc(raw)[3][0] == 5
    ensures var f := SendSysexFixed(LongMtc(raw));
      |f| == 4 && f[0][0] == 4 && f[1][0] == 4 && f[2][0] == 4 && f[3][0] == 5
  {
    var m := LongMtc(raw);
    var tail: seq<Event> := [[CinSysexEnd1, 0xF7, 0, 0]];
    assert m[3..][3..][3..] == [0xF7];
    assert PlayOut(m[3..][3..][3..], false) == tail;
    assert PlayOut(m[3..][3..][3..], true) == tail;
    assert PlayOut(m[3..][3..], false) == [[CinSysexEnd3, m[6], m[7], m[8]]] + tail;
    assert PlayOut(m[3..][3..], true) == [[CinSysexStart, m[6], m[7], m[8]]] + tail;
    assert PlayOut(m[3..], false) == [[CinSysexEnd3, m[3], m[4], m[5]], [CinSysexEnd3, m[6], m[7], m[8]]] + tail;
    assert PlayOut(m[3..], true) == [[CinSysexStart, m[3], m[4], m[5]], [CinSysexStart, m[6], m[7], m[8]]] + tail;
  }

  // ---------------------------------------------------------------------
  // Quarter Frames

  /** The data byte of quarter frame number `count`: piece `count mod 8` in
      the high nibble and that piece's bits of the snapshot in the low one:
      frame low nibble and high bit, second low nibble and high two bits,
      minute likewise, hour low nibble, and hour high bit with the 30 fps
      rate code 0b11 above it. */
  function QuarterData(count: nat, raw: int): (b: int)
    ensures b / 16 == count % 8 && 0 <= b < 0x80
  {
    Piece(count % 8, raw)
  }

  /** Piece `k` of the snapshot, with its number in the high nibble. */
  function Piece(k: int, raw: int): (b: int)
    requires 0 <= k < 8
    ensures b / 16 == k && 0 <= b < 0x80
  {
    Pow2Table();
    if k == 0 then Field(raw, 0, 4)
    else if k == 1 then Field(raw, 4, 1) + 0x10
    else if k == 2 then Field(raw, 8, 4) + 0x20
    else if k == 3 then Field(raw, 12, 2) + 0x30
    else if k == 4 then Field(raw, 16, 4) + 0x40
    else if k == 5 then Field(raw, 20, 2) + 0x50
    else if k == 6 then Field(raw, 24, 4) + 0x60
    else Field(raw, 28, 1) + 0x70 + 0x6
  }

  /** `send_quarter_mtc`: one packet with status F1, and the count moves
      on. */
  function SendQuarter(count: nat, raw: int): (r: (Event, nat))
    ensures r.1 == count + 1 && |r.0| == 4
    ensures r.0[0] == CinSysexEnd2 && r.0[1] == 0xF1 && r.0[3] == 0
    ensures r.0[2] / 16 == count % 8
  {
    ([CinSysexEnd2, 0xF1, QuarterData(count, raw), 0], count + 1)
  }

  /** A receiver's reassembly of eight pieces 0..7 (MIDI Time Code,
      Quarter Frame messages): the time fields and the rate code. */
  function Reassemble(d: seq<int>): (r: (Time, int))
    requires |d| == 8
  {
    (Time(d[6] % 16 + (d[7] % 2) * 16,
          d[4] % 16 + (d[5] % 4) * 16,
          d[2] % 16 + (d[3] % 4) * 16,
          d[0] % 16 + (d[1] % 2) * 16),
     (d[7] % 16) / 2)
  }

  /** Eight quarter frames from a piece-0 boundary carry the whole time of
      the snapshot and the 30 fps rate code. */
  lemma {:induction false} QuarterFramesRebuild(t: Timecode, count: nat)
    requires RawFits(t.time) && count % 8 == 0
    ensures var d := seq(8, i requires 0 <= i < 8 => QuarterData(count + i, ToRaw(t)));
      Reassemble(d) == (t.time, 3)
  {
    var raw := ToRaw(t);
    QuarterSeq(count, raw);
    PiecesOf(t);
    ReassembleOf(Pieces(raw), t.time);
  }

  /** The eight pieces of a snapshot, in order. */
  function Pieces(raw: int): (d: seq<int>)
    ensures |d| == 8 && forall k :: 0 <= k < 8 ==> d[k] == Piece(k, raw)
  {
    [Piece(0, raw), Piece(1, raw), Piece(2, raw), Piece(3, raw),
     Piece(4, raw), Piece(5, raw), Piece(6, raw), Piece(7, raw)]
  }

  /** Eight quarter frames from a piece-0 boundary are the pieces in
      order. */
  lemma {:induction false} QuarterSeq(count: nat, raw: int)
    requires count % 8 == 0
    ensures seq(8, i requires 0 <= i < 8 => QuarterData(count + i, raw)) == Pieces(raw)
  {
    var d := seq(8, i requires 0 <= i < 8 => QuarterData(count + i, raw));
    forall k | 0 <= k < 8
      ensures d[k] == Pieces(raw)[k]
    {
      QuarterAt(count, k, raw);
    }
  }

  /** The eight pieces of a snapshot: each nibble of the time with its
      piece number, the last with the 30 fps rate code. */
  lemma {:induction false} PiecesOf(t: Timecode)
    requires RawFits(t.time)
    ensures var raw := ToRaw(t); var c := t.time;
      var d := Pieces(raw);
      d[0] == c.ff % 16 && d[1] == c.ff / 16 + 0x10 &&
      d[2] == c.ss % 16 + 0x20 && d[3] == c.ss / 16 + 0x30 &&
      d[4] == c.mm % 16 + 0x40 && d[5] == c.mm / 16 + 0x50 &&
      d[6] == c.hh % 16 + 0x60 && d[7] == c.hh / 16 + 0x76
  {
    LowPieces(t);
    HighPieces(t);
  }

  /** Quarter frame `count + k` from a piece-0 boundary is piece `k`. */
  lemma {:induction false} QuarterAt(count: nat, k: nat, raw: int)
    requires count % 8 == 0 && k < 8
    ensures QuarterData(count + k, raw) == Piece(k, raw)
  {
    assert (count + k) % 8 == k;
  }

  /** Reassembly of pieces holding the nibbles of a time. */
  lemma {:induction false} ReassembleOf(d: seq<int>, c: Time)
    requires |d| == 8 && RawFits(c)
    requires d[0] == c.ff % 16 && d[1] == c.ff / 16 + 0x10
    requires d[2] == c.ss % 16 + 0x20 && d[3] == c.ss / 16 + 0x30
    requires d[4] == c.mm % 16 + 0x40 && d[5] == c.mm / 16 + 0x50
    requires d[6] == c.hh % 16 + 0x60 && d[7] == c.hh / 16 + 0x76
    ensures Reassemble(d) == (c, 3)
  {
    JoinNibbles(c.ff, 2, 0x00, 0x10);
    JoinNibbles(c.ss, 4, 0x20, 0x30);
    JoinNibbles(c.mm, 4, 0x40, 0x50);
    JoinNibbles(c.hh, 2, 0x60, 0x76);
    var h := c.hh / 16;
    assert h == 0 || h == 1;
    assert d[7] % 16 == h + 6;
  }

  /** A value below `16 * m` split into a tagged low nibble and a tagged
      high part is rejoined by masking the tags off. */
  lemma {:induction false} JoinNibbles(v: int, m: int, tlo: int, thi: int)
    requires 0 < m && 0 <= v < 16 * m
    requires 0 <= tlo && tlo % 16 == 0 && 0 <= thi && thi % m == 0
    ensures (v % 16 + tlo) % 16 + ((v / 16 + thi) % m) * 16 == v
  {
    var lo, hi := v % 16, v / 16;
    assert v == 16 * hi + lo;
    assert 0 <= hi < m;
    DivModUnique(lo + tlo, 16, tlo / 16, lo);
    DivModUnique(hi + thi, m, thi / m, hi);
  }

  /** The frame and second pieces of the snapshot. */
  lemma {:induction false} LowPieces(t: Timecode)
    requires RawFits(t.time)
    ensures var raw := ToRaw(t); var c := t.time;
      Field(raw, 0, 4) == c.ff % 16 && Field(raw, 4, 1) == c.ff / 16 &&
      Field(raw, 8, 4) == c.ss % 16 && Field(raw, 12, 2) == c.ss / 16
  {
    var raw := ToRaw(t);
    var c := t.time;
    var d := B2I(t.df);
    Pow2Table();
    FieldOf(raw, 0, 4, 0, c.ff % 16, c.ff / 16 + d * 8 + c.ss * 16 + c.mm * 4096 + c.hh * 0x10_0000);
    FieldOf(raw, 4, 1, c.ff % 16, c.ff / 16, d * 4 + c.ss * 8 + c.mm * 2048 + c.hh * 0x8_0000);
    FieldOf(raw, 8, 4, d * 128 + c.ff, c.ss % 16, c.ss / 16 + c.mm * 16 + c.hh * 4096);
    FieldOf(raw, 12, 2, d * 128 + c.ff + (c.ss % 16) * 256, c.ss / 16, c.mm * 4 + c.hh * 1024);
  }

  /** The minute and hour pieces of the snapshot. */
  lemma {:induction false} HighPieces(t: Timecode)
    requires RawFits(t.time)
    ensures var raw := ToRaw(t); var c := t.time;
      Field(raw, 16, 4) == c.mm % 16 && Field(raw, 20, 2) == c.mm / 16 &&
      Field(raw, 24, 4) == c.hh % 16 && Field(raw, 28, 1) == c.hh / 16
  {
    var raw := ToRaw(t);
    var c := t.time;
    var low := B2I(t.df) * 128 + c.ff + c.ss * 256;
    Pow2Table();
    FieldOf(raw, 16, 4, low, c.mm % 16, c.mm / 16 + c.hh * 16);
    FieldOf(raw, 20, 2, low + (c.mm % 16) * 0x1_0000, c.mm / 16, c.hh * 4);
    FieldOf(raw, 24, 4, low + c.mm * 0x1_0000, c.hh % 16, c.hh / 16);
    FieldOf(raw, 28, 1, low + c.mm * 0x1_0000 + (c.hh % 16) * 0x100_0000, c.hh / 16, 0);
  }
}
