/** The earlier codec revision in pico-timecode.py: the same timecode class
    with the codeword built byte by byte (`build_packet_bytes`) and the bytes
    packed into 32-bit FIFO words by the transmit loop.

    Its `timecode` has no colour-frame flag (the codeword's is always 0) and
    its frame rate is compared as a number; the value is the current
    `Timecode` with `cf` ignored. */
module PicoTimecodeV1 {
  import opened Wrappers
  import opened Bits
  import opened Text
  import opened TimecodeValue
  import opened Ltc

  // ---------------------------------------------------------------------
  // Counting

  /** `validate_for_drop_frame`: a skipped label moves on to frame 2. */
  function ValidateV1(t: Timecode): (r: Timecode)
    ensures r == ValidateForDropFrame(t, false)
  {
    var c := t.time;
    if t.df && c.ss == 0 && (c.ff == 0 || c.ff == 1) && c.mm % 10 != 0 then
      t.(time := c.(ff := c.ff + (2 - c.ff)))
    else t
  }

  /** `set_fps(fps, df)`. */
  function SetFps(t: Timecode, fps: real, df: bool): (r: Timecode)
    ensures r == SetFpsDf(t, fps, df)
  {
    ValidateV1(t.(fps := fps, df := df))
  }

  /** The counting part of `next_frame`: frames carry once they reach the
      frame rate itself (`ff >= fps`), not a whole number of labels. */
  function CountUpV1(c: Time, fps: real): (r: Time)
  {
    if ((c.ff + 1) as real) < fps then c.(ff := c.ff + 1)
    else if c.ss + 1 < 60 then c.(ff := 0, ss := c.ss + 1)
    else if c.mm + 1 < 60 then c.(ff := 0, ss := 0, mm := c.mm + 1)
    else if c.hh + 1 < 24 then Time(c.hh + 1, 0, 0, 0)
    else Time(0, 0, 0, 0)
  }

  /** `next_frame()`: count up, then re-validate in drop-frame mode. */
  function NextFrameV1(t: Timecode): (r: Timecode)
    ensures r == t.(time := r.time)
    ensures DropLegal(r)
  {
    ValidateV1(t.(time := CountUpV1(t.time, t.fps)))
  }

  /** Where the frame rate lies within one below its label count, as it
      does for every rate the firmware offers, this revision counts exactly
      like the current one. */
  lemma {:induction false} NextFrameAgrees(t: Timecode)
    requires (Nominal(t.fps) - 1) as real < t.fps <= Nominal(t.fps) as real
    ensures NextFrameV1(t) == NextFrameOnce(t)
  {
    var n := Nominal(t.fps);
    assert ((t.time.ff + 1) as real < t.fps) <==> (t.time.ff + 1 < n);
  }

  /** The rates the firmware offers satisfy `NextFrameAgrees`. */
  lemma {:induction false} OfferedRatesAgree(fps: real)
    requires fps in {30.0, 29.97, 25.0, 24.98, 24.0, 23.98}
    ensures (Nominal(fps) - 1) as real < fps <= Nominal(fps) as real
  {
  }

  // ---------------------------------------------------------------------
  // The ASCII form

  /** The codes `to_ascii` emits: digits, ':' separators, and ';' for the
      last separator in drop-frame mode. */
  function AsciiCodesV1(t: Timecode): (r: seq<int>)
    ensures |r| == 11
  {
    var c := t.time;
    [TruncDiv(c.hh, 10) + 0x30, c.hh % 10 + 0x30, 10 + 0x30,
     TruncDiv(c.mm, 10) + 0x30, c.mm % 10 + 0x30, 10 + 0x30,
     TruncDiv(c.ss, 10) + 0x30, c.ss % 10 + 0x30, 10 + B2I(t.df) + 0x30,
     TruncDiv(c.ff, 10) + 0x30, c.ff % 10 + 0x30]
  }

  function ToAsciiV1(t: Timecode): (r: Option<string>)
    ensures r.Some? ==> |r.value| == 11
  {
    Chrs(AsciiCodesV1(t))
  }

  /** Every code of the rendering is a digit, ':' or ';'. */
  lemma {:induction false} AsciiCodesV1Range(t: Timecode)
    requires TwoDigits(t.time)
    ensures forall i :: 0 <= i < 11 ==> 0x30 <= AsciiCodesV1(t)[i] <= 0x3B
  {
    var c := t.time;
    assert 0 <= TruncDiv(c.hh, 10) < 10 && 0 <= TruncDiv(c.mm, 10) < 10;
    assert 0 <= TruncDiv(c.ss, 10) < 10 && 0 <= TruncDiv(c.ff, 10) < 10;
  }

  /** The rendering differs from the current one only in the last
      separator: ';' rather than '.' in drop-frame mode. */
  lemma {:induction false} AsciiV1Shape(t: Timecode)
    requires TwoDigits(t.time)
    ensures ToAsciiV1(t).Some?
    ensures ToAsciiV1(t).value[8] == (if t.df then ';' else ':')
    ensures AsciiCodesV1(t) == AsciiCodes(t, true)[8 := 0x3A + B2I(t.df)]
  {
    var c := AsciiCodesV1(t);
    AsciiCodesV1Range(t);
    assert Ords(ToAsciiV1(t).value)[8] == c[8];
  }

  /** `from_ascii(start)`: the bytes minus '0', two digits per field, no
      range check; df is never read from the text, and the drop-frame rule
      is applied when it is already set.  Fewer than eleven bytes fail
      (IndexError). */
  function FromAsciiV1(t: Timecode, start: seq<int>): (r: Option<Timecode>)
    ensures r.Some? <==> |start| >= 11
    ensures r.Some? ==> r.value == t.(time := r.value.time) && DropLegal(r.value)
  {
    var time := seq(|start|, i requires 0 <= i < |start| => start[i] - 0x30);
    if |time| < 11 then None
    else
      Some(ValidateV1(t.(time := Time(time[0] * 10 + time[1], time[3] * 10 + time[4],
                                      time[6] * 10 + time[7], time[9] * 10 + time[10]))))
  }

  /** The rendering is ASCII, so its UTF-8 bytes are its codes. */
  lemma {:induction false} AsciiV1Bytes(t: Timecode)
    requires TwoDigits(t.time)
    ensures ToAsciiV1(t).Some?
    ensures Utf8(ToAsciiV1(t).value) == AsciiCodesV1(t)
  {
    var c := AsciiCodesV1(t);
    AsciiCodesV1Range(t);
    var s := ToAsciiV1(t).value;
    assert Ords(s) == c;
    forall i | 0 <= i < |s|
      ensures s[i] as int < 0x80
    {
      assert s[i] as int == c[i];
    }
    Utf8IsOrdsIffAscii(s);
  }

  /** Reading back the bytes of the rendering restores the time, but the
      drop-frame flag stays with the value read into. */
  lemma {:induction false} AsciiV1RoundTrip(t: Timecode, into: Timecode)
    requires TwoDigits(t.time) && DropLegal(into.(time := t.time))
    ensures ToAsciiV1(t).Some?
    ensures FromAsciiV1(into, Utf8(ToAsciiV1(t).value)) == Some(into.(time := t.time))
  {
    AsciiV1Bytes(t);
  }

  // ---------------------------------------------------------------------
  // The codeword bytes

  /** `bp(b)`: the low eight bits, added up one at a time. */
  function Bp(b: int): int
  {
    Sum(BitList(b, ByteBits))
  }

  /** `bp` counts the set bits of the low byte, whatever lies above. */
  lemma {:induction false} BpIsPop(b: int)
    ensures Bp(b) == Pop(b, ByteBits) && 0 <= Bp(b) <= 8
    ensures Bp(b) == Bp(b % 256)
  {
    var lo, hi := b % 256, b / 256;
    var n, z: nat := ByteBits, 0;
    assert b == lo + 256 * hi;
    SumBitsIsPop(b, n);
    SumBitsIsPop(lo, n);
    PopLowByte(b, lo, hi, z);
    assert Pop(hi, z) == 0;
    assert n + z == n;
    assert Pop(b, n) == Pop(lo, n);
  }

  /** The ones among the eight data bytes; with the 13 of the sync word this
      is the `count` of both revisions. */
  function Ones(b: seq<int>): int
    requires |b| == 8
  {
    Bp(b[0]) + Bp(b[1]) + Bp(b[2]) + Bp(b[3]) + Bp(b[4]) + Bp(b[5]) + Bp(b[6]) + Bp(b[7])
  }

  /** Counting bytes counts the two packed words. */
  lemma {:induction false} OnesIsLp(b: seq<int>)
    requires |b| == 8 && forall i :: 0 <= i < 8 ==> IsByte(b[i])
    ensures Ones(b) == Lp(Lo(b)) + Lp(Hi(b))
  {
    BpIsPop(b[0]); BpIsPop(b[1]); BpIsPop(b[2]); BpIsPop(b[3]);
    BpIsPop(b[4]); BpIsPop(b[5]); BpIsPop(b[6]); BpIsPop(b[7]);
    PopWord(b[0], b[1], b[2], b[3]);
    PopWord(b[4], b[5], b[6], b[7]);
    SumBitsIsPop(Lo(b), WordBits);
    SumBitsIsPop(Hi(b), WordBits);
  }

  /** The eight bytes before polarity correction, least significant first,
      with the colour-frame bit 0 and each tens digit masked to a nibble. */
  function BuildBytes(t: Timecode, fl: Flags, f58: bool): (b: seq<int>)
    ensures |b| == 8
  {
    var c := t.time;
    var u := t.user;
    [u.uf1 * 16 + c.ff % 10,
     u.uf2 * 16 + B2I(t.df) * 4 + TruncDiv(c.ff, 10) % 16,
     u.uf3 * 16 + c.ss % 10,
     u.uf4 * 16 + B2I(fl.f27) * 8 + TruncDiv(c.ss, 10) % 16,
     u.uf5 * 16 + c.mm % 10,
     u.uf6 * 16 + B2I(fl.f43) * 8 + TruncDiv(c.mm, 10) % 16,
     u.uf7 * 16 + c.hh % 10,
     u.uf8 * 16 + B2I(fl.f59) * 8 + B2I(f58) * 4 + TruncDiv(c.hh, 10) % 16]
  }

  /** Polarity correction when the count is odd: at 25 fps byte 7 is
      rewritten with bit 3 (codeword bit 59) set; otherwise byte `slot` is
      overwritten with byte 3's contents and bit 3 (codeword bit 27) set. */
  function CorrectBytes(t: Timecode, b: seq<int>, f58: bool, slot: int): (r: seq<int>)
    requires |b| == 8 && 0 <= slot < 8
    ensures |r| == 8
    ensures (SyncOnes + Ones(b)) % 2 == 0 ==> r == b
  {
    var c := t.time;
    var u := t.user;
    if (SyncOnes + Ones(b)) % 2 == 1 then
      if t.fps == 25.0 then b[7 := u.uf8 * 16 + 8 + B2I(f58) * 4 + TruncDiv(c.hh, 10) % 16]
      else b[slot := u.uf4 * 16 + 8 + TruncDiv(c.ss, 10) % 16]
    else b
  }

  /** `build_packet_bytes` as written: the non-25 fps correction lands in
      byte 4 (minute units and uf5). */
  function BuildPacketBytes(t: Timecode): (b: seq<int>)
    ensures |b| == 8
  {
    var pl := Placement(t);
    CorrectBytes(t, BuildBytes(t, pl, t.bgf1), t.bgf1, 4)
  }

  /** `build_packet_bytes` with the correction in byte 3, the byte it
      rebuilds. */
  function BuildPacketBytesFixed(t: Timecode): (b: seq<int>)
    ensures |b| == 8
  {
    var pl := Placement(t);
    CorrectBytes(t, BuildBytes(t, pl, t.bgf1), t.bgf1, 3)
  }

  /** For fields that fit their codeword slots the bytes are those of the
      current codec with the colour-frame flag clear. */
  lemma {:induction false} BytesAgree(t: Timecode, fl: Flags)
    requires LtcFits(t)
    ensures BuildBytes(t, fl, t.bgf1) == Bytes(t.(cf := false), fl)
  {
    var c := t.time;
    TensFit(c.ff, 4);
    TensFit(c.ss, 8);
    TensFit(c.mm, 8);
    TensFit(c.hh, 4);
  }

  /** A tens digit below `m` is unchanged by masking to a nibble or to
      fewer bits. */
  lemma {:induction false} TensFit(x: int, m: int)
    requires 0 <= x < 10 * m && 0 < m <= 16
    ensures TruncDiv(x, 10) % 16 == TruncDiv(x, 10) % m == TruncDiv(x, 10)
  {
    var q := x / 10;
    assert TruncDiv(x, 10) == q && 10 * q <= x;
    assert q < m;
    DivModUnique(q, 16, 0, q);
    DivModUnique(q, m, 0, q);
  }

  /** An odd count of the bytes is an odd count of the packed words. */
  lemma {:induction false} OddIffNeedsCorrection(t: Timecode, fl: Flags)
    requires LtcFits(t)
    ensures ((SyncOnes + Ones(Bytes(t, fl))) % 2 == 1) ==
            NeedsCorrection(Word0(t, fl.f27), Word1(t, fl.f43, fl.f59))
  {
    WordsAreBytes(t, fl);
    OddIffOddWords(Bytes(t, fl), Word0(t, fl.f27), Word1(t, fl.f43, fl.f59));
  }

  lemma {:induction false} OddIffOddWords(b: seq<int>, p0: int, p1: int)
    requires |b| == 8 && forall i :: 0 <= i < 8 ==> IsByte(b[i])
    requires p0 == Lo(b) && p1 == Hi(b)
    ensures ((SyncOnes + Ones(b)) % 2 == 1) == NeedsCorrection(p0, p1)
  {
    OnesIsLp(b);
    var n, l0, l1 := Ones(b), Lp(p0), Lp(p1);
    assert n == l0 + l1;
    assert NeedsCorrection(p0, p1) == ((SyncOnes + l0 + l1) % 2 == 1);
  }

  /** Rebuilding byte 3 with bit 3 set is setting codeword bit 27. */
  lemma {:induction false} SetBit27(t: Timecode, fl: Flags)
    requires LtcFits(t) && !fl.f27
    ensures Bytes(t, fl.(f27 := true)) ==
            Bytes(t, fl)[3 := t.user.uf4 * 16 + 8 + TruncDiv(t.time.ss, 10) % 16]
  {
  }

  /** Rebuilding byte 7 with bit 3 set is setting codeword bit 59. */
  lemma {:induction false} SetBit59(t: Timecode, fl: Flags)
    requires LtcFits(t) && !fl.f59
    ensures Bytes(t, fl.(f59 := true)) ==
            Bytes(t, fl)[7 := t.user.uf8 * 16 + 8 + B2I(t.bgf1) * 4 + TruncDiv(t.time.hh, 10) % 16]
  {
  }

  /** Correcting in byte 3 yields the bytes with the flags the current
      codec sends. */
  lemma {:induction false} CorrectAsSent(t: Timecode)
    requires LtcFits(t)
    ensures CorrectBytes(t, Bytes(t, Placement(t)), t.bgf1, 3) == Bytes(t, SentFlags(t))
  {
    var pl := Placement(t);
    var b := Bytes(t, pl);
    var odd := NeedsCorrection(Word0(t, pl.f27), Word1(t, pl.f43, pl.f59));
    var cb := CorrectBytes(t, b, t.bgf1, 3);
    OddIffNeedsCorrection(t, pl);
    assert ((SyncOnes + Ones(b)) % 2 == 1) == odd;
    if !odd {
      assert cb == b;
      assert SentFlags(t) == pl;
    } else if t.fps == 25.0 {
      assert cb == b[7 := t.user.uf8 * 16 + 8 + B2I(t.bgf1) * 4 + TruncDiv(t.time.hh, 10) % 16];
      assert pl.f59 == false && SentFlags(t) == pl.(f59 := true);
      SetBit59(t, pl);
    } else {
      assert cb == b[3 := t.user.uf4 * 16 + 8 + TruncDiv(t.time.ss, 10) % 16];
      assert pl.f27 == false && SentFlags(t) == pl.(f27 := true);
      SetBit27(t, pl);
    }
  }

  /** The fixed revision builds exactly the current codec's corrected
      codeword bytes, with the colour-frame flag clear. */
  lemma {:induction false} FixedMatchesBytes(t: Timecode)
    requires LtcFits(t)
    ensures BuildPacketBytesFixed(t) == Bytes(t.(cf := false), SentFlags(t.(cf := false)))
  {
    var t' := t.(cf := false);
    var pl := Placement(t');
    assert pl == Placement(t);
    BytesAgree(t, pl);
    assert BuildPacketBytesFixed(t) == CorrectBytes(t', Bytes(t', pl), t'.bgf1, 3);
    CorrectAsSent(t');
  }

  /** Packed little-endian, those bytes are the current codec's packet. */
  lemma {:induction false} FixedMatchesPacket(t: Timecode)
    requires LtcFits(t)
    ensures [Lo(BuildPacketBytesFixed(t)), Hi(BuildPacketBytesFixed(t))] == Packet(t.(cf := false))
  {
    FixedMatchesBytes(t);
    PacketLayout(t.(cf := false));
  }

  /** With the correction in byte 3, 13 plus the ones of the bytes is
      even. */
  lemma {:induction false} FixedParityEven(t: Timecode)
    requires LtcFits(t)
    ensures (SyncOnes + Ones(BuildPacketBytesFixed(t))) % 2 == 0
  {
    var t' := t.(cf := false);
    FixedMatchesBytes(t);
    FixedMatchesPacket(t);
    OnesIsLp(BuildPacketBytesFixed(t));
    PacketParityEven(t');
  }

  /** At 25 fps the revision as written is already correct. */
  lemma {:induction false} ParityAt25(t: Timecode)
    requires LtcFits(t) && t.fps == 25.0
    ensures BuildPacketBytes(t) == BuildPacketBytesFixed(t)
    ensures (SyncOnes + Ones(BuildPacketBytes(t))) % 2 == 0
  {
    FixedParityEven(t);
  }

  /** As written, at 30 fps 00:00:00:00 with the default user bits "PICO"
      the uncorrected count is odd (27), and the correction overwrites
      byte 4: the minute units read 8 instead of 0, and the count stays
      odd. */
  lemma {:induction false} ParityDefect()
    ensures var b := BuildPacketBytes(Default());
      b[4] == 0x48 && b[4] % 16 != Default().time.mm % 10 &&
      (SyncOnes + Ones(b)) % 2 == 1
  {
    var t := Default();
    var b0 := BuildBytes(t, Placement(t), t.bgf1);
    assert b0 == [0x00, 0x50, 0x90, 0x40, 0x30, 0x48, 0xF0, 0x40];
    DefaultOnes(b0, 0x30);
    DefaultOnes(b0[4 := 0x48], 0x48);
  }

  /** The ones of the default codeword's bytes, with byte 4 either value. */
  lemma {:induction false} DefaultOnes(b: seq<int>, b4: int)
    requires b == [0x00, 0x50, 0x90, 0x40, b4, 0x48, 0xF0, 0x40]
    requires b4 == 0x30 || b4 == 0x48
    ensures Ones(b) == 14
  {
    NibbleCounts();
    var x0, x1, x2, x3, x4, x5, x6, x7 := b[0], b[1], b[2], b[3], b[4], b[5], b[6], b[7];
    assert x0 == 0x00 && x1 == 0x50 && x2 == 0x90 && x3 == 0x40;
    assert x4 == b4 && x5 == 0x48 && x6 == 0xF0 && x7 == 0x40;
    ByteNibbles(x0, 0, 0); ByteNibbles(x1, 0, 5); ByteNibbles(x2, 0, 9);
    ByteNibbles(x3, 0, 4); ByteNibbles(x5, 8, 4); ByteNibbles(x6, 0, 15); ByteNibbles(x7, 0, 4);
    if b4 == 0x30 {
      ByteNibbles(x4, 0, 3);
    } else {
      ByteNibbles(x4, 8, 4);
    }
    assert Ones(b) == Bp(x0) + Bp(x1) + Bp(x2) + Bp(x3) + Bp(x4) + Bp(x5) + Bp(x6) + Bp(x7);
  }

  /** The ones of the nibbles the default codeword uses. */
  lemma {:induction false} NibbleCounts()
    ensures Pop(0, 4) == 0 && Pop(3, 4) == 2 && Pop(4, 4) == 1 && Pop(5, 4) == 2
    ensures Pop(8, 4) == 1 && Pop(9, 4) == 2 && Pop(15, 4) == 4
  {
    PopNibble(0, 0, 0, 0, 0); PopNibble(5, 1, 0, 1, 0); PopNibble(9, 1, 0, 0, 1);
    PopNibble(4, 0, 0, 1, 0); PopNibble(3, 1, 1, 0, 0); PopNibble(8, 0, 0, 0, 1);
    PopNibble(15, 1, 1, 1, 1);
  }

  /** `bp` of a byte is the ones of its two nibbles. */
  lemma {:induction false} ByteNibbles(x: int, lo: int, hi: int)
    requires IsByte(x) && lo == x % 16 && hi == x / 16
    ensures Bp(x) == Pop(lo, 4) + Pop(hi, 4)
  {
    BpIsPop(x);
    var k: nat := 4;
    assert Pow2(k) == 16 by { Pow2Table(); }
    assert x == lo + 16 * hi && 0 <= lo < 16;
    PopSplit(lo, hi, k, k);
    assert k + k == ByteBits;
  }

  /** The ones of a nibble given bit by bit. */
  lemma {:induction false} PopNibble(x: int, a: int, b: int, c: int, d: int)
    requires 0 <= a < 2 && 0 <= b < 2 && 0 <= c < 2 && 0 <= d < 2
    requires x == a + 2 * b + 4 * c + 8 * d
    ensures Pop(x, 4) == a + b + c + d
  {
    PopUnfold(x, 4);
    assert Half(x) == b + 2 * c + 4 * d;
    PopUnfold(Half(x), 3);
    assert Half(Half(x)) == c + 2 * d;
    PopUnfold(Half(Half(x)), 2);
    PopUnfold(d, 1);
  }

  // ---------------------------------------------------------------------
  // FIFO words

  /** The transmit loop's packing (also that of ltc_freerun.py): after a
      sync-bearing group it sends the bytes as two little-endian words;
      otherwise three words carrying sync, the eight bytes, and sync. */
  function TxWords(b: seq<int>, syncSent: bool): (r: (seq<int>, bool))
    requires |b| == 8
    ensures r.1 == !syncSent
    ensures |r.0| == if syncSent then 2 else 3
  {
    if syncSent then
      ([b[0] + b[1] * 0x100 + b[2] * 0x1_0000 + b[3] * 0x100_0000,
        b[4] + b[5] * 0x100 + b[6] * 0x1_0000 + b[7] * 0x100_0000], false)
    else
      ([Sync + b[0] * 0x1_0000 + b[1] * 0x100_0000,
        b[2] + b[3] * 0x100 + b[4] * 0x1_0000 + b[5] * 0x100_0000,
        b[6] + b[7] * 0x100 + Sync * 0x1_0000], true)
  }

  /** The two groups are the current codec's plain and sync-framed
      packets of the same two data words. */
  lemma {:induction false} TxWordsFraming(b: seq<int>)
    requires |b| == 8 && forall i :: 0 <= i < 8 ==> IsByte(b[i])
    ensures TxWords(b, true).0 == [Lo(b), Hi(b)]
    ensures TxWords(b, false).0 == Framed([Lo(b), Hi(b)])
  {
    var b0, b1, b2, b3, b4, b5, b6, b7 := b[0], b[1], b[2], b[3], b[4], b[5], b[6], b[7];
    assert IsByte(b0) && IsByte(b1) && IsByte(b2) && IsByte(b3);
    assert IsByte(b4) && IsByte(b5) && IsByte(b6) && IsByte(b7);
    assert Lo(b) == Word(b0, b1, b2, b3) && Hi(b) == Word(b4, b5, b6, b7);
    WordExpand(b0, b1, b2, b3);
    WordExpand(b4, b5, b6, b7);
    assert TxWords(b, true).0 == [Word(b0, b1, b2, b3), Word(b4, b5, b6, b7)];
    FramedWords(b0, b1, b2, b3, b4, b5, b6, b7);
    assert TxWords(b, false).0 == [Sync + b0 * 0x1_0000 + b1 * 0x100_0000,
                                   b2 + b3 * 0x100 + b4 * 0x1_0000 + b5 * 0x100_0000,
                                   b6 + b7 * 0x100 + Sync * 0x1_0000];
  }

  /** A word is its bytes weighted by their place values. */
  lemma {:induction false} WordExpand(b0: int, b1: int, b2: int, b3: int)
    ensures Word(b0, b1, b2, b3) == b0 + b1 * 0x100 + b2 * 0x1_0000 + b3 * 0x100_0000
  {
  }

  /** `TxWordsFraming` over the eight bytes as plain numbers. */
  lemma {:induction false} FramedWords(b0: int, b1: int, b2: int, b3: int, b4: int, b5: int, b6: int, b7: int)
    requires IsByte(b0) && IsByte(b1) && IsByte(b2) && IsByte(b3)
    requires IsByte(b4) && IsByte(b5) && IsByte(b6) && IsByte(b7)
    ensures Framed([Word(b0, b1, b2, b3), Word(b4, b5, b6, b7)]) ==
      [Sync + b0 * 0x1_0000 + b1 * 0x100_0000,
       b2 + b3 * 0x100 + b4 * 0x1_0000 + b5 * 0x100_0000,
       b6 + b7 * 0x100 + Sync * 0x1_0000]
  {
    var h0, h1, h2, h3 := b0 + 256 * b1, b2 + 256 * b3, b4 + 256 * b5, b6 + 256 * b7;
    var lo, hi := Word(b0, b1, b2, b3), Word(b4, b5, b6, b7);
    assert lo == h1 * 0x1_0000 + h0 && hi == h3 * 0x1_0000 + h2;
    HalvesOf(lo, h0, h1);
    HalvesOf(hi, h2, h3);
    var p := [lo, hi];
    assert p[0] == lo && p[1] == hi;
    var f := Framed(p);
    assert f[0] == h0 * 0x1_0000 + Sync;
    assert f[1] == h2 * 0x1_0000 + h1;
    assert f[2] == Sync * 0x1_0000 + h3;
  }

  /** With the parity fix, the revision sends word for word what the
      current codec sends, its `send_sync` being the opposite of
      `sync_sent`. */
  lemma {:induction false} SendsCurrentPacket(t: Timecode, syncSent: bool)
    requires LtcFits(t)
    ensures TxWords(BuildPacketBytesFixed(t), syncSent).0 == ToLtcPacket(t.(cf := false), !syncSent)
  {
    FixedMatchesBytes(t);
    FixedMatchesPacket(t);
    TxWordsFraming(BuildPacketBytesFixed(t));
  }
}
