/** The 80-bit LTC codeword of SMPTE ST 12-1 as pico_timecode.py builds it:
    two 32-bit words of BCD time, user-bit nibbles and flag bits, followed by
    the 16-bit sync word, handed to the transmitter as whole 32-bit FIFO
    words.  Bit N below is bit N of the 64 data bits, so bits 0-31 are the
    first word and bits 32-63 the second. */
module Ltc {
  import opened Wrappers
  import opened Bits
  import opened TimecodeValue

  /** The sync word and its number of set bits. */
  const Sync: int := 0xBFFC
  const SyncOnes: int := 13

  /** Where the three binary-group flags go: bit 27, bit 43 (bit 11 of the
      second word) and bit 59 (bit 27 of the second word). */
  datatype Flags = Flags(f27: bool, f43: bool, f59: bool)

  /** At 25 fps BGF0 and BGF2 sit at bits 27 and 43 and bit 59 carries the
      polarity correction; at the other rates they sit at bits 43 and 59 and
      bit 27 carries the correction. */
  function Placement(t: Timecode): (fl: Flags)
    ensures t.fps == 25.0 ==> fl == Flags(t.bgf0, t.bgf2, false)
    ensures t.fps != 25.0 ==> fl == Flags(false, t.bgf0, t.bgf2)
  {
    if t.fps == 25.0 then Flags(t.bgf0, t.bgf2, false) else Flags(false, t.bgf0, t.bgf2)
  }

  /** The first data word before polarity correction, as the source sums
      its shifted fields. */
  function Word0(t: Timecode, f27: bool): int
  {
    var c := t.time;
    var u := t.user;
    u.uf2 * 0x1000 + B2I(t.cf) * 0x800 + B2I(t.df) * 0x400 +
    (TruncDiv(c.ff, 10) % 4) * 0x100 + u.uf1 * 0x10 + c.ff % 10 +
    u.uf4 * 0x1000_0000 + B2I(f27) * 0x800_0000 +
    (TruncDiv(c.ss, 10) % 8) * 0x100_0000 + u.uf3 * 0x10_0000 + (c.ss % 10) * 0x1_0000
  }

  /** The second data word before polarity correction. */
  function Word1(t: Timecode, f43: bool, f59: bool): int
  {
    var c := t.time;
    var u := t.user;
    u.uf6 * 0x1000 + B2I(f43) * 0x800 +
    (TruncDiv(c.mm, 10) % 8) * 0x100 + u.uf5 * 0x10 + c.mm % 10 +
    u.uf8 * 0x1000_0000 + B2I(f59) * 0x800_0000 + B2I(t.bgf1) * 0x400_0000 +
    (TruncDiv(c.hh, 10) % 4) * 0x100_0000 + u.uf7 * 0x10_0000 + (c.hh % 10) * 0x1_0000
  }

  /** `lp`: the number of set bits among the low 32, added up bit by bit. */
  function Lp(b: int): int
  {
    Sum(BitList(b, WordBits))
  }

  /** True when the codeword so far has an odd number of ones, counting the
      sync word. */
  function NeedsCorrection(p0: int, p1: int): bool
  {
    (SyncOnes + Lp(p0) + Lp(p1)) % 2 == 1
  }

  /** Polarity correction: when the count is odd, bit 27 of the second
      word is set at 25 fps and bit 27 of the first word otherwise. */
  function Correct(p0: int, p1: int, at25: bool): (p: seq<int>)
    ensures |p| == 2
  {
    if NeedsCorrection(p0, p1) then
      if at25 then [p0, p1 + 0x800_0000] else [p0 + 0x800_0000, p1]
    else [p0, p1]
  }

  /** The two data words of `to_ltc_packet`, polarity corrected. */
  function Packet(t: Timecode): (p: seq<int>)
    ensures |p| == 2
  {
    var fl := Placement(t);
    Correct(Word0(t, fl.f27), Word1(t, fl.f43, fl.f59), t.fps == 25.0)
  }

  /** `to_ltc_packet(send_sync)`: the two data words, or with `send_sync`
      three words carrying sync, the data split into 16-bit halves, and sync
      again. */
  function ToLtcPacket(t: Timecode, sendSync: bool): (r: seq<int>)
    ensures |r| == if sendSync then 3 else 2
  {
    if sendSync then Framed(Packet(t)) else Packet(t)
  }

  /** The `send_sync` form of two data words. */
  function Framed(p: seq<int>): (r: seq<int>)
    requires |p| == 2
    ensures |r| == 3
  {
    [Field(p[0], 0, 16) * 0x1_0000 + Sync,
     Field(p[1], 0, 16) * 0x1_0000 + Field(p[0], 16, 16),
     Sync * 0x1_0000 + Field(p[1], 16, 16)]
  }

  /** `from_ltc_packet(p)`: a list that is not two words long is refused
      and changes nothing.  Otherwise every field is overwritten from the
      words and the result is whether the frame number is below `int(fps)`.
      The colour-frame flag and the frame rate are not read. */
  function FromLtcPacket(t: Timecode, p: seq<int>): (r: (Timecode, bool))
    ensures |p| != 2 ==> r == (t, false)
    ensures |p| == 2 ==> r.0 == Decode(t, p[0], p[1]) && (r.1 <==> r.0.time.ff < TruncReal(t.fps))
  {
    if |p| != 2 then (t, false)
    else
      var u := Decode(t, p[0], p[1]);
      (u, !(u.time.ff >= TruncReal(u.fps)))
  }

  /** `from_ltc_packet` checking the frame number against the same label
      count as the rest of the class, `int(fps + 0.1)`. */
  function FromLtcPacketFixed(t: Timecode, p: seq<int>): (r: (Timecode, bool))
    ensures |p| != 2 ==> r == (t, false)
    ensures |p| == 2 ==> r.0 == Decode(t, p[0], p[1]) && (r.1 <==> r.0.time.ff < Nominal(t.fps))
  {
    if |p| != 2 then (t, false)
    else
      var u := Decode(t, p[0], p[1]);
      (u, u.time.ff < Nominal(u.fps))
  }

  /** The field reads of `from_ltc_packet`.  Each time field is a BCD tens
      field times ten plus a four-bit units field, so it stays below the
      widths allow; the user bits are nibbles. */
  function Decode(t: Timecode, p0: int, p1: int): (u: Timecode)
    ensures u.fps == t.fps && u.cf == t.cf
    ensures Nibbles(u.user)
    ensures 0 <= u.time.hh <= 45 && 0 <= u.time.mm <= 85 &&
            0 <= u.time.ss <= 85 && 0 <= u.time.ff <= 45
  {
    Pow2Table();
    var time := Time(Field(p1, 24, 2) * 10 + Field(p1, 16, 4),
                     Field(p1, 8, 3) * 10 + Field(p1, 0, 4),
                     Field(p0, 24, 3) * 10 + Field(p0, 16, 4),
                     Field(p0, 8, 2) * 10 + Field(p0, 0, 4));
    var user := UserBits(Field(p0, 4, 4), Field(p0, 12, 4), Field(p0, 20, 4), Field(p0, 28, 4),
                         Field(p1, 4, 4), Field(p1, 12, 4), Field(p1, 20, 4), Field(p1, 28, 4));
    t.(df := Field(p0, 10, 1) == 1, time := time, user := user,
       bgf0 := (if t.fps == 25.0 then Field(p0, 27, 1) else Field(p1, 11, 1)) == 1,
       bgf2 := (if t.fps == 25.0 then Field(p1, 11, 1) else Field(p1, 27, 1)) == 1,
       bgf1 := Field(p1, 26, 1) == 1)
  }

  /** Apart from the frame rate, which picks the flag positions, and the
      colour-frame flag, which is kept, the result depends on the two words
      alone. */
  lemma {:induction false} DecodeReadsOnlyWords(t: Timecode, t': Timecode, p0: int, p1: int)
    requires t'.fps == t.fps
    ensures Decode(t', p0, p1) == Decode(t, p0, p1).(cf := t'.cf)
  {
  }

  // ---------------------------------------------------------------------
  // The bytes of the codeword

  predicate IsNibble(x: int) { 0 <= x < 16 }

  predicate Nibbles(u: UserBits)
  {
    IsNibble(u.uf1) && IsNibble(u.uf2) && IsNibble(u.uf3) && IsNibble(u.uf4) &&
    IsNibble(u.uf5) && IsNibble(u.uf6) && IsNibble(u.uf7) && IsNibble(u.uf8)
  }

  /** The eight data bytes of the codeword, least significant first: each
      a BCD digit or tens field with its flags in the low nibble and a
      user-bit nibble in the high one. */
  function Bytes(t: Timecode, fl: Flags): (b: seq<int>)
    ensures |b| == 8
    ensures Nibbles(t.user) ==> forall i :: 0 <= i < 8 ==> IsByte(b[i])
  {
    var c := t.time;
    var u := t.user;
    [u.uf1 * 16 + c.ff % 10,
     u.uf2 * 16 + B2I(t.cf) * 8 + B2I(t.df) * 4 + TruncDiv(c.ff, 10) % 4,
     u.uf3 * 16 + c.ss % 10,
     u.uf4 * 16 + B2I(fl.f27) * 8 + TruncDiv(c.ss, 10) % 8,
     u.uf5 * 16 + c.mm % 10,
     u.uf6 * 16 + B2I(fl.f43) * 8 + TruncDiv(c.mm, 10) % 8,
     u.uf7 * 16 + c.hh % 10,
     u.uf8 * 16 + B2I(fl.f59) * 8 + B2I(t.bgf1) * 4 + TruncDiv(c.hh, 10) % 4]
  }

  /** The flags actually transmitted, polarity correction included. */
  function SentFlags(t: Timecode): (fl: Flags)
  {
    var pl := Placement(t);
    var odd := NeedsCorrection(Word0(t, pl.f27), Word1(t, pl.f43, pl.f59));
    if t.fps == 25.0 then pl.(f59 := odd) else pl.(f27 := odd)
  }

  function Lo(b: seq<int>): int requires |b| == 8 { Word(b[0], b[1], b[2], b[3]) }
  function Hi(b: seq<int>): int requires |b| == 8 { Word(b[4], b[5], b[6], b[7]) }

  /** Each data word is four codeword bytes packed little-endian. */
  lemma {:induction false} WordsAreBytes(t: Timecode, fl: Flags)
    ensures Word0(t, fl.f27) == Lo(Bytes(t, fl))
    ensures Word1(t, fl.f43, fl.f59) == Hi(Bytes(t, fl))
  {
  }

  /** The packet is the little-endian packing of the bytes with the sent
      flags: the correction bit is bit 27 of the first word, or at 25 fps
      bit 27 of the second, and it is set exactly when the uncorrected
      codeword has an odd number of ones. */
  lemma {:induction false} PacketLayout(t: Timecode)
    ensures Packet(t) == [Lo(Bytes(t, SentFlags(t))), Hi(Bytes(t, SentFlags(t)))]
  {
    var pl := Placement(t);
    var fl := SentFlags(t);
    WordsAreBytes(t, fl);
  }

  /** Setting bit 27 of a word whose top byte has bit 3 clear adds one to
      its count. */
  lemma {:induction false} LpTopFlag(x: int, b0: int, b1: int, b2: int, lo: int, hi: int)
    requires IsByte(b0) && IsByte(b1) && IsByte(b2) && 0 <= lo < 8 && 0 <= hi < 16
    requires x == Word(b0, b1, b2, lo + 16 * hi)
    ensures Lp(x + 0x800_0000) == Lp(x) + 1
  {
    var s := lo + 8 + 16 * hi;
    var c := lo + 16 * hi;
    assert Word(b0, b1, b2, s) == x + 0x800_0000;
    PopByteFlag(lo, hi);
    PopWordFlag(b0, b1, b2, s, c);
  }

  lemma {:induction false} PopWordFlag(b0: int, b1: int, b2: int, s: int, c: int)
    requires IsByte(b0) && IsByte(b1) && IsByte(b2) && IsByte(s) && IsByte(c)
    requires Pop(s, ByteBits) == Pop(c, ByteBits) + 1
    ensures Lp(Word(b0, b1, b2, s)) == Lp(Word(b0, b1, b2, c)) + 1
  {
    PopWord(b0, b1, b2, s);
    PopWord(b0, b1, b2, c);
    SumBitsIsPop(Word(b0, b1, b2, s), WordBits);
    SumBitsIsPop(Word(b0, b1, b2, c), WordBits);
  }

  /** With nibble-sized user bits the corrected codeword, sync included, has
      an even number of ones. */
  lemma {:induction false} PacketParityEven(t: Timecode)
    requires Nibbles(t.user)
    ensures var p := Packet(t); (SyncOnes + Lp(p[0]) + Lp(p[1])) % 2 == 0
  {
    var pl := Placement(t);
    FlagBitCounts(t);
    CorrectEven(Word0(t, pl.f27), Word1(t, pl.f43, pl.f59), t.fps == 25.0);
  }

  /** The correction bit is clear before correction, so setting it adds one
      to the count of its word. */
  lemma {:induction false} FlagBitCounts(t: Timecode)
    requires Nibbles(t.user)
    ensures var pl := Placement(t);
      var p0 := Word0(t, pl.f27); var p1 := Word1(t, pl.f43, pl.f59);
      (t.fps == 25.0 ==> Lp(p1 + 0x800_0000) == Lp(p1) + 1) &&
      (t.fps != 25.0 ==> Lp(p0 + 0x800_0000) == Lp(p0) + 1)
  {
    var pl := Placement(t);
    if t.fps == 25.0 {
      FlagBitCount1(t, pl.f43);
    } else {
      FlagBitCount0(t);
    }
  }

  lemma {:induction false} FlagBitCount0(t: Timecode)
    requires Nibbles(t.user)
    ensures Lp(Word0(t, false) + 0x800_0000) == Lp(Word0(t, false)) + 1
  {
    var c := t.time;
    var u := t.user;
    LpTopFlag(Word0(t, false), u.uf1 * 16 + c.ff % 10,
              u.uf2 * 16 + B2I(t.cf) * 8 + B2I(t.df) * 4 + TruncDiv(c.ff, 10) % 4,
              u.uf3 * 16 + c.ss % 10, TruncDiv(c.ss, 10) % 8, u.uf4);
  }

  lemma {:induction false} FlagBitCount1(t: Timecode, f43: bool)
    requires Nibbles(t.user)
    ensures Lp(Word1(t, f43, false) + 0x800_0000) == Lp(Word1(t, f43, false)) + 1
  {
    var c := t.time;
    var u := t.user;
    LpTopFlag(Word1(t, f43, false), u.uf5 * 16 + c.mm % 10,
              u.uf6 * 16 + B2I(f43) * 8 + TruncDiv(c.mm, 10) % 8,
              u.uf7 * 16 + c.hh % 10, B2I(t.bgf1) * 4 + TruncDiv(c.hh, 10) % 4, u.uf8);
  }

  /** The correction leaves an even count whenever setting the correction
      bit adds exactly one. */
  lemma {:induction false} CorrectEven(p0: int, p1: int, at25: bool)
    requires at25 ==> Lp(p1 + 0x800_0000) == Lp(p1) + 1
    requires !at25 ==> Lp(p0 + 0x800_0000) == Lp(p0) + 1
    ensures var p := Correct(p0, p1, at25); (SyncOnes + Lp(p[0]) + Lp(p[1])) % 2 == 0
  {
    var a, b := Lp(p0), Lp(p1);
    if NeedsCorrection(p0, p1) {
      if at25 {
        OneMoreIsEven(a, b, Lp(p1 + 0x800_0000));
      } else {
        OneMoreIsEven(b, a, Lp(p0 + 0x800_0000));
      }
    }
  }

  lemma {:induction false} OneMoreIsEven(a: int, b: int, c: int)
    requires (SyncOnes + a + b) % 2 == 1 && c == b + 1
    ensures (SyncOnes + a + c) % 2 == 0 && (SyncOnes + c + a) % 2 == 0
  {
  }

  /** The fields `from_ltc_packet` reads back are the codeword's fields. */
  predicate LtcFits(t: Timecode)
  {
    Nibbles(t.user) &&
    0 <= t.time.hh < 40 && 0 <= t.time.mm < 80 && 0 <= t.time.ss < 80 && 0 <= t.time.ff < 40
  }

  /** Reading the fields of a word assembled from in-range pieces at the
      first word's positions gives the pieces back. */
  lemma {:induction false} DecodeWord0(x: int, a: int, uf1: int, b: int, df: int, cf: int, uf2: int,
                                       c: int, uf3: int, e: int, f27: int, uf4: int)
    requires 0 <= a < 16 && 0 <= uf1 < 16 && 0 <= b < 4 && 0 <= df < 2 && 0 <= cf < 2 && 0 <= uf2 < 16
    requires 0 <= c < 16 && 0 <= uf3 < 16 && 0 <= e < 8 && 0 <= f27 < 2 && 0 <= uf4 < 16
    requires x == a + uf1 * 0x10 + b * 0x100 + df * 0x400 + cf * 0x800 + uf2 * 0x1000 + c * 0x1_0000 +
                  uf3 * 0x10_0000 + e * 0x100_0000 + f27 * 0x800_0000 + uf4 * 0x1000_0000
    ensures Field(x, 0, 4) == a && Field(x, 4, 4) == uf1 && Field(x, 8, 2) == b
    ensures Field(x, 10, 1) == df && Field(x, 11, 1) == cf && Field(x, 12, 4) == uf2
    ensures Field(x, 16, 4) == c && Field(x, 20, 4) == uf3 && Field(x, 24, 3) == e
    ensures Field(x, 27, 1) == f27 && Field(x, 28, 4) == uf4
  {
    Pow2Table();
    assert Field(x, 0, 4) == a by {
      FieldOf(x, 0, 4, 0, a, uf1 + b * 0x10 + df * 0x40 + cf * 0x80 + uf2 * 0x100 + c * 0x1000 + uf3 * 0x10000 + e * 0x100000 + f27 * 0x800000 + uf4 * 0x1000000);
    }
    assert Field(x, 4, 4) == uf1 by {
      FieldOf(x, 4, 4, a, uf1, b + df * 0x4 + cf * 0x8 + uf2 * 0x10 + c * 0x100 + uf3 * 0x1000 + e * 0x10000 + f27 * 0x80000 + uf4 * 0x100000);
    }
    assert Field(x, 8, 2) == b by {
      FieldOf(x, 8, 2, a + uf1 * 0x10, b, df + cf * 0x2 + uf2 * 0x4 + c * 0x40 + uf3 * 0x400 + e * 0x4000 + f27 * 0x20000 + uf4 * 0x40000);
    }
    assert Field(x, 10, 1) == df by {
      FieldOf(x, 10, 1, a + uf1 * 0x10 + b * 0x100, df, cf + uf2 * 0x2 + c * 0x20 + uf3 * 0x200 + e * 0x2000 + f27 * 0x10000 + uf4 * 0x20000);
    }
    assert Field(x, 11, 1) == cf by {
      FieldOf(x, 11, 1, a + uf1 * 0x10 + b * 0x100 + df * 0x400, cf, uf2 + c * 0x10 + uf3 * 0x100 + e * 0x1000 + f27 * 0x8000 + uf4 * 0x10000);
    }
    assert Field(x, 12, 4) == uf2 by {
      FieldOf(x, 12, 4, a + uf1 * 0x10 + b * 0x100 + df * 0x400 + cf * 0x800, uf2, c + uf3 * 0x10 + e * 0x100 + f27 * 0x800 + uf4 * 0x1000);
    }
    assert Field(x, 16, 4) == c by {
      FieldOf(x, 16, 4, a + uf1 * 0x10 + b * 0x100 + df * 0x400 + cf * 0x800 + uf2 * 0x1000, c, uf3 + e * 0x10 + f27 * 0x80 + uf4 * 0x100);
    }
    assert Field(x, 20, 4) == uf3 by {
      FieldOf(x, 20, 4, a + uf1 * 0x10 + b * 0x100 + df * 0x400 + cf * 0x800 + uf2 * 0x1000 + c * 0x10000, uf3, e + f27 * 0x8 + uf4 * 0x10);
    }
    assert Field(x, 24, 3) == e by {
      FieldOf(x, 24, 3, a + uf1 * 0x10 + b * 0x100 + df * 0x400 + cf * 0x800 + uf2 * 0x1000 + c * 0x10000 + uf3 * 0x100000, e, f27 + uf4 * 0x2);
    }
    assert Field(x, 27, 1) == f27 by {
      FieldOf(x, 27, 1, a + uf1 * 0x10 + b * 0x100 + df * 0x400 + cf * 0x800 + uf2 * 0x1000 + c * 0x10000 + uf3 * 0x100000 + e * 0x1000000, f27, uf4);
    }
    assert Field(x, 28, 4) == uf4 by {
      FieldOf(x, 28, 4, a + uf1 * 0x10 + b * 0x100 + df * 0x400 + cf * 0x800 + uf2 * 0x1000 + c * 0x10000 + uf3 * 0x100000 + e * 0x1000000 + f27 * 0x8000000, uf4, 0);
    }  }

  /** The same for the second word's positions. */
  lemma {:induction false} DecodeWord1(x: int, a: int, uf5: int, b: int, f43: int, uf6: int,
                                       c: int, uf7: int, e: int, bgf1: int, f59: int, uf8: int)
    requires 0 <= a < 16 && 0 <= uf5 < 16 && 0 <= b < 8 && 0 <= f43 < 2 && 0 <= uf6 < 16
    requires 0 <= c < 16 && 0 <= uf7 < 16 && 0 <= e < 4 && 0 <= bgf1 < 2 && 0 <= f59 < 2 && 0 <= uf8 < 16
    requires x == a + uf5 * 0x10 + b * 0x100 + f43 * 0x800 + uf6 * 0x1000 + c * 0x1_0000 +
                  uf7 * 0x10_0000 + e * 0x100_0000 + bgf1 * 0x400_0000 + f59 * 0x800_0000 + uf8 * 0x1000_0000
    ensures Field(x, 0, 4) == a && Field(x, 4, 4) == uf5 && Field(x, 8, 3) == b
    ensures Field(x, 11, 1) == f43 && Field(x, 12, 4) == uf6
    ensures Field(x, 16, 4) == c && Field(x, 20, 4) == uf7 && Field(x, 24, 2) == e
    ensures Field(x, 26, 1) == bgf1 && Field(x, 27, 1) == f59 && Field(x, 28, 4) == uf8
  {
    Pow2Table();
    assert Field(x, 0, 4) == a by {
      FieldOf(x, 0, 4, 0, a, uf5 + b * 0x10 + f43 * 0x80 + uf6 * 0x100 + c * 0x1000 + uf7 * 0x10000 + e * 0x100000 + bgf1 * 0x400000 + f59 * 0x800000 + uf8 * 0x1000000);
    }
    assert Field(x, 4, 4) == uf5 by {
      FieldOf(x, 4, 4, a, uf5, b + f43 * 0x8 + uf6 * 0x10 + c * 0x100 + uf7 * 0x1000 + e * 0x10000 + bgf1 * 0x40000 + f59 * 0x80000 + uf8 * 0x100000);
    }
    assert Field(x, 8, 3) == b by {
      FieldOf(x, 8, 3, a + uf5 * 0x10, b, f43 + uf6 * 0x2 + c * 0x20 + uf7 * 0x200 + e * 0x2000 + bgf1 * 0x8000 + f59 * 0x10000 + uf8 * 0x20000);
    }
    assert Field(x, 11, 1) == f43 by {
      FieldOf(x, 11, 1, a + uf5 * 0x10 + b * 0x100, f43, uf6 + c * 0x10 + uf7 * 0x100 + e * 0x1000 + bgf1 * 0x4000 + f59 * 0x8000 + uf8 * 0x10000);
    }
    assert Field(x, 12, 4) == uf6 by {
      FieldOf(x, 12, 4, a + uf5 * 0x10 + b * 0x100 + f43 * 0x800, uf6, c + uf7 * 0x10 + e * 0x100 + bgf1 * 0x400 + f59 * 0x800 + uf8 * 0x1000);
    }
    assert Field(x, 16, 4) == c by {
      FieldOf(x, 16, 4, a + uf5 * 0x10 + b * 0x100 + f43 * 0x800 + uf6 * 0x1000, c, uf7 + e * 0x10 + bgf1 * 0x40 + f59 * 0x80 + uf8 * 0x100);
    }
    assert Field(x, 20, 4) == uf7 by {
      FieldOf(x, 20, 4, a + uf5 * 0x10 + b * 0x100 + f43 * 0x800 + uf6 * 0x1000 + c * 0x10000, uf7, e + bgf1 * 0x4 + f59 * 0x8 + uf8 * 0x10);
    }
    assert Field(x, 24, 2) == e by {
      FieldOf(x, 24, 2, a + uf5 * 0x10 + b * 0x100 + f43 * 0x800 + uf6 * 0x1000 + c * 0x10000 + uf7 * 0x100000, e, bgf1 + f59 * 0x2 + uf8 * 0x4);
    }
    assert Field(x, 26, 1) == bgf1 by {
      FieldOf(x, 26, 1, a + uf5 * 0x10 + b * 0x100 + f43 * 0x800 + uf6 * 0x1000 + c * 0x10000 + uf7 * 0x100000 + e * 0x1000000, bgf1, f59 + uf8 * 0x2);
    }
    assert Field(x, 27, 1) == f59 by {
      FieldOf(x, 27, 1, a + uf5 * 0x10 + b * 0x100 + f43 * 0x800 + uf6 * 0x1000 + c * 0x10000 + uf7 * 0x100000 + e * 0x1000000 + bgf1 * 0x4000000, f59, uf8);
    }
    assert Field(x, 28, 4) == uf8 by {
      FieldOf(x, 28, 4, a + uf5 * 0x10 + b * 0x100 + f43 * 0x800 + uf6 * 0x1000 + c * 0x10000 + uf7 * 0x100000 + e * 0x1000000 + bgf1 * 0x4000000 + f59 * 0x8000000, uf8, 0);
    }  }

  /** The packet is the two uncorrected words rebuilt with the sent flags. */
  lemma {:induction false} PacketIsSent(t: Timecode)
    ensures var fl := SentFlags(t);
      Packet(t) == [Word0(t, fl.f27), Word1(t, fl.f43, fl.f59)]
  {
  }

  /** Decoding a packet built from a value whose fields fit the codeword
      gives back every field except the colour-frame flag, which is not
      read, when both sides agree on the frame rate. */
  lemma {:induction false} DecodePacket(t: Timecode, into: Timecode)
    requires LtcFits(t) && into.fps == t.fps
    ensures Decode(into, Packet(t)[0], Packet(t)[1]) == t.(cf := into.cf)
  {
    var fl := SentFlags(t);
    PacketIsSent(t);
    DecodeWords(t, into, fl);
  }

  /** Decoding the two words read the flags from where `Placement` put
      them; the correction bit is never read back. */
  lemma {:induction false} DecodeWords(t: Timecode, into: Timecode, fl: Flags)
    requires LtcFits(t) && into.fps == t.fps
    requires t.fps == 25.0 ==> fl.f27 == t.bgf0 && fl.f43 == t.bgf2
    requires t.fps != 25.0 ==> fl.f43 == t.bgf0 && fl.f59 == t.bgf2
    ensures Decode(into, Word0(t, fl.f27), Word1(t, fl.f43, fl.f59)) == t.(cf := into.cf)
  {
    var c := t.time;
    var u := t.user;
    var p0, p1 := Word0(t, fl.f27), Word1(t, fl.f43, fl.f59);
    FieldsOfWord0(t, fl.f27);
    FieldsOfWord1(t, fl.f43, fl.f59);
    var d := Decode(into, p0, p1);
    assert d.time == c by {
      Digits(c.ff, 4);
      Digits(c.ss, 8);
      Digits(c.mm, 8);
      Digits(c.hh, 4);
    }
    assert d.user == u;
  }

  /** The fields of the first word are the value's digits, user bits and
      flags. */
  lemma {:induction false} FieldsOfWord0(t: Timecode, f27: bool)
    requires LtcFits(t)
    ensures var c, u, p0 := t.time, t.user, Word0(t, f27);
      Field(p0, 0, 4) == c.ff % 10 && Field(p0, 4, 4) == u.uf1 &&
      Field(p0, 8, 2) == TruncDiv(c.ff, 10) % 4 && Field(p0, 10, 1) == B2I(t.df) &&
      Field(p0, 12, 4) == u.uf2 && Field(p0, 16, 4) == c.ss % 10 && Field(p0, 20, 4) == u.uf3 &&
      Field(p0, 24, 3) == TruncDiv(c.ss, 10) % 8 && Field(p0, 27, 1) == B2I(f27) &&
      Field(p0, 28, 4) == u.uf4
  {
    var c := t.time;
    var u := t.user;
    DecodeWord0(Word0(t, f27), c.ff % 10, u.uf1, TruncDiv(c.ff, 10) % 4, B2I(t.df), B2I(t.cf), u.uf2,
                c.ss % 10, u.uf3, TruncDiv(c.ss, 10) % 8, B2I(f27), u.uf4);
  }

  /** The fields of the second word. */
  lemma {:induction false} FieldsOfWord1(t: Timecode, f43: bool, f59: bool)
    requires LtcFits(t)
    ensures var c, u, p1 := t.time, t.user, Word1(t, f43, f59);
      Field(p1, 0, 4) == c.mm % 10 && Field(p1, 4, 4) == u.uf5 &&
      Field(p1, 8, 3) == TruncDiv(c.mm, 10) % 8 && Field(p1, 11, 1) == B2I(f43) &&
      Field(p1, 12, 4) == u.uf6 && Field(p1, 16, 4) == c.hh % 10 && Field(p1, 20, 4) == u.uf7 &&
      Field(p1, 24, 2) == TruncDiv(c.hh, 10) % 4 && Field(p1, 26, 1) == B2I(t.bgf1) &&
      Field(p1, 27, 1) == B2I(f59) && Field(p1, 28, 4) == u.uf8
  {
    var c := t.time;
    var u := t.user;
    DecodeWord1(Word1(t, f43, f59), c.mm % 10, u.uf5, TruncDiv(c.mm, 10) % 8, B2I(f43), u.uf6,
                c.hh % 10, u.uf7, TruncDiv(c.hh, 10) % 4, B2I(t.bgf1), B2I(f59), u.uf8);
  }

  /** A BCD tens field `m` wide and a units digit give the number back. */
  lemma {:induction false} Digits(x: int, m: int)
    requires 0 <= x < 10 * m
    ensures (TruncDiv(x, 10) % m) * 10 + x % 10 == x
  {
  }

  /** `from_ltc_packet(to_ltc_packet(False))` restores the value, and the
      corrected check accepts it exactly when its frame number is in range. */
  lemma {:induction false} LtcRoundTrip(t: Timecode, into: Timecode)
    requires LtcFits(t) && into.fps == t.fps
    ensures FromLtcPacketFixed(into, ToLtcPacket(t, false)) == (t.(cf := into.cf), t.time.ff < Nominal(t.fps))
    ensures Valid(t) ==> FromLtcPacketFixed(into, ToLtcPacket(t, false)).1
  {
    DecodePacket(t, into);
  }

  /** At 29.97 fps a valid frame 29 survives the trip through the codeword
      but `from_ltc_packet` reports it as bad, because `int(29.97)` is 29. */
  lemma {:induction false} FromLtcPacketRejectsLastFrame()
    ensures var t := Default().(fps := 29.97, df := true, time := Time(0, 0, 0, 29));
      Valid(t) && LtcFits(t) &&
      FromLtcPacket(t, ToLtcPacket(t, false)) == (t, false)
  {
    var t := Default().(fps := 29.97, df := true, time := Time(0, 0, 0, 29));
    assert Nominal(t.fps) == 30;
    assert TruncReal(t.fps) == 29;
    DecodePacket(t, t);
  }

  /** With `send_sync` the three words carry, low half first, the sync word,
      the four 16-bit halves of the data, and the sync word again. */
  lemma {:induction false} SyncFraming(p: seq<int>)
    requires |p| == 2
    ensures var r := Framed(p);
      Field(r[0], 0, 16) == Sync && Field(r[0], 16, 16) == Field(p[0], 0, 16) &&
      Field(r[1], 0, 16) == Field(p[0], 16, 16) && Field(r[1], 16, 16) == Field(p[1], 0, 16) &&
      Field(r[2], 0, 16) == Field(p[1], 16, 16) && Field(r[2], 16, 16) == Sync
  {
    var r := Framed(p);
    Pow2Table();
    HalvesOf(r[0], Sync, Field(p[0], 0, 16));
    HalvesOf(r[1], Field(p[0], 16, 16), Field(p[1], 0, 16));
    HalvesOf(r[2], Field(p[1], 16, 16), Sync);
  }

  lemma {:induction false} HalvesOf(x: int, lo: int, hi: int)
    requires 0 <= lo < 0x1_0000 && 0 <= hi < 0x1_0000 && x == hi * 0x1_0000 + lo
    ensures Field(x, 0, 16) == lo && Field(x, 16, 16) == hi
  {
    Pow2Table();
    FieldOf(x, 0, 16, 0, lo, hi);
    FieldOf(x, 16, 16, lo, hi, 0);
  }
}
