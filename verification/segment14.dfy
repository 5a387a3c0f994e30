/** libs/ht16k33segment14.py: the 4-digit 14-segment backpacks.  Two
    buffer layouts exist: boards wired like Adafruit's take each glyph as a
    low and a high byte per digit, with segments 11 and 13 swapped; the
    SparkFun board spreads each glyph over the even bytes, one bit per digit.
    The I2C write is left out. */
module Segment14 {
  import opened Wrappers

  const Adafruit: int := 0
  const SparkFun: int := 1
  const Unknown: int := 99

  const DotBit: bv16 := 0x4000
  const BlankChar: int := 62
  const DquoteChar: int := 64
  const DollarChar: int := 66
  const StarChar: int := 72
  const PlusChar: int := 73
  const MinusChar: int := 74
  const DivideChar: int := 75
  const CharCount: int := 76

  /** SparkFun board only: bit 0 of these bytes lights the colon and the
      decimal point. */
  const ColonByte: int := 1
  const DecimalByte: int := 3

  /** The character patterns, each the big-endian pair of bytes the
      source's table holds for it: 0-9, A-Z, a-z, then blank and symbols.
      Kept in four parts so each can be checked on its own. */
  const Glyphs0: seq<bv16> := [
    0x243F, 0x0006, 0x00DB, 0x008F, 0x00E6, 0x00ED, 0x00FD, 0x0007, 0x00FF, 0x00EF,
    0x00F7, 0x128F, 0x0039, 0x120F, 0x0079, 0x0071, 0x00BD, 0x00F6, 0x1209]
  const Glyphs1: seq<bv16> := [
    0x001E, 0x0C70, 0x0038, 0x0536, 0x0936, 0x003F, 0x00F3, 0x083F, 0x08F3, 0x00ED,
    0x1201, 0x003E, 0x2430, 0x2836, 0x2D00, 0x1500, 0x2409, 0x1058, 0x0878]
  const Glyphs2: seq<bv16> := [
    0x00D8, 0x208E, 0x2058, 0x2480, 0x048E, 0x1070, 0x1000, 0x0806, 0x1E00, 0x2030,
    0x10D4, 0x1050, 0x00DC, 0x0170, 0x0486, 0x0050, 0x0888, 0x0078, 0x001C]
  const Glyphs3: seq<bv16> := [
    0x0804, 0x2814, 0x2D00, 0x2500, 0x2048, 0x0000, 0x0006, 0x0220, 0x1083, 0x12ED,
    0x2424, 0x00E3, 0x0400, 0x0900, 0x2000, 0x3FC0, 0x12C0, 0x00C0, 0x2400]
  const Glyphs: seq<bv16> := Glyphs0 + Glyphs1 + Glyphs2 + Glyphs3

  datatype Display = Display(buffer: seq<bv8>, board: int)

  /** The state after a buffer write, and whether the write raised an
      exception part-way (the buffer keeps what was written before it). */
  datatype Written = Written(d: Display, raised: bool)

  predicate Inv(d: Display)
  {
    |d.buffer| == 16
  }

  /** The constructor's board choice: an unknown board is taken to be the
      SparkFun one unless the caller says the controller is an HT16K33. */
  function Init(isHt16k33: bool, board: int): (d: Display)
    ensures Inv(d) && forall i :: 0 <= i < 16 ==> d.buffer[i] == 0
    ensures board != Unknown ==> d.board == board
    ensures board == Unknown ==> (d.board == SparkFun <==> !isHt16k33) && (d.board == Adafruit <==> isHt16k33)
  {
    var b := if board == Unknown then (if !isHt16k33 then SparkFun else Adafruit) else board;
    Display(seq(16, _ => 0), b)
  }

  /** The 16-bit pattern of character `code`. */
  function Glyph(code: int): (g: bv16)
    requires 0 <= code < CharCount
  {
    Glyphs[code]
  }

  lemma {:induction false} Glyphs0Fit(i: int)
    requires 0 <= i < |Glyphs0|
    ensures Glyphs0[i] < 0x4000
  {
    assert forall k :: 0 <= k < |Glyphs0| ==> Glyphs0[k] < 0x4000;
  }

  lemma {:induction false} Glyphs1Fit(i: int)
    requires 0 <= i < |Glyphs1|
    ensures Glyphs1[i] < 0x4000
  {
    assert forall k :: 0 <= k < |Glyphs1| ==> Glyphs1[k] < 0x4000;
  }

  lemma {:induction false} Glyphs2Fit(i: int)
    requires 0 <= i < |Glyphs2|
    ensures Glyphs2[i] < 0x4000
  {
    assert forall k :: 0 <= k < |Glyphs2| ==> Glyphs2[k] < 0x4000;
  }

  lemma {:induction false} Glyphs3Fit(i: int)
    requires 0 <= i < |Glyphs3|
    ensures Glyphs3[i] < 0x4000
  {
    assert forall k :: 0 <= k < |Glyphs3| ==> Glyphs3[k] < 0x4000;
  }

  /** No character uses bit 15, nor the decimal-point bit 14. */
  lemma {:induction false} GlyphsFit(code: int)
    requires 0 <= code < CharCount
    ensures Glyph(code) & 0xC000 == 0
  {
    if code < 19 { Glyphs0Fit(code); }
    else if code < 38 { Glyphs1Fit(code - 19); }
    else if code < 57 { Glyphs2Fit(code - 38); }
    else { Glyphs3Fit(code - 57); }
  }

  /** The character-set index `set_character` looks up, or `None` where the
      source fails: symbols by equality, letters and digits by a substring
      test that also lets the empty string and runs such as "AB" through, to
      fail in `ord`. */
  function CharCode(s: string): (r: Option<int>)
    ensures r.Some? ==> 0 <= r.value < CharCount
    ensures r.Some? ==> |s| == 1
  {
    if s == "-" then Some(MinusChar)
    else if s == "*" then Some(StarChar)
    else if s == "+" then Some(PlusChar)
    else if s == " " then Some(BlankChar)
    else if s == "/" then Some(DivideChar)
    else if s == "$" then Some(DollarChar)
    else if s == ":" then Some(DquoteChar)
    else if |s| == 1 && '0' <= s[0] <= '9' then Some(s[0] as int - 48)
    else if |s| == 1 && 'A' <= s[0] <= 'Z' then Some(s[0] as int - 55)
    else if |s| == 1 && 'a' <= s[0] <= 'z' then Some(s[0] as int - 61)
    else None
  }

  /** Distinct strings never share a character, and digits and letters
      fill codes 0-61 in order. */
  lemma {:induction false} CharCodeInjective(s: string, t: string)
    requires CharCode(s).Some? && CharCode(s) == CharCode(t)
    ensures s == t
    ensures CharCode(s).value < 62 <==> ('0' <= s[0] <= '9' || 'A' <= s[0] <= 'Z' || 'a' <= s[0] <= 'z')
  {
    assert s == [s[0]] && t == [t[0]];
  }

  /** The 16-bit pattern's high byte with bits 3 and 5 (segments 11 and 13)
      exchanged, as Adafruit-wired boards expect. */
  function SwapSegments(m: bv8): (r: bv8)
    ensures r & 0xD7 == m & 0xD7
    ensures (r & 0x08 != 0 <==> m & 0x20 != 0) && (r & 0x20 != 0 <==> m & 0x08 != 0)
  {
    (m & 0xD7) | ((m & 0x08) << 2) | ((m & 0x20) >> 2)
  }

  lemma {:induction false} SwapSegmentsInvolution(m: bv8)
    ensures SwapSegments(SwapSegments(m)) == m
  {
  }

  /** The digit's pattern read back from an Adafruit-layout buffer. */
  function AdafruitGlyph(buf: seq<bv8>, digit: int): bv16
    requires |buf| == 16 && 0 <= digit < 4
  {
    (SwapSegments(buf[2 * digit + 1]) as bv16 << 8) | buf[2 * digit] as bv16
  }

  /** `_set_digit` on Adafruit-wired boards: the pattern, with bit 14 for
      the dot, goes low byte to byte 2d and swapped high byte to byte 2d+1;
      reading them back gives the pattern, and no other byte changes. */
  function AdafruitWrite(buf: seq<bv8>, value: bv16, digit: int, dot: bool): (r: seq<bv8>)
    requires |buf| == 16 && 0 <= digit < 4
    ensures |r| == 16
    ensures AdafruitGlyph(r, digit) == if dot then value | DotBit else value
    ensures forall a :: 0 <= a < 16 && a != 2 * digit && a != 2 * digit + 1 ==> r[a] == buf[a]
  {
    var v := if dot then value | DotBit else value;
    var msb := ((v >> 8) & 0xFF) as bv8;
    SwapSegmentsInvolution(msb);
    buf[2 * digit + 1 := SwapSegments(msb)][2 * digit := (v & 0xFF) as bv8]
  }

  /** SparkFun layout: pattern bit i lives in byte `Row(i)` ... */
  function Row(i: int): int
  {
    if i < 7 then 2 * i else 2 * (i - 7)
  }

  /** ... at this mask for the digit: `1 << digit` for pattern bits 0-6,
      `16 << digit` for bits 7-15. */
  function Lamp(i: int, digit: int): bv8
    requires 0 <= digit < 4
  {
    if i < 7 then [0x01, 0x02, 0x04, 0x08][digit] else [0x10, 0x20, 0x40, 0x80][digit]
  }

  /** The bits of every byte the digit owns. */
  function DigitMask(digit: int): bv8
    requires 0 <= digit < 4
  {
    [0x11, 0x22, 0x44, 0x88][digit]
  }

  predicate Bit(v: bv16, i: int)
    requires 0 <= i < 16
  {
    (v >> i) & 1 == 1
  }

  /** Whether pattern bit `i` of the digit is lit in a SparkFun buffer;
      bit 15 has no place in the 16-byte buffer. */
  predicate Lit(buf: seq<bv8>, i: int, digit: int)
    requires |buf| == 16 && 0 <= i < 15 && 0 <= digit < 4
  {
    buf[Row(i)] & Lamp(i, digit) != 0
  }

  /** A byte change that only sets bits, and only the digit's own. */
  predicate Keeps(x: bv8, y: bv8, digit: int)
    requires 0 <= digit < 4
  {
    y == x | (y & DigitMask(digit))
  }

  /** That is: every bit set before is still set, and outside the digit's
      bits nothing changed. */
  lemma {:induction false} KeepsMeans(x: bv8, y: bv8, digit: int)
    requires 0 <= digit < 4
    ensures Keeps(x, y, digit) <==> y & x == x && y & !DigitMask(digit) == x & !DigitMask(digit)
  {
  }

  predicate KeepsAll(buf: seq<bv8>, buf': seq<bv8>, digit: int)
    requires 0 <= digit < 4
  {
    |buf| == |buf'| == 16 && forall a :: 0 <= a < 16 ==> Keeps(buf[a], buf'[a], digit)
  }

  lemma {:induction false} KeepsTrans(b1: seq<bv8>, b2: seq<bv8>, b3: seq<bv8>, digit: int)
    requires 0 <= digit < 4 && KeepsAll(b1, b2, digit) && KeepsAll(b2, b3, digit)
    ensures KeepsAll(b1, b3, digit)
  {
    forall a | 0 <= a < 16
      ensures Keeps(b1[a], b3[a], digit)
    {
      var x, y, z := b1[a], b2[a], b3[a];
      assert Keeps(x, y, digit) && Keeps(y, z, digit);
    }
  }

  /** One step of the SparkFun loop: pattern bit `i` ORs its lamp into its
      byte. */
  function Light(buf: seq<bv8>, i: int, digit: int): (r: seq<bv8>)
    requires |buf| == 16 && 0 <= i < 15 && 0 <= digit < 4
    ensures |r| == 16
  {
    buf[Row(i) := buf[Row(i)] | Lamp(i, digit)]
  }

  /** Lighting one pattern bit lights its lamp and changes no other bit's
      lamp. */
  lemma {:induction false} LightOne(buf: seq<bv8>, i: int, digit: int)
    requires |buf| == 16 && 0 <= i < 15 && 0 <= digit < 4
    ensures Lit(Light(buf, i, digit), i, digit)
    ensures forall j :: 0 <= j < 15 && j != i ==> Lit(Light(buf, i, digit), j, digit) == Lit(buf, j, digit)
  {
    var b := Light(buf, i, digit);
    forall j | 0 <= j < 15 && j != i
      ensures Lit(b, j, digit) == Lit(buf, j, digit)
    {
      if Row(j) == Row(i) {
        var x, mi, mj := buf[Row(i)], Lamp(i, digit), Lamp(j, digit);
        assert mi & mj == 0;
        assert ((x | mi) & mj != 0) == (x & mj != 0);
      }
    }
  }

  /** Lighting one pattern bit only sets a bit of this digit. */
  lemma {:induction false} LightKeeps(buf: seq<bv8>, i: int, digit: int)
    requires |buf| == 16 && 0 <= i < 15 && 0 <= digit < 4
    ensures KeepsAll(buf, Light(buf, i, digit), digit)
  {
    var b := Light(buf, i, digit);
    var x, m := buf[Row(i)], Lamp(i, digit);
    LampOwned(i, digit);
    KeepsOr(x, m, digit);
    forall a | 0 <= a < 16
      ensures Keeps(buf[a], b[a], digit)
    {
      if a != Row(i) {
        assert b[a] == buf[a];
        KeepsSame(buf[a], digit);
      }
    }
  }

  lemma {:induction false} LampOwned(i: int, digit: int)
    requires 0 <= digit < 4
    ensures Lamp(i, digit) & !DigitMask(digit) == 0
  {
  }

  lemma {:induction false} KeepsOr(x: bv8, m: bv8, digit: int)
    requires 0 <= digit < 4 && m & !DigitMask(digit) == 0
    ensures Keeps(x, x | m, digit)
  {
  }

  lemma {:induction false} KeepsSame(x: bv8, digit: int)
    requires 0 <= digit < 4
    ensures Keeps(x, x, digit)
  {
  }

  /** The SparkFun loop of `_set_digit` from pattern bit `i` on; bit 15
      would go to byte 16, which raises IndexError after the earlier bits
      are written. */
  function SparkFunWrite(buf: seq<bv8>, value: bv16, digit: int, i: int): (r: (seq<bv8>, bool))
    requires |buf| == 16 && 0 <= digit < 4 && 0 <= i <= 16
    ensures |r.0| == 16
    ensures r.1 <==> i <= 15 && Bit(value, 15)
    decreases 16 - i
  {
    if i == 16 then (buf, false)
    else if !Bit(value, i) then SparkFunWrite(buf, value, digit, i + 1)
    else if Row(i) >= 16 then (buf, true)
    else SparkFunWrite(Light(buf, i, digit), value, digit, i + 1)
  }

  /** The loop lights exactly the lamps already lit and those of the
      pattern's bits from `i` to 14. */
  lemma {:induction false} SparkFunLamps(buf: seq<bv8>, value: bv16, digit: int, i: int)
    requires |buf| == 16 && 0 <= digit < 4 && 0 <= i <= 16
    ensures forall j :: 0 <= j < 15 ==>
      Lit(SparkFunWrite(buf, value, digit, i).0, j, digit) == (Lit(buf, j, digit) || (i <= j && Bit(value, j)))
    decreases 16 - i
  {
    if i < 16 && Bit(value, i) && Row(i) < 16 {
      LightOne(buf, i, digit);
      SparkFunLamps(Light(buf, i, digit), value, digit, i + 1);
    } else if i < 16 && !Bit(value, i) {
      SparkFunLamps(buf, value, digit, i + 1);
    }
  }

  /** The loop only sets bits, and only the digit's own. */
  lemma {:induction false} SparkFunKeeps(buf: seq<bv8>, value: bv16, digit: int, i: int)
    requires |buf| == 16 && 0 <= digit < 4 && 0 <= i <= 16
    ensures KeepsAll(buf, SparkFunWrite(buf, value, digit, i).0, digit)
    decreases 16 - i
  {
    if i < 16 && Bit(value, i) && Row(i) < 16 {
      LightKeeps(buf, i, digit);
      SparkFunKeeps(Light(buf, i, digit), value, digit, i + 1);
      KeepsTrans(buf, Light(buf, i, digit), SparkFunWrite(buf, value, digit, i).0, digit);
    } else if i < 16 && !Bit(value, i) {
      SparkFunKeeps(buf, value, digit, i + 1);
    } else {
      forall a | 0 <= a < 16
        ensures Keeps(buf[a], buf[a], digit)
      {
        KeepsSame(buf[a], digit);
      }
    }
  }

  /** `_set_digit(value, digit, has_dot)` as written.  The SparkFun path
      ignores the dot. */
  function SetDigit(d: Display, value: bv16, digit: int, dot: bool): (w: Written)
    requires Inv(d) && 0 <= digit < 4
    ensures Inv(w.d) && w.d.board == d.board
    ensures w.raised <==> d.board == SparkFun && Bit(value, 15)
    ensures d.board != SparkFun ==> w.d.buffer == AdafruitWrite(d.buffer, value, digit, dot)
    ensures d.board == SparkFun ==> w.d.buffer == SparkFunWrite(d.buffer, value, digit, 0).0
  {
    if d.board != SparkFun then Written(d.(buffer := AdafruitWrite(d.buffer, value, digit, dot)), false)
    else
      var (b, raised) := SparkFunWrite(d.buffer, value, digit, 0);
      Written(d.(buffer := b), raised)
  }

  /** `set_glyph(glyph, digit, has_dot)` as written: the assertions admit
      any pattern below 0xFFFF, bit 15 included. */
  function SetGlyph(d: Display, glyph: int, digit: int, dot: bool): (r: Option<Written>)
    requires Inv(d)
    ensures r.Some? <==> 0 <= digit < 4 && 0 <= glyph < 0xFFFF
    ensures r.Some? ==> r.value == SetDigit(d, glyph as bv16, digit, dot)
  {
    if !(0 <= digit < 4) || !(0 <= glyph < 0xFFFF) then None
    else Some(SetDigit(d, glyph as bv16, digit, dot))
  }

  /** On the SparkFun board a pattern the assertions accept makes the
      write raise: 0x8000 passes both checks and reaches byte 16. */
  lemma {:induction false} SetGlyphRaises(d: Display, digit: int)
    requires Inv(d) && d.board == SparkFun && 0 <= digit < 4
    ensures SetGlyph(d, 0x8000, digit, false).Some?
    ensures SetGlyph(d, 0x8000, digit, false).value.raised
  {
    assert Bit(0x8000, 15);
  }

  /** `set_glyph` with bit 15 dropped, as the description of the pattern
      ("bit 15 is not read by the display") intends: it never raises, and on
      the SparkFun board it lights exactly the old lamps plus the pattern's
      bits 0-14. */
  function SetGlyphFixed(d: Display, glyph: int, digit: int, dot: bool): (r: Option<Written>)
    requires Inv(d)
    ensures r.Some? <==> 0 <= digit < 4 && 0 <= glyph < 0xFFFF
    ensures r.Some? ==> !r.value.raised && Inv(r.value.d) && r.value.d.board == d.board
    ensures r.Some? && d.board == SparkFun ==>
      forall j :: 0 <= j < 15 ==> Lit(r.value.d.buffer, j, digit) == (Lit(d.buffer, j, digit) || Bit(glyph as bv16, j))
    ensures r.Some? && d.board != SparkFun ==>
      AdafruitGlyph(r.value.d.buffer, digit) == if dot then glyph as bv16 | DotBit else glyph as bv16
  {
    if !(0 <= digit < 4) || !(0 <= glyph < 0xFFFF) then None
    else if d.board == SparkFun then
      var g := glyph as bv16;
      var v := g & 0x7FFF;
      MaskLow(g);
      SparkFunLamps(d.buffer, v, digit, 0);
      var w := SetDigit(d, v, digit, dot);
      assert !w.raised && Inv(w.d) && w.d.board == d.board;
      Some(w)
    else Some(SetDigit(d, glyph as bv16, digit, dot))
  }

  /** The two agree whenever the pattern leaves bit 15 clear. */
  lemma {:induction false} SetGlyphFixedAgrees(d: Display, glyph: int, digit: int, dot: bool)
    requires Inv(d) && 0 <= glyph < 0xFFFF && !Bit(glyph as bv16, 15)
    ensures SetGlyphFixed(d, glyph, digit, dot) == SetGlyph(d, glyph, digit, dot)
  {
    LowBits(glyph as bv16);
  }

  /** Masking to bits 0-14 clears bit 15 and keeps the others. */
  lemma {:induction false} MaskLow(g: bv16)
    ensures !Bit(g & 0x7FFF, 15)
    ensures forall j :: 0 <= j < 15 ==> (Bit(g & 0x7FFF, j) <==> Bit(g, j))
  {
  }

  lemma {:induction false} LowBits(v: bv16)
    requires !Bit(v, 15)
    ensures v & 0x7FFF == v
  {
  }

  /** On the SparkFun board a write ORs the pattern into the digit's lamps
      and clears none, and leaves the other digits alone: a second character
      on the same digit shows both. */
  lemma {:induction false} SparkFunAccumulates(d: Display, g1: bv16, g2: bv16, digit: int)
    requires Inv(d) && d.board == SparkFun && 0 <= digit < 4
    ensures var d2 := SetDigit(SetDigit(d, g1, digit, false).d, g2, digit, false).d;
      (forall j :: 0 <= j < 15 ==> Lit(d2.buffer, j, digit) == (Lit(d.buffer, j, digit) || Bit(g1, j) || Bit(g2, j))) &&
      KeepsAll(d.buffer, d2.buffer, digit)
  {
    var d1 := SetDigit(d, g1, digit, false).d;
    var d2 := SetDigit(d1, g2, digit, false).d;
    SparkFunLamps(d.buffer, g1, digit, 0);
    SparkFunLamps(d1.buffer, g2, digit, 0);
    SparkFunKeeps(d.buffer, g1, digit, 0);
    SparkFunKeeps(d1.buffer, g2, digit, 0);
    KeepsTrans(d.buffer, d1.buffer, d2.buffer, digit);
  }

  /** `set_code(code, digit, has_dot)`: the character's pattern; it never
      raises, since no character uses bit 15. */
  function SetCode(d: Display, code: int, digit: int, dot: bool): (r: Option<Written>)
    requires Inv(d)
    ensures r.Some? <==> 0 <= digit < 4 && 0 <= code < CharCount
    ensures r.Some? ==> !r.value.raised && r.value == SetDigit(d, Glyph(code), digit, dot)
  {
    if !(0 <= digit < 4) || !(0 <= code < CharCount) then None
    else
      GlyphsFit(code);
      assert !Bit(Glyph(code), 15);
      Some(SetDigit(d, Glyph(code), digit, dot))
  }

  /** `set_character(char, digit, has_dot)`: the digit is checked, then the
      character; it shows the character's pattern. */
  function SetCharacter(d: Display, s: string, digit: int, dot: bool): (r: Option<Written>)
    requires Inv(d)
    ensures r.Some? <==> 0 <= digit < 4 && CharCode(s).Some?
    ensures r.Some? ==> r == SetCode(d, CharCode(s).value, digit, dot) && !r.value.raised
  {
    if !(0 <= digit < 4) then None
    else match CharCode(s) {
      case None => None
      case Some(k) => SetCode(d, k, digit, dot)
    }
  }

  /** `set_number(number, digit, has_dot)`: the digit's own character. */
  function SetNumber(d: Display, number: int, digit: int, dot: bool): (r: Option<Written>)
    requires Inv(d)
    ensures r.Some? <==> 0 <= digit < 4 && 0 <= number < 10
    ensures r.Some? ==> r == SetCode(d, number, digit, dot)
  {
    if !(0 <= digit < 4) || !(0 <= number < 10) then None
    else SetCharacter(d, [(number + 48) as char], digit, dot)
  }

  /** `_set_furniture(byte, state)`, behind `set_colon` and `set_decimal`:
      on the SparkFun board only bit 0 of that byte follows `on`; other
      boards are untouched. */
  function SetFurniture(d: Display, row: int, on: bool): (d': Display)
    requires Inv(d) && (row == ColonByte || row == DecimalByte)
    ensures Inv(d') && d'.board == d.board
    ensures d.board != SparkFun ==> d' == d
    ensures d.board == SparkFun ==> (d'.buffer[row] & 0x01 != 0 <==> on) &&
                                    d'.buffer[row] & 0xFE == d.buffer[row] & 0xFE
    ensures forall a :: 0 <= a < 16 && a != row ==> d'.buffer[a] == d.buffer[a]
  {
    if d.board != SparkFun then d
    else if on then d.(buffer := d.buffer[row := d.buffer[row] | 0x01])
    else d.(buffer := d.buffer[row := d.buffer[row] & 0xFE])
  }
}
