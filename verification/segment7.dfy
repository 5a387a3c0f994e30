/** libs/ht16k33segment.py: the 4-digit 7-segment backpack.  The driver
    keeps a 16-byte display buffer; digits live at bytes 0, 2, 6 and 8 and
    the colon at byte 4.  The I2C write in `_render` is left out. */
module Segment7 {
  import opened Wrappers

  const Pos: seq<int> := [0, 2, 6, 8]
  const ColonRow: int := 4
  const MinusChar: int := 0x10
  const DegreeChar: int := 0x11
  const SpaceChar: int := 0x12

  /** 0-9, a-f (lower case), minus, degree, space. */
  const Charset: seq<bv8> := [0x3F, 0x06, 0x5B, 0x4F, 0x66, 0x6D, 0x7D, 0x07, 0x7F, 0x6F,
                              0x5F, 0x7C, 0x58, 0x5E, 0x7B, 0x71, 0x40, 0x63, 0x00]
  /** The same with upper-case A, C and E. */
  const CharsetUc: seq<bv8> := [0x3F, 0x06, 0x5B, 0x4F, 0x66, 0x6D, 0x7D, 0x07, 0x7F, 0x6F,
                                0x77, 0x7C, 0x39, 0x5E, 0x79, 0x71, 0x40, 0x63, 0x00]

  datatype Display = Display(buffer: seq<bv8>, rotated: bool, upper: bool, charset: seq<bv8>)

  /** The driver's state between calls: a 16-byte buffer and the character
      set that matches the case setting. */
  predicate Inv(d: Display)
  {
    |d.buffer| == 16 && d.charset == (if d.upper then CharsetUc else Charset)
  }

  /** `HT16K33Segment(i2c)`: blank, not rotated, lower case. */
  function Init(): (d: Display)
    ensures Inv(d) && !d.rotated && !d.upper
    ensures forall i :: 0 <= i < 16 ==> d.buffer[i] == 0
  {
    Display(seq(16, _ => 0), false, false, Charset)
  }

  /** `rotate()` flips the rotation flag and nothing else. */
  function Rotate(d: Display): (d': Display)
    ensures d' == d.(rotated := !d.rotated)
  {
    d.(rotated := !d.rotated)
  }

  /** `set_colon(on)`: only byte 4 changes. */
  function SetColon(d: Display, on: bool): (d': Display)
    requires Inv(d)
    ensures Inv(d') && d' == d.(buffer := d'.buffer)
    ensures d'.buffer[ColonRow] == (if on then 0x02 else 0x00)
    ensures forall i :: 0 <= i < 16 && i != ColonRow ==> d'.buffer[i] == d.buffer[i]
  {
    d.(buffer := d.buffer[ColonRow := if on then 0x02 else 0x00])
  }

  /** A pattern with the decimal point (bit 7) set when `dot` holds. */
  function WithDot(g: bv8, dot: bool): (r: bv8)
    ensures r & 0x7F == g & 0x7F
    ensures r & 0x80 != 0 <==> dot || g & 0x80 != 0
  {
    if dot then g | 0x80 else g
  }

  /** A seven-bit pattern, with bit 7 for the dot, written to one digit's
      byte. */
  function WriteDigit(d: Display, g: bv8, digit: int, dot: bool): (d': Display)
    requires Inv(d) && 0 <= digit < 4 && g < 0x80
    ensures Inv(d') && d' == d.(buffer := d'.buffer)
    ensures d'.buffer[Pos[digit]] & 0x7F == g && (d'.buffer[Pos[digit]] & 0x80 != 0 <==> dot)
    ensures forall i :: 0 <= i < 16 && i != Pos[digit] ==> d'.buffer[i] == d.buffer[i]
  {
    assert g & 0x7F == g && g & 0x80 == 0;
    var w := WithDot(g, dot);
    d.(buffer := d.buffer[Pos[digit] := w])
  }

  /** `set_glyph(glyph, digit, dot)`: the digit and glyph are checked (a
      failed assertion is `None`); the glyph, with bit 7 for the dot, goes to
      the digit's byte only. */
  function SetGlyph(d: Display, glyph: int, digit: int, dot: bool): (r: Option<Display>)
    requires Inv(d)
    ensures r.Some? <==> 0 <= digit < 4 && 0 <= glyph < 0x80
    ensures r.Some? ==> Inv(r.value) && r.value == d.(buffer := r.value.buffer)
    ensures r.Some? ==> r.value.buffer[Pos[digit]] & 0x7F == glyph as bv8 &&
                        (r.value.buffer[Pos[digit]] & 0x80 != 0 <==> dot)
    ensures r.Some? ==> forall i :: 0 <= i < 16 && i != Pos[digit] ==> r.value.buffer[i] == d.buffer[i]
  {
    if !(0 <= digit < 4) || !(0 <= glyph < 0x80) then None
    else
      var g := glyph as bv8;
      assert g < 0x80;
      Some(WriteDigit(d, g, digit, dot))
  }

  /** `str.lower()` on ASCII letters; other characters are kept. */
  function Lower(s: string): (r: string)
    ensures |r| == |s|
    ensures forall i :: 0 <= i < |s| ==> r[i] == (if 'A' <= s[i] <= 'Z' then (s[i] as int + 32) as char else s[i])
  {
    seq(|s|, i requires 0 <= i < |s| => if 'A' <= s[i] <= 'Z' then (s[i] as int + 32) as char else s[i])
  }

  /** The character-set index `set_character` looks up, or `None` where
      the source fails.  The membership tests are substring tests, so the
      empty string and runs such as "ab" pass them and then fail in `ord`;
      only single characters get a code. */
  function CharCode(s: string): (r: Option<int>)
    ensures r.Some? ==> 0 <= r.value < |Charset|
  {
    var c := Lower(s);
    if c == "deg" then Some(DegreeChar)
    else if c == "-" then Some(MinusChar)
    else if c == " " then Some(SpaceChar)
    else if |c| == 1 && 'a' <= c[0] <= 'f' then Some(c[0] as int - 87)
    else if |c| == 1 && '0' <= c[0] <= '9' then Some(c[0] as int - 48)
    else None
  }

  /** The lower-case name of each code. */
  function CodeName(k: int): (s: string)
    requires 0 <= k < |Charset|
  {
    if k < 10 then [(k + 48) as char]
    else if k < 16 then [(k + 87) as char]
    else if k == MinusChar then "-"
    else if k == DegreeChar then "deg"
    else " "
  }

  /** Every code has its name, and a string gets a code exactly when its
      lower-case form is that name. */
  lemma {:induction false} CharCodeNames(s: string, k: int)
    requires 0 <= k < |Charset|
    ensures CharCode(CodeName(k)) == Some(k)
    ensures CharCode(s) == Some(k) <==> Lower(s) == CodeName(k)
  {
    NameIsLower(k);
    var c := Lower(s);
    if CharCode(s) == Some(k) {
      if |c| == 1 {
        assert c == [c[0]];
      }
    }
  }

  /** The names are already lower case. */
  lemma {:induction false} NameIsLower(k: int)
    requires 0 <= k < |Charset|
    ensures Lower(CodeName(k)) == CodeName(k)
  {
    var n := CodeName(k);
    var l := Lower(n);
    assert |l| == |n|;
    forall i | 0 <= i < |n|
      ensures l[i] == n[i]
    {
      assert !('A' <= n[i] <= 'Z');
    }
  }

  /** Upper-case letters show as their lower-case forms. */
  lemma {:induction false} CharCodeIgnoresCase(ch: char)
    requires 'A' <= ch <= 'F'
    ensures CharCode([ch]) == CharCode([(ch as int + 32) as char]) == Some(ch as int - 55)
  {
    assert Lower([ch]) == [(ch as int + 32) as char];
  }

  /** Neither character set uses the decimal-point bit. */
  lemma {:induction false} SevenBit(cs: seq<bv8>, k: int)
    requires cs == Charset || cs == CharsetUc
    requires 0 <= k < |cs|
    ensures cs[k] & 0x7F == cs[k] && cs[k] & 0x80 == 0
  {
    assert forall i :: 0 <= i < |Charset| ==> Charset[i] < 0x80;
    assert forall i :: 0 <= i < |CharsetUc| ==> CharsetUc[i] < 0x80;
    var g := cs[k];
    assert g < 0x80;
  }

  /** `set_character(char, digit, dot)`: the digit is checked first, then
      the character; the current character set's pattern, with the dot,
      goes to the digit's byte only. */
  function SetCharacter(d: Display, s: string, digit: int, dot: bool): (r: Option<Display>)
    requires Inv(d)
    ensures r.Some? <==> 0 <= digit < 4 && CharCode(s).Some?
    ensures r.Some? ==> Inv(r.value) && r.value == d.(buffer := r.value.buffer)
    ensures r.Some? ==> r.value.buffer[Pos[digit]] & 0x7F == d.charset[CharCode(s).value] &&
                        (r.value.buffer[Pos[digit]] & 0x80 != 0 <==> dot)
    ensures r.Some? ==> forall i :: 0 <= i < 16 && i != Pos[digit] ==> r.value.buffer[i] == d.buffer[i]
  {
    if !(0 <= digit < 4) then None
    else match CharCode(s) {
      case None => None
      case Some(k) =>
        var g := d.charset[k];
        SevenBit(d.charset, k);
        Some(WriteDigit(d, g, digit, dot))
    }
  }

  /** `set_number(number, digit, dot)`: the digit and number are checked,
      then the number's own character is shown. */
  function SetNumber(d: Display, number: int, digit: int, dot: bool): (r: Option<Display>)
    requires Inv(d)
    ensures r.Some? <==> 0 <= digit < 4 && 0 <= number < 10
    ensures r.Some? ==> Inv(r.value) && r.value == d.(buffer := r.value.buffer)
    ensures r.Some? ==> r.value.buffer[Pos[digit]] & 0x7F == d.charset[number] &&
                        (r.value.buffer[Pos[digit]] & 0x80 != 0 <==> dot)
    ensures r.Some? ==> forall i :: 0 <= i < 16 && i != Pos[digit] ==> r.value.buffer[i] == d.buffer[i]
  {
    if !(0 <= digit < 4) || !(0 <= number < 10) then None
    else
      var s := [(number + 48) as char];
      assert s == CodeName(number);
      CharCodeNames(s, number);
      SetCharacter(d, s, digit, dot)
  }

  /** `_set_case(upper)`: switches the character set only when the case
      setting changes. */
  function SetCase(d: Display, upper: bool): (d': Display)
    requires Inv(d)
    ensures Inv(d') && d'.upper == upper
    ensures d'.charset == (if upper then CharsetUc else Charset)
    ensures d' == d.(upper := upper, charset := d'.charset)
  {
    if d.upper != upper then d.(charset := if upper then CharsetUc else Charset, upper := upper)
    else d
  }

  /** Setting the same case twice is setting it once. */
  lemma {:induction false} SetCaseIdempotent(d: Display, upper: bool)
    requires Inv(d)
    ensures SetCase(SetCase(d, upper), upper) == SetCase(d, upper)
  {
  }

  /** The upside-down form of one digit: segments 0-2 trade places with
      3-5; the centre bar and the dot stay. */
  function Flip(a: bv8): (r: bv8)
    ensures r & 0xC0 == a & 0xC0
    ensures r & 0x07 == (a & 0x38) >> 3 && r & 0x38 == (a & 0x07) << 3
  {
    (a & 0xC0) | ((a & 0x07) << 3) | ((a & 0x38) >> 3)
  }

  /** Flipping twice restores the digit. */
  lemma {:induction false} FlipInvolution(a: bv8)
    ensures Flip(Flip(a)) == a
  {
  }

  /** The buffer change in `draw()`: on a rotated display digits 0 and 3
      and digits 1 and 2 trade places, each flipped; other bytes stay. */
  function Draw(d: Display): (d': Display)
    requires Inv(d)
    ensures Inv(d') && d' == d.(buffer := d'.buffer)
    ensures !d.rotated ==> d' == d
    ensures d.rotated ==> forall k :: 0 <= k < 4 ==> d'.buffer[Pos[k]] == Flip(d.buffer[Pos[3 - k]])
    ensures forall i :: 0 <= i < 16 && i !in Pos ==> d'.buffer[i] == d.buffer[i]
  {
    if !d.rotated then d
    else
      var b := d.buffer;
      var b' := b[0 := Flip(b[8])][2 := Flip(b[6])][6 := Flip(b[2])][8 := Flip(b[0])];
      SwapDigits(b, b');
      d.(buffer := b')
  }

  /** The four writes of `Draw` put each digit's flipped byte in its
      mirror position. */
  lemma {:induction false} SwapDigits(b: seq<bv8>, b': seq<bv8>)
    requires |b| == 16
    requires b' == b[0 := Flip(b[8])][2 := Flip(b[6])][6 := Flip(b[2])][8 := Flip(b[0])]
    ensures forall k :: 0 <= k < 4 ==> b'[Pos[k]] == Flip(b[Pos[3 - k]])
  {
    forall k | 0 <= k < 4
      ensures b'[Pos[k]] == Flip(b[Pos[3 - k]])
    {
      if k == 0 {
        assert Pos[k] == 0 && Pos[3 - k] == 8;
      } else if k == 1 {
        assert Pos[k] == 2 && Pos[3 - k] == 6;
      } else if k == 2 {
        assert Pos[k] == 6 && Pos[3 - k] == 2;
      } else {
        assert Pos[k] == 8 && Pos[3 - k] == 0;
      }
    }
  }

  /** Drawing a rotated display twice restores its buffer, so repeated
      draws alternate it; the colon byte is never touched. */
  lemma {:induction false} DrawTwice(d: Display)
    requires Inv(d)
    ensures Draw(Draw(d)) == d
    ensures Draw(d).buffer[ColonRow] == d.buffer[ColonRow]
  {
    if d.rotated {
      var b := d.buffer;
      FlipInvolution(b[0]); FlipInvolution(b[2]); FlipInvolution(b[6]); FlipInvolution(b[8]);
      assert Draw(Draw(d)).buffer == b;
    }
  }
}
