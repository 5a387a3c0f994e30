/** The user-bit text forms of pico_timecode.py's timecode class.  The
    binary-group flags say how the eight nibbles are read: BGF0 clear and
    BGF2 clear is eight hex digits, BGF0 clear and BGF2 set is a date and a
    time-zone code, BGF0 set and BGF2 clear is four ASCII characters, and
    both set is a page/line reference that is not decoded.  BGF1 marks a
    timecode referenced to real time. */
module UserText {
  import opened Wrappers
  import opened Bits
  import opened Text
  import opened TimecodeValue

  /** The time-zone names by code, after the table of
      http://www.barney-wol.net/time/timecode.html. */
  const Tzs: seq<string> := ["+0000"] + [
             "-0100", "-0200", "-0300", "-0400", "-0500", "-0600", "-0700", "-0800", "-0900",
    "-0030", "-0130", "-0230", "-0330", "-0430", "-0530",
    "-1000", "-1100", "-1200", "+1300", "+1200", "+1100", "+1000", "+0900", "+0800", "+0700",
    "-0630", "-0730", "-0830", "-0930", "-1030", "-1130",
    "+0600", "+0500", "+0400", "+0300", "+0200", "+0100", "Undef", "Undef", "TP-03", "TP-02",
    "+1130", "+1030", "+0930", "+0830", "+0730", "+0630",
    "TP-01", "TP-00", "+1245", "Undef", "Undef", "Undef", "Undef", "Undef", "+XXXX", "Undef",
    "+0530", "+0430", "+0330", "+0230", "+0130", "+0030"]

  /** `dehex`: the codes of '0'-'9' then 'A'-'F'. */
  const Dehex: seq<int> := [0x30, 0x31, 0x32, 0x33, 0x34, 0x35, 0x36, 0x37,
                            0x38, 0x39, 0x41, 0x42, 0x43, 0x44, 0x45, 0x46]

  // ---------------------------------------------------------------------
  // Rendering

  /** `dehex[x]` for each `x`, failing like Python on an index outside
      -16..15. */
  function HexCodes(xs: seq<int>): (r: Option<seq<int>>)
    ensures r.Some? <==> (forall i :: 0 <= i < |xs| ==> -16 <= xs[i] < 16)
    ensures r.Some? ==> |r.value| == |xs|
    ensures r.Some? ==> forall i :: 0 <= i < |xs| ==> Some(r.value[i]) == PyIndex(Dehex, xs[i])
  {
    if xs == [] then Some([])
    else match PyIndex(Dehex, xs[0]) {
      case None => None
      case Some(c) =>
        match HexCodes(xs[1..]) {
          case None => None
          case Some(rest) => Some([c] + rest)
        }
    }
  }

  /** The date form's codes: "Y", two year digits, "-M", two month digits,
      "-D", two day digits, each nibble plus '0'. */
  function DateCodes(u: UserBits): (r: seq<int>)
    ensures |r| == 11
  {
    [0x59, 0x30 + u.uf6, 0x30 + u.uf5, 0x2D,
     0x4D, 0x30 + u.uf4, 0x30 + u.uf3, 0x2D,
     0x44, 0x30 + u.uf2, 0x30 + u.uf1]
  }

  /** The ASCII form's codes: each pair of nibbles, high nibble second. */
  function CharCodes(u: UserBits): (r: seq<int>)
    ensures |r| == 4
  {
    [u.uf2 * 16 + u.uf1, u.uf4 * 16 + u.uf3, u.uf6 * 16 + u.uf5, u.uf8 * 16 + u.uf7]
  }

  /** The time-zone name the date form appends for code `i`: the table
      entry when `i` is below the table length (negative codes index from
      the end, as in Python), otherwise entry 0. */
  function TzName(i: int): (r: Option<string>)
    ensures 0 <= i < |Tzs| ==> r == Some(Tzs[i])
    ensures i >= |Tzs| ==> r == Some(Tzs[0])
    ensures r.None? <==> i < -|Tzs|
  {
    if i < |Tzs| then PyIndex(Tzs, i) else Some(Tzs[0])
  }

  function Prefix(t: Timecode): string
  {
    if t.bgf1 then "*" else ""
  }

  /** `user_to_ascii()`.  `None` stands for the IndexError or ValueError the
      Python code raises on nibbles that no hex digit or character fits. */
  function UserToAscii(t: Timecode): (r: Option<string>)
    ensures t.bgf0 && t.bgf2 ==> r == Some("Page/Line NA")
    ensures r.Some? && !(t.bgf0 && t.bgf2) ==>
              |r.value| >= |Prefix(t)| && r.value[..|Prefix(t)|] == Prefix(t)
    ensures r.Some? && !t.bgf0 && !t.bgf2 ==> |r.value| == |Prefix(t)| + 8
    ensures r.Some? && !t.bgf0 && t.bgf2 ==> |r.value| >= |Prefix(t)| + 11
    ensures r.Some? && t.bgf0 && !t.bgf2 ==> |r.value| == |Prefix(t)| + 4
  {
    if t.bgf0 && t.bgf2 then Some("Page/Line NA")
    else
      var body := if !t.bgf0 && !t.bgf2 then HexText(t.user)
                  else if !t.bgf0 then DateText(t.user)
                  else CharText(t.user);
      match body {
        case None => None
        case Some(s) => Some(Prefix(t) + s)
      }
  }

  /** The hex form: the nibbles as hex digits, uf8 first. */
  function HexText(u: UserBits): (r: Option<string>)
    ensures r.Some? ==> |r.value| == 8
  {
    match HexCodes([u.uf8, u.uf7, u.uf6, u.uf5, u.uf4, u.uf3, u.uf2, u.uf1]) {
      case None => None
      case Some(codes) => Chrs(codes)
    }
  }

  /** The date form followed by the time-zone name of code `uf8 * 16 + uf7`. */
  function DateText(u: UserBits): (r: Option<string>)
    ensures r.Some? ==> |r.value| >= 11
  {
    match Chrs(DateCodes(u)) {
      case None => None
      case Some(s) =>
        match TzName(u.uf8 * 16 + u.uf7) {
          case None => None
          case Some(z) => Some(s + z)
        }
    }
  }

  /** The ASCII form: four characters. */
  function CharText(u: UserBits): (r: Option<string>)
    ensures r.Some? ==> |r.value| == 4
  {
    Chrs(CharCodes(u))
  }

  predicate IsNibble(x: int) { 0 <= x < 16 }

  predicate Nibbles(u: UserBits)
  {
    IsNibble(u.uf1) && IsNibble(u.uf2) && IsNibble(u.uf3) && IsNibble(u.uf4) &&
    IsNibble(u.uf5) && IsNibble(u.uf6) && IsNibble(u.uf7) && IsNibble(u.uf8)
  }

  /** Nibble-sized user bits always render, in every mode. */
  lemma {:induction false} NibblesRender(t: Timecode)
    requires Nibbles(t.user)
    ensures UserToAscii(t).Some?
  {
    var u := t.user;
    HexRenders([u.uf8, u.uf7, u.uf6, u.uf5, u.uf4, u.uf3, u.uf2, u.uf1]);
    assert forall i :: 0 <= i < 11 ==> IsScalar(DateCodes(u)[i]);
    assert forall i :: 0 <= i < 4 ==> IsScalar(CharCodes(u)[i]);
    assert HexText(u).Some? && DateText(u).Some? && CharText(u).Some?;
  }

  /** Nibbles always have a hex digit. */
  lemma {:induction false} HexRenders(xs: seq<int>)
    requires forall i :: 0 <= i < |xs| ==> 0 <= xs[i] < 16
    ensures HexCodes(xs).Some? && Chrs(HexCodes(xs).value).Some?
  {
    var codes := HexCodes(xs).value;
    forall i | 0 <= i < |xs| ensures IsScalar(codes[i]) {
      assert Some(codes[i]) == PyIndex(Dehex, xs[i]);
    }
  }

  /** The constructor's user bits read "PICO". */
  lemma {:induction false} DefaultReadsPico()
    ensures UserToAscii(Default()) == Some("PICO")
  {
    var s := CharText(Default().user).value;
    assert Ords(s) == Ords("PICO");
    OrdsInjective(s, "PICO");
  }

  /** Two strings with the same code points are the same string. */
  lemma {:induction false} OrdsInjective(a: string, b: string)
    requires Ords(a) == Ords(b)
    ensures a == b
  {
    assert |a| == |b|;
    forall i | 0 <= i < |a| ensures a[i] == b[i] {
      assert Ords(a)[i] == Ords(b)[i];
    }
  }

  // ---------------------------------------------------------------------
  // ASCII user bits

  /** `user_from_ascii(asc)`: the first four UTF-8 bytes of `asc` padded
      with spaces, low nibble first; ASCII mode is selected. */
  function UserFromAscii(t: Timecode, asc: string): (r: Timecode)
    ensures r.bgf0 && !r.bgf2 && Nibbles(r.user)
    ensures r == t.(bgf0 := true, bgf2 := false, user := r.user)
  {
    var b := Utf8(asc + "    ");
    assert |b| >= 4 by { Utf8Append(asc, "    "); }
    t.(bgf0 := true, bgf2 := false,
       user := UserBits(Field(b[0], 0, 4), Field(b[0], 4, 4), Field(b[1], 0, 4), Field(b[1], 4, 4),
                        Field(b[2], 0, 4), Field(b[2], 4, 4), Field(b[3], 0, 4), Field(b[3], 4, 4)))
  }

  /** A byte is its low nibble plus sixteen times its high nibble. */
  lemma {:induction false} NibblePair(b: int)
    requires 0 <= b < 256
    ensures Field(b, 4, 4) * 16 + Field(b, 0, 4) == b
  {
    Pow2Table();
    assert Pow2(0) == 1;
    var lo, hi := b % 16, b / 16;
    FieldOf(b, 0, 4, 0, lo, hi);
    FieldOf(b, 4, 4, lo, hi, 0);
  }

  /** Reading ASCII user bits back gives the code points of the first four
      bytes that went in. */
  lemma {:induction false} AsciiUserBytes(t: Timecode, asc: string)
    ensures var r := CharText(UserFromAscii(t, asc).user);
      r.Some? && Ords(r.value) == Utf8(asc + "    ")[..4]
  {
    var b := Utf8(asc + "    ");
    assert |b| >= 4 by { Utf8Append(asc, "    "); }
    var u := UserFromAscii(t, asc).user;
    NibblePair(b[0]);
    NibblePair(b[1]);
    NibblePair(b[2]);
    NibblePair(b[3]);
    assert CharCodes(u) == b[..4];
    assert forall i :: 0 <= i < 4 ==> IsScalar(CharCodes(u)[i]);
  }

  /** For ASCII text the round trip gives back the first four characters,
      padded with spaces. */
  lemma {:induction false} AsciiUserRoundTrip(t: Timecode, asc: string)
    requires IsAscii(asc)
    ensures UserToAscii(UserFromAscii(t, asc)) == Some(Prefix(t) + (asc + "    ")[..4])
  {
    var s := asc + "    ";
    assert IsAscii(s) by {
      forall i | 0 <= i < |s| ensures s[i] as int < 0x80 {
        if i >= |asc| {
          assert s[i] == ' ';
        } else {
          assert s[i] == asc[i];
        }
      }
    }
    Utf8IsOrdsIffAscii(s);
    AsciiUserBytes(t, asc);
    var r := CharText(UserFromAscii(t, asc).user).value;
    assert Ords(r) == Ords(s[..4]);
    OrdsInjective(r, s[..4]);
  }

  // ---------------------------------------------------------------------
  // Hex user bits

  /** The hex digits among some bytes, as values: '0'-'9', 'A'-'F' and
      'a'-'f'; every other byte is skipped. */
  function HexValues(bs: seq<int>): (r: seq<int>)
    ensures |r| <= |bs|
    ensures forall i :: 0 <= i < |r| ==> 0 <= r[i] < 16
  {
    if bs == [] then []
    else
      var x := bs[0];
      var v := if 0x30 <= x < 0x3A then [x - 0x30]
               else if 0x41 <= x < 0x47 then [x - 0x37]
               else if 0x61 <= x < 0x67 then [x - 0x57]
               else [];
      v + HexValues(bs[1..])
  }

  lemma {:induction false} HexValuesAppend(a: seq<int>, b: seq<int>)
    ensures HexValues(a + b) == HexValues(a) + HexValues(b)
    decreases |a|
  {
    if a == [] {
      assert a + b == b;
    } else {
      assert (a + b)[0] == a[0];
      assert (a + b)[1..] == a[1..] + b;
      HexValuesAppend(a[1..], b);
    }
  }

  /** The padding guarantees at least eight digits. */
  lemma {:induction false} HexPadding(bcd: string)
    ensures |HexValues(Utf8(bcd + "00000000"))| >= 8
  {
    var z := "00000000";
    Utf8Append(bcd, z);
    HexValuesAppend(Utf8(bcd), Utf8(z));
    HexDigitsOfAscii(z);
  }

  /** The UTF-8 bytes of a string of hex digits are its characters, so each
      one yields its value. */
  lemma {:induction false} HexDigitsOfAscii(s: string)
    requires forall i :: 0 <= i < |s| ==> IsHexChar(s[i])
    ensures HexValues(Utf8(s)) == seq(|s|, i requires 0 <= i < |s| => HexValue(s[i]))
  {
    assert IsAscii(s);
    Utf8IsOrdsIffAscii(s);
    HexValuesOfHex(s);
  }

  /** `user_from_bcd_hex(bcd)`: the first eight hex digits of `bcd`, padded
      with zeros, the first digit in uf8; hex mode is selected. */
  function UserFromBcdHex(t: Timecode, bcd: string): (r: Timecode)
    ensures !r.bgf0 && !r.bgf2 && Nibbles(r.user)
    ensures r == t.(bgf0 := false, bgf2 := false, user := r.user)
  {
    var user := BcdDigits(bcd);
    t.(bgf0 := false, bgf2 := false,
       user := UserBits(user[7] % 16, user[6] % 16, user[5] % 16, user[4] % 16,
                        user[3] % 16, user[2] % 16, user[1] % 16, user[0] % 16))
  }

  /** The digit values `user_from_bcd_hex` collects. */
  function BcdDigits(bcd: string): (r: seq<int>)
    ensures |r| >= 8 && forall i :: 0 <= i < |r| ==> 0 <= r[i] < 16
  {
    HexPadding(bcd);
    HexValues(Utf8(bcd + "00000000"))
  }

  /** The digits collected are those of the hex-digit characters of `bcd`
      followed by the '0' padding; the nibbles read the first eight. */
  lemma {:induction false} BcdDigitsOfHex(bcd: string)
    ensures BcdDigits(bcd) == DigitValues(HexChars(bcd) + "00000000")
    ensures forall i :: 0 <= i < 8 ==> BcdDigits(bcd)[i] == HexValue(PaddedHex(bcd)[i])
  {
    var z := "00000000";
    var hc := HexChars(bcd);
    assert BcdDigits(bcd) == HexValues(Utf8(bcd + z));
    Utf8Append(bcd, z);
    HexValuesAppend(Utf8(bcd), Utf8(z));
    assert HexValues(Utf8(bcd)) == DigitValues(hc) by {
      HexValuesOfUtf8(bcd);
      HexValuesOfHex(hc);
    }
    assert HexValues(Utf8(z)) == DigitValues(z) by {
      HexDigitsOfAscii(z);
    }
    DigitValuesAppend(hc, z);
  }

  lemma {:induction false} DigitValuesAppend(a: string, b: string)
    ensures DigitValues(a + b) == DigitValues(a) + DigitValues(b)
  {
    var l, r := DigitValues(a + b), DigitValues(a) + DigitValues(b);
    forall i | 0 <= i < |l| ensures l[i] == r[i] {
      if i < |a| { assert (a + b)[i] == a[i]; } else { assert (a + b)[i] == b[i - |a|]; }
    }
  }

  /** The values of the characters of a string of hex digits. */
  function DigitValues(s: string): (r: seq<int>)
    ensures |r| == |s|
  {
    seq(|s|, i requires 0 <= i < |s| => HexValue(s[i]))
  }

  /** The hex-digit characters of `s` in order; every other character is
      skipped. */
  function HexChars(s: string): (r: string)
    ensures |r| <= |s|
    ensures forall i :: 0 <= i < |r| ==> IsHexChar(r[i])
  {
    if s == [] then []
    else HexChar(s[0]) + HexChars(s[1..])
  }

  /** The eight digits `user_from_bcd_hex` keeps: the first eight hex
      digits of `bcd`, made up with '0's when it has fewer. */
  function PaddedHex(bcd: string): (r: string)
    ensures |r| == 8 && forall i :: 0 <= i < 8 ==> IsHexChar(r[i])
  {
    var hc := HexChars(bcd);
    var p := hc + "00000000";
    assert forall i :: 0 <= i < |p| ==> IsHexChar(p[i]) by {
      forall i | 0 <= i < |p| ensures IsHexChar(p[i]) {
        if i >= |hc| { assert p[i] == '0'; }
      }
    }
    p[..8]
  }

  /** A string of hex digits is its own hex-digit characters. */
  lemma {:induction false} HexCharsOfHex(s: string)
    requires forall i :: 0 <= i < |s| ==> IsHexChar(s[i])
    ensures HexChars(s) == s
  {
    if s != [] {
      HexCharsOfHex(s[1..]);
      assert IsHexChar(s[0]);
      assert [s[0]] + s[1..] == s;
    }
  }

  /** Bytes of 0x80 and above are never hex digits. */
  lemma {:induction false} HexValuesHigh(bs: seq<int>)
    requires forall i :: 0 <= i < |bs| ==> bs[i] >= 0x80
    ensures HexValues(bs) == []
  {
    if bs != [] {
      HexValuesHigh(bs[1..]);
    }
  }

  /** The hex digits among the UTF-8 bytes of any string are the values of
      its hex-digit characters: every byte of a multi-byte character is
      0x80 or above, so none of them passes for a digit. */
  lemma {:induction false} HexValuesOfUtf8(s: string)
    ensures HexValues(Utf8(s)) == HexValues(Ords(HexChars(s)))
  {
    if s != [] {
      var c := s[0];
      var h := HexChar(c);
      var rest := HexChars(s[1..]);
      assert Utf8(s) == Utf8Char(c) + Utf8(s[1..]);
      assert HexChars(s) == h + rest;
      HexValuesAppend(Utf8Char(c), Utf8(s[1..]));
      HexValuesOfUtf8(s[1..]);
      HexValuesOfChar(c);
      assert Ords(h + rest) == Ords(h) + Ords(rest);
      HexValuesAppend(Ords(h), Ords(rest));
    }
  }

  /** A character if it is a hex digit, nothing otherwise. */
  function HexChar(c: char): (r: string)
    ensures |r| <= 1
  {
    if IsHexChar(c) then [c] else []
  }

  /** One character's bytes hold a hex digit exactly when it is one. */
  lemma {:induction false} HexValuesOfChar(c: char)
    ensures HexValues(Utf8Char(c)) == HexValues(Ords(HexChar(c)))
  {
    if c as int < 0x80 {
      assert Utf8Char(c) == [c as int];
    } else {
      HexValuesHigh(Utf8Char(c));
    }
  }

  predicate IsHexChar(c: char)
  {
    '0' <= c <= '9' || 'A' <= c <= 'F' || 'a' <= c <= 'f'
  }

  /** Upper-case hex digit, the form `dehex` renders. */
  function Upper(c: char): char
  {
    if 'a' <= c <= 'f' then (c as int - 0x20) as char else c
  }

  /** Any string comes back as its first eight hex digits, upper-cased and
      made up with '0's: other characters, multi-byte ones included, are
      skipped and later digits are dropped. */
  lemma {:induction false} HexUserRoundTrip(t: Timecode, bcd: string)
    ensures UserToAscii(UserFromBcdHex(t, bcd)) == Some(Prefix(t) + UpperHex(PaddedHex(bcd)))
  {
    HexDigitsIn(t, bcd);
    HexTextOfDigits(UserFromBcdHex(t, bcd).user, PaddedHex(bcd));
  }

  /** Eight hex digits come back as themselves, upper-cased. */
  lemma {:induction false} HexUserRoundTripEight(t: Timecode, bcd: string)
    requires |bcd| == 8 && forall i :: 0 <= i < 8 ==> IsHexChar(bcd[i])
    ensures UserToAscii(UserFromBcdHex(t, bcd)) == Some(Prefix(t) + UpperHex(bcd))
  {
    HexCharsOfHex(bcd);
    assert PaddedHex(bcd) == bcd;
    HexUserRoundTrip(t, bcd);
  }

  /** Nibbles holding the values of hex digits render as those digits,
      upper-cased. */
  lemma {:induction false} HexTextOfDigits(u: UserBits, bcd: string)
    requires |bcd| == 8 && forall i :: 0 <= i < 8 ==> IsHexChar(bcd[i])
    requires [u.uf8, u.uf7, u.uf6, u.uf5, u.uf4, u.uf3, u.uf2, u.uf1] ==
             seq(8, i requires 0 <= i < 8 => HexValue(bcd[i]))
    ensures HexText(u) == Some(UpperHex(bcd))
  {
    var xs := [u.uf8, u.uf7, u.uf6, u.uf5, u.uf4, u.uf3, u.uf2, u.uf1];
    HexCodesUpper(xs, bcd);
    ChrsOrds(UpperHex(bcd));
  }

  /** Hex digit values look up their upper-case characters. */
  lemma {:induction false} HexCodesUpper(xs: seq<int>, bcd: string)
    requires |bcd| == 8 && forall i :: 0 <= i < 8 ==> IsHexChar(bcd[i])
    requires xs == seq(8, i requires 0 <= i < 8 => HexValue(bcd[i]))
    ensures HexCodes(xs) == Some(Ords(UpperHex(bcd)))
  {
    var want := Ords(UpperHex(bcd));
    forall i | 0 <= i < 8
      ensures -16 <= xs[i] < 16 && PyIndex(Dehex, xs[i]) == Some(want[i])
    {
      DehexDigit(bcd[i]);
    }
    var codes := HexCodes(xs).value;
    forall i | 0 <= i < 8 ensures codes[i] == want[i] {
      assert Some(codes[i]) == PyIndex(Dehex, xs[i]);
    }
    assert |codes| == |want| == 8;
    assert codes == want;
  }

  /** `dehex` at a digit's value is the digit, upper-cased. */
  lemma {:induction false} DehexDigit(c: char)
    requires IsHexChar(c)
    ensures 0 <= HexValue(c) < 16 && Dehex[HexValue(c)] == Upper(c) as int
  {
    var v := HexValue(c);
    assert forall k :: 0 <= k < 10 ==> Dehex[k] == 0x30 + k;
    assert forall k :: 10 <= k < 16 ==> Dehex[k] == 0x37 + k;
  }

  /** Any string is the characters of its own code points. */
  lemma {:induction false} ChrsOrds(s: string)
    ensures Chrs(Ords(s)) == Some(s)
  {
    var o := Ords(s);
    forall i | 0 <= i < |o| ensures IsScalar(o[i]) {
      var c := s[i];
      assert o[i] == c as int;
    }
    OrdsInjective(Chrs(o).value, s);
  }

  /** The digits of a hex string, upper-cased. */
  function UpperHex(s: string): (r: string)
    ensures |r| == |s|
  {
    seq(|s|, i requires 0 <= i < |s| => Upper(s[i]))
  }

  /** The nibbles read, uf8 first, are the values of the padded digits. */
  lemma {:induction false} HexDigitsIn(t: Timecode, bcd: string)
    ensures var u := UserFromBcdHex(t, bcd).user;
      [u.uf8, u.uf7, u.uf6, u.uf5, u.uf4, u.uf3, u.uf2, u.uf1] ==
      seq(8, i requires 0 <= i < 8 => HexValue(PaddedHex(bcd)[i]))
  {
    BcdDigitsOfHex(bcd);
    var d := BcdDigits(bcd);
    assert forall i :: 0 <= i < 8 ==> d[i] % 16 == d[i];
  }

  /** The value of one hex digit character. */
  function HexValue(c: char): int
  {
    if '0' <= c <= '9' then c as int - 0x30
    else if 'A' <= c <= 'F' then c as int - 0x37
    else c as int - 0x57
  }

  /** A string of hex digits keeps one value per character. */
  lemma {:induction false} HexValuesOfHex(s: string)
    requires forall i :: 0 <= i < |s| ==> IsHexChar(s[i])
    ensures HexValues(Ords(s)) == seq(|s|, i requires 0 <= i < |s| => HexValue(s[i]))
  {
    if s != [] {
      HexValuesOfHex(s[1..]);
      var o := Ords(s);
      assert o[0] == s[0] as int && o[1..] == Ords(s[1..]);
      var rest := seq(|s| - 1, i requires 0 <= i < |s| - 1 => HexValue(s[1..][i]));
      assert HexValues(o) == [HexValue(s[0])] + rest;
    }
  }

  // ---------------------------------------------------------------------
  // Date and time-zone user bits

  /** The first table index holding `name`, as `user_from_date` searches. */
  function TzIndex(name: string): (r: Option<nat>)
    ensures r.Some? ==> r.value < |Tzs| && Tzs[r.value] == name
    ensures r.Some? ==> forall j :: 0 <= j < r.value ==> Tzs[j] != name
    ensures r.None? ==> forall j :: 0 <= j < |Tzs| ==> Tzs[j] != name
  {
    TzSearch(Tzs, name, 0)
  }

  /** The first index from `from` on at which `table` holds `name`. */
  function TzSearch(table: seq<string>, name: string, from: nat): (r: Option<nat>)
    requires from <= |table|
    ensures r.Some? ==> from <= r.value < |table| && table[r.value] == name
    ensures r.Some? ==> forall j :: from <= j < r.value ==> table[j] != name
    ensures r.None? ==> forall j :: from <= j < |table| ==> table[j] != name
    decreases |table| - from
  {
    if from == |table| then None
    else if table[from] == name then Some(from)
    else TzSearch(table, name, from + 1)
  }

  /** `user_from_date(date)`: the UTF-8 bytes minus '0' at the digit
      positions of "Yyy-Mmm-Ddd", and the code of the time-zone name after
      them, or 0 when it is not in the table.  Fewer than eleven bytes fail
      (IndexError).  Date mode is selected. */
  function UserFromDate(t: Timecode, date: string): (r: Option<Timecode>)
    ensures r.Some? <==> |Utf8(date)| >= 11
    ensures r.Some? ==> r.value == t.(bgf0 := false, bgf2 := true, user := r.value.user)
    ensures r.Some? ==> var u := r.value.user; 0 <= u.uf8 * 16 + u.uf7 < |Tzs|
  {
    var b := Utf8(date);
    if |b| < 11 then None
    else
      var zone := if |date| >= 11 then date[11..] else "";
      var code := match TzIndex(zone) { case None => 0 case Some(i) => i };
      TzCode(code);
      Some(t.(bgf0 := false, bgf2 := true,
              user := UserBits(b[10] - 0x30, b[9] - 0x30, b[6] - 0x30, b[5] - 0x30,
                               b[2] - 0x30, b[1] - 0x30, code % 16, (code / 16) % 256)))
  }

  /** A string starting with a date in the form "Yyy-Mmm-Ddd". */
  predicate IsDateHead(date: string)
  {
    |date| >= 11 && date[0] == 'Y' && date[3] == '-' && date[4] == 'M' && date[7] == '-' &&
    date[8] == 'D' && IsDigit(date[1]) && IsDigit(date[2]) && IsDigit(date[5]) &&
    IsDigit(date[6]) && IsDigit(date[9]) && IsDigit(date[10])
  }

  /** A date followed by a name the table search finds. */
  predicate IsDateText(date: string)
  {
    IsDateHead(date) && TzIndex(date[11..]).Some?
  }

  /** A well-formed date comes back as written. */
  lemma {:induction false} DateUserRoundTrip(t: Timecode, date: string)
    requires IsDateText(date)
    ensures UserFromDate(t, date).Some?
    ensures UserToAscii(UserFromDate(t, date).value) == Some(Prefix(t) + date)
  {
    DateDigits(t, date);
    DateZone(t, date);
    DateParts(t, UserFromDate(t, date).value, date[..11], date[11..]);
    assert date[..11] + date[11..] == date;
  }

  /** A time-zone name missing from the table is stored as code 0 and
      comes back as the table's first entry, "+0000". */
  lemma {:induction false} DateUnknownZone(t: Timecode, date: string)
    requires IsDateHead(date) && TzIndex(date[11..]).None?
    ensures UserFromDate(t, date).Some?
    ensures UserToAscii(UserFromDate(t, date).value) == Some(Prefix(t) + (date[..11] + "+0000"))
  {
    UnknownZoneCode(t, date);
    DateDigits(t, date);
    DateParts(t, UserFromDate(t, date).value, date[..11], "+0000");
  }

  /** `DateFields` with the date given as its head and its zone name. */
  lemma {:induction false} DateParts(t: Timecode, t': Timecode, head: string, zone: string)
    requires |head| == 11 && !t'.bgf0 && t'.bgf2 && t'.bgf1 == t.bgf1
    requires DateCodes(t'.user) == Ords(head)
    requires TzName(t'.user.uf8 * 16 + t'.user.uf7) == Some(zone)
    ensures UserToAscii(t') == Some(Prefix(t) + (head + zone))
  {
    var date := head + zone;
    assert date[..11] == head && date[11..] == zone;
    DateFields(t, t', date);
  }

  /** A name missing from the table is stored as code 0, which renders as
      the first entry. */
  lemma {:induction false} UnknownZoneCode(t: Timecode, date: string)
    requires IsDateHead(date) && TzIndex(date[11..]).None?
    ensures UserFromDate(t, date).Some?
    ensures var u := UserFromDate(t, date).value.user;
      u.uf8 * 16 + u.uf7 == 0 && TzName(u.uf8 * 16 + u.uf7) == Some("+0000")
  {
    DateBytes(date);
    assert TzName(0) == Some("+0000");
  }

  /** A state with the date flags and user bits holding the date renders
      as the date after the prefix. */
  lemma {:induction false} DateFields(t: Timecode, t': Timecode, date: string)
    requires |date| >= 11 && !t'.bgf0 && t'.bgf2 && t'.bgf1 == t.bgf1
    requires DateCodes(t'.user) == Ords(date[..11])
    requires TzName(t'.user.uf8 * 16 + t'.user.uf7) == Some(date[11..])
    ensures UserToAscii(t') == Some(Prefix(t) + date)
  {
    DateTextOf(t'.user, date);
    DateAscii(t');
    assert Prefix(t') == Prefix(t);
  }

  /** With the date flags set, the text is the prefix and the date. */
  lemma {:induction false} DateAscii(t: Timecode)
    requires !t.bgf0 && t.bgf2 && DateText(t.user).Some?
    ensures UserToAscii(t) == Some(Prefix(t) + DateText(t.user).value)
  {
  }

  /** User bits holding a date's digits and its zone code render as the
      date. */
  lemma {:induction false} DateTextOf(u: UserBits, date: string)
    requires |date| >= 11
    requires DateCodes(u) == Ords(date[..11])
    requires TzName(u.uf8 * 16 + u.uf7) == Some(date[11..])
    ensures DateText(u) == Some(date)
  {
    var head, zone := date[..11], date[11..];
    assert Chrs(DateCodes(u)) == Some(head) by {
      ChrsOrds(head);
    }
    assert DateText(u) == Some(head + zone);
    assert head + zone == date;
  }

  /** The date digits are read back into the places they are rendered from. */
  lemma {:induction false} DateDigits(t: Timecode, date: string)
    requires IsDateHead(date)
    ensures UserFromDate(t, date).Some?
    ensures DateCodes(UserFromDate(t, date).value.user) == Ords(date[..11])
  {
    DateBytes(date);
  }

  /** The time-zone name is found in the table and its code renders it. */
  lemma {:induction false} DateZone(t: Timecode, date: string)
    requires IsDateText(date)
    ensures UserFromDate(t, date).Some?
    ensures var u := UserFromDate(t, date).value.user; TzName(u.uf8 * 16 + u.uf7) == Some(date[11..])
  {
    DateBytes(date);
    var u := UserFromDate(t, date).value.user;
    var k := TzIndex(date[11..]).value;
    TzCode(k);
  }

  /** A table code splits into its two nibbles and back. */
  lemma {:induction false} TzCode(k: int)
    requires 0 <= k < 64
    ensures ((k / 16) % 256) * 16 + k % 16 == k
  {
  }

  /** The first eleven bytes of a well-formed date are its code points. */
  lemma {:induction false} DateBytes(date: string)
    requires IsDateHead(date)
    ensures |Utf8(date)| >= 11 && Utf8(date)[..11] == Ords(date[..11])
  {
    var head, zone := date[..11], date[11..];
    assert IsAscii(head);
    assert head + zone == date;
    Utf8Append(head, zone);
    Utf8IsOrdsIffAscii(head);
  }
}
