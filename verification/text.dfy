/** Python `str` values as Dafny strings, with the few built-ins the firmware
    uses on them: `chr`, `ord`, sequence indexing with negative indices, and
    `bytes(s, "utf-8")`.  A Dafny `char` is a Unicode scalar value, so a
    Python string holding a lone surrogate has no counterpart here; `chr` of
    a surrogate code is treated as a failure. */
module Text {
  import opened Wrappers

  /** Code points of a string, `[ord(c) for c in s]`. */
  function Ords(s: string): (r: seq<int>)
    ensures |r| == |s|
    ensures forall i :: 0 <= i < |s| ==> r[i] == s[i] as int
  {
    if s == [] then [] else [s[0] as int] + Ords(s[1..])
  }

  predicate IsScalar(x: int)
  {
    0 <= x < 0xD800 || 0xE000 <= x < 0x11_0000
  }

  /** `chr(x)`: fails (ValueError in Python) outside the code point range. */
  function Chr(x: int): (r: Option<char>)
    ensures r.Some? <==> IsScalar(x)
    ensures r.Some? ==> r.value as int == x
  {
    if IsScalar(x) then Some(x as char) else None
  }

  /** `new = ""; for x in xs: new += chr(x)`, failing on the first bad code. */
  function Chrs(xs: seq<int>): (r: Option<string>)
    ensures r.Some? <==> (forall i :: 0 <= i < |xs| ==> IsScalar(xs[i]))
    ensures r.Some? ==> Ords(r.value) == xs
  {
    if xs == [] then Some([])
    else match Chr(xs[0]) {
      case None => None
      case Some(c) =>
        match Chrs(xs[1..]) {
          case None => None
          case Some(t) => Some([c] + t)
        }
    }
  }

  /** Python's `s[i]` on a list or string: negative indices count from the
      end, anything else outside the range raises IndexError. */
  function PyIndex<T>(s: seq<T>, i: int): (r: Option<T>)
    ensures r.Some? <==> -|s| <= i < |s|
    ensures 0 <= i < |s| ==> r == Some(s[i])
    ensures -|s| <= i < 0 ==> r == Some(s[|s| + i])
  {
    if 0 <= i < |s| then Some(s[i])
    else if -|s| <= i < 0 then Some(s[|s| + i])
    else None
  }

  /** The UTF-8 encoding of one scalar value (RFC 3629, section 3). */
  function Utf8Char(c: char): (r: seq<int>)
    ensures 1 <= |r| <= 4
    ensures |r| == 1 <==> c as int < 0x80
    ensures forall i :: 0 <= i < |r| ==> 0 <= r[i] < 256
    ensures c as int < 0x80 ==> r == [c as int]
    ensures c as int >= 0x80 ==> forall i :: 0 <= i < |r| ==> r[i] >= 0x80
  {
    var n := c as int;
    if n < 0x80 then [n]
    else if n < 0x800 then [0xC0 + n / 64, 0x80 + n % 64]
    else if n < 0x1_0000 then [0xE0 + n / 4096, 0x80 + (n / 64) % 64, 0x80 + n % 64]
    else [0xF0 + n / 262144, 0x80 + (n / 4096) % 64, 0x80 + (n / 64) % 64, 0x80 + n % 64]
  }

  /** `bytes(s, "utf-8")` as a list of byte values. */
  function Utf8(s: string): (r: seq<int>)
    ensures |r| >= |s|
    ensures forall i :: 0 <= i < |r| ==> 0 <= r[i] < 256
  {
    if s == [] then [] else Utf8Char(s[0]) + Utf8(s[1..])
  }

  predicate IsAscii(s: string)
  {
    forall i :: 0 <= i < |s| ==> s[i] as int < 0x80
  }

  /** Encoding distributes over concatenation. */
  lemma {:induction false} Utf8Append(a: string, b: string)
    ensures Utf8(a + b) == Utf8(a) + Utf8(b)
  {
    if a == [] {
      assert a + b == b;
    } else {
      assert (a + b)[1..] == a[1..] + b;
      Utf8Append(a[1..], b);
    }
  }

  /** The encoding is the list of code points exactly when the string is
      ASCII: any other character takes more than one byte. */
  lemma {:induction false} Utf8IsOrdsIffAscii(s: string)
    ensures Utf8(s) == Ords(s) <==> IsAscii(s)
  {
    if s != [] {
      Utf8IsOrdsIffAscii(s[1..]);
      if s[0] as int < 0x80 {
        assert Utf8(s) == [s[0] as int] + Utf8(s[1..]);
        assert Ords(s) == [s[0] as int] + Ords(s[1..]);
        if Utf8(s) == Ords(s) {
          assert Utf8(s)[1..] == Utf8(s[1..]);
          assert Ords(s)[1..] == Ords(s[1..]);
        }
        if IsAscii(s) {
          assert IsAscii(s[1..]) by {
            forall i | 0 <= i < |s[1..]| ensures s[1..][i] as int < 0x80 {
              assert s[1..][i] == s[i + 1];
            }
          }
        } else {
          var i :| 0 <= i < |s| && s[i] as int >= 0x80;
          assert s[1..][i - 1] == s[i];
        }
      } else {
        assert |Utf8(s)| > |Ords(s)|;
      }
    }
  }
}
