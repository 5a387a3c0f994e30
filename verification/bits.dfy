/** Python integer operations on unbounded ints.  For a positive divisor Dafny's
    `/` and `%` are floor division and floor modulo, so `x >> k` is `x / Pow2(k)`,
    `x & (2^k - 1)` is `x % Pow2(k)` and `x << k` is `x * Pow2(k)`, for negative
    `x` as well. */
module Bits {

  function Pow2(n: nat): (r: nat)
    ensures r >= 1
  {
    if n == 0 then 1 else 2 * Pow2(n - 1)
  }

  /** Number of set bits among the low `n` bits of `x`: the sum of
      `(x >> i) & 1` for `i < n`. */
  function Pop(x: int, n: nat): (r: nat)
    ensures r <= n
    decreases n
  {
    if n == 0 then 0 else LowBit(x) + Pop(Half(x), n - 1)
  }

  /** `x & 1` */
  function LowBit(x: int): (r: int)
    ensures 0 <= r <= 1
  {
    x % 2
  }

  /** `x >> 1` */
  function Half(x: int): int
  {
    x / 2
  }

  /** Python's `int(x / d)` for ints: division truncated toward zero. */
  function TruncDiv(x: int, d: nat): (r: int)
    requires d > 0
    ensures x >= 0 ==> r == x / d
    ensures x < 0 ==> r == -((-x) / d)
  {
    if x >= 0 then x / d else -((-x) / d)
  }

  /** Python's `int(x)` for a float, with the float abstracted as a real. */
  function TruncReal(x: real): (r: int)
    ensures x >= 0.0 ==> r as real <= x < r as real + 1.0
    ensures x < 0.0 ==> r as real - 1.0 < x <= r as real
  {
    if x >= 0.0 then x.Floor else -((-x).Floor)
  }

  /** Python's `abs(x) % 1` for a float: the fractional part of |x|. */
  function FracAbs(x: real): (r: real)
    ensures 0.0 <= r < 1.0
    ensures (if x >= 0.0 then x else -x) - r == ((if x >= 0.0 then x else -x) - r).Floor as real
  {
    var a := if x >= 0.0 then x else -x;
    a - a.Floor as real
  }

  /** Splitting a number at bit `k`: the low `k` bits and the bits above them
      are counted separately. */
  lemma {:induction false} PopSplit(a: int, b: int, k: nat, m: nat)
    requires 0 <= a < Pow2(k)
    ensures Pop(a + Pow2(k) * b, k + m) == Pop(a, k) + Pop(b, m)
  {
    if k == 0 {
      assert a == 0;
    } else {
      var c := Pow2(k - 1) * b;
      assert Pow2(k) * b == 2 * c by {
        MulAssoc(2, Pow2(k - 1), b);
      }
      ShiftHalf(a, c);
      PopSplit(Half(a), b, k - 1, m);
      PopUnfold(a + 2 * c, k + m);
      PopUnfold(a, k);
    }
  }

  lemma {:induction false} MulAssoc(x: int, y: int, z: int)
    ensures (x * y) * z == x * (y * z)
  {
  }

  /** `(a + 2c) & 1 == a & 1` and `(a + 2c) >> 1 == (a >> 1) + c`. */
  lemma {:induction false} ShiftHalf(a: int, c: int)
    ensures LowBit(a + 2 * c) == LowBit(a) && Half(a + 2 * c) == Half(a) + c
  {
  }

  lemma {:induction false} PopUnfold(x: int, n: nat)
    requires n > 0
    ensures Pop(x, n) == LowBit(x) + Pop(Half(x), n - 1)
  {
  }

  /** Setting one clear bit above the low `k` bits adds one to the count. */
  lemma {:induction false} PopSetBit(lo: int, hi: int, k: nat, m: nat)
    requires 0 <= lo < Pow2(k)
    ensures Pop(lo + Pow2(k) * (1 + 2 * hi), k + 1 + m) == Pop(lo + Pow2(k) * (2 * hi), k + 1 + m) + 1
  {
    var n := 1 + m;
    assert k + n == k + 1 + m;
    PopSplit(lo, 1 + 2 * hi, k, n);
    PopSplit(lo, 0 + 2 * hi, k, n);
    PopLowest(hi, 1, m);
    PopLowest(hi, 0, m);
  }

  lemma {:induction false} PopLowest(hi: int, bit: int, m: nat)
    requires 0 <= bit <= 1
    ensures Pop(bit + 2 * hi, 1 + m) == bit + Pop(hi, m)
  {
    assert LowBit(bit + 2 * hi) == bit;
    assert Half(bit + 2 * hi) == hi;
  }

  /** Bit 3 of a byte: the flag position of the LTC time bytes. */
  lemma {:induction false} PopByteFlag(lo: int, hi: int)
    requires 0 <= lo < 8 && 0 <= hi < 16
    ensures Pop(lo + 8 + 16 * hi, ByteBits) == Pop(lo + 16 * hi, ByteBits) + 1
  {
    Pow2Table();
    var k, m := 3, 4;
    assert k + 1 + m == ByteBits;
    PopSetBit(lo, hi, k, m);
  }

  /** Four bytes packed little-endian into one 32-bit word. */
  function Word(b0: int, b1: int, b2: int, b3: int): int
  {
    b0 + 256 * (b1 + 256 * (b2 + 256 * b3))
  }

  predicate IsByte(b: int) { 0 <= b < 256 }

  /** Widths named as constants: the solver unfolds `Pop` eagerly when its
      width is a literal, so the lemmas below state their widths through these. */
  const ByteBits: nat := 8
  const WordBits: nat := 32

  /** The popcount of a word is the sum of the popcounts of its bytes. */
  lemma {:induction false} PopWord(b0: int, b1: int, b2: int, b3: int)
    requires IsByte(b0) && IsByte(b1) && IsByte(b2) && IsByte(b3)
    ensures 0 <= Word(b0, b1, b2, b3) < 0x1_0000_0000
    ensures Pop(Word(b0, b1, b2, b3), WordBits)
         == Pop(b0, ByteBits) + Pop(b1, ByteBits) + Pop(b2, ByteBits) + Pop(b3, ByteBits)
  {
    var r2 := b2 + 256 * b3;
    var r1 := b1 + 256 * r2;
    var x := Word(b0, b1, b2, b3);
    var k := ByteBits;
    PopLowByte(x, b0, r1, k + k + k);
    PopLowByte(r1, b1, r2, k + k);
    PopLowByte(r2, b2, b3, k);
  }

  /** A byte counted separately from the bits above it. */
  lemma {:induction false} PopLowByte(x: int, b: int, rest: int, m: nat)
    requires IsByte(b) && x == b + 256 * rest
    ensures Pop(x, ByteBits + m) == Pop(b, ByteBits) + Pop(rest, m)
  {
    Pow2Table();
    var k := ByteBits;
    assert 0 <= b < Pow2(k) && x == b + Pow2(k) * rest;
    PopSplit(b, rest, k, m);
  }

  /** `(x >> s) & (2^w - 1)`: the `w`-bit field of `x` starting at bit `s`. */
  function Field(x: int, s: nat, w: nat): (r: int)
    ensures 0 <= r < Pow2(w)
  {
    (x / Pow2(s)) % Pow2(w)
  }

  lemma {:induction false} DivModUnique(x: int, d: int, q: int, r: int)
    requires 0 < d && 0 <= r < d && x == d * q + r
    ensures x / d == q && x % d == r
  {
    var q', r' := x / d, x % d;
    var e := q - q';
    assert d * q == d * q' + d * e;
    assert d * e == r' - r;
    if e >= 1 {
      assert d * e == d + d * (e - 1);
      MulNonneg(d, e - 1);
    } else if e <= -1 {
      assert d * e == -d - d * (-e - 1);
      MulNonneg(d, -e - 1);
    }
  }

  lemma {:induction false} MulNonneg(a: int, b: int)
    requires 0 <= a && 0 <= b
    ensures 0 <= a * b
  {
  }

  /** Reading back a field from a value laid out as low bits, the field and
      the bits above it. */
  lemma {:induction false} FieldOf(x: int, s: nat, w: nat, lo: int, f: int, rest: int)
    requires 0 <= lo < Pow2(s) && 0 <= f < Pow2(w)
    requires x == lo + Pow2(s) * (f + Pow2(w) * rest)
    ensures Field(x, s, w) == f
  {
    DivModUnique(x, Pow2(s), f + Pow2(w) * rest, lo);
    DivModUnique(f + Pow2(w) * rest, Pow2(w), rest, f);
  }

  /** `[(x >> i) & 1 for i in range(n)]` */
  function BitList(x: int, n: nat): (r: seq<int>)
    ensures |r| == n
  {
    seq(n, i requires 0 <= i => Field(x, i, 1))
  }

  /** The sum of a list of ints, added up in order. */
  function Sum(s: seq<int>): int
  {
    if |s| == 0 then 0 else Sum(s[..|s| - 1]) + s[|s| - 1]
  }

  /** Adding up the bits one at a time counts the same bits as `Pop`. */
  lemma {:induction false} SumBitsIsPop(x: int, n: nat)
    ensures Sum(BitList(x, n)) == Pop(x, n)
    decreases n
  {
    if n > 0 {
      var s := BitList(x, n);
      assert s[..n - 1] == BitList(x, n - 1);
      SumBitsIsPop(x, n - 1);
      PopNext(x, n - 1);
    }
  }

  /** One more bit at the top. */
  lemma {:induction false} PopNext(x: int, k: nat)
    ensures Pop(x, k + 1) == Pop(x, k) + Field(x, k, 1)
    decreases k
  {
    assert Pow2(1) == 2;
    PopUnfold(x, k + 1);
    if k == 0 {
      assert Pow2(0) == 1;
    } else {
      PopUnfold(x, k);
      PopNext(Half(x), k - 1);
      FieldHalf(x, k - 1);
    }
  }

  /** Bit `k + 1` of `x` is bit `k` of `x >> 1`. */
  lemma {:induction false} FieldHalf(x: int, k: nat)
    ensures Field(Half(x), k, 1) == Field(x, k + 1, 1)
  {
    var p := Pow2(k);
    var q := Half(x) / p;
    var r2 := Half(x) % p;
    var r1 := x % 2;
    assert Pow2(k + 1) == 2 * p;
    assert x == 2 * p * q + (2 * r2 + r1);
    DivModUnique(x, 2 * p, q, 2 * r2 + r1);
  }

  lemma {:induction false} Pow2Add(a: nat, b: nat)
    ensures Pow2(a + b) == Pow2(a) * Pow2(b)
    decreases a
  {
    if a > 0 {
      Pow2Add(a - 1, b);
      assert Pow2(a + b) == 2 * Pow2(a - 1 + b);
    }
  }

  /** The powers of two the packet layouts use. */
  lemma {:induction false} Pow2Table()
    ensures Pow2(1) == 2 && Pow2(2) == 4 && Pow2(3) == 8 && Pow2(4) == 16
    ensures Pow2(5) == 32 && Pow2(6) == 64 && Pow2(7) == 128 && Pow2(8) == 256
    ensures Pow2(10) == 0x400 && Pow2(11) == 0x800 && Pow2(12) == 0x1000
    ensures Pow2(16) == 0x1_0000 && Pow2(20) == 0x10_0000
    ensures Pow2(24) == 0x100_0000 && Pow2(26) == 0x400_0000 && Pow2(27) == 0x800_0000
    ensures Pow2(28) == 0x1000_0000 && Pow2(32) == 0x1_0000_0000
  {
    assert Pow2(8) == 256;
    Pow2Add(8, 2);
    Pow2Add(8, 3);
    Pow2Add(8, 4);
    Pow2Add(8, 8);
    Pow2Add(16, 4);
    Pow2Add(16, 8);
    Pow2Add(24, 2);
    Pow2Add(24, 3);
    Pow2Add(24, 4);
    Pow2Add(16, 16);
  }
}
