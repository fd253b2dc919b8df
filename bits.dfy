/**
 * Python int bit operations and hexadecimal text, as used by the affinity masks:
 * `v & (1 << b)`, `v | (1 << b)`, `f"{v:08x}"` and `int(s, 16)`.
 */
module Bits {
  import opened Results
  import opened Text

  function Pow2(n: nat): (p: nat)
    ensures p >= 1
  {
    if n == 0 then 1 else 2 * Pow2(n - 1)
  }

  /** 2^32, the modulus of a kernel 32-bit counter and the span of one mask segment. */
  const TwoTo32: nat := 4294967296

  lemma Pow2Of32()
    ensures Pow2(32) == TwoTo32
  {
    assert Pow2(4) == 16;
    Pow2Split(4, 4);
    Pow2Split(8, 8);
    Pow2Split(16, 16);
  }

  lemma Pow2Split(a: nat, b: nat)
    ensures Pow2(a + b) == Pow2(a) * Pow2(b)
  {
    if a > 0 {
      Pow2Split(a - 1, b);
    }
  }

  /** Python's `v & (1 << b) != 0` for a non-negative int: bit `b` of `v` is set. */
  predicate TestBit(v: nat, b: nat) {
    if b == 0 then v % 2 == 1 else TestBit(v / 2, b - 1)
  }

  /** Python's `v | (1 << b)`: sets bit `b`, adding 2^b exactly when that bit was clear. */
  function WithBit(v: nat, b: nat): (r: nat)
    ensures r == if TestBit(v, b) then v else v + Pow2(b)
  {
    if b == 0 then (if v % 2 == 1 then v else v + 1)
    else 2 * WithBit(v / 2, b - 1) + v % 2
  }

  /** Setting bit `b` sets that bit and leaves every other bit as it was. */
  lemma {:induction false} TestWithBit(v: nat, b: nat, c: nat)
    ensures TestBit(WithBit(v, b), c) <==> TestBit(v, c) || b == c
  {
    if b > 0 && c > 0 {
      TestWithBit(v / 2, b - 1, c - 1);
      assert WithBit(v, b) / 2 == WithBit(v / 2, b - 1);
    } else if b > 0 {
      assert WithBit(v, b) % 2 == v % 2;
    } else if c > 0 {
      assert WithBit(v, b) / 2 == v / 2;
    }
  }

  /** Zero has no bit set. */
  lemma {:induction false} NoBitOfZero(b: nat)
    ensures !TestBit(0, b)
  {
    if b > 0 {
      NoBitOfZero(b - 1);
    }
  }

  /** A value below 2^n has no bit at position n or above. */
  lemma {:induction false} NoBitAbove(v: nat, n: nat, b: nat)
    requires v < Pow2(n) && n <= b
    ensures !TestBit(v, b)
  {
    if v == 0 {
      NoBitOfZero(b);
    } else if n > 0 {
      NoBitAbove(v / 2, n - 1, b - 1);
    }
  }

  /** A value below 2^n stays below 2^n when a bit below n is set. */
  lemma WithBitBelow(v: nat, n: nat, b: nat)
    requires v < Pow2(n) && b < n
    ensures WithBit(v, b) < Pow2(n)
  {
    if !TestBit(v, b) {
      BitBelowSum(v, n, b);
    }
  }

  lemma {:induction false} BitBelowSum(v: nat, n: nat, b: nat)
    requires v < Pow2(n) && b < n && !TestBit(v, b)
    ensures v + Pow2(b) < Pow2(n)
  {
    assert Pow2(n) == 2 * Pow2(n - 1);
    if b > 0 {
      assert v / 2 < Pow2(n - 1);
      BitBelowSum(v / 2, n - 1, b - 1);
      assert Pow2(b) == 2 * Pow2(b - 1);
      assert v == 2 * (v / 2) + v % 2;
    } else {
      assert v % 2 == 0;
    }
  }

  /** Python's `int & (1 << b)` on a possibly negative int, for a bit of a 32-bit segment. */
  predicate SegmentBit(v: int, b: nat) {
    TestBit(v % TwoTo32, b)
  }

  const HexDigitChars: string := "0123456789abcdef"

  predicate IsHexDigit(c: char) {
    '0' <= c <= '9' || 'a' <= c <= 'f' || 'A' <= c <= 'F'
  }

  predicate IsLowerHexDigit(c: char) {
    '0' <= c <= '9' || 'a' <= c <= 'f'
  }

  predicate IsHexDigits(s: string) {
    s != [] && forall i :: 0 <= i < |s| ==> IsHexDigit(s[i])
  }

  function HexChar(d: nat): (c: char)
    requires d < 16
    ensures IsLowerHexDigit(c)
  {
    HexDigitChars[d]
  }

  function HexDigitValue(c: char): (d: nat)
    requires IsHexDigit(c)
    ensures d < 16
  {
    if '0' <= c <= '9' then c as int - '0' as int
    else if 'a' <= c <= 'f' then c as int - 'a' as int + 10
    else c as int - 'A' as int + 10
  }

  lemma HexCharValue(d: nat)
    requires d < 16
    ensures HexDigitValue(HexChar(d)) == d
  {
  }

  /** The value of a string of hexadecimal digits, most significant first. */
  function HexValue(s: string): nat
    requires forall i :: 0 <= i < |s| ==> IsHexDigit(s[i])
  {
    if s == [] then 0 else HexValue(s[..|s| - 1]) * 16 + HexDigitValue(s[|s| - 1])
  }

  /** Python's `f"{v:0{width}x}"`: lowercase hexadecimal, zero-padded to at least `width` digits. */
  function Hex(v: nat, width: nat): (r: string)
    ensures |r| >= 1 && |r| >= width
    ensures forall i :: 0 <= i < |r| ==> IsLowerHexDigit(r[i])
    decreases v, width
  {
    if v < 16 && width <= 1 then [HexChar(v)]
    else Hex(v / 16, if width == 0 then 0 else width - 1) + [HexChar(v % 16)]
  }

  /** Reading the digits back gives the value: `int(f"{v:0{w}x}", 16) == v`. */
  lemma {:induction false} HexValueOfHex(v: nat, width: nat)
    ensures HexValue(Hex(v, width)) == v
    decreases v, width
  {
    var r := Hex(v, width);
    if v < 16 && width <= 1 {
      HexCharValue(v);
    } else {
      var w := if width == 0 then 0 else width - 1;
      HexValueOfHex(v / 16, w);
      assert r[..|r| - 1] == Hex(v / 16, w);
      HexCharValue(v % 16);
    }
  }

  /** A value below 16^w is written with exactly `w` digits. */
  lemma {:induction false} HexLength(v: nat, width: nat)
    requires width >= 1 && v < Pow2(4 * width)
    ensures |Hex(v, width)| == width
    decreases width
  {
    if width > 1 {
      Pow2Split(4, 4 * (width - 1));
      assert Pow2(4) == 16;
      HexLength(v / 16, width - 1);
    } else {
      assert Pow2(4) == 16;
    }
  }

  /** Python's int(text, 16): surrounding blanks, an optional sign, an optional 0x prefix, hex digits. */
  function IntOfHex(text: string): Option<int> {
    var t := Strip(text);
    var body := if t != [] && (t[0] == '+' || t[0] == '-') then t[1..] else t;
    var digits := if |body| >= 2 && body[0] == '0' && (body[1] == 'x' || body[1] == 'X') then body[2..] else body;
    if IsHexDigits(digits) then
      var v: int := HexValue(digits);
      Some(if t[0] == '-' then -v else v)
    else None
  }

  /** `int(f"{v:0{w}x}", 16) == v`: the formatted text parses back to the value. */
  lemma IntOfHexOfHex(v: nat, width: nat)
    ensures IntOfHex(Hex(v, width)) == Some(v)
  {
    var r := Hex(v, width);
    assert IsLowerHexDigit(r[0]) && IsLowerHexDigit(r[|r| - 1]);
    StripUnchanged(r);
    assert r[0] != '+' && r[0] != '-';
    assert |r| >= 2 ==> IsLowerHexDigit(r[1]);
    assert IsHexDigits(r);
    HexValueOfHex(v, width);
  }
}
