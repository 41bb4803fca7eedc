/**
 * The `#rrggbb` text of a color, as the extractor formats it with
 * `Number.prototype.toString(16)`, and its channel parsing with
 * `parseInt(_, 16)` as `hexToRGBA` does it.
 */
module HexColor {
  import opened Options
  import opened Raster

  /** The digits `toString(16)` writes: 0-9, then lower-case a-f. */
  predicate IsLowerHexDigit(ch: char)
  {
    '0' <= ch <= '9' || 'a' <= ch <= 'f'
  }

  /** The digits `parseInt(_, 16)` accepts: 0-9 and a-f in either case. */
  predicate IsHexDigit(ch: char)
  {
    IsLowerHexDigit(ch) || 'A' <= ch <= 'F'
  }

  /** The lower-case digit for a value below 16. */
  function Digit(d: nat): (ch: char)
    requires d < 16
    ensures IsLowerHexDigit(ch) && IsHexDigit(ch)
    ensures DigitValue(ch) == d
  {
    if d < 10 then ('0' as int + d) as char else ('a' as int + d - 10) as char
  }

  /** The value of one base-16 digit, in either case. */
  function DigitValue(ch: char): (d: nat)
    requires IsHexDigit(ch)
    ensures d < 16
  {
    if '0' <= ch <= '9' then ch as int - '0' as int
    else if 'a' <= ch <= 'f' then ch as int - 'a' as int + 10
    else ch as int - 'A' as int + 10
  }

  function Pow16(k: nat): (p: nat)
    ensures p >= 1
  {
    if k == 0 then 1 else 16 * Pow16(k - 1)
  }

  /** `n.toString(16)`: the base-16 numeral of n, lower case, without leading zeros. */
  function ToBase16(n: nat): (s: string)
    ensures |s| >= 1
    ensures forall i :: 0 <= i < |s| ==> IsLowerHexDigit(s[i])
    ensures s[0] == '0' ==> n == 0
    decreases n
  {
    if n < 16 then [Digit(n)] else ToBase16(n / 16) + [Digit(n % 16)]
  }

  /** The number a string of base-16 digits denotes, most significant digit first. */
  function HexValue(s: string): nat
    requires forall i :: 0 <= i < |s| ==> IsHexDigit(s[i])
  {
    if s == [] then 0 else 16 * HexValue(s[..|s| - 1]) + DigitValue(s[|s| - 1])
  }

  /** `v` written with exactly `k` base-16 digits, zero-padded on the left. */
  function FixedHex(v: nat, k: nat): (s: string)
    ensures |s| == k
    ensures forall i :: 0 <= i < |s| ==> IsLowerHexDigit(s[i])
  {
    if k == 0 then [] else FixedHex(v / 16, k - 1) + [Digit(v % 16)]
  }

  /** One channel as two zero-padded lower-case digits. */
  function Hex2(v: Byte): string
  {
    [Digit(v / 16), Digit(v % 16)]
  }

  /**
   * The color as `#` followed by `((1 << 24) + (r << 16) + (g << 8) + b)
   * .toString(16).slice(1)`: the leading 1 forces seven digits, and dropping
   * it leaves each channel as two zero-padded digits.
   */
  function ToHex(c: Rgb): (s: string)
    ensures s == "#" + Hex2(c.r) + Hex2(c.g) + Hex2(c.b)
  {
    ToHexDigits(c);
    "#" + ToBase16(0x1000000 + c.r * 0x10000 + c.g * 0x100 + c.b)[1..]
  }

  lemma ToHexDigits(c: Rgb)
    ensures ToBase16(0x1000000 + c.r * 0x10000 + c.g * 0x100 + c.b)
         == "1" + Hex2(c.r) + Hex2(c.g) + Hex2(c.b)
  {
    var v := c.r * 0x10000 + c.g * 0x100 + c.b;
    assert Pow16(6) == 0x1000000 by { Pow16Six(); }
    LeadingOne(v, 6);
    assert FixedHex(v, 6) == Hex2(c.r) + Hex2(c.g) + Hex2(c.b) by { SixDigits(c); }
  }

  lemma Pow16Six()
    ensures Pow16(6) == 0x1000000
  {
    assert Pow16(2) == 0x100;
    assert Pow16(4) == 0x10000;
  }

  /**
   * Writing 16^k + v in base 16, for v below 16^k, gives a leading 1 followed
   * by v padded to k digits.
   */
  lemma {:induction false} LeadingOne(v: nat, k: nat)
    requires v < Pow16(k)
    ensures ToBase16(Pow16(k) + v) == ['1'] + FixedHex(v, k)
    decreases k
  {
    if k == 0 {
      assert ToBase16(1) == [Digit(1)];
    } else {
      var n := Pow16(k) + v;
      assert n == 16 * (Pow16(k - 1) + v / 16) + v % 16;
      assert n / 16 == Pow16(k - 1) + v / 16 && n % 16 == v % 16;
      LeadingOne(v / 16, k - 1);
    }
  }

  /** The six padded digits of r * 16^4 + g * 16^2 + b, peeled off one at a time. */
  lemma SixDigits(c: Rgb)
    ensures FixedHex(c.r * 0x10000 + c.g * 0x100 + c.b, 6) == Hex2(c.r) + Hex2(c.g) + Hex2(c.b)
  {
    var v0 := c.r * 0x10000 + c.g * 0x100 + c.b;
    var v1 := c.r * 0x1000 + c.g * 0x10 + c.b / 16;
    var v2 := c.r * 0x100 + c.g;
    var v3 := c.r * 0x10 + c.g / 16;
    var v4 := c.r;
    var v5 := c.r / 16;
    assert v0 / 16 == v1 && v0 % 16 == c.b % 16;
    assert v1 / 16 == v2 && v1 % 16 == c.b / 16;
    assert v2 / 16 == v3 && v2 % 16 == c.g % 16;
    assert v3 / 16 == v4 && v3 % 16 == c.g / 16;
    assert v4 / 16 == v5 && v4 % 16 == c.r % 16;
    assert v5 / 16 == 0 && v5 % 16 == c.r / 16;
    assert FixedHex(v5, 1) == [Digit(c.r / 16)];
    assert FixedHex(v4, 2) == Hex2(c.r);
    assert FixedHex(v3, 3) == Hex2(c.r) + [Digit(c.g / 16)];
    assert FixedHex(v2, 4) == Hex2(c.r) + Hex2(c.g);
    assert FixedHex(v1, 5) == Hex2(c.r) + Hex2(c.g) + [Digit(c.b / 16)];
  }

  /** The text always has the `#rrggbb` shape with lower-case digits. */
  lemma ToHexShape(c: Rgb)
    ensures |ToHex(c)| == 7 && ToHex(c)[0] == '#'
    ensures forall i :: 1 <= i < 7 ==> IsLowerHexDigit(ToHex(c)[i])
  {
  }

  /** Reading back the digits of `toString(16)` gives the number: parseInt inverts it. */
  lemma {:induction false} ToBase16RoundTrip(n: nat)
    ensures HexValue(ToBase16(n)) == n
    decreases n
  {
    var s := ToBase16(n);
    if n >= 16 {
      assert s[..|s| - 1] == ToBase16(n / 16);
      ToBase16RoundTrip(n / 16);
    }
  }

  /** JavaScript's `s.slice(i, j)` for 0 <= i <= j: indices past the end are clamped. */
  function Slice(s: string, i: nat, j: nat): (t: string)
    requires i <= j
    ensures |t| == if |s| <= i then 0 else if |s| <= j then |s| - i else j - i
    ensures forall k :: 0 <= k < |t| ==> t[k] == s[i + k]
  {
    if |s| <= i then [] else if |s| <= j then s[i..] else s[i..j]
  }

  /** The longest prefix of `s` made of base-16 digits. */
  function HexDigitPrefix(s: string): (t: string)
    ensures t <= s
    ensures forall i :: 0 <= i < |t| ==> IsHexDigit(t[i])
    ensures |t| < |s| ==> !IsHexDigit(s[|t|])
  {
    if s == [] || !IsHexDigit(s[0]) then [] else [s[0]] + HexDigitPrefix(s[1..])
  }

  /** `parseInt(s, 16)` on its leading digits; None stands for NaN (no digit at all). */
  function ParseInt16(s: string): (v: Option<nat>)
    ensures v.None? <==> s == [] || !IsHexDigit(s[0])
  {
    var t := HexDigitPrefix(s);
    if t == [] then None else Some(HexValue(t))
  }

  /** The three channels `hexToRGBA` reads back from a color text. */
  datatype Channels = Channels(r: Option<nat>, g: Option<nat>, b: Option<nat>)

  /** `parseInt` of the slices [1, 3), [3, 5) and [5, 7) of the text. */
  function ParseHex(hex: string): (ch: Channels)
    ensures ch.r.Some? <==> 1 < |hex| && IsHexDigit(hex[1])
    ensures ch.g.Some? <==> 3 < |hex| && IsHexDigit(hex[3])
    ensures ch.b.Some? <==> 5 < |hex| && IsHexDigit(hex[5])
  {
    Channels(ParseInt16(Slice(hex, 1, 3)), ParseInt16(Slice(hex, 3, 5)), ParseInt16(Slice(hex, 5, 7)))
  }

  lemma ParseHex2(v: Byte)
    ensures ParseInt16(Hex2(v)) == Some(v)
  {
    var s := Hex2(v);
    assert HexDigitPrefix(s[1..]) == s[1..];
    assert HexDigitPrefix(s) == s;
    assert s[..1] == [Digit(v / 16)];
    assert HexValue(s[..1]) == v / 16;
  }

  /** Parsing the formatted text recovers every channel exactly. */
  lemma ParseHexToHex(c: Rgb)
    ensures ParseHex(ToHex(c)) == Channels(Some(c.r), Some(c.g), Some(c.b))
  {
    var s := ToHex(c);
    assert Slice(s, 1, 3) == Hex2(c.r);
    assert Slice(s, 3, 5) == Hex2(c.g);
    assert Slice(s, 5, 7) == Hex2(c.b);
    ParseHex2(c.r);
    ParseHex2(c.g);
    ParseHex2(c.b);
  }

  /** Distinct colors get distinct texts. */
  lemma ToHexInjective(c: Rgb, d: Rgb)
    requires ToHex(c) == ToHex(d)
    ensures c == d
  {
    ParseHexToHex(c);
    ParseHexToHex(d);
  }
}
