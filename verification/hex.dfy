/** Hexadecimal colour strings in public/app.js: `rgbToHex`, used by the
    pipette, and `hexToRgba`, used to turn the accent colour into a chart
    colour with transparency. */
module Hex {
  import opened Optional
  import opened JsNumber

  /** One colour channel as read from canvas image data: a byte. */
  type Channel = x: int | 0 <= x <= 255

  /** The channels and alpha written into an `rgba(r, g, b, a)` string. */
  datatype Rgba = Rgba(r: int, g: int, b: int, alpha: real)

  /** `s.padStart(2, '0')`. */
  function PadStart2(s: string): (r: string)
    ensures |s| >= 2 ==> r == s
    ensures |s| < 2 ==> |r| == 2 && r[2 - |s|..] == s
    ensures forall k :: 0 <= k < 2 - |s| ==> r[k] == '0'
  {
    if |s| >= 2 then s else seq(2 - |s|, _ => '0') + s
  }

  /** `n.toString(16).padStart(2, '0')`. */
  function ChannelHex(n: int): string {
    PadStart2(IntToString(n, 16))
  }

  /** `rgbToHex(r, g, b)`: `#` and two lower-case hex digits per channel. */
  function RgbToHex(r: Channel, g: Channel, b: Channel): (s: string)
    ensures |s| == 7 && s[0] == '#'
    ensures forall k :: 1 <= k < 7 ==> IsLowerHexDigit(s[k])
    ensures ByteValue(s[1], s[2]) == r
    ensures ByteValue(s[3], s[4]) == g
    ensures ByteValue(s[5], s[6]) == b
  {
    var x, y, z := ChannelHex(r), ChannelHex(g), ChannelHex(b);
    ChannelHexDigits(r);
    ChannelHexDigits(g);
    ChannelHexDigits(b);
    JoinPairs(x, y, z);
    "#" + x + y + z
  }

  /** `s.replace(c, '')` with a one-character pattern: only the first
      occurrence is removed. */
  function RemoveFirst(s: string, c: char): (r: string)
    ensures c !in s ==> r == s
    ensures |s| > 0 && s[0] == c ==> r == s[1..]
    ensures c in s ==> |r| == |s| - 1
    ensures c in s ==> exists k :: RemovedFirstAt(s, c, r, k)
    decreases |s|
  {
    if |s| == 0 then s
    else if s[0] == c then
      RemovedAtHead(s, c);
      s[1..]
    else
      var rest := RemoveFirst(s[1..], c);
      RemovedFurtherOn(s, c, rest);
      [s[0]] + rest
  }

  lemma RemovedAtHead(s: string, c: char)
    requires |s| > 0 && s[0] == c
    ensures RemovedFirstAt(s, c, s[1..], 0)
  {
    assert s[..0] == [];
  }

  /** When `s` does not start with `c`, its first `c` is the first `c` of
      `s[1..]`, one place further on. */
  lemma RemovedFurtherOn(s: string, c: char, rest: string)
    requires |s| > 0 && s[0] != c
    requires c in s[1..] ==> exists k :: RemovedFirstAt(s[1..], c, rest, k)
    ensures c in s ==> c in s[1..]
    ensures c in s ==> exists k :: RemovedFirstAt(s, c, [s[0]] + rest, k)
  {
    if c in s {
      var j :| 0 <= j < |s| && s[j] == c;
      assert s[1..][j - 1] == c;
      var k :| RemovedFirstAt(s[1..], c, rest, k);
      FirstOccurrenceShifts(s, c, rest, k);
    }
  }

  /** `r` is `s` with its first `c`, at position `k`, taken out. */
  ghost predicate RemovedFirstAt(s: string, c: char, r: string, k: int) {
    && 0 <= k < |s| && s[k] == c
    && (forall j :: 0 <= j < k ==> s[j] != c)
    && r == s[..k] + s[k + 1..]
  }

  /** The first occurrence of `c` in `s[1..]`, one place further on, is the
      first in `s` when `s` does not start with `c`. */
  lemma FirstOccurrenceShifts(s: string, c: char, rest: string, k: int)
    requires |s| > 0 && s[0] != c
    requires RemovedFirstAt(s[1..], c, rest, k)
    ensures RemovedFirstAt(s, c, [s[0]] + rest, k + 1)
  {
    var t := s[1..];
    forall j | 0 <= j < k + 1 ensures s[j] != c {
      if j > 0 {
        assert s[j] == t[j - 1];
      }
    }
    assert s[..k + 1] == [s[0]] + t[..k];
    assert s[k + 2..] == t[k + 1..];
  }

  /** `h.split('').map(x => x + x).join('')`. */
  function DoubleEach(h: string): (r: string)
    ensures |r| == 2 * |h|
    ensures forall i :: 0 <= i < |h| ==> r[2 * i] == h[i] && r[2 * i + 1] == h[i]
    decreases |h|
  {
    if |h| == 0 then [] else [h[0], h[0]] + DoubleEach(h[1..])
  }

  /** ECMAScript ToInt32 on an integer: wrap into the signed 32-bit range. */
  function ToInt32(x: int): (r: int)
    ensures -0x8000_0000 <= r < 0x8000_0000
    ensures (r - x) % 0x1_0000_0000 == 0
  {
    (x + 0x8000_0000) % 0x1_0000_0000 - 0x8000_0000
  }

  /** `hexToRgba(hex, alpha)`: drop the first `#`, expand a 3-digit form by
      doubling each digit, parse as hexadecimal (NaN becomes 0 under the bit
      operators), and take bits 16-23, 8-15 and 0-7 of the 32-bit value. */
  function HexToRgba(hex: string, alpha: real): (c: Rgba)
    ensures 0 <= c.r < 256 && 0 <= c.g < 256 && 0 <= c.b < 256
    ensures c.alpha == alpha
  {
    var h := RemoveFirst(hex, '#');
    var full := if |h| == 3 then DoubleEach(h) else h;
    var bits := ToInt32(ParseInt(full, Sixteen).ValueOr(0));
    Rgba(Red(bits), Green(bits), Blue(bits), alpha)
  }

  /** `(bits >> 16) & 255` on a 32-bit value. */
  function Red(bits: int): int {
    (bits / 0x1_0000) % 256
  }

  /** `(bits >> 8) & 255` on a 32-bit value. */
  function Green(bits: int): int {
    (bits / 0x100) % 256
  }

  /** `bits & 255` on a 32-bit value. */
  function Blue(bits: int): int {
    bits % 256
  }

  /** The byte two hex digits denote, high digit first. */
  function ByteValue(hi: char, lo: char): int {
    16 * DigitValue(hi) + DigitValue(lo)
  }

  /** Three bytes as one 24-bit number, red most significant. */
  function Pack(r: int, g: int, b: int): int {
    r * 0x1_0000 + g * 0x100 + b
  }

  // ---------------------------------------------------------------------

  /** The two characters written for a channel are lower-case hex digits
      whose value is the channel. */
  lemma ChannelHexDigits(n: Channel)
    ensures |ChannelHex(n)| == 2
    ensures IsLowerHexDigit(ChannelHex(n)[0]) && IsLowerHexDigit(ChannelHex(n)[1])
    ensures ByteValue(ChannelHex(n)[0], ChannelHex(n)[1]) == n
  {
    if n >= 16 {
      assert NatDigits(n, 16) == NatDigits(n / 16, 16) + [DigitChar(n % 16)];
      assert NatDigits(n / 16, 16) == [DigitChar(n / 16)];
    }
  }

  lemma JoinPairs(x: string, y: string, z: string)
    requires |x| == 2 && |y| == 2 && |z| == 2
    requires IsLowerHexDigit(x[0]) && IsLowerHexDigit(x[1]) && IsLowerHexDigit(y[0])
    requires IsLowerHexDigit(y[1]) && IsLowerHexDigit(z[0]) && IsLowerHexDigit(z[1])
    ensures |"#" + x + y + z| == 7 && ("#" + x + y + z)[0] == '#'
    ensures ("#" + x + y + z)[1] == x[0] && ("#" + x + y + z)[2] == x[1]
    ensures ("#" + x + y + z)[3] == y[0] && ("#" + x + y + z)[4] == y[1]
    ensures ("#" + x + y + z)[5] == z[0] && ("#" + x + y + z)[6] == z[1]
    ensures forall k :: 1 <= k < 7 ==> IsLowerHexDigit(("#" + x + y + z)[k])
  {
    var s := "#" + x + y + z;
    assert s[1] == x[0] && s[2] == x[1] && s[3] == y[0] && s[4] == y[1] && s[5] == z[0] && s[6] == z[1];
  }

  /** Appending two hex digits multiplies the value so far by 256. */
  lemma AppendPair(x: string, c0: char, c1: char)
    ensures DigitsValue(x + [c0, c1], 16) == DigitsValue(x, 16) * 256 + ByteValue(c0, c1)
  {
    var y := x + [c0, c1];
    assert y[..|y| - 1] == x + [c0];
    assert (x + [c0])[..|x|] == x;
  }

  /** Six hex digits, in either letter case, parse under `parseInt(…, 16)`
      as three bytes. */
  lemma ParseSixDigits(s: string)
    requires |s| == 6
    requires forall k :: 0 <= k < 6 ==> DigitValue(s[k]) < 16
    ensures ParseInt(s, Sixteen) == Some(Pack(
      ByteValue(s[0], s[1]),
      ByteValue(s[2], s[3]),
      ByteValue(s[4], s[5])))
  {
    ParseHexWhole(s);
    SixDigitsValue(s);
  }

  /** A run of hex digits, in either letter case, parses under
      `parseInt(…, 16)` as the number it denotes. */
  lemma ParseHexWhole(s: string)
    requires |s| >= 1
    requires forall k :: 0 <= k < |s| ==> DigitValue(s[k]) < 16
    ensures ParseInt(s, Sixteen) == Some(DigitsValue(s, 16))
  {
    HexUnsigned(s);
    NoLeadingSign(s);
  }

  lemma HexUnsigned(s: string)
    requires |s| >= 1
    requires forall k :: 0 <= k < |s| ==> DigitValue(s[k]) < 16
    ensures ParseUnsigned(s, Sixteen) == Some(DigitsValue(s, 16))
  {
    assert !HasHexPrefix(s) by {
      if |s| >= 2 {
        assert DigitValue(s[1]) < 16;
      }
    }
    DigitPrefixWhole(s, 16);
    assert ParseUnsigned(s, Sixteen) == Some(DigitsValue(DigitPrefix(s, 16), 16));
  }

  /** A string that starts with a digit is read by `parseInt` without
      trimming and without a sign. */
  lemma NoLeadingSign(s: string)
    requires |s| >= 1 && DigitValue(s[0]) < 16
    ensures ParseInt(s, Sixteen) == ParseUnsigned(s, Sixteen)
  {
    assert !IsSpace(s[0]);
    assert TrimStart(s) == s;
  }

  lemma SixDigitsValue(s: string)
    requires |s| == 6
    ensures DigitsValue(s, 16) == Pack(
      ByteValue(s[0], s[1]),
      ByteValue(s[2], s[3]),
      ByteValue(s[4], s[5]))
  {
    AppendPair([], s[0], s[1]);
    AppendPair(s[..2], s[2], s[3]);
    AppendPair(s[..4], s[4], s[5]);
    assert [] + [s[0], s[1]] == s[..2];
    assert s[..2] + [s[2], s[3]] == s[..4];
    assert s[..4] + [s[4], s[5]] == s;
  }

  /** Three bytes packed into one number come apart again under the
      shifts and masks of `hexToRgba`. */
  lemma UnpackBytes(r: Channel, g: Channel, b: Channel)
    ensures Red(ToInt32(Pack(r, g, b))) == r
    ensures Green(ToInt32(Pack(r, g, b))) == g
    ensures Blue(ToInt32(Pack(r, g, b))) == b
  {
    var v := Pack(r, g, b);
    var low := g * 0x100 + b;
    assert 0 <= low < 0x1_0000;
    assert 0 <= v < 0x8000_0000;
    assert ToInt32(v) == v;
    ByteQuotient(r, low, 0x1_0000);
    ByteQuotient(r * 0x100 + g, b, 0x100);
    assert v == (r * 0x100 + g) * 0x100 + b;
    ByteQuotient(0, r, 0x100);
    ByteQuotient(r, g, 0x100);
    ByteQuotient(g, b, 0x100);
  }

  /** Dividing `q * d + rem` by `d`, for the two divisors the shifts use,
      gives back `q` and `rem`. */
  lemma ByteQuotient(q: int, rem: int, d: int)
    requires d == 0x100 || d == 0x1_0000
    requires 0 <= rem < d
    ensures (q * d + rem) / d == q && (q * d + rem) % d == rem
  {
    if d == 0x100 {
      assert (q * 0x100 + rem) / 0x100 == q;
    } else {
      assert (q * 0x1_0000 + rem) / 0x1_0000 == q;
    }
  }

  /** Decoding a colour written by `rgbToHex` gives back its channels. */
  lemma HexRoundTrip(r: Channel, g: Channel, b: Channel, alpha: real)
    ensures HexToRgba(RgbToHex(r, g, b), alpha) == Rgba(r, g, b, alpha)
  {
    var s := RgbToHex(r, g, b);
    var h := RemoveFirst(s, '#');
    assert h == s[1..];
    assert ByteValue(h[0], h[1]) == r;
    assert ByteValue(h[2], h[3]) == g;
    assert ByteValue(h[4], h[5]) == b;
    forall k | 0 <= k < 6 ensures DigitValue(h[k]) < 16 {
      HexDigitValue(h[k]);
    }
    ParseSixDigits(h);
    assert ParseInt(h, Sixteen).ValueOr(0) == Pack(r, g, b);
    UnpackBytes(r, g, b);
  }

  /** The 3-digit short form means the same as the 6-digit form with every
      digit doubled. */
  lemma ShortFormExpands(h: string, alpha: real)
    requires |h| == 3
    ensures HexToRgba("#" + h, alpha) == HexToRgba("#" + DoubleEach(h), alpha)
  {
    assert RemoveFirst("#" + h, '#') == h;
    assert RemoveFirst("#" + DoubleEach(h), '#') == DoubleEach(h);
  }

  /** A 3-digit colour, in either letter case: each channel is 17 times its
      digit. */
  lemma ShortFormChannels(h: string, alpha: real)
    requires |h| == 3
    requires forall k :: 0 <= k < 3 ==> DigitValue(h[k]) < 16
    ensures HexToRgba("#" + h, alpha) ==
      Rgba(17 * DigitValue(h[0]), 17 * DigitValue(h[1]), 17 * DigitValue(h[2]), alpha)
  {
    var r, g, b := 17 * DigitValue(h[0]), 17 * DigitValue(h[1]), 17 * DigitValue(h[2]);
    DoubledDigitsParse(h);
    ShortFormDecodes(h, r, g, b, alpha);
  }

  /** A 3-digit colour whose doubled form parses as the packed channels
      decodes to them. */
  lemma ShortFormDecodes(h: string, r: Channel, g: Channel, b: Channel, alpha: real)
    requires |h| == 3
    requires ParseInt(DoubleEach(h), Sixteen) == Some(Pack(r, g, b))
    ensures HexToRgba("#" + h, alpha) == Rgba(r, g, b, alpha)
  {
    assert RemoveFirst("#" + h, '#') == h;
    UnpackBytes(r, g, b);
  }

  /** The doubled form of three hex digits parses as the channels `17 * digit`. */
  lemma DoubledDigitsParse(h: string)
    requires |h| == 3
    requires forall k :: 0 <= k < 3 ==> DigitValue(h[k]) < 16
    ensures ParseInt(DoubleEach(h), Sixteen) ==
      Some(Pack(17 * DigitValue(h[0]), 17 * DigitValue(h[1]), 17 * DigitValue(h[2])))
  {
    DoubleThree(h);
    DoubledParse(h[0], h[1], h[2]);
  }

  lemma HexDigitValue(c: char)
    requires IsLowerHexDigit(c)
    ensures DigitValue(c) < 16
  {
  }

  /** Three digits, each doubled, parse as the channels `17 * digit`. */
  lemma DoubledParse(a: char, b: char, c: char)
    requires DigitValue(a) < 16 && DigitValue(b) < 16 && DigitValue(c) < 16
    ensures ParseInt([a, a, b, b, c, c], Sixteen) ==
      Some(Pack(17 * DigitValue(a), 17 * DigitValue(b), 17 * DigitValue(c)))
  {
    var d := [a, a, b, b, c, c];
    assert forall k :: 0 <= k < 6 ==> DigitValue(d[k]) < 16;
    ParseSixDigits(d);
    assert ByteValue(a, a) == 17 * DigitValue(a);
    assert ByteValue(b, b) == 17 * DigitValue(b);
    assert ByteValue(c, c) == 17 * DigitValue(c);
  }

  lemma DoubleThree(h: string)
    requires |h| == 3
    ensures DoubleEach(h) == [h[0], h[0], h[1], h[1], h[2], h[2]]
  {
    assert DoubleEach(h[1..][1..][1..]) == [];
    assert DoubleEach(h[1..][1..]) == [h[2], h[2]];
    assert DoubleEach(h[1..]) == [h[1], h[1], h[2], h[2]];
  }

  /** A string without leading hex digits decodes to black. */
  lemma UnparsableIsBlack(hex: string, alpha: real)
    requires |hex| > 0 && hex[0] == '#'
    requires |hex| != 4
    requires |hex| > 1 ==> DigitValue(hex[1]) >= 16 && !IsSpace(hex[1]) && hex[1] != '-' && hex[1] != '+'
    ensures HexToRgba(hex, alpha) == Rgba(0, 0, 0, alpha)
  {
    var h := hex[1..];
    assert RemoveFirst(hex, '#') == h;
    assert TrimStart(h) == h;
    assert !HasHexPrefix(h);
  }

  /** `rgbToHex(255, 0, 0)` is `#ff0000`. */
  lemma RedHex()
    ensures RgbToHex(255, 0, 0) == "#ff0000"
  {
    assert NatDigits(255, 16) == NatDigits(15, 16) + [DigitChar(15)];
    assert NatDigits(0, 16) == [DigitChar(0)];
  }
}
