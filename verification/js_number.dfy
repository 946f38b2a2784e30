/** The two JavaScript number/string conversions the core relies on:
    `parseInt` (with no radix, and with radix 16) and `Number.prototype.toString`
    for integers (radix 10 and 16). Numbers are exact integers here; NaN is
    `None`. */
module JsNumber {
  import opened Optional

  /** The radix argument of `parseInt`: absent (decimal, or hexadecimal after a
      `0x` prefix) or 16. */
  datatype Radix = Auto | Sixteen

  /** The white space `parseInt` skips: the ECMAScript WhiteSpace and
      LineTerminator characters (the Unicode `Zs` category spelled out). */
  predicate IsSpace(c: char) {
    || c == '\t' || c == '\n' || c == '\U{B}' || c == '\U{C}' || c == '\r' || c == ' '
    || c == '\U{A0}' || c == '\U{1680}' || ('\U{2000}' <= c <= '\U{200A}')
    || c == '\U{2028}' || c == '\U{2029}' || c == '\U{202F}' || c == '\U{205F}'
    || c == '\U{3000}' || c == '\U{FEFF}'
  }

  /** The value of a digit character in any radix up to 36, or 36 for a
      character that is a digit in no radix. */
  function DigitValue(c: char): (v: nat)
    ensures v <= 36
  {
    if '0' <= c <= '9' then (c - '0') as nat
    else if 'a' <= c <= 'z' then (c - 'a') as nat + 10
    else if 'A' <= c <= 'Z' then (c - 'A') as nat + 10
    else 36
  }

  /** The number of white-space characters `s` starts with. */
  function LeadingSpaces(s: string): (k: nat)
    ensures k <= |s|
    ensures forall i :: 0 <= i < k ==> IsSpace(s[i])
    ensures k < |s| ==> !IsSpace(s[k])
    decreases |s|
  {
    if |s| > 0 && IsSpace(s[0]) then 1 + LeadingSpaces(s[1..]) else 0
  }

  function TrimStart(s: string): string {
    s[LeadingSpaces(s)..]
  }

  /** The longest prefix of `s` made of digits of the given radix. */
  function DigitPrefix(s: string, radix: nat): (r: string)
    ensures |r| <= |s| && r == s[..|r|]
    ensures forall k :: 0 <= k < |r| ==> DigitValue(r[k]) < radix
    ensures |r| < |s| ==> DigitValue(s[|r|]) >= radix
    decreases |s|
  {
    if |s| > 0 && DigitValue(s[0]) < radix then [s[0]] + DigitPrefix(s[1..], radix) else []
  }

  /** The number a string of digits denotes, most significant digit first. */
  function DigitsValue(s: string, radix: nat): nat
    decreases |s|
  {
    if |s| == 0 then 0
    else DigitsValue(s[..|s| - 1], radix) * radix + DigitValue(s[|s| - 1])
  }

  function Signed(negative: bool, n: nat): int {
    if negative then -(n as int) else n
  }

  function HasHexPrefix(s: string): bool {
    |s| >= 2 && s[0] == '0' && (s[1] == 'x' || s[1] == 'X')
  }

  /** The digits part of `parseInt`, after white space and sign: drop a
      `0x`/`0X` prefix (which also selects radix 16 when no radix is given),
      then read the longest run of digits; no digits is NaN. */
  function ParseUnsigned(u: string, radix: Radix): Option<nat> {
    var base := if radix == Sixteen || HasHexPrefix(u) then 16 else 10;
    var v := if HasHexPrefix(u) then u[2..] else u;
    var digits := DigitPrefix(v, base);
    if |digits| == 0 then None else Some(DigitsValue(digits, base))
  }

  /** `parseInt(s)` / `parseInt(s, 16)`: skip leading white space, take an
      optional sign, then parse the digits. */
  function ParseInt(s: string, radix: Radix): Option<int> {
    var t := TrimStart(s);
    var negative := |t| > 0 && t[0] == '-';
    var u := if |t| > 0 && (t[0] == '-' || t[0] == '+') then t[1..] else t;
    match ParseUnsigned(u, radix)
    case None => None
    case Some(n) => Some(Signed(negative, n))
  }

  /** `0`-`9` and `a`-`f`, the characters `toString(16)` writes. */
  predicate IsLowerHexDigit(c: char) {
    '0' <= c <= '9' || 'a' <= c <= 'f'
  }

  /** The lower-case digit character for a value below 16. */
  function DigitChar(v: nat): (c: char)
    requires v < 16
    ensures DigitValue(c) == v
    ensures IsLowerHexDigit(c)
  {
    if v < 10 then ('0' as int + v) as char else ('a' as int + v - 10) as char
  }

  /** The digits of `n` in the given radix, without leading zeros ("0" for 0). */
  function NatDigits(n: nat, radix: nat): (s: string)
    requires 2 <= radix <= 16
    ensures |s| >= 1
    ensures forall k :: 0 <= k < |s| ==> DigitValue(s[k]) < radix && IsLowerHexDigit(s[k])
    decreases n
  {
    if n < radix then [DigitChar(n)]
    else
      DivStep(n, radix);
      NatDigits(n / radix, radix) + [DigitChar(n % radix)]
  }

  /** `n.toString(radix)` for an integer `n`. */
  function IntToString(n: int, radix: nat): (s: string)
    requires 2 <= radix <= 16
    ensures |s| >= 1
    ensures s[0] == '-' <==> n < 0
    ensures forall k :: 0 < k < |s| ==> IsLowerHexDigit(s[k])
    ensures n >= 0 ==> IsLowerHexDigit(s[0])
  {
    if n < 0 then "-" + NatDigits(-n, radix) else NatDigits(n, radix)
  }

  // ---------------------------------------------------------------------

  lemma DivShrinks(n: nat, radix: nat)
    requires 2 <= radix <= n
    ensures n / radix < n
  {
    var q := n / radix;
    if q >= n {
      MulGrows(q, radix);
    }
  }

  lemma MulGrows(q: nat, radix: nat)
    requires radix >= 2
    ensures q * radix >= 2 * q
  {
    var k := radix - 2;
    assert q * radix == q * (2 + k);
  }

  lemma DivStep(n: nat, radix: nat)
    requires 2 <= radix <= n
    ensures n == (n / radix) * radix + n % radix
    ensures 0 <= n % radix < radix
    ensures n / radix < n
  {
    DivShrinks(n, radix);
  }

  lemma {:induction false} NatDigitsValue(n: nat, radix: nat)
    requires 2 <= radix <= 16
    ensures DigitsValue(NatDigits(n, radix), radix) == n
    decreases n
  {
    var s := NatDigits(n, radix);
    if n < radix {
      assert s[..0] == [];
    } else {
      DivStep(n, radix);
      var q, d := n / radix, n % radix;
      var front := NatDigits(q, radix);
      assert s == front + [DigitChar(d)];
      assert s[..|s| - 1] == front;
      NatDigitsValue(q, radix);
    }
  }

  lemma {:induction false} DigitPrefixWhole(s: string, radix: nat)
    requires forall k :: 0 <= k < |s| ==> DigitValue(s[k]) < radix
    ensures DigitPrefix(s, radix) == s
    decreases |s|
  {
    if |s| > 0 {
      DigitPrefixWhole(s[1..], radix);
    }
  }

  /** A run of decimal digits parses as the number it denotes. */
  lemma ParseDecimalDigits(digits: string)
    requires |digits| >= 1
    requires forall k :: 0 <= k < |digits| ==> DigitValue(digits[k]) < 10
    ensures ParseUnsigned(digits, Auto) == Some(DigitsValue(digits, 10))
  {
    assert !HasHexPrefix(digits) by {
      if |digits| >= 2 {
        assert DigitValue(digits[1]) < 10;
      }
    }
    DigitPrefixWhole(digits, 10);
    assert ParseUnsigned(digits, Auto) == Some(DigitsValue(DigitPrefix(digits, 10), 10));
  }

  /** `parseInt` of an optional minus sign followed by decimal digits. */
  lemma ParseSignedDecimal(s: string, digits: string, negative: bool)
    requires |digits| >= 1
    requires forall k :: 0 <= k < |digits| ==> DigitValue(digits[k]) < 10
    requires s == (if negative then "-" else "") + digits
    ensures ParseInt(s, Auto) == Some(Signed(negative, DigitsValue(digits, 10)))
  {
    assert DigitValue(digits[0]) < 10;
    assert (s[0] == '-') == negative;
    assert (s[0] == '-' || s[0] == '+') == negative;
    assert !IsSpace(s[0]);
    assert TrimStart(s) == s;
    assert (if negative then s[1..] else s) == digits;
    ParseDecimalDigits(digits);
  }

  /** Decimal printing and `parseInt` are inverse: `parseInt(String(n)) == n`. */
  lemma DecimalRoundTrip(n: int)
    ensures ParseInt(IntToString(n, 10), Auto) == Some(n)
  {
    var m: nat := if n < 0 then -n else n;
    NatDigitsValue(m, 10);
    ParseSignedDecimal(IntToString(n, 10), NatDigits(m, 10), n < 0);
  }
}
