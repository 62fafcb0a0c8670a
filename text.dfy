/**
 * Character-level helpers the recovery engine relies on: Python's default
 * whitespace stripping, decimal and hexadecimal rendering of naturals, and
 * ASCII upper-casing.
 */
module Text {

  /** The characters Python's `str.isspace()` accepts, which `str.strip()` removes by default. */
  predicate IsSpace(c: char) {
    ('\t' <= c <= '\r') || ('\U{1C}' <= c <= ' ')
    || c == '\U{85}' || c == '\U{A0}' || c == '\U{1680}'
    || ('\U{2000}' <= c <= '\U{200A}') || c == '\U{2028}' || c == '\U{2029}'
    || c == '\U{202F}' || c == '\U{205F}' || c == '\U{3000}'
  }

  /** The number of whitespace characters `s` starts with. */
  function LeadingSpaces(s: string): (n: nat)
    ensures n <= |s|
    ensures forall k :: 0 <= k < n ==> IsSpace(s[k])
    ensures n < |s| ==> !IsSpace(s[n])
  {
    if s != [] && IsSpace(s[0]) then 1 + LeadingSpaces(s[1..]) else 0
  }

  /** The number of whitespace characters `s` ends with. */
  function TrailingSpaces(s: string): (n: nat)
    ensures n <= |s|
    ensures forall k :: |s| - n <= k < |s| ==> IsSpace(s[k])
    ensures n < |s| ==> !IsSpace(s[|s| - n - 1])
  {
    if s != [] && IsSpace(s[|s| - 1]) then 1 + TrailingSpaces(s[..|s| - 1]) else 0
  }

  /** When `s` is not all whitespace, its leading and trailing whitespace do not meet. */
  lemma SpacesDoNotMeet(s: string)
    requires LeadingSpaces(s) < |s|
    ensures LeadingSpaces(s) + TrailingSpaces(s) < |s|
  {
    var i := LeadingSpaces(s);
    assert !IsSpace(s[i]);
  }

  /**
   * Python's `str.strip()`: the result is the slice of `s` between its leading
   * and trailing whitespace, it neither starts nor ends with whitespace, and it
   * is empty exactly when `s` is all whitespace.
   */
  function Strip(s: string): (r: string)
    ensures var i := LeadingSpaces(s);
      i + |r| <= |s| && r == s[i..i + |r|]
      && (forall k :: i + |r| <= k < |s| ==> IsSpace(s[k]))
    ensures r != [] ==> !IsSpace(r[0]) && !IsSpace(r[|r| - 1])
    ensures r == [] <==> forall k :: 0 <= k < |s| ==> IsSpace(s[k])
  {
    var i := LeadingSpaces(s);
    if i == |s| then []
    else
      SpacesDoNotMeet(s);
      var j := |s| - TrailingSpaces(s);
      assert !IsSpace(s[i]) && !IsSpace(s[j - 1]);
      s[i..j]
  }

  predicate IsDigit(c: char) {
    '0' <= c <= '9'
  }

  predicate AllDigits(s: string) {
    forall k :: 0 <= k < |s| ==> IsDigit(s[k])
  }

  function DigitValue(c: char): (d: nat)
    requires IsDigit(c)
    ensures d < 10
  {
    c as int - '0' as int
  }

  function DigitChar(d: nat): (c: char)
    requires d < 10
    ensures IsDigit(c) && DigitValue(c) == d
  {
    ('0' as int + d) as char
  }

  /** The decimal rendering of `n` (Python's `str(n)`), most significant digit first. */
  function NatToString(n: nat): string {
    if n < 10 then [DigitChar(n)] else NatToString(n / 10) + [DigitChar(n % 10)]
  }

  /** The value of a non-empty string of decimal digits. */
  function ParseNat(s: string): nat
    requires s != [] && AllDigits(s)
  {
    if |s| == 1 then DigitValue(s[0]) else 10 * ParseNat(s[..|s| - 1]) + DigitValue(s[|s| - 1])
  }

  /**
   * Decimal rendering gives a non-empty string of digits, and parsing undoes
   * it: `NatToString` loses no information.
   */
  lemma {:induction false} ParseNatToString(n: nat)
    ensures NatToString(n) != [] && AllDigits(NatToString(n))
    ensures ParseNat(NatToString(n)) == n
  {
    if n >= 10 {
      var s := NatToString(n);
      ParseNatToString(n / 10);
      assert s[..|s| - 1] == NatToString(n / 10);
    }
  }

  function Pow10(k: nat): (p: nat)
    ensures p >= 1
  {
    if k == 0 then 1 else 10 * Pow10(k - 1)
  }

  /** A number below 10^k has at most k decimal digits. */
  lemma {:induction false} NatToStringShort(n: nat, k: nat)
    requires 1 <= k && n < Pow10(k)
    ensures |NatToString(n)| <= k
  {
    if n >= 10 {
      NatToStringShort(n / 10, k - 1);
    }
  }

  /** `k` zero digits. */
  function ZeroChars(k: nat): (z: string)
    ensures |z| == k && forall i :: 0 <= i < k ==> z[i] == '0'
  {
    seq(k, _ => '0')
  }

  /** Leading zeros do not change the value of a digit string. */
  lemma {:induction false} ParseNatLeadingZeros(k: nat, d: string)
    requires d != [] && AllDigits(d)
    ensures AllDigits(ZeroChars(k) + d) && ParseNat(ZeroChars(k) + d) == ParseNat(d)
  {
    if k == 0 {
      assert ZeroChars(k) + d == d;
    } else {
      var s := ZeroChars(k) + d;
      var t := ZeroChars(k - 1) + d;
      assert s == ['0'] + t;
      ParseNatLeadingZeros(k - 1, d);
      ParseNatPrefixZero(t);
    }
  }

  /** One leading zero does not change the value of a digit string. */
  lemma {:induction false} ParseNatPrefixZero(t: string)
    requires t != [] && AllDigits(t)
    ensures AllDigits(['0'] + t) && ParseNat(['0'] + t) == ParseNat(t)
  {
    var s := ['0'] + t;
    if |t| > 1 {
      assert s[..|s| - 1] == ['0'] + t[..|t| - 1];
      ParseNatPrefixZero(t[..|t| - 1]);
    }
  }

  /**
   * Python's `f"{n:0{width}d}"`: the decimal digits of `n`, left-padded with
   * zeros to at least `width` characters; the padding leaves the value intact.
   */
  function ZeroPad(n: nat, width: nat): string {
    var d := NatToString(n);
    if |d| >= width then d else ZeroChars(width - |d|) + d
  }

  /**
   * The padded rendering is a string of at least `width` digits, exactly
   * `width` when the number fits, and it parses back to the number.
   */
  lemma ZeroPadParses(n: nat, width: nat)
    ensures var r := ZeroPad(n, width);
      r != [] && AllDigits(r) && |r| >= width && ParseNat(r) == n
      && (|NatToString(n)| <= width ==> |r| == width)
  {
    var d := NatToString(n);
    ParseNatToString(n);
    if |d| < width {
      ParseNatLeadingZeros(width - |d|, d);
    }
  }

  /** Python's `f"{n:02d}"`: at least two digits, left-padded with a zero. */
  function Pad2(n: nat): string {
    ZeroPad(n, 2)
  }

  /** Below 100, the two digits of `Pad2` are the tens and the units of the number. */
  lemma Pad2Digits(n: nat)
    ensures var r := Pad2(n);
      |r| >= 2 && AllDigits(r) && ParseNat(r) == n
      && (n < 100 ==> |r| == 2 && DigitValue(r[0]) == n / 10 && DigitValue(r[1]) == n % 10)
  {
    if n < 100 {
      NatToStringShort(n, 2);
    }
    ZeroPadParses(n, 2);
    var r := Pad2(n);
    assert |r| == 2 ==> ParseNat(r) == 10 * DigitValue(r[0]) + DigitValue(r[1]);
  }

  predicate IsUpperHexDigit(c: char) {
    '0' <= c <= '9' || 'A' <= c <= 'F'
  }

  predicate IsLowerHexDigit(c: char) {
    '0' <= c <= '9' || 'a' <= c <= 'f'
  }

  predicate IsHexDigit(c: char) {
    IsUpperHexDigit(c) || IsLowerHexDigit(c)
  }

  /** The value of one hexadecimal digit of either case. */
  function HexValue(c: char): (d: nat)
    requires IsHexDigit(c)
    ensures d < 16
  {
    if '0' <= c <= '9' then c as int - '0' as int
    else if 'A' <= c <= 'F' then c as int - 'A' as int + 10
    else c as int - 'a' as int + 10
  }

  /** The upper-case hexadecimal digit of `d`. */
  function HexChar(d: nat): (c: char)
    requires d < 16
    ensures IsUpperHexDigit(c) && HexValue(c) == d
  {
    if d < 10 then ('0' as int + d) as char else ('A' as int + d - 10) as char
  }

  function Pow16(k: nat): (p: nat)
    ensures p >= 1
  {
    if k == 0 then 1 else 16 * Pow16(k - 1)
  }

  /**
   * `n` as exactly `width` upper-case hexadecimal digits, most significant
   * first: Python's `f"{n:0{width}X}"` for every `n` below 16^width.
   */
  function HexDigits(n: nat, width: nat): (r: string)
    ensures |r| == width && forall k :: 0 <= k < width ==> IsUpperHexDigit(r[k])
  {
    if width == 0 then [] else HexDigits(n / 16, width - 1) + [HexChar(n % 16)]
  }

  /** The value of a string of hexadecimal digits, most significant first. */
  function ParseHex(s: string): nat
    requires forall k :: 0 <= k < |s| ==> IsHexDigit(s[k])
  {
    if s == [] then 0 else 16 * ParseHex(s[..|s| - 1]) + HexValue(s[|s| - 1])
  }

  /** Fixed-width hexadecimal rendering is undone by parsing whenever the value fits. */
  lemma {:induction false} ParseHexDigits(n: nat, width: nat)
    requires n < Pow16(width)
    ensures ParseHex(HexDigits(n, width)) == n
  {
    if width > 0 {
      var s := HexDigits(n, width);
      assert s[..|s| - 1] == HexDigits(n / 16, width - 1);
      ParseHexDigits(n / 16, width - 1);
    }
  }

  /** Appending one hexadecimal digit below a value appends its character. */
  lemma HexDigitsStep(a: nat, d: nat, width: nat)
    requires d < 16
    ensures HexDigits(a * 16 + d, width + 1) == HexDigits(a, width) + [HexChar(d)]
  {
    assert (a * 16 + d) / 16 == a && (a * 16 + d) % 16 == d;
  }

  /** A byte below a value is its last two hexadecimal digits. */
  lemma ByteDigits(a: nat, b: nat)
    requires b < 256
    ensures a * 256 + b == (a * 16 + b / 16) * 16 + b % 16 && b / 16 < 16
  {
  }

  /**
   * A byte written below a value appends its two hexadecimal digits:
   * hexadecimal rendering works byte by byte, most significant byte first.
   */
  lemma HexDigitsByte(a: nat, b: nat, width: nat)
    requires b < 256
    ensures HexDigits(a * 256 + b, width + 2) == HexDigits(a, width) + HexDigits(b, 2)
  {
    ByteAppends(a, b, width);
    ByteHexDigits(b);
  }

  /** Writing a byte below a value appends the digits of its high and low halves. */
  lemma ByteAppends(a: nat, b: nat, width: nat)
    requires b < 256
    ensures HexDigits(a * 256 + b, width + 2) == HexDigits(a, width) + [HexChar(b / 16)] + [HexChar(b % 16)]
  {
    ByteDigits(a, b);
    HexDigitsStep(a * 16 + b / 16, b % 16, width + 1);
    HexDigitsStep(a, b / 16, width);
  }

  /** The two hexadecimal digits of a byte are those of its high and low halves. */
  lemma ByteHexDigits(b: nat)
    requires b < 256
    ensures HexDigits(b, 2) == [HexChar(b / 16)] + [HexChar(b % 16)]
  {
    assert b / 16 % 16 == b / 16 && b / 16 / 16 == 0;
  }

  /** ASCII upper-casing of one character (Python's `str.upper()` on ASCII text). */
  function UpperAscii(c: char): (u: char)
    ensures !('a' <= u <= 'z')
    ensures 'a' <= c <= 'z' ==> u as int == c as int - 32
    ensures !('a' <= c <= 'z') ==> u == c
  {
    if 'a' <= c <= 'z' then (c as int - 32) as char else c
  }

  function UpperAsciiString(s: string): (r: string)
    ensures |r| == |s| && forall k :: 0 <= k < |s| ==> r[k] == UpperAscii(s[k])
  {
    seq(|s|, k requires 0 <= k < |s| => UpperAscii(s[k]))
  }

  /** Upper-casing a hexadecimal digit keeps it a digit of the same value. */
  lemma UpperHexDigit(c: char)
    requires IsHexDigit(c)
    ensures IsUpperHexDigit(UpperAscii(c)) && HexValue(UpperAscii(c)) == HexValue(c)
  {
  }
}
