/**
  The JavaScript string conversions the quote pipeline relies on, as the
  ECMAScript language specification defines them: `parseInt(s)` with no radix
  (section 19.2.5), `BigInt(s)` on a string (StringToBigInt, section 7.1.14) and
  `String.prototype.startsWith`. Numbers are exact integers here; the rounding
  of large results to a double is not modelled.
 */
module JsStrings {
  import opened Wrappers

  /** StrWhiteSpaceChar: WhiteSpace (tab, VT, FF, BOM and the Zs space separators) or a LineTerminator. */
  predicate IsJsWhiteSpace(c: char) {
    || c == '\t' || c == '\U{000B}' || c == '\U{000C}' || c == '\U{FEFF}'
    || c == ' ' || c == '\U{00A0}' || c == '\U{1680}' || ('\U{2000}' <= c <= '\U{200A}')
    || c == '\U{202F}' || c == '\U{205F}' || c == '\U{3000}'
    || c == '\n' || c == '\r' || c == '\U{2028}' || c == '\U{2029}'
  }

  /** The string without its leading white space. */
  function TrimStart(s: string): (t: string)
    ensures |t| <= |s| && t == s[|s| - |t|..]
    ensures t == [] || !IsJsWhiteSpace(t[0])
  {
    if s != [] && IsJsWhiteSpace(s[0]) then TrimStart(s[1..]) else s
  }

  /** The string without its trailing white space. */
  function TrimEnd(s: string): (t: string)
    ensures |t| <= |s| && t == s[..|t|]
    ensures t == [] || !IsJsWhiteSpace(t[|t| - 1])
  {
    if s != [] && IsJsWhiteSpace(s[|s| - 1]) then TrimEnd(s[..|s| - 1]) else s
  }

  /** The value of a digit character in bases up to 36 (`0`-`9`, then `a`-`z` in either case); 36 for any other character. */
  function DigitValue(c: char): (d: nat)
    ensures d <= 36
  {
    if '0' <= c <= '9' then c as int - '0' as int
    else if 'a' <= c <= 'z' then c as int - 'a' as int + 10
    else if 'A' <= c <= 'Z' then c as int - 'A' as int + 10
    else 36
  }

  /** Every character of s is a digit of the radix. */
  predicate AllDigits(s: string, radix: nat) {
    forall i :: 0 <= i < |s| ==> DigitValue(s[i]) < radix
  }

  /** The length of the longest prefix of s made of digits of the radix. */
  function DigitPrefixLength(s: string, radix: nat): (n: nat)
    ensures n <= |s| && AllDigits(s[..n], radix)
    ensures n < |s| ==> DigitValue(s[n]) >= radix
  {
    if s != [] && DigitValue(s[0]) < radix then
      var n := 1 + DigitPrefixLength(s[1..], radix);
      assert forall i :: 1 <= i < n ==> s[..n][i] == s[1..][..n - 1][i - 1];
      n
    else 0
  }

  /** The integer a string of digits denotes in the radix. */
  function DigitsValue(s: string, radix: nat): nat
    requires AllDigits(s, radix)
  {
    if s == [] then 0
    else
      var init := s[..|s| - 1];
      assert AllDigits(init, radix) by {
        forall i | 0 <= i < |init| ensures DigitValue(init[i]) < radix { assert init[i] == s[i]; }
      }
      DigitsValue(init, radix) * radix + DigitValue(s[|s| - 1])
  }

  predicate HasHexPrefix(s: string) {
    |s| >= 2 && s[0] == '0' && (s[1] == 'x' || s[1] == 'X')
  }

  /** The longest run of radix digits at the start of s, read as a number; None when there is none. */
  function LeadingDigits(s: string, radix: nat): (r: Option<nat>)
    ensures r.Some? <==> s != [] && DigitValue(s[0]) < radix
  {
    var n := DigitPrefixLength(s, radix);
    if n == 0 then None else Some(DigitsValue(s[..n], radix))
  }

  /** parseInt after the sign: base 16 behind `0x`/`0X`, base 10 otherwise. */
  function ParseUnsigned(u: string): Option<nat> {
    if HasHexPrefix(u) then LeadingDigits(u[2..], 16) else LeadingDigits(u, 10)
  }

  /**
    `parseInt(s)`: skip leading white space, take an optional sign, switch to
    base 16 after `0x`/`0X`, then read the longest run of digits. None is NaN,
    which is the result exactly when that run is empty.
   */
  function ParseInt(s: string): Option<int> {
    var t := TrimStart(s);
    if t != [] && t[0] == '-' then
      match ParseUnsigned(t[1..])
      case Some(v) => Some(-(v as int))
      case None => None
    else if t != [] && t[0] == '+' then ParseUnsigned(t[1..])
    else ParseUnsigned(t)
  }

  /** A whole digit string of the radix, read as a number; None when it is empty or holds a non-digit. */
  function WholeDigits(s: string, radix: nat): (r: Option<nat>)
    ensures r.Some? <==> s != [] && AllDigits(s, radix)
  {
    if s != [] && AllDigits(s, radix) then Some(DigitsValue(s, radix)) else None
  }

  /** The base named by the letter after a leading `0` in a BigInt literal, or 0 for any other letter. */
  function PrefixRadix(c: char): nat {
    if c == 'x' || c == 'X' then 16 else if c == 'o' || c == 'O' then 8 else if c == 'b' || c == 'B' then 2 else 0
  }

  /** StringToBigInt on text already trimmed at both ends. */
  function ParseBigIntLiteral(t: string): Option<int> {
    if t == [] then Some(0)
    else if |t| >= 2 && t[0] == '0' && PrefixRadix(t[1]) != 0 then WholeDigits(t[2..], PrefixRadix(t[1]))
    else if t[0] == '-' then
      match WholeDigits(t[1..], 10)
      case Some(v) => Some(-(v as int))
      case None => None
    else if t[0] == '+' then WholeDigits(t[1..], 10)
    else WholeDigits(t, 10)
  }

  /**
    `BigInt(s)` for a string s: after trimming white space at both ends, the
    empty string is 0; otherwise the text must be a decimal integer with an
    optional sign, or an unsigned `0x`, `0o` or `0b` literal. None is the
    SyntaxError BigInt throws for any other text.
   */
  function StringToBigInt(s: string): Option<int> {
    ParseBigIntLiteral(TrimEnd(TrimStart(s)))
  }

  /** `s.startsWith(prefix)`. */
  predicate StartsWith(s: string, prefix: string) {
    |prefix| <= |s| && s[..|prefix|] == prefix
  }

  /** The decimal numeral of n, as `String(n)` writes it. */
  function ToDecimal(n: nat): (s: string)
    ensures s != [] && AllDigits(s, 10) && DigitsValue(s, 10) == n
    decreases n
  {
    var last := ('0' as int + n % 10) as char;
    if n < 10 then
      assert DigitValue(last) == n;
      [last]
    else
      var s := ToDecimal(n / 10) + [last];
      assert s[..|s| - 1] == ToDecimal(n / 10);
      assert AllDigits(s, 10) by {
        forall i | 0 <= i < |s| ensures DigitValue(s[i]) < 10 {
          if i < |s| - 1 { assert s[i] == ToDecimal(n / 10)[i]; }
        }
      }
      s
  }

  /** A digit run reads as all digits whatever follows it, once a non-digit stops it. */
  lemma DigitPrefixOfConcat(d: string, rest: string, radix: nat)
    requires AllDigits(d, radix)
    requires rest == [] || DigitValue(rest[0]) >= radix
    ensures DigitPrefixLength(d + rest, radix) == |d|
    decreases |d|
  {
    if d != [] {
      assert (d + rest)[1..] == d[1..] + rest;
      DigitPrefixOfConcat(d[1..], rest, radix);
    } else {
      assert d + rest == rest;
    }
  }

  /**
    `parseInt` accepts any text that starts with digits: a decimal numeral
    (leading zeros included) followed by anything that is not a digit reads as
    the numeral alone, unless the text opens with `0x` or `0X`.
   */
  lemma ParseIntReadsLeadingDigits(d: string, junk: string)
    requires d != [] && AllDigits(d, 10) && !HasHexPrefix(d + junk)
    requires junk == [] || DigitValue(junk[0]) >= 10
    ensures ParseInt(d + junk) == Some(DigitsValue(d, 10))
  {
    var s := d + junk;
    assert s[0] == d[0];
    assert DigitValue(s[0]) < 10;
    assert !IsJsWhiteSpace(s[0]);
    assert TrimStart(s) == s;
    DigitPrefixOfConcat(d, junk, 10);
    assert s[..|d|] == d;
    assert ParseUnsigned(s) == LeadingDigits(s, 10) == Some(DigitsValue(d, 10));
  }

  /** A non-empty decimal digit string has no white space, sign or base prefix around its digits. */
  lemma DecimalShape(s: string)
    requires s != [] && AllDigits(s, 10)
    ensures TrimStart(s) == s && TrimEnd(s) == s && s[0] != '-' && s[0] != '+'
    ensures !HasHexPrefix(s) && (|s| >= 2 ==> PrefixRadix(s[1]) == 0)
  {
    assert DigitValue(s[0]) < 10 && DigitValue(s[|s| - 1]) < 10;
    DecimalDigitChar(s[0]);
    DecimalDigitChar(s[|s| - 1]);
    NoTrimAround(s);
    if |s| >= 2 {
      assert DigitValue(s[1]) < 10;
      DecimalDigitChar(s[1]);
    }
  }

  /** Text that neither starts nor ends with white space is its own trim. */
  lemma NoTrimAround(s: string)
    requires s != [] && !IsJsWhiteSpace(s[0]) && !IsJsWhiteSpace(s[|s| - 1])
    ensures TrimStart(s) == s && TrimEnd(s) == s
  {
  }

  lemma DecimalDigitChar(c: char)
    requires DigitValue(c) < 10
    ensures '0' <= c <= '9' && !IsJsWhiteSpace(c)
  {
  }

  /** `parseInt` reads back the decimal numeral of any natural number. */
  lemma ParseIntDecimalRoundTrip(n: nat)
    ensures ParseInt(ToDecimal(n)) == Some(n)
  {
    var s := ToDecimal(n);
    DecimalShape(s);
    DigitPrefixOfConcat(s, [], 10);
    assert s + [] == s && s[..|s|] == s;
    assert ParseUnsigned(s) == LeadingDigits(s, 10);
  }

  /** `BigInt` reads back the decimal numeral of any natural number. */
  lemma BigIntDecimalRoundTrip(n: nat)
    ensures StringToBigInt(ToDecimal(n)) == Some(n)
  {
    var s := ToDecimal(n);
    DecimalShape(s);
    assert ParseBigIntLiteral(s) == WholeDigits(s, 10);
  }
}
