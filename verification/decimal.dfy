/** Number/text conversions the quiz app relies on: `String(n)` for
    integers, `padStart(2, '0')`, and `parseInt` both with radix 10 and
    with no radix (where a `0x` prefix switches to hexadecimal). JavaScript
    numbers are modelled as unbounded integers and NaN as `None`. */
module Decimal {
  import opened Wrappers

  predicate IsDigit(c: char) {
    '0' <= c <= '9'
  }

  predicate AllDigits(s: string) {
    forall i :: 0 <= i < |s| ==> IsDigit(s[i])
  }

  /** The value `parseInt` gives a character in any radix up to 36:
      digits, then letters of either case from 10; 36 for anything else,
      which is a digit in no radix. */
  function DigitValue(c: char): nat {
    if '0' <= c <= '9' then c as int - '0' as int
    else if 'a' <= c <= 'z' then c as int - 'a' as int + 10
    else if 'A' <= c <= 'Z' then c as int - 'A' as int + 10
    else 36
  }

  predicate IsRadixDigit(c: char, radix: nat) {
    DigitValue(c) < radix
  }

  lemma DecimalDigitIsDigit(c: char)
    ensures IsRadixDigit(c, 10) <==> IsDigit(c)
  {
  }

  /** The positional value of `s` in `radix`, most significant digit first. */
  function ValueIn(s: string, radix: nat): nat
    decreases |s|
  {
    if |s| == 0 then 0
    else ValueIn(s[..|s| - 1], radix) * radix + DigitValue(s[|s| - 1])
  }

  /** Length of the longest prefix of `s` made of digits of `radix`. */
  function DigitRun(s: string, radix: nat): (k: nat)
    ensures k <= |s|
    ensures forall i :: 0 <= i < k ==> IsRadixDigit(s[i], radix)
    ensures k < |s| ==> !IsRadixDigit(s[k], radix)
    decreases |s|
  {
    if |s| == 0 || !IsRadixDigit(s[0], radix) then 0
    else 1 + DigitRun(s[1..], radix)
  }

  function DigitChar(d: nat): (c: char)
    requires d < 10
    ensures IsDigit(c) && DigitValue(c) == d
  {
    ('0' as int + d) as char
  }

  /** `String(n)` for a non-negative integer: decimal, no leading zeros. */
  function NatToString(n: nat): (r: string)
    ensures |r| >= 1 && AllDigits(r)
    ensures r[0] == '0' ==> n == 0
    decreases n
  {
    if n < 10 then [DigitChar(n)]
    else NatToString(n / 10) + [DigitChar(n % 10)]
  }

  /** `String(i)` for any integer. */
  function IntToString(i: int): string {
    if i < 0 then "-" + NatToString(-i) else NatToString(i)
  }

  /** `String(x)` for a number that may be NaN. */
  function NumberToString(x: Option<int>): string {
    match x
    case Some(i) => IntToString(i)
    case None => "NaN"
  }

  /** `s.padStart(2, '0')`. */
  function PadStart2(s: string): (r: string)
    ensures |r| == if |s| >= 2 then |s| else 2
    ensures r[|r| - |s|..] == s
    ensures forall i :: 0 <= i < |r| - |s| ==> r[i] == '0'
  {
    if |s| >= 2 then s else seq(2 - |s|, _ => '0') + s
  }

  /** The characters `parseInt` skips before the number: the ECMAScript
      WhiteSpace and LineTerminator characters. */
  predicate IsJsWhitespace(c: char) {
    || c == '\t' || c == '\n' || c == '\U{000B}' || c == '\U{000C}' || c == '\r'
    || c == ' ' || c == '\U{00A0}' || c == '\U{1680}' || ('\U{2000}' <= c <= '\U{200A}')
    || c == '\U{2028}' || c == '\U{2029}' || c == '\U{202F}' || c == '\U{205F}'
    || c == '\U{3000}' || c == '\U{FEFF}'
  }

  /** `s` without its leading whitespace. */
  function TrimStart(s: string): (r: string)
    ensures |r| <= |s| && r == s[|s| - |r|..]
    ensures forall i :: 0 <= i < |s| - |r| ==> IsJsWhitespace(s[i])
    ensures |r| > 0 ==> !IsJsWhitespace(r[0])
    decreases |s|
  {
    if |s| > 0 && IsJsWhitespace(s[0]) then TrimStart(s[1..]) else s
  }

  /** The longest run of `radix` digits at the start of `body`, read as a
      number; NaN when there is none. */
  function ParseDigits(body: string, radix: nat): Option<nat> {
    var k := DigitRun(body, radix);
    if k == 0 then None else Some(ValueIn(body[..k], radix))
  }

  predicate HasHexPrefix(u: string) {
    |u| >= 2 && u[0] == '0' && (u[1] == 'x' || u[1] == 'X')
  }

  /** The unsigned part of `parseInt`: with no radix given, a `0x` or `0X`
      prefix selects radix 16; otherwise the radix is 10. */
  function ParseUnsigned(u: string, autoRadix: bool): Option<nat> {
    if autoRadix && HasHexPrefix(u) then ParseDigits(u[2..], 16) else ParseDigits(u, 10)
  }

  /** `parseInt(s, 10)` when `autoRadix` is false, `parseInt(s)` when it is
      true: skip whitespace, read an optional sign, then the unsigned part. */
  function ParseInt(s: string, autoRadix: bool): Option<int> {
    var t := TrimStart(s);
    if |t| > 0 && t[0] == '-' then Signed(ParseUnsigned(t[1..], autoRadix), true)
    else if |t| > 0 && t[0] == '+' then Signed(ParseUnsigned(t[1..], autoRadix), false)
    else Signed(ParseUnsigned(t, autoRadix), false)
  }

  /** Applies a sign to a parsed magnitude; NaN stays NaN. */
  function Signed(x: Option<nat>, negative: bool): Option<int> {
    match x
    case Some(v) => Some(if negative then -(v as int) else v as int)
    case None => None
  }

  /** A string of decimal digits is read whole. */
  lemma DigitRunAllDigits(s: string)
    requires AllDigits(s)
    ensures DigitRun(s, 10) == |s|
  {
    if DigitRun(s, 10) < |s| {
      DecimalDigitIsDigit(s[DigitRun(s, 10)]);
    }
  }

  /** The digit run of a number followed by a non-digit is exactly the number. */
  lemma {:induction false} DigitRunStops(d: string, x: string)
    requires AllDigits(d) && |x| > 0 && !IsDigit(x[0])
    ensures DigitRun(d + x, 10) == |d|
    decreases |d|
  {
    if |d| == 0 {
      assert d + x == x;
      DecimalDigitIsDigit(x[0]);
    } else {
      assert (d + x)[1..] == d[1..] + x;
      DecimalDigitIsDigit(d[0]);
      DigitRunStops(d[1..], x);
    }
  }

  lemma {:induction false} ValueOfNatToString(n: nat)
    ensures ValueIn(NatToString(n), 10) == n
    decreases n
  {
    if n >= 10 {
      var p := NatToString(n / 10);
      ValueOfNatToString(n / 10);
      assert (p + [DigitChar(n % 10)])[..|p|] == p;
    }
  }

  /** Leading zeros do not change a value. */
  lemma {:induction false} ValueLeadingZeros(z: string, s: string, radix: nat)
    requires forall i :: 0 <= i < |z| ==> z[i] == '0'
    ensures ValueIn(z + s, radix) == ValueIn(s, radix)
    decreases |s|
  {
    if |s| == 0 {
      assert z + s == z;
      ZerosValue(z, radix);
    } else {
      assert (z + s)[..|z + s| - 1] == z + s[..|s| - 1];
      ValueLeadingZeros(z, s[..|s| - 1], radix);
    }
  }

  lemma {:induction false} ZerosValue(z: string, radix: nat)
    requires forall i :: 0 <= i < |z| ==> z[i] == '0'
    ensures ValueIn(z, radix) == 0
    decreases |z|
  {
    if |z| > 0 {
      ZerosValue(z[..|z| - 1], radix);
    }
  }

  lemma TrimStartNoWhitespace(s: string)
    requires |s| > 0 && !IsJsWhitespace(s[0])
    ensures TrimStart(s) == s
  {
  }

  lemma ParseDigitsAll(s: string)
    requires |s| > 0 && AllDigits(s)
    ensures ParseDigits(s, 10) == Some(ValueIn(s, 10))
  {
    DigitRunAllDigits(s);
    assert s[..|s|] == s;
  }

  /** Whole strings of decimal digits are parsed back to their value by
      both forms of `parseInt`. */
  lemma ParseAllDigits(s: string, autoRadix: bool)
    requires |s| > 0 && AllDigits(s)
    requires !(autoRadix && HasHexPrefix(s))
    ensures ParseInt(s, autoRadix) == Some(ValueIn(s, 10))
  {
    TrimStartNoWhitespace(s);
    ParseDigitsAll(s);
    assert ParseUnsigned(s, autoRadix) == Some(ValueIn(s, 10));
  }

  /** `parseInt(String(n).padStart(2, '0'), 10)` is `n`. */
  lemma ParsePaddedNat(n: nat)
    ensures ParseInt(PadStart2(NatToString(n)), false) == Some(n)
  {
    var s := NatToString(n);
    var p := PadStart2(s);
    var z := p[..|p| - |s|];
    assert p == z + s;
    ValueLeadingZeros(z, s, 10);
    ValueOfNatToString(n);
    ParseAllDigits(p, false);
  }

  /** `parseInt(String(i))` is `i` for every integer `i`. */
  lemma ParseIntToString(i: int)
    ensures ParseInt(IntToString(i), true) == Some(i)
  {
    if i < 0 {
      ParseNegated(-i);
    } else {
      assert IntToString(i) == NatToString(i);
      ParseNatToString(i);
    }
  }

  /** The digits of `String(n)` never start with `0x`. */
  lemma NoHexPrefix(n: nat)
    ensures !HasHexPrefix(NatToString(n))
  {
    var s := NatToString(n);
    if |s| >= 2 {
      assert IsDigit(s[1]);
    }
  }

  lemma ParseUnsignedNatToString(n: nat)
    ensures ParseUnsigned(NatToString(n), true) == Some(n)
  {
    var s := NatToString(n);
    NoHexPrefix(n);
    assert ParseDigits(s, 10) == Some(ValueIn(s, 10)) by {
      ParseDigitsAll(s);
    }
    ValueOfNatToString(n);
  }

  lemma ParseNatToString(n: nat)
    ensures ParseInt(NatToString(n), true) == Some(n)
  {
    var s := NatToString(n);
    assert TrimStart(s) == s by {
      TrimStartNoWhitespace(s);
    }
    ParseUnsignedNatToString(n);
  }

  lemma ParseNegated(n: nat)
    requires n > 0
    ensures ParseInt(IntToString(-(n as int)), true) == Some(-(n as int))
  {
    var s := NatToString(n);
    var t := "-" + s;
    assert IntToString(-(n as int)) == t;
    assert TrimStart(t) == t by {
      TrimStartNoWhitespace(t);
    }
    assert t[1..] == s;
    ParseUnsignedNatToString(n);
  }
}
