/**
  The platform pieces the enum cache relies on: System.TypeCode, the value
  ranges of the integral types, the checked conversions between them, the
  invariant-culture decimal parser and formatter (int.TryParse and friends,
  ToString), Char.TryParse and Boolean.TryParse, and ordinal ASCII case
  folding.
*/
module Primitives {
  import opened Wrappers

  /** System.TypeCode. */
  datatype TypeCode =
    | Empty | Object | DBNull | Boolean | Char | SByte | Byte | Int16 | UInt16
    | Int32 | UInt32 | Int64 | UInt64 | Single | Double | Decimal | DateTime | String

  /** The integral types that back an enum. */
  predicate IsIntegerKind(tc: TypeCode) {
    tc.SByte? || tc.Byte? || tc.Int16? || tc.UInt16? || tc.Int32? || tc.UInt32? || tc.Int64? || tc.UInt64?
  }

  /** The types a checked Convert.ToX between integers targets: the integer kinds and Char. */
  predicate IsIntegral(tc: TypeCode) {
    IsIntegerKind(tc) || tc.Char?
  }

  function MinValue(tc: TypeCode): int
    requires IsIntegral(tc)
  {
    match tc
    case SByte => -0x80
    case Int16 => -0x8000
    case Int32 => -0x8000_0000
    case Int64 => -0x8000_0000_0000_0000
    case _ => 0
  }

  function MaxValue(tc: TypeCode): int
    requires IsIntegral(tc)
  {
    match tc
    case SByte => 0x7F
    case Byte => 0xFF
    case Int16 => 0x7FFF
    case UInt16 => 0xFFFF
    case Char => 0xFFFF
    case Int32 => 0x7FFF_FFFF
    case UInt32 => 0xFFFF_FFFF
    case Int64 => 0x7FFF_FFFF_FFFF_FFFF
    case UInt64 => 0xFFFF_FFFF_FFFF_FFFF
  }

  /** v is a value of the integral type tc. */
  predicate InRange(tc: TypeCode, v: int) {
    IsIntegral(tc) && MinValue(tc) <= v <= MaxValue(tc)
  }

  /**
    Convert.ToX from an integral value: the value itself when it fits the
    target type, OverflowException when it does not.
  */
  function CheckedConvert(target: TypeCode, v: int): (r: Result<int, Exception>)
    requires IsIntegral(target)
    ensures r.Success? <==> InRange(target, v)
    ensures r.Success? ==> r.value == v
    ensures r.Failure? ==> r.error == Overflow
  {
    if MinValue(target) <= v <= MaxValue(target) then Success(v) else Failure(Overflow)
  }

  /**
    The rounding Convert.ToX applies to a double, float or decimal before its
    range check: to the nearest integer, a tie going to the even one.
  */
  function RoundHalfEven(x: real): (n: int)
    ensures -0.5 <= n as real - x <= 0.5
    ensures (n as real - x == 0.5 || x - n as real == 0.5) ==> n % 2 == 0
  {
    var f := x.Floor;
    var fraction := x - f as real;
    if fraction < 0.5 then f
    else if fraction > 0.5 then f + 1
    else if f % 2 == 0 then f
    else f + 1
  }

  // ---------------------------------------------------------------------
  // Decimal literals

  predicate IsDigit(c: char) {
    '0' <= c <= '9'
  }

  predicate AllDigits(s: string) {
    forall i :: 0 <= i < |s| ==> IsDigit(s[i])
  }

  /** The value of a string of decimal digits, most significant first. */
  function DigitsValue(s: string): nat
    requires AllDigits(s)
  {
    if |s| == 0 then 0 else DigitsValue(s[..|s| - 1]) * 10 + (s[|s| - 1] as int - '0' as int)
  }

  function DigitChar(d: nat): (c: char)
    requires d < 10
    ensures IsDigit(c) && c as int - '0' as int == d
  {
    ('0' as int + d) as char
  }

  /** The decimal digits of n, without leading zeros. */
  function Digits(n: nat): (s: string)
    ensures |s| > 0 && AllDigits(s)
    ensures |s| > 1 ==> s[0] != '0'
  {
    if n < 10 then [DigitChar(n)] else Digits(n / 10) + [DigitChar(n % 10)]
  }

  /** Int64.ToString(): an optional minus sign and the digits of the magnitude. */
  function FormatInteger(v: int): string {
    if v < 0 then "-" + Digits(-v) else Digits(v)
  }

  /**
    The integer a literal denotes under NumberStyles.Integer: an optional
    '+' or '-' followed by at least one decimal digit, None otherwise.
    Surrounding white space and culture-specific signs are not modelled.
  */
  function ParseInteger(s: string): (r: Option<int>)
    ensures r.Some? ==> |s| > 0 && (IsDigit(s[0]) || s[0] == '+' || s[0] == '-')
    ensures r.Some? && r.value < 0 ==> s[0] == '-'
    ensures |s| > 0 && AllDigits(s) ==> r == Some(DigitsValue(s))
  {
    if |s| > 0 && (s[0] == '-' || s[0] == '+') then
      var digits := s[1..];
      if |digits| > 0 && AllDigits(digits) then
        var magnitude: int := DigitsValue(digits);
        Some(if s[0] == '-' then -magnitude else magnitude)
      else None
    else if |s| > 0 && AllDigits(s) then Some(DigitsValue(s))
    else None
  }

  lemma {:induction false} DigitsRoundTrip(n: nat)
    ensures DigitsValue(Digits(n)) == n
  {
    if n >= 10 {
      var init := Digits(n / 10);
      DigitsRoundTrip(n / 10);
      assert (init + [DigitChar(n % 10)])[..|init|] == init;
    }
  }

  /** Parsing what ToString printed gives the value back. */
  lemma ParseFormat(v: int)
    ensures ParseInteger(FormatInteger(v)) == Some(v)
  {
    if v < 0 {
      DigitsRoundTrip(-v);
      assert FormatInteger(v)[1..] == Digits(-v);
    } else {
      DigitsRoundTrip(v);
    }
  }

  /**
    int.TryParse, short.TryParse, UInt32.TryParse and their siblings: a
    literal whose value fits the type.
  */
  function TryParseIntegral(tc: TypeCode, s: string): (r: Option<int>)
    requires IsIntegral(tc)
    ensures r.Some? <==> ParseInteger(s).Some? && InRange(tc, ParseInteger(s).value)
    ensures r.Some? ==> r.value == ParseInteger(s).value
  {
    match ParseInteger(s)
    case Some(v) => if InRange(tc, v) then Some(v) else None
    case None => None
  }

  /** Every value of the type, printed, parses back to itself. */
  lemma TryParseFormat(tc: TypeCode, v: int)
    requires InRange(tc, v)
    ensures TryParseIntegral(tc, FormatInteger(v)) == Some(v)
  {
    ParseFormat(v);
  }

  // ---------------------------------------------------------------------
  // Ordinal case folding (ASCII letters only)

  function UpperAscii(c: char): char {
    if 'a' <= c <= 'z' then (c as int - 32) as char else c
  }

  function LowerAscii(c: char): char {
    if 'A' <= c <= 'Z' then (c as int + 32) as char else c
  }

  /** The key StringComparison.OrdinalIgnoreCase compares: every letter upper-cased. */
  function Fold(s: string): (r: string)
    ensures |r| == |s|
    ensures forall i :: 0 <= i < |s| ==> r[i] == UpperAscii(s[i])
  {
    seq(|s|, i requires 0 <= i < |s| => UpperAscii(s[i]))
  }

  /** string.ToLower() on ASCII letters. */
  function ToLower(s: string): (r: string)
    ensures |r| == |s|
    ensures forall i :: 0 <= i < |s| ==> r[i] == LowerAscii(s[i])
  {
    seq(|s|, i requires 0 <= i < |s| => LowerAscii(s[i]))
  }

  /** A lower-cased string is equal to the original, ignoring case. */
  lemma FoldToLower(s: string)
    ensures Fold(ToLower(s)) == Fold(s)
  {
    assert forall i :: 0 <= i < |s| ==> UpperAscii(LowerAscii(s[i])) == UpperAscii(s[i]);
  }

  predicate EqualsIgnoreCase(a: string, b: string) {
    Fold(a) == Fold(b)
  }

  // ---------------------------------------------------------------------
  // Char and Boolean parsers

  /**
    Char.TryParse: exactly one UTF-16 code unit, whose code is the result.
    A character above U+FFFF takes two code units, so it is not one.
  */
  function TryParseChar(s: string): (r: Option<int>)
    ensures r.Some? <==> |s| == 1 && s[0] as int <= 0xFFFF
    ensures r.Some? ==> InRange(Char, r.value) && r.value == s[0] as int
  {
    if |s| == 1 && s[0] as int <= 0xFFFF then Some(s[0] as int) else None
  }

  /**
    Boolean.TryParse: "True" or "False" in any letter case, as 1 or 0.
    White-space trimming is not modelled.
  */
  function TryParseBoolean(s: string): (r: Option<int>)
    ensures r == Some(1) <==> EqualsIgnoreCase(s, "True")
    ensures r == Some(0) <==> EqualsIgnoreCase(s, "False")
    ensures r.Some? ==> r.value == 0 || r.value == 1
  {
    if EqualsIgnoreCase(s, "True") then Some(1)
    else if EqualsIgnoreCase(s, "False") then Some(0)
    else None
  }
}
