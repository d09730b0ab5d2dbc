/**
 * Invariant-culture decimal formatting and parsing of 32-bit integers:
 * `int.ToString()` and `int.TryParse(s, NumberStyles.Integer, CultureInfo.InvariantCulture, out n)`.
 */
module DotNetNumber {
  import opened Wrappers

  const Int32Min: int := -0x8000_0000
  const Int32Max: int := 0x7FFF_FFFF

  /** The values of C#'s `int`. */
  predicate IsInt32(n: int) {
    Int32Min <= n <= Int32Max
  }

  predicate IsDigit(c: char) {
    '0' <= c <= '9'
  }

  predicate AllDigits(s: string) {
    forall i :: 0 <= i < |s| ==> IsDigit(s[i])
  }

  function DigitValue(c: char): nat
    requires IsDigit(c)
  {
    c as int - '0' as int
  }

  function DigitChar(d: nat): (c: char)
    requires d < 10
    ensures IsDigit(c) && DigitValue(c) == d
  {
    ('0' as int + d) as char
  }

  /** The value of a run of decimal digits, most significant first; leading zeros allowed. */
  function DigitsValue(s: string): nat
    requires AllDigits(s)
    decreases |s|
  {
    if s == [] then 0 else DigitsValue(s[..|s| - 1]) * 10 + DigitValue(s[|s| - 1])
  }

  /** Decimal digits of `n`, most significant first. */
  function NatToString(n: nat): string
    decreases n
  {
    if n < 10 then [DigitChar(n)] else NatToString(n / 10) + [DigitChar(n % 10)]
  }

  /** `NatToString` writes digits only, without leading zeros, whose value is `n`. */
  lemma {:induction false} NatToStringDigits(n: nat)
    ensures var r := NatToString(n);
      |r| > 0 && AllDigits(r) && DigitsValue(r) == n && (r[0] != '0' || n == 0)
    decreases n
  {
    if n >= 10 {
      NatToStringDigits(n / 10);
      var high := NatToString(n / 10);
      var r := NatToString(n);
      assert r == high + [DigitChar(n % 10)];
      assert r[..|r| - 1] == high;
    }
  }

  /** `int.ToString()` in the invariant culture. */
  function IntToString(n: int): string {
    if n < 0 then "-" + NatToString(-n) else NatToString(n)
  }

  /** The white space `NumberStyles.AllowLeadingWhite`/`AllowTrailingWhite` accept:
      U+0009..U+000D and U+0020. */
  predicate IsNumberWhite(c: char) {
    c == ' ' || ('\t' <= c <= '\r')
  }

  function SkipLeadingWhite(s: string): (r: string)
    ensures |r| <= |s| && r == s[|s| - |r|..]
    ensures r != [] ==> !IsNumberWhite(r[0])
    decreases |s|
  {
    if s != [] && IsNumberWhite(s[0]) then SkipLeadingWhite(s[1..]) else s
  }

  function DropTrailing(s: string, c: char): (r: string)
    ensures |r| <= |s| && r == s[..|r|]
    ensures r != [] ==> r[|r| - 1] != c
    decreases |s|
  {
    if s != [] && s[|s| - 1] == c then DropTrailing(s[..|s| - 1], c) else s
  }

  function SkipTrailingWhite(s: string): (r: string)
    ensures |r| <= |s| && r == s[..|r|]
    decreases |s|
  {
    if s != [] && IsNumberWhite(s[|s| - 1]) then SkipTrailingWhite(s[..|s| - 1]) else s
  }

  /** The signed digits between the surrounding white space: after the digits .NET
      accepts trailing white space followed by trailing NUL characters. */
  function NumberBody(s: string): string {
    SkipTrailingWhite(DropTrailing(SkipLeadingWhite(s), '\0'))
  }

  /** `int.TryParse(s, NumberStyles.Integer, CultureInfo.InvariantCulture, out n)`:
      `Some(n)` when it returns true. */
  function TryParseInt32(s: string): (r: Option<int>)
    ensures r.Some? ==> IsInt32(r.value)
  {
    ParseSignedDigits(NumberBody(s))
  }

  /** An optional sign and at least one digit, whose value fits in an `int`. */
  function ParseSignedDigits(b: string): (r: Option<int>)
    ensures r.Some? ==> IsInt32(r.value)
  {
    var negative := |b| > 0 && b[0] == '-';
    var digits := if |b| > 0 && (b[0] == '-' || b[0] == '+') then b[1..] else b;
    if |digits| > 0 && AllDigits(digits) then
      var magnitude: int := DigitsValue(digits);
      var v := if negative then -magnitude else magnitude;
      if IsInt32(v) then Some(v) else None
    else None
  }

  /** Formatting and then parsing an `int` gives it back. */
  lemma {:induction false} ParseFormatted(n: int)
    requires IsInt32(n)
    ensures TryParseInt32(IntToString(n)) == Some(n)
  {
    if n < 0 {
      ParseNegative(n);
    } else {
      ParseNonNegative(n);
    }
  }

  lemma {:induction false} ParseNonNegative(n: nat)
    requires IsInt32(n)
    ensures TryParseInt32(IntToString(n)) == Some(n)
  {
    NatToStringDigits(n);
    ParseDigitString(NatToString(n), n);
  }

  lemma {:induction false} ParseNegative(n: int)
    requires IsInt32(n) && n < 0
    ensures TryParseInt32(IntToString(n)) == Some(n)
  {
    NatToStringDigits(-n);
    ParseNegatedDigitString(NatToString(-n));
  }

  lemma {:induction false} ParseDigitString(s: string, n: nat)
    requires |s| > 0 && AllDigits(s) && DigitsValue(s) == n && IsInt32(n)
    ensures TryParseInt32(s) == Some(n)
  {
    BodyOfFormatted(s);
    ParseUnsigned(s);
  }

  lemma {:induction false} ParseNegatedDigitString(s: string)
    requires |s| > 0 && AllDigits(s) && IsInt32(-(DigitsValue(s) as int))
    ensures TryParseInt32("-" + s) == Some(-(DigitsValue(s) as int))
  {
    var t := "-" + s;
    assert t[0] == '-' && t[|t| - 1] == s[|s| - 1];
    BodyOfFormatted(t);
    ParseSigned(s);
    assert TryParseInt32(t) == ParseSignedDigits(t);
  }

  /** Digits alone parse as their value, when it fits. */
  lemma {:induction false} ParseUnsigned(s: string)
    requires |s| > 0 && AllDigits(s) && IsInt32(DigitsValue(s))
    ensures ParseSignedDigits(s) == Some(DigitsValue(s))
  {
    assert s[0] != '-' && s[0] != '+';
  }

  /** A `-` and digits parse as the negated value, when it fits. */
  lemma {:induction false} ParseSigned(digits: string)
    requires |digits| > 0 && AllDigits(digits) && IsInt32(-(DigitsValue(digits) as int))
    ensures ParseSignedDigits("-" + digits) == Some(-(DigitsValue(digits) as int))
  {
    assert ("-" + digits)[1..] == digits;
  }

  /** A formatted number has no surrounding white space or NUL to drop. */
  lemma {:induction false} BodyOfFormatted(s: string)
    requires |s| > 0 && (s[0] == '-' || IsDigit(s[0])) && IsDigit(s[|s| - 1])
    ensures NumberBody(s) == s
  {
    assert SkipLeadingWhite(s) == s;
    assert DropTrailing(s, '\0') == s;
    assert SkipTrailingWhite(s) == s;
  }

  /** The formatted digits of a non-negative number hold no `-`. */
  lemma {:induction false} FormattedNatHasNoDash(n: nat)
    ensures '-' !in IntToString(n)
  {
    NatToStringDigits(n);
  }
}
