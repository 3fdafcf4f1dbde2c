/** The pieces of .NET string handling the authentication core depends on:
    white-space tests, UTF-16 length, and decimal rendering and parsing of integers. */
module Text {
  import opened Options

  /** `char.IsWhiteSpace`: the Unicode space separators, the line and paragraph
      separators, and the control characters U+0009..U+000D and U+0085. */
  predicate IsWhiteSpace(c: char)
  {
    || c == ' '
    || ('\t' <= c <= '\r')
    || c == '\U{85}' || c == '\U{A0}' || c == '\U{1680}'
    || ('\U{2000}' <= c <= '\U{200A}')
    || c == '\U{2028}' || c == '\U{2029}' || c == '\U{202F}' || c == '\U{205F}' || c == '\U{3000}'
  }

  /** `string.TrimStart()`: the string without its leading white space. */
  function TrimStart(s: string): string
  {
    if s != [] && IsWhiteSpace(s[0]) then TrimStart(s[1..]) else s
  }

  /** A string trims to nothing exactly when all of it is white space. */
  lemma {:induction false} TrimStartEmpty(s: string)
    ensures TrimStart(s) == [] <==> forall i :: 0 <= i < |s| ==> IsWhiteSpace(s[i])
  {
    if s != [] && IsWhiteSpace(s[0]) {
      TrimStartEmpty(s[1..]);
      assert forall i :: 1 <= i < |s| ==> s[i] == s[1..][i - 1];
    }
  }

  /** `string.IsNullOrWhiteSpace` on a string that is not null: every character
      is white space, so the empty string qualifies. Equivalently, the string
      trims to the empty string. */
  predicate IsNullOrWhiteSpace(s: string): (blank: bool)
    ensures |s| == 0 ==> blank
    ensures blank <==> TrimStart(s) == []
  {
    TrimStartEmpty(s);
    forall i :: 0 <= i < |s| ==> IsWhiteSpace(s[i])
  }

  /** A code point outside the Basic Multilingual Plane, which UTF-16 stores as a surrogate pair. */
  predicate IsSupplementary(c: char)
  {
    c as int >= 0x1_0000
  }

  /** `string.Length`: the number of UTF-16 code units, two for each supplementary character. */
  function Utf16Length(s: string): (n: nat)
    ensures |s| <= n <= 2 * |s|
    ensures n == |s| <==> forall i :: 0 <= i < |s| ==> !IsSupplementary(s[i])
  {
    if s == [] then 0
    else
      assert forall i :: 1 <= i < |s| ==> s[i] == s[1..][i - 1];
      (if IsSupplementary(s[0]) then 2 else 1) + Utf16Length(s[1..])
  }

  /** A single character counts for one code unit, or two outside the Basic Multilingual Plane. */
  lemma Utf16LengthChar(c: char)
    ensures Utf16Length([c]) == if IsSupplementary(c) then 2 else 1
  {
    assert [c][1..] == [];
  }

  /** The code-unit count of a concatenation is the sum of the counts. */
  lemma {:induction false} Utf16LengthConcat(a: string, b: string)
    ensures Utf16Length(a + b) == Utf16Length(a) + Utf16Length(b)
  {
    if a != [] {
      assert (a + b)[1..] == a[1..] + b;
      Utf16LengthConcat(a[1..], b);
    } else {
      assert a + b == b;
    }
  }

  predicate IsDigit(c: char)
  {
    '0' <= c <= '9'
  }

  predicate AllDigits(s: string)
  {
    forall i :: 0 <= i < |s| ==> IsDigit(s[i])
  }

  function DigitChar(d: nat): (c: char)
    requires d < 10
    ensures IsDigit(c) && c as int - '0' as int == d
  {
    ('0' as int + d) as char
  }

  /** The decimal digits of `n`, most significant first, without leading zeros. */
  function NatToDecimal(n: nat): (s: string)
    ensures |s| > 0 && AllDigits(s)
    ensures n >= 10 <==> |s| > 1
  {
    if n < 10 then [DigitChar(n)] else NatToDecimal(n / 10) + [DigitChar(n % 10)]
  }

  /** The number a string of decimal digits denotes. */
  function DecimalValue(s: string): nat
    requires AllDigits(s)
  {
    if s == [] then 0 else 10 * DecimalValue(s[..|s| - 1]) + (s[|s| - 1] as int - '0' as int)
  }

  /** Reading back the digits of `n` gives `n`. */
  lemma {:induction false} DecimalRoundTrip(n: nat)
    ensures DecimalValue(NatToDecimal(n)) == n
  {
    if n >= 10 {
      var s := NatToDecimal(n);
      assert s[..|s| - 1] == NatToDecimal(n / 10);
      DecimalRoundTrip(n / 10);
    }
  }

  /** `int.ToString()`: a minus sign for a negative value, then the digits of its magnitude. */
  function IntToString(i: int): (s: string)
    ensures |s| > 0
    ensures s[0] == '-' <==> i < 0
  {
    if i < 0 then "-" + NatToDecimal(-i) else NatToDecimal(i)
  }

  /** `int.TryParse` on its canonical inputs: an optional minus sign followed by
      one or more decimal digits; anything else fails. */
  function TryParseInt(s: string): Option<int>
  {
    if |s| > 1 && s[0] == '-' && AllDigits(s[1..]) then
      var magnitude: int := DecimalValue(s[1..]);
      Some(-magnitude)
    else if |s| > 0 && AllDigits(s) then Some(DecimalValue(s))
    else None
  }

  /** Parsing what `IntToString` printed gives the number back. */
  lemma IntToStringRoundTrip(i: int)
    ensures TryParseInt(IntToString(i)) == Some(i)
  {
    var s := IntToString(i);
    if i < 0 {
      assert s[1..] == NatToDecimal(-i);
      DecimalRoundTrip(-i);
    } else {
      DecimalRoundTrip(i);
    }
  }

  /** `IntToStringRoundTrip`, for every integer at once. */
  lemma IntToStringRoundTripAll()
    ensures forall i :: TryParseInt(IntToString(i)) == Some(i)
  {
    forall i
      ensures TryParseInt(IntToString(i)) == Some(i)
    {
      IntToStringRoundTrip(i);
    }
  }
}
