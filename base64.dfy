/** `Convert.ToBase64String`: the base 64 encoding of section 4 of RFC 4648,
    with `=` padding and no line breaks. */
module Base64 {
  import opened Options

  /** An octet. */
  newtype byte = x: int | 0 <= x < 256

  /** One of the 64 symbols `A`-`Z`, `a`-`z`, `0`-`9`, `+`, `/`. */
  predicate IsSymbol(c: char)
  {
    ('A' <= c <= 'Z') || ('a' <= c <= 'z') || ('0' <= c <= '9') || c == '+' || c == '/'
  }

  /** A character that may appear in an encoding: a symbol or the pad `=`. */
  predicate IsBase64Char(c: char)
  {
    IsSymbol(c) || c == '='
  }

  /** The symbol for the 6-bit value `x`. */
  function Symbol(x: int): (c: char)
    requires 0 <= x < 64
    ensures IsSymbol(c)
  {
    if x < 26 then ('A' as int + x) as char
    else if x < 52 then ('a' as int + (x - 26)) as char
    else if x < 62 then ('0' as int + (x - 52)) as char
    else if x == 62 then '+'
    else '/'
  }

  /** The 6-bit value of a symbol: the inverse of `Symbol`. */
  function SymbolValue(c: char): (x: int)
    requires IsSymbol(c)
    ensures 0 <= x < 64 && Symbol(x) == c
  {
    if 'A' <= c <= 'Z' then c as int - 'A' as int
    else if 'a' <= c <= 'z' then c as int - 'a' as int + 26
    else if '0' <= c <= '9' then c as int - '0' as int + 52
    else if c == '+' then 62
    else 63
  }

  lemma SymbolInverse(x: int)
    requires 0 <= x < 64
    ensures SymbolValue(Symbol(x)) == x
  {
  }

  /** Three bytes as four symbols. */
  function Group(b0: byte, b1: byte, b2: byte): (s: string)
    ensures |s| == 4 && forall i :: 0 <= i < 4 ==> IsSymbol(s[i])
  {
    var x0, x1, x2 := b0 as int, b1 as int, b2 as int;
    [Symbol(x0 / 4), Symbol((x0 % 4) * 16 + x1 / 16), Symbol((x1 % 16) * 4 + x2 / 64), Symbol(x2 % 64)]
  }

  /** A final group of one or two bytes, padded to four characters. */
  function Tail(bytes: seq<byte>): (s: string)
    requires 1 <= |bytes| <= 2
    ensures |s| == 4 && forall i :: 0 <= i < 4 ==> IsBase64Char(s[i])
    ensures s[3] == '='
  {
    var x0 := bytes[0] as int;
    if |bytes| == 1 then
      [Symbol(x0 / 4), Symbol((x0 % 4) * 16), '=', '=']
    else
      var x1 := bytes[1] as int;
      [Symbol(x0 / 4), Symbol((x0 % 4) * 16 + x1 / 16), Symbol((x1 % 16) * 4), '=']
  }

  /** The encoding of `bytes`: each group of three bytes becomes four symbols,
      and a final group of one or two bytes becomes four padded characters. */
  function Encode(bytes: seq<byte>): (s: string)
    ensures |s| == 4 * ((|bytes| + 2) / 3)
    decreases |bytes|
  {
    if |bytes| == 0 then ""
    else if |bytes| < 3 then Tail(bytes)
    else Group(bytes[0], bytes[1], bytes[2]) + Encode(bytes[3..])
  }

  /** An encoding uses only the 64 symbols and the pad. */
  lemma {:induction false} EncodeAlphabet(bytes: seq<byte>)
    ensures forall i :: 0 <= i < |Encode(bytes)| ==> IsBase64Char(Encode(bytes)[i])
    decreases |bytes|
  {
    if |bytes| >= 3 {
      var head, rest := Group(bytes[0], bytes[1], bytes[2]), Encode(bytes[3..]);
      EncodeAlphabet(bytes[3..]);
      assert Encode(bytes) == head + rest;
      assert forall i :: 0 <= i < 4 ==> (head + rest)[i] == head[i];
      assert forall i :: 4 <= i < |head + rest| ==> (head + rest)[i] == rest[i - 4];
    }
  }

  predicate AllSymbols(s: string)
  {
    forall i :: 0 <= i < |s| ==> IsSymbol(s[i])
  }

  lemma AllSymbolsConcat(a: string, b: string)
    ensures AllSymbols(a + b) <==> AllSymbols(a) && AllSymbols(b)
  {
    assert forall i :: 0 <= i < |a| ==> (a + b)[i] == a[i];
    assert forall i :: 0 <= i < |b| ==> (a + b)[|a| + i] == b[i];
    if AllSymbols(a) && AllSymbols(b) {
      forall i | 0 <= i < |a + b|
        ensures IsSymbol((a + b)[i])
      {
        if i >= |a| {
          assert (a + b)[i] == b[i - |a|];
        }
      }
    }
  }

  lemma ShiftByThree(n: int)
    ensures (n + 3) % 3 == n % 3
  {
  }

  /** Padding appears exactly when the byte count is not a multiple of three. */
  lemma {:induction false} EncodePadding(bytes: seq<byte>)
    ensures |bytes| % 3 == 0 <==> AllSymbols(Encode(bytes))
    decreases |bytes|
  {
    if |bytes| >= 3 {
      var head, rest := Group(bytes[0], bytes[1], bytes[2]), Encode(bytes[3..]);
      assert Encode(bytes) == head + rest;
      EncodePadding(bytes[3..]);
      AllSymbolsConcat(head, rest);
      ShiftByThree(|bytes[3..]|);
    } else if |bytes| > 0 {
      assert !IsSymbol(Encode(bytes)[3]);
    }
  }

  /** Four symbols as the three bytes they carry. */
  function UnGroup(s: string): (b: seq<byte>)
    requires |s| == 4 && forall i :: 0 <= i < 4 ==> IsSymbol(s[i])
    ensures |b| == 3
  {
    var x0, x1, x2, x3 := SymbolValue(s[0]), SymbolValue(s[1]), SymbolValue(s[2]), SymbolValue(s[3]);
    [(x0 * 4 + x1 / 16) as byte, ((x1 % 16) * 16 + x2 / 4) as byte, ((x2 % 4) * 64 + x3) as byte]
  }

  /** A final padded group as the one or two bytes it carries. */
  function UnTail(s: string): (b: Option<seq<byte>>)
    requires |s| == 4
    ensures b.Some? ==> 1 <= |b.value| <= 2
  {
    if IsSymbol(s[0]) && IsSymbol(s[1]) && s[2] == '=' && s[3] == '=' then
      var x0, x1 := SymbolValue(s[0]), SymbolValue(s[1]);
      Some([(x0 * 4 + x1 / 16) as byte])
    else if IsSymbol(s[0]) && IsSymbol(s[1]) && IsSymbol(s[2]) && s[3] == '=' then
      var x0, x1, x2 := SymbolValue(s[0]), SymbolValue(s[1]), SymbolValue(s[2]);
      Some([(x0 * 4 + x1 / 16) as byte, ((x1 % 16) * 16 + x2 / 4) as byte])
    else None
  }

  /** `Convert.FromBase64String` on text without white space: `None` where that
      throws a format error. */
  function Decode(s: string): (b: Option<seq<byte>>)
    decreases |s|
  {
    if |s| == 0 then Some([])
    else if |s| < 4 then None
    else if |s| == 4 && s[3] == '=' then UnTail(s)
    else if forall i :: 0 <= i < 4 ==> IsSymbol(s[i]) then
      match Decode(s[4..])
      case None => None
      case Some(rest) => Some(UnGroup(s[..4]) + rest)
    else None
  }

  lemma SplitJoin(x0: int, x1: int, x2: int)
    requires 0 <= x0 < 256 && 0 <= x1 < 256 && 0 <= x2 < 256
    ensures var y0, y1, y2, y3 := x0 / 4, (x0 % 4) * 16 + x1 / 16, (x1 % 16) * 4 + x2 / 64, x2 % 64;
      y0 * 4 + y1 / 16 == x0 && (y1 % 16) * 16 + y2 / 4 == x1 && (y2 % 4) * 64 + y3 == x2
  {
    var y1, y2 := (x0 % 4) * 16 + x1 / 16, (x1 % 16) * 4 + x2 / 64;
    assert y1 / 16 == x0 % 4 && y1 % 16 == x1 / 16;
    assert y2 / 4 == x1 % 16 && y2 % 4 == x2 / 64;
  }

  lemma GroupRoundTrip(b0: byte, b1: byte, b2: byte)
    ensures UnGroup(Group(b0, b1, b2)) == [b0, b1, b2]
  {
    var x0, x1, x2 := b0 as int, b1 as int, b2 as int;
    SymbolInverse(x0 / 4);
    SymbolInverse((x0 % 4) * 16 + x1 / 16);
    SymbolInverse((x1 % 16) * 4 + x2 / 64);
    SymbolInverse(x2 % 64);
    SplitJoin(x0, x1, x2);
  }

  lemma TailRoundTrip(bytes: seq<byte>)
    requires 1 <= |bytes| <= 2
    ensures UnTail(Tail(bytes)) == Some(bytes)
  {
    var x0 := bytes[0] as int;
    SymbolInverse(x0 / 4);
    if |bytes| == 1 {
      var s := Tail(bytes);
      assert s == [Symbol(x0 / 4), Symbol((x0 % 4) * 16), '=', '='];
      SymbolInverse((x0 % 4) * 16);
      assert ((x0 % 4) * 16) / 16 == x0 % 4;
      assert UnTail(s) == Some([x0 as byte]);
      assert bytes == [bytes[0]];
    } else {
      var x1 := bytes[1] as int;
      var s := Tail(bytes);
      assert s == [Symbol(x0 / 4), Symbol((x0 % 4) * 16 + x1 / 16), Symbol((x1 % 16) * 4), '='];
      SymbolInverse((x0 % 4) * 16 + x1 / 16);
      SymbolInverse((x1 % 16) * 4);
      SplitJoin(x0, x1, 0);
      assert UnTail(s) == Some([(x0 as byte), (x1 as byte)]);
      assert bytes == [bytes[0], bytes[1]];
    }
  }

  /** Decoding a full group in front of decodable text. */
  lemma DecodeGroup(head: string, rest: string)
    requires |head| == 4 && forall i :: 0 <= i < 4 ==> IsSymbol(head[i])
    requires Decode(rest).Some?
    ensures Decode(head + rest) == Some(UnGroup(head) + Decode(rest).value)
  {
    var s := head + rest;
    assert s[..4] == head && s[4..] == rest;
    assert s[3] == head[3];
  }

  lemma ShortRoundTrip(bytes: seq<byte>)
    requires 1 <= |bytes| <= 2
    ensures Decode(Encode(bytes)) == Some(bytes)
  {
    var s := Tail(bytes);
    assert Encode(bytes) == s;
    assert Decode(s) == UnTail(s);
    TailRoundTrip(bytes);
  }

  lemma EncodeStep(bytes: seq<byte>)
    requires |bytes| >= 3
    ensures Encode(bytes) == Group(bytes[0], bytes[1], bytes[2]) + Encode(bytes[3..])
  {
  }

  lemma GroupStep(group: seq<byte>, tail: seq<byte>, rest: string)
    requires |group| == 3 && Decode(rest) == Some(tail)
    ensures Decode(Group(group[0], group[1], group[2]) + rest) == Some(group + tail)
  {
    DecodeGroup(Group(group[0], group[1], group[2]), rest);
    GroupRoundTrip(group[0], group[1], group[2]);
    assert group == [group[0], group[1], group[2]];
  }

  /** Decoding undoes encoding. */
  lemma {:induction false} RoundTrip(bytes: seq<byte>)
    ensures Decode(Encode(bytes)) == Some(bytes)
    decreases |bytes|
  {
    if |bytes| == 0 {
      assert Encode(bytes) == "";
    } else if |bytes| < 3 {
      ShortRoundTrip(bytes);
    } else {
      RoundTrip(bytes[3..]);
      EncodeStep(bytes);
      GroupStep(bytes[..3], bytes[3..], Encode(bytes[3..]));
      assert bytes[..3] + bytes[3..] == bytes;
    }
  }

  /** Different byte strings have different encodings. */
  lemma EncodeInjective(a: seq<byte>, b: seq<byte>)
    ensures Encode(a) == Encode(b) <==> a == b
  {
    if Encode(a) == Encode(b) {
      RoundTrip(a);
      RoundTrip(b);
    }
  }
}
