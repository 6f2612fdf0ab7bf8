/** encodeURIComponent and decodeURIComponent of ECMAScript (ECMA-262,
    sections 19.2.6.4 and 19.2.6.2): percent-encoding in the sense of
    section 2.1 of RFC 3986 over the UTF-8 bytes of each code point, with
    the unreserved set `A-Z a-z 0-9 - _ . ! ~ * ' ( )` left as is.
    A Dafny `char` is a Unicode scalar value, so the URIError that
    encodeURIComponent raises on a lone surrogate cannot arise. */
module Uri {
  import opened Wrappers

  /** The characters encodeURIComponent copies unchanged. */
  predicate IsUnreserved(c: char) {
    ('a' <= c <= 'z') || ('A' <= c <= 'Z') || ('0' <= c <= '9')
    || c == '-' || c == '_' || c == '.' || c == '!' || c == '~' || c == '*'
    || c == '\'' || c == '(' || c == ')'
  }

  predicate IsByte(b: int) {
    0 <= b < 256
  }

  predicate IsContinuation(b: int) {
    0x80 <= b < 0xC0
  }

  /** The UTF-8 encoding of one code point. */
  function Utf8(c: char): (bs: seq<int>)
    ensures 1 <= |bs| <= 4 && forall i | 0 <= i < |bs| :: IsByte(bs[i])
  {
    var n := c as int;
    if n < 0x80 then [n]
    else if n < 0x800 then [0xC0 + n / 64, 0x80 + n % 64]
    else if n < 0x10000 then [0xE0 + n / 4096, 0x80 + (n / 64) % 64, 0x80 + n % 64]
    else [0xF0 + n / 262144, 0x80 + (n / 4096) % 64, 0x80 + (n / 64) % 64, 0x80 + n % 64]
  }

  /** An upper-case hexadecimal digit. */
  function HexDigit(d: int): char
    requires 0 <= d < 16
  {
    if d < 10 then ('0' as int + d) as char else ('A' as int + d - 10) as char
  }

  predicate IsUpperHex(c: char) {
    ('0' <= c <= '9') || ('A' <= c <= 'F')
  }

  /** The value of a hexadecimal digit of either case. */
  function HexValue(c: char): Option<int> {
    if '0' <= c <= '9' then Some(c as int - '0' as int)
    else if 'A' <= c <= 'F' then Some(c as int - 'A' as int + 10)
    else if 'a' <= c <= 'f' then Some(c as int - 'a' as int + 10)
    else None
  }

  function PercentByte(b: int): (r: string)
    requires IsByte(b)
    ensures |r| == 3 && r[0] == '%' && IsUpperHex(r[1]) && IsUpperHex(r[2])
  {
    ['%', HexDigit(b / 16), HexDigit(b % 16)]
  }

  function PercentBytes(bs: seq<int>): (r: string)
    requires forall i | 0 <= i < |bs| :: IsByte(bs[i])
    ensures |r| == 3 * |bs|
  {
    if bs == [] then [] else PercentByte(bs[0]) + PercentBytes(bs[1..])
  }

  function EncodeChar(c: char): string {
    if IsUnreserved(c) then [c] else PercentBytes(Utf8(c))
  }

  /** encodeURIComponent */
  function Encode(s: string): string {
    if s == [] then [] else EncodeChar(s[0]) + Encode(s[1..])
  }

  /** The encoded text consists of unreserved characters, `%` and upper-case
      hexadecimal digits only. */
  lemma {:induction false} EncodeAlphabet(s: string)
    ensures forall i | 0 <= i < |Encode(s)| ::
      IsUnreserved(Encode(s)[i]) || Encode(s)[i] == '%' || IsUpperHex(Encode(s)[i])
  {
    if s != [] {
      EncodeAlphabet(s[1..]);
      var e := EncodeChar(s[0]);
      if !IsUnreserved(s[0]) {
        PercentBytesAlphabet(Utf8(s[0]));
      }
      assert Encode(s) == e + Encode(s[1..]);
    }
  }

  lemma {:induction false} PercentBytesAlphabet(bs: seq<int>)
    requires forall i | 0 <= i < |bs| :: IsByte(bs[i])
    ensures forall i | 0 <= i < |PercentBytes(bs)| ::
      PercentBytes(bs)[i] == '%' || IsUpperHex(PercentBytes(bs)[i])
  {
    if bs != [] {
      PercentBytesAlphabet(bs[1..]);
    }
  }

  /** Text made only of unreserved characters is its own encoding. */
  lemma {:induction false} EncodeUnreserved(s: string)
    requires forall i | 0 <= i < |s| :: IsUnreserved(s[i])
    ensures Encode(s) == s
  {
    if s != [] {
      EncodeUnreserved(s[1..]);
    }
  }

  lemma {:induction false} EncodeAppend(a: string, b: string)
    ensures Encode(a + b) == Encode(a) + Encode(b)
  {
    if a != [] {
      assert (a + b)[1..] == a[1..] + b;
      EncodeAppend(a[1..], b);
      assert (a + b)[0] == a[0];
      assert Encode(a + b) == EncodeChar(a[0]) + Encode(a[1..] + b);
      assert Encode(a) == EncodeChar(a[0]) + Encode(a[1..]);
    } else {
      assert a + b == b;
    }
  }

  // ---------------------------------------------------------------------
  // decodeURIComponent

  /** The byte written as `%XY` at the front of `s`, if any. */
  function EscapedByte(s: string): Option<int> {
    if |s| < 3 || s[0] != '%' then None
    else match (HexValue(s[1]), HexValue(s[2]))
      case (Some(hi), Some(lo)) => Some(hi * 16 + lo)
      case _ => None
  }

  /** The number of bytes announced by a UTF-8 lead byte (0 if invalid). */
  function SequenceLength(b: int): nat {
    if b < 0x80 then 1
    else if 0xC0 <= b < 0xE0 then 2
    else if 0xE0 <= b < 0xF0 then 3
    else if 0xF0 <= b < 0xF8 then 4
    else 0
  }

  /** The code point of a well-formed UTF-8 sequence, None for an overlong
      form, a surrogate or a value above U+10FFFF. */
  function CodePoint(bs: seq<int>): Option<char>
    requires 1 <= |bs| <= 4
  {
    var v :=
      if |bs| == 1 then bs[0]
      else if |bs| == 2 then (bs[0] - 0xC0) * 64 + (bs[1] - 0x80)
      else if |bs| == 3 then (bs[0] - 0xE0) * 4096 + (bs[1] - 0x80) * 64 + (bs[2] - 0x80)
      else (bs[0] - 0xF0) * 262144 + (bs[1] - 0x80) * 4096 + (bs[2] - 0x80) * 64 + (bs[3] - 0x80);
    var least := if |bs| == 1 then 0 else if |bs| == 2 then 0x80 else if |bs| == 3 then 0x800 else 0x10000;
    if least <= v <= 0x10FFFF && !(0xD800 <= v <= 0xDFFF) then Some(v as char) else None
  }

  /** The `n` escaped bytes at the front of `s`. */
  function EscapedBytes(s: string, n: nat): Option<seq<int>>
    decreases n
  {
    if n == 0 then Some([])
    else match EscapedByte(s)
      case None => None
      case Some(b) =>
        match EscapedBytes(s[3..], n - 1)
        case None => None
        case Some(rest) => Some([b] + rest)
  }

  /** One escaped code point at the front of `s` and the length it takes. */
  function DecodeEscape(s: string): (r: Option<(char, nat)>)
    ensures r.Some? ==> 3 <= r.value.1 <= |s|
  {
    match EscapedByte(s)
    case None => None
    case Some(b0) =>
      var n := SequenceLength(b0);
      if n == 0 || |s| < 3 * n then None
      else match EscapedBytes(s, n)
        case None => None
        case Some(bs) =>
          if |bs| != n || exists i | 1 <= i < |bs| :: !IsContinuation(bs[i]) then None
          else match CodePoint(bs)
            case None => None
            case Some(c) => Some((c, 3 * n))
  }

  /** decodeURIComponent; None stands for the URIError it throws. */
  function Decode(s: string): Option<string>
    decreases |s|
  {
    if s == [] then Some([])
    else if s[0] != '%' then
      match Decode(s[1..])
      case None => None
      case Some(t) => Some([s[0]] + t)
    else
      match DecodeEscape(s)
      case None => None
      case Some((c, len)) =>
        match Decode(s[len..])
        case None => None
        case Some(t) => Some([c] + t)
  }

  lemma PercentByteDecodes(b: int, rest: string)
    requires IsByte(b)
    ensures EscapedByte(PercentByte(b) + rest) == Some(b)
  {
  }

  lemma {:induction false} PercentBytesDecode(bs: seq<int>, rest: string)
    requires forall i | 0 <= i < |bs| :: IsByte(bs[i])
    ensures EscapedBytes(PercentBytes(bs) + rest, |bs|) == Some(bs)
  {
    if bs != [] {
      var s := PercentBytes(bs) + rest;
      PercentByteDecodes(bs[0], PercentBytes(bs[1..]) + rest);
      assert s == PercentByte(bs[0]) + (PercentBytes(bs[1..]) + rest);
      assert s[3..] == PercentBytes(bs[1..]) + rest;
      PercentBytesDecode(bs[1..], rest);
      assert [bs[0]] + bs[1..] == bs;
    }
  }

  lemma Utf8Valid(c: char)
    ensures SequenceLength(Utf8(c)[0]) == |Utf8(c)|
    ensures forall i | 1 <= i < |Utf8(c)| :: IsContinuation(Utf8(c)[i])
    ensures CodePoint(Utf8(c)) == Some(c)
  {
    var n := c as int;
    if n >= 0x800 && n < 0x10000 {
      assert n / 4096 == (n / 64) / 64;
    } else if n >= 0x10000 {
      assert n / 262144 == ((n / 64) / 64) / 64;
      assert n / 4096 == (n / 64) / 64;
    }
  }

  lemma DecodeEscapeChar(c: char, rest: string)
    requires !IsUnreserved(c)
    ensures DecodeEscape(EncodeChar(c) + rest) == Some((c, |EncodeChar(c)|))
  {
    var bs := Utf8(c);
    var s := PercentBytes(bs) + rest;
    PercentBytesDecode(bs, rest);
    PercentByteDecodes(bs[0], PercentBytes(bs[1..]) + rest);
    assert s == PercentByte(bs[0]) + (PercentBytes(bs[1..]) + rest);
    Utf8Valid(c);
    DecodeEscapeOf(s, bs, c);
  }

  /** The escape at the front of `s` spells the well-formed UTF-8 sequence
      `bs` of `c`. */
  lemma DecodeEscapeOf(s: string, bs: seq<int>, c: char)
    requires 1 <= |bs| <= 4 && 3 * |bs| <= |s|
    requires EscapedByte(s) == Some(bs[0]) && SequenceLength(bs[0]) == |bs|
    requires EscapedBytes(s, |bs|) == Some(bs)
    requires forall i | 1 <= i < |bs| :: IsContinuation(bs[i])
    requires CodePoint(bs) == Some(c)
    ensures DecodeEscape(s) == Some((c, 3 * |bs|))
  {
  }

  /** Decoding undoes encoding: decodeURIComponent(encodeURIComponent(s)) == s. */
  lemma {:induction false} DecodeEncode(s: string)
    ensures Decode(Encode(s)) == Some(s)
  {
    if s != [] {
      DecodeEncode(s[1..]);
      var e := Encode(s);
      assert e == EncodeChar(s[0]) + Encode(s[1..]);
      if IsUnreserved(s[0]) {
        assert e[1..] == Encode(s[1..]);
      } else {
        DecodeEscapeChar(s[0], Encode(s[1..]));
        assert e[0] == PercentByte(Utf8(s[0])[0])[0] == '%';
        assert e[|EncodeChar(s[0])|..] == Encode(s[1..]);
        assert [s[0]] + s[1..] == s;
      }
    }
  }
}
