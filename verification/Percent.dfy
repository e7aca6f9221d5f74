/** Unicode text, its UTF-8 bytes, and the percent-coding of section 2.1 of RFC 3986. */
module Percent {
  import opened Common

  type Scalar = c: int | 0 <= c < 0xD800 || 0xE000 <= c < 0x11_0000 witness 0

  type Text = seq<Scalar>

  function Utf8(c: Scalar): Bytes {
    if c < 0x80 then [c as byte]
    else if c < 0x800 then [(0xC0 + c / 64) as byte, (0x80 + c % 64) as byte]
    else if c < 0x1_0000 then [(0xE0 + c / 4096) as byte, (0x80 + c / 64 % 64) as byte, (0x80 + c % 64) as byte]
    else
      [(0xF0 + c / 0x4_0000) as byte, (0x80 + c / 4096 % 64) as byte,
       (0x80 + c / 64 % 64) as byte, (0x80 + c % 64) as byte]
  }

  function EncodeText(t: Text): Bytes {
    if t == [] then [] else Utf8(t[0]) + EncodeText(t[1..])
  }

  /** The ASCII characters of a text, in order. */
  function AsciiOf(t: Text): Bytes {
    if t == [] then [] else (if t[0] < 128 then [t[0] as byte] else []) + AsciiOf(t[1..])
  }

  function AsciiBytes(b: Bytes): Bytes {
    if b == [] then [] else (if b[0] < 128 then [b[0]] else []) + AsciiBytes(b[1..])
  }

  /** A UTF-8 decoder, whatever it puts in place of malformed input: ASCII bytes are never swallowed or made up. */
  ghost predicate Decoder(decode: Bytes -> Text) {
    && (forall t: Text :: decode(EncodeText(t)) == t)
    && (forall b: Bytes :: AsciiOf(decode(b)) == AsciiBytes(b))
  }

  /** Section 2.3 of RFC 3986. */
  predicate Unreserved(b: byte) {
    0x30 <= b <= 0x39 || 0x41 <= b <= 0x5A || 0x61 <= b <= 0x7A || b == 0x2D || b == 0x2E || b == 0x5F || b == 0x7E
  }

  function HexDigit(n: int): char
    requires 0 <= n < 16
  {
    if n < 10 then '0' + n as char else 'A' + (n - 10) as char
  }

  function HexValue(c: char): (n: int)
    ensures -1 <= n < 16
  {
    if '0' <= c <= '9' then (c - '0') as int
    else if 'A' <= c <= 'F' then (c - 'A') as int + 10
    else if 'a' <= c <= 'f' then (c - 'a') as int + 10
    else -1
  }

  function QuoteByte(b: byte): (s: string)
    ensures s != []
  {
    if Unreserved(b) then [b as char] else ['%', HexDigit(b as int / 16), HexDigit(b as int % 16)]
  }

  function Quote(b: Bytes): string {
    if b == [] then "" else QuoteByte(b[0]) + Quote(b[1..])
  }

  predicate Ascii(s: string) {
    forall i :: 0 <= i < |s| ==> s[i] as int < 128
  }

  /** Percent-decoding of a query part; a plus sign is a space, a stray percent sign stands for itself. */
  function Unquote(s: string): Bytes
    requires Ascii(s)
  {
    if s == "" then []
    else if s[0] == '%' && |s| >= 3 && HexValue(s[1]) >= 0 && HexValue(s[2]) >= 0 then
      [(HexValue(s[1]) * 16 + HexValue(s[2])) as byte] + Unquote(s[3..])
    else [if s[0] == '+' then 32 else s[0] as byte] + Unquote(s[1..])
  }

  lemma HexRoundTrip(n: int)
    requires 0 <= n < 16
    ensures HexValue(HexDigit(n)) == n && HexDigit(n) as int < 128
    ensures HexDigit(n) in {'0', '1', '2', '3', '4', '5', '6', '7', '8', '9', 'A', 'B', 'C', 'D', 'E', 'F'}
  {
  }

  /** Characters that never appear in a quoted component. */
  const RESERVED: set<char> := {'&', '=', '?', '#', '+', '\n', '\r', '\t', '/'}

  lemma QuoteByteChars(b: byte)
    ensures forall c :: c in QuoteByte(b) ==> c as int < 128 && c !in RESERVED
  {
    hide HexDigit, HexValue;
    HexRoundTrip(b as int / 16);
    HexRoundTrip(b as int % 16);
    if Unreserved(b) {
      var c := b as char;
      assert c as int == b as int && QuoteByte(b) == [c];
    }
  }

  lemma {:induction false} QuoteChars(b: Bytes)
    ensures Ascii(Quote(b)) && forall c :: c in Quote(b) ==> c !in RESERVED
  {
    hide QuoteByte;
    if b != [] {
      QuoteByteChars(b[0]);
      QuoteChars(b[1..]);
      var head, rest, all := QuoteByte(b[0]), Quote(b[1..]), Quote(b);
      forall i | 0 <= i < |all|
        ensures all[i] as int < 128
      {
        if i < |head| { assert all[i] == head[i] && head[i] in head; } else { assert all[i] == rest[i - |head|]; }
      }
    }
  }

  /** Decoding an encoded byte and whatever follows. */
  lemma UnquoteByte(b: byte, rest: string)
    requires Ascii(rest)
    ensures Ascii(QuoteByte(b) + rest) && Unquote(QuoteByte(b) + rest) == [b] + Unquote(rest)
  {
    var s := QuoteByte(b) + rest;
    QuoteByteChars(b);
    assert forall i :: 0 <= i < |QuoteByte(b)| ==> QuoteByte(b)[i] in QuoteByte(b);
    hide HexDigit, HexValue;
    if Unreserved(b) {
      assert s[1..] == rest;
      assert s[0] == b as char && s[0] as byte == b;
    } else {
      HexRoundTrip(b as int / 16);
      HexRoundTrip(b as int % 16);
      assert s[3..] == rest;
    }
  }

  lemma {:induction false} UnquoteQuote(b: Bytes)
    ensures Ascii(Quote(b)) && Unquote(Quote(b)) == b
  {
    hide Unquote, QuoteByte;
    QuoteChars(b);
    if b != [] {
      UnquoteQuote(b[1..]);
      UnquoteByte(b[0], Quote(b[1..]));
      assert b == [b[0]] + b[1..];
    } else {
      UnquoteNothing();
    }
  }

  lemma UnquoteNothing()
    ensures Unquote("") == []
  {
  }

  /** UTF-16 code units, the order in which a browser compares strings. */
  function Units(c: Scalar): seq<int> {
    if c < 0x1_0000 then [c] else [0xD800 + (c - 0x1_0000) / 0x400, 0xDC00 + (c - 0x1_0000) % 0x400]
  }

  function Utf16(t: Text): seq<int> {
    if t == [] then [] else Units(t[0]) + Utf16(t[1..])
  }

  lemma {:induction false} Utf16Injective(a: Text, b: Text)
    requires Utf16(a) == Utf16(b)
    ensures a == b
  {
    if a == [] || b == [] {
    } else {
      assert Utf16(a)[0] == Units(a[0])[0] && Utf16(b)[0] == Units(b[0])[0];
      if a[0] >= 0x1_0000 { assert Utf16(a)[1] == Units(a[0])[1] && Utf16(b)[1] == Units(b[0])[1]; }
      assert Units(a[0]) == Units(b[0]) && a[0] == b[0];
      assert Utf16(a[1..]) == Utf16(a)[|Units(a[0])|..] && Utf16(b[1..]) == Utf16(b)[|Units(b[0])|..];
      Utf16Injective(a[1..], b[1..]);
      assert a == [a[0]] + a[1..] && b == [b[0]] + b[1..];
    }
  }
}
