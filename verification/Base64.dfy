/** btoa and atob over bytes: section 4 of RFC 4648, with the forgiving decoder of the HTML standard. */
module Base64 {
  import opened Common

  function Symbol(n: int): char
    requires 0 <= n < 64
  {
    if n < 26 then 'A' + n as char
    else if n < 52 then 'a' + (n - 26) as char
    else if n < 62 then '0' + (n - 52) as char
    else if n == 62 then '+' else '/'
  }

  /** The six bits of a symbol, or -1 for any other character. */
  function Bits(c: char): (n: int)
    ensures -1 <= n < 64
  {
    if 'A' <= c <= 'Z' then (c - 'A') as int
    else if 'a' <= c <= 'z' then (c - 'a') as int + 26
    else if '0' <= c <= '9' then (c - '0') as int + 52
    else if c == '+' then 62 else if c == '/' then 63 else -1
  }

  lemma SymbolBits(n: int)
    requires 0 <= n < 64
    ensures Bits(Symbol(n)) == n && Symbol(n) != '=' && !Space(Symbol(n))
  {
  }

  /** Three bytes as four symbols. */
  function Quad(a: byte, b: byte, c: byte): (s: string)
    ensures |s| == 4
  {
    var x, y, z := a as int, b as int, c as int;
    [Symbol(x / 4), Symbol(x % 4 * 16 + y / 16), Symbol(y % 16 * 4 + z / 64), Symbol(z % 64)]
  }

  function Encode(b: Bytes): string {
    if |b| == 0 then ""
    else if |b| == 1 then Quad(b[0], 0, 0)[..2] + "=="
    else if |b| == 2 then Quad(b[0], b[1], 0)[..3] + "="
    else Quad(b[0], b[1], b[2]) + Encode(b[3..])
  }

  predicate Space(c: char) {
    c in {' ', '\t', '\n', '\r', '\U{0C}'}
  }

  function Strip(s: string): string {
    if s == "" then "" else (if Space(s[0]) then "" else [s[0]]) + Strip(s[1..])
  }

  function Unpad(s: string): string {
    if |s| % 4 != 0 || s == "" || s[|s| - 1] != '=' then s
    else if s[|s| - 2] == '=' then s[..|s| - 2] else s[..|s| - 1]
  }

  /** The bytes of up to four symbols; bits that do not fill a byte are dropped. */
  function Group(s: string): Option<Bytes>
    requires 1 < |s| <= 4
  {
    if Bits(s[0]) < 0 || Bits(s[1]) < 0 || (|s| > 2 && Bits(s[2]) < 0) || (|s| > 3 && Bits(s[3]) < 0) then None
    else
      var p, q := Bits(s[0]), Bits(s[1]);
      var r, t := if |s| > 2 then Bits(s[2]) else 0, if |s| > 3 then Bits(s[3]) else 0;
      var all := [(p * 4 + q / 16) as byte, (q % 16 * 16 + r / 4) as byte, (r % 4 * 64 + t) as byte];
      Some(if |s| == 4 then all else if |s| == 3 then [all[0], all[1]] else [all[0]])
  }

  function Groups(s: string): Option<Bytes>
    requires |s| % 4 != 1
  {
    if s == "" then Some([])
    else if |s| <= 4 then Group(s)
    else
      var first, rest := Group(s[..4]), Groups(s[4..]);
      if first.None? || rest.None? then None else Some(first.value + rest.value)
  }

  function Atob(s: string): Option<Bytes> {
    var plain := Unpad(Strip(s));
    if |plain| % 4 == 1 then None else Groups(plain)
  }

  lemma {:induction false} EncodeLength(b: Bytes)
    ensures |Encode(b)| == 4 * ((|b| + 2) / 3)
  {
    hide Quad;
    if |b| > 3 { EncodeLength(b[3..]); }
  }

  predicate Plain(s: string) {
    forall i :: 0 <= i < |s| ==> !Space(s[i])
  }

  lemma {:induction false} EncodePlain(b: Bytes)
    ensures Plain(Encode(b))
  {
    if |b| > 3 { EncodePlain(b[3..]); }
  }

  lemma {:induction false} StripPlain(s: string)
    requires Plain(s)
    ensures Strip(s) == s
  {
    if s != "" {
      assert Plain(s[1..]);
      StripPlain(s[1..]);
    }
  }

  lemma QuadBits(a: byte, b: byte, c: byte)
    ensures var s := Quad(a, b, c);
      && (forall i :: 0 <= i < 4 ==> Bits(s[i]) >= 0 && s[i] != '=' && !Space(s[i]))
      && Bits(s[0]) * 4 + Bits(s[1]) / 16 == a as int
      && Bits(s[1]) % 16 * 16 + Bits(s[2]) / 4 == b as int
      && Bits(s[2]) % 4 * 64 + Bits(s[3]) == c as int
  {
    hide Symbol, Bits, Space;
    var x, y, z := a as int, b as int, c as int;
    SymbolBits(x / 4);
    SymbolBits(x % 4 * 16 + y / 16);
    SymbolBits(y % 16 * 4 + z / 64);
    SymbolBits(z % 64);
  }

  lemma GroupQuad(a: byte, b: byte, c: byte)
    ensures Group(Quad(a, b, c)) == Some([a, b, c])
    ensures Group(Quad(a, b, c)[..3]) == Some([a, b])
    ensures Group(Quad(a, b, c)[..2]) == Some([a])
  {
    QuadBits(a, b, c);
    hide Symbol, Bits, Quad, Space;
    var s := Quad(a, b, c);
    assert forall i :: 0 <= i < 3 ==> s[..3][i] == s[i];
    assert forall i :: 0 <= i < 2 ==> s[..2][i] == s[i];
  }

  /** What is left of an encoding once its padding is gone. */
  lemma {:induction false} UnpadEncode(b: Bytes)
    ensures var plain := Unpad(Encode(b)); |plain| % 4 != 1 && Groups(plain) == Some(b)
  {
    hide Encode, Groups, Unpad, Symbol, Bits, Quad, Group, Space;
    if |b| < 3 {
      UnpadShort(b);
    } else {
      EncodeStep(b);
      var quad := Quad(b[0], b[1], b[2]);
      QuadIsPlain(b[0], b[1], b[2]);
      GroupQuad(b[0], b[1], b[2]);
      UnpadEncode(b[3..]);
      EncodeLength(b[3..]);
      UnpadAfter(quad, Encode(b[3..]));
      GroupsAfter(quad, Unpad(Encode(b[3..])), [b[0], b[1], b[2]], b[3..]);
      assert b == [b[0], b[1], b[2]] + b[3..];
    }
  }

  lemma EncodeStep(b: Bytes)
    requires |b| >= 3
    ensures Encode(b) == Quad(b[0], b[1], b[2]) + Encode(b[3..])
  {
    hide Quad;
    if |b| == 3 { assert b[3..] == []; }
  }

  lemma UnpadShort(b: Bytes)
    requires |b| < 3
    ensures var plain := Unpad(Encode(b)); |plain| % 4 != 1 && Groups(plain) == Some(b)
  {
    hide Symbol, Bits, Quad, Group, Space;
    if |b| > 0 {
      var y := if |b| > 1 then b[1] else 0;
      QuadIsPlain(b[0], y, 0);
      GroupQuad(b[0], y, 0);
      assert Unpad(Encode(b)) == Quad(b[0], y, 0)[..|b| + 1];
      assert b == if |b| == 1 then [b[0]] else [b[0], b[1]];
    }
  }

  lemma UnpadAfter(quad: string, rest: string)
    requires |quad| == 4 && quad[3] != '=' && |rest| % 4 == 0
    ensures Unpad(quad + rest) == quad + Unpad(rest)
  {
    var s, n := quad + rest, |rest|;
    if n > 0 {
      assert s[n + 3] == rest[n - 1] && s[n + 2] == rest[n - 2];
      assert s[..n + 2] == quad + rest[..n - 2] && s[..n + 3] == quad + rest[..n - 1];
    } else {
      assert s == quad;
    }
  }

  lemma GroupsAfter(quad: string, rest: string, first: Bytes, more: Bytes)
    requires |quad| == 4 && |rest| % 4 != 1 && Group(quad) == Some(first) && Groups(rest) == Some(more)
    ensures Groups(quad + rest) == Some(first + more)
  {
    hide Group;
    if rest == "" {
      assert quad + rest == quad && first + more == first;
    } else {
      assert (quad + rest)[..4] == quad && (quad + rest)[4..] == rest;
    }
  }

  lemma QuadIsPlain(a: byte, b: byte, c: byte)
    ensures |Quad(a, b, c)| == 4 && Plain(Quad(a, b, c)) && forall i :: 0 <= i < 4 ==> Quad(a, b, c)[i] != '='
  {
    QuadBits(a, b, c);
    hide Quad, Symbol, Space;
  }

  /** Decoding undoes encoding, and the text of a million bytes stays below the importer's length limit. */
  lemma RoundTrip(b: Bytes)
    ensures Atob(Encode(b)) == Some(b)
    ensures |b| <= 1_000_000 ==> |Encode(b)| <= 1_400_000
  {
    EncodePlain(b);
    StripPlain(Encode(b));
    UnpadEncode(b);
    EncodeLength(b);
  }

  /**
   The decoder is not canonical, whatever the importer's message says: padding may be left out, which gives another
   text exactly when the bytes do not come in threes.
   */
  lemma PaddingOptional(b: Bytes)
    ensures Atob(Unpad(Encode(b))) == Some(b) && (Unpad(Encode(b)) != Encode(b) <==> |b| % 3 != 0)
  {
    hide Encode, Groups, Unpad, Strip, Plain;
    PaddingThere(b);
    EncodePlain(b);
    UnpadEncode(b);
    UnpadPlain(Encode(b));
    StripPlain(Unpad(Encode(b)));
    NoSecondPadding(b);
  }

  lemma UnpadPlain(s: string)
    requires Plain(s)
    ensures Plain(Unpad(s))
  {
    hide Space;
  }

  lemma {:induction false} PaddingThere(b: Bytes)
    ensures Unpad(Encode(b)) != Encode(b) <==> |b| % 3 != 0
  {
    hide Symbol, Bits, Quad, Space;
    EncodeLength(b);
    if |b| >= 3 {
      var quad := Quad(b[0], b[1], b[2]);
      EncodeStep(b);
      QuadIsPlain(b[0], b[1], b[2]);
      PaddingThere(b[3..]);
      EncodeLength(b[3..]);
      UnpadAfter(quad, Encode(b[3..]));
    }
  }

  lemma {:induction false} NoSecondPadding(b: Bytes)
    ensures Unpad(Unpad(Encode(b))) == Unpad(Encode(b))
  {
    hide Groups, Symbol, Bits, Quad, Space;
    var y, z := if |b| > 1 then b[1] else 0, if |b| > 2 then b[2] else 0;
    EncodeLength(b);
    if |b| > 0 { QuadIsPlain(b[0], y, z); }
    if |b| > 3 {
      NoSecondPadding(b[3..]);
      EncodeLength(b[3..]);
      UnpadAfter(Quad(b[0], y, z), Encode(b[3..]));
      if |Unpad(Encode(b[3..]))| % 4 == 0 { UnpadAfter(Quad(b[0], y, z), Unpad(Encode(b[3..]))); }
    } else if |b| == 3 {
      assert Encode(b) == Quad(b[0], y, z);
    }
  }

  /** The bits of the last symbol that fill no byte are zero. */
  predicate SpareZero(plain: string) {
    && (|plain| % 4 == 2 ==> Bits(plain[|plain| - 1]) % 16 == 0)
    && (|plain| % 4 == 3 ==> Bits(plain[|plain| - 1]) % 4 == 0)
  }

  /** No white space, padded to whole groups, and no spare bit set. */
  predicate Canonical(s: string) {
    Plain(s) && |s| % 4 == 0 && SpareZero(Unpad(s))
  }

  function Pad(plain: string): string {
    if |plain| % 4 == 2 then plain + "==" else if |plain| % 4 == 3 then plain + "=" else plain
  }

  lemma PadUnpad(s: string)
    requires |s| % 4 == 0
    ensures Pad(Unpad(s)) == s
  {
    if s != "" && s[|s| - 1] == '=' {
      if s[|s| - 2] == '=' {
        assert s == s[..|s| - 2] + "==";
      } else {
        assert s == s[..|s| - 1] + "=";
      }
    }
  }

  lemma BitsSymbol(c: char)
    requires Bits(c) >= 0
    ensures Symbol(Bits(c)) == c
  {
  }

  /** The symbols of the bytes that up to four six-bit numbers make. */
  lemma Regroup(p: int, q: int, r: int, t: int)
    requires 0 <= p < 64 && 0 <= q < 64 && 0 <= r < 64 && 0 <= t < 64
    ensures var x, y, z := p * 4 + q / 16, q % 16 * 16 + r / 4, r % 4 * 64 + t;
      && 0 <= x < 256 && 0 <= y < 256 && 0 <= z < 256
      && x / 4 == p && x % 4 * 16 + y / 16 == q && y % 16 * 4 + z / 64 == r && z % 64 == t
    ensures q % 16 == 0 ==> (p * 4 + q / 16) % 4 * 16 == q
    ensures r % 4 == 0 ==> (q % 16 * 16 + r / 4) % 16 * 4 == r
  {
  }

  /** Encoding a decoded group gives the group back, if it has no spare bit set. */
  lemma EncodeGroup(s: string)
    requires 1 < |s| <= 4 && Group(s).Some? && SpareZero(s)
    ensures Encode(Group(s).value) == Pad(s)
  {
    hide Symbol, Bits;
    var p, q := Bits(s[0]), Bits(s[1]);
    var r, t := if |s| > 2 then Bits(s[2]) else 0, if |s| > 3 then Bits(s[3]) else 0;
    Regroup(p, q, r, t);
    BitsSymbol(s[0]);
    BitsSymbol(s[1]);
    if |s| > 2 { BitsSymbol(s[2]); }
    if |s| > 3 { BitsSymbol(s[3]); }
    var b := Group(s).value;
    if |s| == 4 {
      assert b[3..] == [] && Quad(b[0], b[1], b[2]) == s;
    } else if |s| == 3 {
      assert Quad(b[0], b[1], 0)[..3] == s;
    } else {
      assert Quad(b[0], 0, 0)[..2] == s;
    }
  }

  lemma {:induction false} EncodeGroups(s: string)
    requires |s| % 4 != 1 && Groups(s).Some? && SpareZero(s)
    ensures Encode(Groups(s).value) == Pad(s)
  {
    hide Symbol, Bits, Quad, Group, Encode, Groups;
    if s == "" {
      NoGroups();
    } else if |s| <= 4 {
      OneGroup(s);
      EncodeGroup(s);
    } else {
      var first, rest := s[..4], s[4..];
      FirstGroup(s);
      EncodeGroup(first);
      EncodeGroups(rest);
      EncodeApart(Group(first).value, Groups(rest).value);
      hide SpareZero;
      assert s == first + rest;
    }
  }

  lemma NoGroups()
    ensures Groups("") == Some([]) && Encode([]) == ""
  {
  }

  lemma OneGroup(s: string)
    requires 1 < |s| <= 4
    ensures Groups(s) == Group(s)
  {
  }

  lemma FirstGroup(s: string)
    requires |s| > 4 && |s| % 4 != 1 && Groups(s).Some?
    ensures Group(s[..4]).Some? && Groups(s[4..]).Some?
    ensures |Group(s[..4]).value| == 3 && Groups(s).value == Group(s[..4]).value + Groups(s[4..]).value
  {
    GroupThree(s[..4]);
    hide Group;
  }

  lemma EncodeApart(first: Bytes, more: Bytes)
    requires |first| == 3
    ensures Encode(first + more) == Encode(first) + Encode(more)
  {
    hide Quad;
    EncodeStep(first + more);
    EncodeStep(first);
    assert (first + more)[3..] == more && first[3..] == [];
  }

  lemma GroupThree(s: string)
    requires |s| == 4 && Group(s).Some?
    ensures |Group(s).value| == 3
  {
  }

  lemma {:induction false} EncodeSpare(b: Bytes)
    ensures SpareZero(Unpad(Encode(b)))
  {
    hide Encode, Unpad, Symbol, Bits, Quad, Space, SpareZero, Plain;
    if |b| < 3 {
      ShortSpare(b);
    } else {
      EncodeStep(b);
      var quad := Quad(b[0], b[1], b[2]);
      QuadIsPlain(b[0], b[1], b[2]);
      EncodeSpare(b[3..]);
      EncodeLength(b[3..]);
      UnpadAfter(quad, Encode(b[3..]));
      SpareAfter(quad, Unpad(Encode(b[3..])));
    }
  }

  lemma SpareAfter(quad: string, rest: string)
    requires |quad| == 4 && SpareZero(rest)
    ensures SpareZero(quad + rest)
  {
    hide Bits;
  }

  lemma ShortSpare(b: Bytes)
    requires |b| < 3
    ensures SpareZero(Unpad(Encode(b)))
  {
    if |b| > 0 {
      var y := if |b| > 1 then b[1] else 0;
      var plain := Quad(b[0], y, 0)[..|b| + 1];
      ShortUnpad(b);
      QuadSpare(b[0], y);
      hide Encode, Unpad, Bits, Quad;
      assert plain[|b|] == Quad(b[0], y, 0)[|b|];
    }
  }

  lemma ShortUnpad(b: Bytes)
    requires 0 < |b| < 3
    ensures Unpad(Encode(b)) == Quad(b[0], if |b| > 1 then b[1] else 0, 0)[..|b| + 1]
  {
    var y := if |b| > 1 then b[1] else 0;
    QuadIsPlain(b[0], y, 0);
    hide Quad, Plain;
  }

  /** The symbols of one or two bytes leave their spare bits at zero. */
  lemma QuadSpare(a: byte, b: byte)
    ensures Bits(Quad(a, 0, 0)[1]) % 16 == 0 && Bits(Quad(a, b, 0)[2]) % 4 == 0
  {
    hide Symbol, Bits, Quad, Space;
    QuadBits(a, 0, 0);
    QuadBits(a, b, 0);
  }

  /** An accepted text is the encoding of what it decodes to exactly when it is canonical. */
  lemma CanonicalExactly(s: string)
    requires Atob(s).Some?
    ensures Encode(Atob(s).value) == s <==> Canonical(s)
  {
    hide Encode, Groups, Unpad, Strip, Plain, SpareZero;
    var b := Atob(s).value;
    EncodePlain(b);
    EncodeLength(b);
    EncodeSpare(b);
    if Canonical(s) {
      StripPlain(s);
      PadUnpad(s);
      EncodeGroups(Unpad(s));
    }
  }

  /** White space, spare bits and missing padding are each let through. */
  lemma NotCanonical()
    ensures Atob("QU JD") == Some([65, 66, 67]) && Encode([65, 66, 67]) == "QUJD"
    ensures Atob("QR==") == Some([65]) && Encode([65]) == "QQ=="
    ensures Atob("QQ") == Some([65])
  {
    SpacedText();
    SpareText();
    var b: Bytes := [65];
    PaddingOptional(b);
    assert Unpad("QQ==") == "QQ";
  }

  lemma SpacedText()
    ensures Atob("QU JD") == Some([65, 66, 67]) && Encode([65, 66, 67]) == "QUJD"
  {
    hide Encode, Groups, Unpad, Strip;
    ThreeSymbols();
    RoundTrip([65, 66, 67]);
    EncodePlain([65, 66, 67]);
    StripPlain("QUJD");
    SpaceDropped("QU", "JD");
    assert "QU JD" == "QU" + " " + "JD" && "QUJD" == "QU" + "JD";
  }

  lemma ThreeSymbols()
    ensures Encode([65, 66, 67]) == "QUJD"
  {
    var b: Bytes := [65, 66, 67];
    assert Quad(65, 66, 67) == "QUJD";
    EncodeStep(b);
    hide Quad;
    assert b[3..] == [] && Encode([]) == "";
  }

  lemma {:induction false} SpaceDropped(a: string, b: string)
    ensures Strip(a + " " + b) == Strip(a + b)
  {
    if a == "" {
      assert (" " + b)[1..] == b && a + b == b && a + " " + b == " " + b;
    } else {
      SpaceDropped(a[1..], b);
      assert (a + " " + b)[1..] == a[1..] + " " + b && (a + b)[1..] == a[1..] + b;
    }
  }

  lemma SpareText()
    ensures Atob("QR==") == Some([65]) && Encode([65]) == "QQ=="
  {
    StripPlain("QR==");
    OneGroup("QR");
    LastSymbols();
    hide Group, Quad, Strip;
    assert Unpad("QR==") == "QR";
  }

  lemma LastSymbols()
    ensures Group("QR") == Some([65]) && Quad(65, 0, 0)[..2] == "QQ"
  {
  }

  /** The alphabet of table 1 in section 4 of RFC 4648: three runs and two more symbols. */
  lemma AlphabetExactly(n: int, c: char)
    requires 0 <= n < 64
    ensures Symbol(0) == 'A' && Symbol(25) == 'Z' && Symbol(26) == 'a' && Symbol(51) == 'z'
    ensures Symbol(52) == '0' && Symbol(61) == '9' && Symbol(62) == '+' && Symbol(63) == '/'
    ensures n !in {25, 51} && n < 61 ==> Symbol(n + 1) as int == Symbol(n) as int + 1
    ensures Bits(c) == n <==> c == Symbol(n)
    ensures Bits(c) < 0 <==> forall m :: 0 <= m < 64 ==> Symbol(m) != c
  {
    if Bits(c) >= 0 { BitsSymbol(c); }
    assert forall m :: 0 <= m < 64 ==> Bits(Symbol(m)) == m;
  }

  function Bits24(a: byte, b: byte, c: byte): int {
    a as int * 0x1_0000 + b as int * 0x100 + c as int
  }

  function SymbolBits24(s: string): int
    requires |s| == 4
  {
    Bits(s[0]) * 0x4_0000 + Bits(s[1]) * 0x1000 + Bits(s[2]) * 0x40 + Bits(s[3])
  }

  /** The 24 bits of three bytes, six to a symbol, and the texts of one and two bytes. */
  lemma EncodeExactly(a: byte, b: byte, c: byte, rest: Bytes)
    ensures Encode([]) == "" && Encode([a, b, c] + rest) == Quad(a, b, c) + Encode(rest)
    ensures Encode([a]) == Quad(a, 0, 0)[..2] + "==" && Encode([a, b]) == Quad(a, b, 0)[..3] + "="
    ensures SymbolBits24(Quad(a, b, c)) == Bits24(a, b, c)
  {
    hide Quad, Bits, Symbol;
    QuadBits(a, b, c);
    assert ([a, b, c] + rest)[3..] == rest;
    if rest == [] { assert [a, b, c] + rest == [a, b, c]; }
  }

  /** White space is dropped wherever it stands, and nothing else is. */
  lemma StripExactly(c: char, rest: string)
    ensures Strip("") == ""
    ensures c == ' ' || c == '\t' || c == '\n' || c == '\r' || c as int == 12 ==> Strip([c] + rest) == Strip(rest)
    ensures c != ' ' && c != '\t' && c != '\n' && c != '\r' && c as int != 12 ==>
      Strip([c] + rest) == [c] + Strip(rest)
  {
    assert ([c] + rest)[1..] == rest;
  }

  /** Up to two equals signs at the end of whole groups are padding. */
  lemma UnpadExactly(s: string, t: string)
    ensures Unpad(s) == t <==>
      if |s| % 4 != 0 || s == "" || s[|s| - 1] != '=' then t == s
      else s == t + "==" || (s == t + "=" && t[|t| - 1] != '=')
  {
  }

  /** The bits of the symbols of a group make its bytes; what is left over is dropped. */
  lemma GroupExactly(s: string)
    requires 1 < |s| <= 4
    ensures Group(s).Some? <==> forall i :: 0 <= i < |s| ==> Bits(s[i]) >= 0
    ensures Group(s).Some? ==> |Group(s).value| == |s| - 1
    ensures Group(s).Some? ==> var b := Group(s).value;
      && (|s| == 2 ==> b[0] as int == (Bits(s[0]) * 64 + Bits(s[1])) / 16)
      && (|s| == 3 ==> b[0] as int * 256 + b[1] as int == (Bits(s[0]) * 4096 + Bits(s[1]) * 64 + Bits(s[2])) / 4)
      && (|s| == 4 ==> Bits24(b[0], b[1], b[2]) == SymbolBits24(s))
  {
    hide Bits;
    var p, q := Bits(s[0]), Bits(s[1]);
    var r, t := if |s| > 2 then Bits(s[2]) else 0, if |s| > 3 then Bits(s[3]) else 0;
    if Group(s).Some? { Regroup(p, q, r, t); }
  }

  /** Text is decoded four symbols at a time, and every group must be right. */
  lemma GroupsExactly(four: string, rest: string)
    requires |four| == 4 && rest != "" && |rest| % 4 != 1
    ensures Groups(four + rest) == if Group(four).None? || Groups(rest).None? then None
                                   else Some(Group(four).value + Groups(rest).value)
  {
    hide Group;
    assert (four + rest)[..4] == four && (four + rest)[4..] == rest;
  }
}
