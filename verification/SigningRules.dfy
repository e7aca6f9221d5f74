/** The signing message written out: its lines, the two parsers of a target, the coding and the order of parameters. */
module SigningRules {
  import opened Common
  import opened Percent
  import opened Signing
  import opened Sorting
  import opened Strings

  const HEX := "0123456789ABCDEF"

  /** A hexadecimal digit in either case. */
  predicate HexChar(c: char) {
    '0' <= c <= '9' || 'a' <= c <= 'f' || 'A' <= c <= 'F'
  }

  predicate Unescaped(c: char) {
    'A' <= c <= 'Z' || 'a' <= c <= 'z' || '0' <= c <= '9' || c == '-' || c == '.' || c == '_' || c == '~'
  }

  /** A non-empty text on one line. */
  predicate Line(s: string) {
    s != "" && '\n' !in s && '\r' !in s
  }

  /** What both sides ask of the fields; only the idempotency key may be empty. */
  predicate Signable(f: Fields) {
    && Line(f.keyId) && Line(f.verb) && Line(f.timestamp) && Line(f.nonce) && Line(f.requestId) && Line(f.owner)
    && (f.idempotencyKey == "" || Line(f.idempotencyKey))
    && |f.bodyDigest| == 64 && forall i :: 0 <= i < 64 ==> HexChar(f.bodyDigest[i])
  }

  lemma {:induction false} CaseExactly(s: string)
    ensures |Upper(s)| == |s| && |Lower(s)| == |s|
    ensures forall i :: 0 <= i < |s| ==> Upper(s)[i] == if 'a' <= s[i] <= 'z' then 'A' + (s[i] - 'a') else s[i]
    ensures forall i :: 0 <= i < |s| ==> Lower(s)[i] == if 'A' <= s[i] <= 'Z' then 'a' + (s[i] - 'A') else s[i]
  {
    if s != "" { CaseExactly(s[1..]); }
  }

  lemma OneLineExactly(s: string)
    ensures OneLine(s) <==> '\n' !in s && '\r' !in s
  {
  }

  lemma DigestExactly(s: string)
    ensures IsDigest(Lower(s)) <==> |s| == 64 && forall i :: 0 <= i < 64 ==> HexChar(s[i])
    ensures IsDigest(Lower(s)) ==> OneLine(s)
  {
    CaseExactly(s);
    hide Lower;
    if IsDigest(Lower(s)) {
      forall i | 0 <= i < 64
        ensures HexChar(s[i])
      {
        assert Lower(s)[i] <= 'f';
      }
    }
  }

  lemma HexCharExactly(c: char)
    ensures HexChar(c) <==> HexValue(c) >= 0
  {
  }

  lemma SignableExactly(f: Fields)
    ensures FieldsValid(f) <==> Signable(f)
  {
    hide IsDigest, Lower, OneLine;
    OneLineExactly(f.keyId);
    OneLineExactly(f.verb);
    OneLineExactly(f.timestamp);
    OneLineExactly(f.nonce);
    OneLineExactly(f.requestId);
    OneLineExactly(f.owner);
    OneLineExactly(f.idempotencyKey);
    DigestExactly(f.bodyDigest);
  }

  /** Splitting the message at its line breaks gives exactly these ten lines. */
  predicate TenLines(message: string, f: Fields, target: string) {
    Split(message, '\n') == ["v2", f.keyId, Upper(f.verb), target, f.timestamp, f.nonce, Lower(f.bodyDigest),
                             f.requestId, f.idempotencyKey, f.owner]
  }

  /**
   Each side signs exactly the requests with usable fields and a target it accepts, and its message is version, key id,
   upper-case method, canonical target, timestamp, nonce, lower-case digest, request id, idempotency key and owner,
   one to a line.
   */
  lemma MessageLines(f: Fields, decode: Decode, keeps: bool)
    requires Decoder(decode) && Ascii(f.target)
    ensures PyMessage(f, decode, keeps).Some? <==> Signable(f) && PyTarget(f.target, decode, keeps).Some?
    ensures TsMessage(f, decode).Some? <==> Signable(f) && TsTarget(f.target, decode).Some?
    ensures PyMessage(f, decode, keeps).Some? ==>
      TenLines(PyMessage(f, decode, keeps).value, f, PyTarget(f.target, decode, keeps).value)
    ensures TsMessage(f, decode).Some? ==> TenLines(TsMessage(f, decode).value, f, TsTarget(f.target, decode).value)
  {
    hide Decoder, PyTarget, TsTarget, Upper, Lower, Join, Split, Ascii, FieldsValid, Signable;
    SignableExactly(f);
    TargetOneLine(f.target, decode, keeps);
    var c, d := PyTarget(f.target, decode, keeps), TsTarget(f.target, decode);
    if FieldsValid(f) && c.Some? {
      PartsOneLine(f, c.value);
      SplitJoin(Parts(f, c.value), '\n');
    }
    if FieldsValid(f) && d.Some? {
      PartsOneLine(f, d.value);
      SplitJoin(TsParts(f, d.value), '\n');
    }
  }

  /** A text cut at a separator: joining the pieces gives it back, and no piece holds the separator. */
  lemma {:induction false} SplitExactly(s: string, c: char)
    ensures Join(Split(s, c), c) == s && forall p :: p in Split(s, c) ==> c !in p
    decreases |s|
  {
    var i := Find(s, c);
    assert Without(s[..i], c);
    if i < |s| {
      SplitExactly(s[i + 1..], c);
      assert Split(s, c) == [s[..i]] + Split(s[i + 1..], c);
      assert Split(s, c)[1..] == Split(s[i + 1..], c);
      assert s == s[..i] + [c] + s[i + 1..];
    } else {
      assert s[..i] == s;
    }
  }

  lemma JoinExactly(first: string, second: string, rest: seq<string>, c: char)
    ensures Join([], c) == "" && Join([first], c) == first
    ensures Join([first, second] + rest, c) == first + [c] + Join([second] + rest, c)
  {
    assert ([first, second] + rest)[1..] == [second] + rest;
  }

  /** Characters that stand for themselves, and the two hexadecimal digits of every other byte. */
  lemma QuoteExactly(b: byte, rest: Bytes)
    ensures Quote([]) == "" && Quote([b] + rest) == QuoteByte(b) + Quote(rest)
    ensures QuoteByte(b) ==
      if Unescaped(b as char) then [b as char] else ['%', HEX[b as int / 16], HEX[b as int % 16]]
  {
    assert ([b] + rest)[1..] == rest;
    UnreservedExactly(b);
    HexExactly(b as int / 16);
    HexExactly(b as int % 16);
    hide HexValue, Unreserved, HexDigit, Unescaped;
  }

  lemma UnreservedExactly(b: byte)
    ensures Unreserved(b) <==> Unescaped(b as char)
  {
  }

  lemma HexExactly(n: int)
    requires 0 <= n < 16
    ensures HexDigit(n) == HEX[n] && HexValue(HEX[n]) == n && HexValue("0123456789abcdef"[n]) == n
  {
  }

  predicate Escaped(c: char, rest: string) {
    c == '%' && |rest| >= 2 && HexChar(rest[0]) && HexChar(rest[1])
  }

  /** Two hexadecimal digits after a percent sign are one byte. */
  lemma EscapeExactly(a: char, b: char, rest: string)
    requires HexChar(a) && HexChar(b) && Ascii(rest)
    ensures var s := ['%', a, b] + rest;
      Ascii(s) && Unquote(s) == [(HexValue(a) * 16 + HexValue(b)) as byte] + Unquote(rest)
  {
    var s := ['%', a, b] + rest;
    HexCharExactly(a);
    HexCharExactly(b);
    assert s[3..] == rest;
    hide HexChar;
    assert forall i :: 3 <= i < |s| ==> s[i] == rest[i - 3];
    hide HexValue;
  }

  /** A plus sign is a space, and everything else is itself, a stray percent sign too. */
  lemma UnquoteExactly(c: char, rest: string)
    requires c as int < 128 && Ascii(rest) && !Escaped(c, rest)
    ensures Ascii([c] + rest) && Unquote("") == []
    ensures Unquote([c] + rest) == [if c == '+' then 32 else c as byte] + Unquote(rest)
  {
    var s := [c] + rest;
    assert s[1..] == rest;
    if |rest| >= 2 {
      HexCharExactly(rest[0]);
      HexCharExactly(rest[1]);
    }
    hide HexValue, HexChar;
  }

  /** A parameter is cut at its first equals sign; without one its value is empty. */
  lemma ParameterExactly(name: string, value: string, decode: Decode)
    requires Ascii(name) && Ascii(value) && '=' !in name
    ensures Ascii(name + "=" + value)
    ensures Parameterise(name + "=" + value, decode) == (decode(Unquote(name)), decode(Unquote(value)))
    ensures Parameterise(name, decode) == (decode(Unquote(name)), decode([]))
  {
    hide Unquote;
    FindAt(name, '=', value);
    assert name[..|name|] == name;
  }

  /** A query is cut at every ampersand, and empty parts are dropped. */
  lemma QueryExactly(part: string, rest: string, decode: Decode)
    requires Ascii(part) && Ascii(rest) && '&' !in part
    ensures Ascii(part + "&" + rest)
    ensures ParseQuery(part, decode) == if part == "" then [] else [Parameterise(part, decode)]
    ensures ParseQuery(part + "&" + rest, decode) == ParseQuery(part, decode) + ParseQuery(rest, decode)
  {
    hide Parameterise, Find, Without;
    assert Without(part, '&') by { WithoutExactly(part, '&'); }
    FindAt(part, '&', rest);
    var all := part + "&" + rest;
    SplitAscii(part, '&');
    SplitAscii(rest, '&');
    SplitAscii(all, '&');
    assert part[..|part|] == part;
    assert Split(part, '&') == [part];
    assert ParameteriseAll([], decode) == [];
    assert Split(all, '&') == [part] + Split(rest, '&');
    assert Split(part, '&')[1..] == [] && Split(all, '&')[1..] == Split(rest, '&');
  }

  lemma WithoutExactly(s: string, c: char)
    ensures Without(s, c) <==> c !in s
  {
  }

  /** Parameters are written name=value with ampersands between. */
  lemma EncodedExactly(p: Parameter, q: Parameter, rest: seq<Parameter>)
    ensures EncodeQuery([]) == ""
    ensures EncodeQuery([p]) == Quote(EncodeText(p.0)) + "=" + Quote(EncodeText(p.1))
    ensures EncodeQuery([p, q] + rest) == EncodeQuery([p]) + "&" + EncodeQuery([q] + rest)
  {
    hide Quote, EncodeText;
    var ps := [p, q] + rest;
    assert ps[1..] == [q] + rest && [p][1..] == [];
    assert EncodeAll([p]) == [EncodeParameter(p)];
    assert EncodeAll(ps) == [EncodeParameter(p)] + EncodeAll([q] + rest);
    assert EncodeAll(ps)[1..] == EncodeAll([q] + rest) && |EncodeAll([q] + rest)| >= 1;
  }

  /** Parameters ascend by name and, under one name, by value: by code point in the core, by unit in the worker. */
  lemma OrderExactly(p: Parameter, q: Parameter)
    ensures PyLe(p, q) <==> if p.0 == q.0 then Ascends(p.1, q.1) else Ascends(p.0, q.0)
    ensures TsLe(p, q) <==> if p.0 == q.0 then Ascends(Utf16(p.1), Utf16(q.1)) else Ascends(Utf16(p.0), Utf16(q.0))
  {
    hide LexLe, Ascends, Utf16;
    LexExactly(p.0, q.0);
    LexExactly(p.1, q.1);
    LexExactly(Utf16(p.0), Utf16(q.0));
    LexExactly(Utf16(p.1), Utf16(q.1));
  }

  /** The code units of a character, read back by the formula of a surrogate pair. */
  lemma UnitsExactly(c: Scalar, rest: Text)
    ensures Utf16([]) == [] && Utf16([c] + rest) == Units(c) + Utf16(rest)
    ensures var u := Units(c);
      && (c < 0x1_0000 ==> u == [c])
      && (c >= 0x1_0000 ==> |u| == 2)
      && (c >= 0x1_0000 ==> 0xD800 <= u[0] < 0xDC00 <= u[1] < 0xE000)
      && (c >= 0x1_0000 ==> c == 0x1_0000 + (u[0] - 0xD800) * 0x400 + (u[1] - 0xDC00))
  {
    assert ([c] + rest)[1..] == rest;
  }

  /** A number continued by the six bits of a continuation byte. */
  function Sixes(high: int, b: byte): int {
    high * 64 + (b as int - 0x80)
  }

  /** The bytes of a text are those of its characters in order. */
  lemma Utf8Apart(c: Scalar, rest: Text)
    ensures EncodeText([]) == [] && EncodeText([c] + rest) == Utf8(c) + EncodeText(rest)
  {
    assert ([c] + rest)[1..] == rest;
  }

  /** The bytes of a character, read back by the lengths and offsets of section 3 of RFC 3629. */
  lemma Utf8Exactly(c: Scalar)
    ensures var u := Utf8(c);
      && (forall i :: 1 <= i < |u| ==> 0x80 <= u[i] < 0xC0)
      && (c < 0x80 ==> |u| == 1 && u[0] as int == c)
      && (0x80 <= c < 0x800 ==> |u| == 2 && c == Sixes(u[0] as int - 0xC0, u[1]))
      && (0x800 <= c < 0x1_0000 ==> |u| == 3 && c == Sixes(Sixes(u[0] as int - 0xE0, u[1]), u[2]))
      && (0x1_0000 <= c ==> |u| == 4 && c == Sixes(Sixes(Sixes(u[0] as int - 0xF0, u[1]), u[2]), u[3]))
  {
    var u := Utf8(c);
    SixBits(c);
    SixBits(c / 64);
    SixBits(c / 4096);
    if 0x800 <= c < 0x1_0000 {
      ThreeBytes(c);
    } else if 0x1_0000 <= c {
      FourBytes(c);
    }
  }

  lemma ThreeBytes(c: Scalar)
    requires 0x800 <= c < 0x1_0000
    ensures Utf8(c) == [(0xE0 + c / 64 / 64) as byte, (0x80 + c / 64 % 64) as byte, (0x80 + c % 64) as byte]
  {
  }

  lemma FourBytes(c: Scalar)
    requires 0x1_0000 <= c
    ensures Utf8(c) == [(0xF0 + c / 64 / 64 / 64) as byte, (0x80 + c / 64 / 64 % 64) as byte,
                        (0x80 + c / 64 % 64) as byte, (0x80 + c % 64) as byte]
  {
  }

  lemma SixBits(n: int)
    ensures n == n / 64 * 64 + n % 64 && 0 <= n % 64 < 64
  {
  }

  /** Tabs are taken out wherever they stand, and nothing else is. */
  lemma TabsExactly(a: string, b: string)
    requires '\t' !in a
    ensures RemoveTabs(a) == a && RemoveTabs(a + "\t" + b) == a + RemoveTabs(b)
  {
    WithoutExactly(a, '\t');
    TabsRemoved(a);
    TabAfter(a, b);
  }

  lemma {:induction false} TabAfter(a: string, b: string)
    requires '\t' !in a
    ensures RemoveTabs(a + "\t" + b) == a + RemoveTabs(b)
  {
    var s := a + "\t" + b;
    if a == "" {
      assert s[1..] == b;
    } else {
      TabAfter(a[1..], b);
      assert s[1..] == a[1..] + "\t" + b;
      assert a == [a[0]] + a[1..];
    }
  }

  /** body is the path, followed by a question mark and the query if there is one. */
  predicate Reads(body: string, path: string, query: string) {
    '?' !in path && ((body == path && query == "") || body == path + "?" + query)
  }

  lemma ReadsExactly(body: string, path: string, query: string)
    ensures Reads(body, path, query) <==> SplitTarget(body) == Target(path, query)
  {
    WithoutExactly(path, '?');
    hide Find;
    if Reads(body, path, query) {
      FindAt(path, '?', query);
      if body == path { assert body[..|path|] == body; }
    } else {
      var i := Find(body, '?');
      if i < |body| { assert body == body[..i] + "?" + body[i + 1..]; } else { assert body[..i] == body; }
    }
  }

  predicate Starts(s: string, prefix: string) {
    |prefix| <= |s| && s[..|prefix|] == prefix
  }

  /** What is parsed of a target after its tabs, an empty authority and an empty fragment. */
  function Body(u: string): string {
    var rest := if Starts(u, "//") then u[2..] else u;
    if rest != "" && rest[|rest| - 1] == '#' then rest[..|rest| - 1] else rest
  }

  /**
   The targets the core accepts: one line beginning with a slash that without its tabs names no host and holds no hash
   sign but a last one. The path is what stands before the first question mark, or the root.
   */
  predicate CoreReads(t: string, path: string, query: string) {
    var u := RemoveTabs(t);
    && Line(t) && t[0] == '/'
    && (Starts(u, "//") ==> u == "//" || u[2] in "/?#")
    && '#' !in Body(u)
    && (if path == "/" && Reads(Body(u), "", query) then true else path != "" && Reads(Body(u), path, query))
  }

  lemma HashExactly(rest: string)
    ensures var i := Find(rest, '#');
      var body := if rest != "" && rest[|rest| - 1] == '#' then rest[..|rest| - 1] else rest;
      && (i + 1 < |rest| <==> '#' in body)
      && (i + 1 >= |rest| ==> rest[..i] == body)
  {
    var i := Find(rest, '#');
    var body := if rest != "" && rest[|rest| - 1] == '#' then rest[..|rest| - 1] else rest;
    WithoutExactly(rest[..i], '#');
    if i + 1 < |rest| {
      assert body[i] == '#';
    } else if i == |rest| {
      assert rest[..i] == rest;
      assert rest != "" ==> rest[..i][|rest| - 1] != '#';
    }
  }

  lemma CoreReadsExactly(t: string, path: string, query: string)
    requires Ascii(t)
    ensures PyParse(t) == Some(Target(path, query)) <==> CoreReads(t, path, query)
  {
    hide SplitTarget, RemoveTabs, Find, Ascii, Reads;
    var u, rest := RemoveTabs(t), Rest(t);
    OneLineExactly(t);
    HashExactly(rest);
    RestExactly(t);
    hide Rest, Without;
    forall p, q
      ensures Reads(Body(u), p, q) <==> SplitTarget(Body(u)) == Target(p, q)
    {
      ReadsExactly(Body(u), p, q);
    }
  }

  lemma RestExactly(t: string)
    ensures var u := RemoveTabs(t);
      && Rest(t) == (if Starts(u, "//") then u[2..] else u)
      && (Starts(u, "//") <==> TwoSlashes(u))
      && (Starts(u, "//") ==> (NoAuthority(Rest(t)) <==> u == "//" || u[2] in "/?#"))
  {
    hide RemoveTabs;
    var u := RemoveTabs(t);
    if |u| >= 2 { assert u[..2] == [u[0], u[1]]; }
  }

  /** The worker takes any line that begins with a slash and has no hash sign, and drops one question mark more. */
  predicate WorkerReads(t: string, path: string, query: string) {
    && Line(t) && t[0] == '/' && '#' !in t
    && (Reads(t, path, "?" + query) || (Reads(t, path, query) && !Starts(query, "?")))
  }

  lemma WorkerReadsExactly(t: string, path: string, query: string)
    requires Ascii(t)
    ensures TsParse(t) == Some(Target(path, query)) <==> WorkerReads(t, path, query)
  {
    hide SplitTarget, Ascii, Reads;
    OneLineExactly(t);
    WithoutExactly(t, '#');
    hide Without;
    forall p, q
      ensures Reads(t, p, q) <==> SplitTarget(t) == Target(p, q)
      ensures Starts(q, "?") <==> q != "" && q[0] == '?'
    {
      ReadsExactly(t, p, q);
      assert q != "" ==> q[..1] == [q[0]];
    }
  }

  /** Two adjacent parameters, or any two in this order, ascend. */
  predicate CoreOrdered(ps: seq<Parameter>) {
    forall i, j :: 0 <= i < j < |ps| ==> PyLe(ps[i], ps[j])
  }

  predicate WorkerOrdered(ps: seq<Parameter>) {
    forall i, j :: 0 <= i < j < |ps| ==> TsLe(ps[i], ps[j])
  }

  function Query(ps: seq<Parameter>): string {
    if ps == [] then "" else "?" + EncodeQuery(ps)
  }

  ghost predicate CoreForm(t: string, c: string, decode: Decode, keeps: bool, path: string, query: string,
                           ps: seq<Parameter>)
  {
    && CoreReads(t, path, query) && Ascii(query)
    && multiset(ps) == multiset(ParseQuery(query, decode)) && CoreOrdered(ps)
    && c == (if keeps && Starts(path, "//") then "//" else "") + path + Query(ps)
  }

  ghost predicate WorkerForm(t: string, c: string, decode: Decode, path: string, query: string, ps: seq<Parameter>) {
    && WorkerReads(t, path, query) && Ascii(query)
    && multiset(ps) == multiset(ParseQuery(query, decode)) && WorkerOrdered(ps)
    && c == path + Query(ps)
  }

  /** A target's canonical form is its path and its parameters in ascending order, on each side. */
  lemma FormExactly(t: string, c: string, decode: Decode, keeps: bool)
    requires Decoder(decode) && Ascii(t)
    ensures PyTarget(t, decode, keeps) == Some(c) <==>
      exists path, query, ps :: CoreForm(t, c, decode, keeps, path, query, ps)
    ensures TsTarget(t, decode) == Some(c) <==>
      exists path, query, ps :: WorkerForm(t, c, decode, path, query, ps)
  {
    CoreFormExactly(t, c, decode, keeps);
    WorkerFormExactly(t, c, decode);
  }

  lemma SortExactly(qs: seq<Parameter>, ps: seq<Parameter>)
    ensures multiset(ps) == multiset(qs) && CoreOrdered(ps) <==> ps == Sort(qs, PyLe)
    ensures multiset(ps) == multiset(qs) && WorkerOrdered(ps) <==> ps == Sort(qs, TsLe)
  {
    hide PyLe, TsLe, Sort;
    Orders();
    SortEffect(qs, PyLe);
    SortEffect(qs, TsLe);
    if multiset(ps) == multiset(qs) && CoreOrdered(ps) { SortedUnique(ps, Sort(qs, PyLe), PyLe); }
    if multiset(ps) == multiset(qs) && WorkerOrdered(ps) { SortedUnique(ps, Sort(qs, TsLe), TsLe); }
  }

  lemma AssembledExactly(path: string, ps: seq<Parameter>, decode: Decode, keeps: bool)
    requires Decoder(decode)
    ensures Assemble(path, EncodeQuery(ps)) == path + Query(ps)
    ensures Assemble(Unsplit(path, keeps), EncodeQuery(ps)) ==
      (if keeps && Starts(path, "//") then "//" else "") + path + Query(ps)
  {
    hide EncodeQuery, Decoder, Plain, ParseQuery;
    QueryRoundTrip(ps, decode);
    Appended(path, ps);
    Appended(Unsplit(path, keeps), ps);
    if |path| >= 2 { assert path[..2] == [path[0], path[1]]; }
    hide Assemble, Query;
    assert "" + path == path;
  }

  lemma Appended(path: string, ps: seq<Parameter>)
    requires EncodeQuery(ps) == "" <==> ps == []
    ensures Assemble(path, EncodeQuery(ps)) == path + Query(ps)
  {
    hide EncodeQuery;
    assert path + ("?" + EncodeQuery(ps)) == path + ['?'] + EncodeQuery(ps);
  }

  lemma CoreFormExactly(t: string, c: string, decode: Decode, keeps: bool)
    requires Decoder(decode) && Ascii(t)
    ensures PyTarget(t, decode, keeps) == Some(c) <==>
      exists path, query, ps :: CoreForm(t, c, decode, keeps, path, query, ps)
  {
    hide Decoder, PyParse, CoreReads, Sort, Assemble, EncodeQuery, ParseQuery, PyLe, CoreOrdered, Unsplit, Query,
         Starts, Ascii;
    forall path, query, ps: seq<Parameter> | Ascii(query)
      ensures PyParse(t) == Some(Target(path, query)) <==> CoreReads(t, path, query)
      ensures multiset(ps) == multiset(ParseQuery(query, decode)) && CoreOrdered(ps) <==>
        ps == Sort(ParseQuery(query, decode), PyLe)
      ensures Assemble(Unsplit(path, keeps), EncodeQuery(ps)) ==
        (if keeps && Starts(path, "//") then "//" else "") + path + Query(ps)
    {
      CoreReadsExactly(t, path, query);
      SortExactly(ParseQuery(query, decode), ps);
      AssembledExactly(path, ps, decode, keeps);
    }
    if PyTarget(t, decode, keeps) == Some(c) {
      var target := PyParse(t).value;
      assert CoreForm(t, c, decode, keeps, target.path, target.query, Sort(ParseQuery(target.query, decode), PyLe));
    }
  }

  lemma WorkerFormExactly(t: string, c: string, decode: Decode)
    requires Decoder(decode) && Ascii(t)
    ensures TsTarget(t, decode) == Some(c) <==>
      exists path, query, ps :: WorkerForm(t, c, decode, path, query, ps)
  {
    hide Decoder, TsParse, WorkerReads, Sort, Assemble, EncodeQuery, ParseQuery, TsLe, WorkerOrdered, Query, Ascii;
    forall path, query, ps: seq<Parameter> | Ascii(query)
      ensures TsParse(t) == Some(Target(path, query)) <==> WorkerReads(t, path, query)
      ensures multiset(ps) == multiset(ParseQuery(query, decode)) && WorkerOrdered(ps) <==>
        ps == Sort(ParseQuery(query, decode), TsLe)
      ensures Assemble(path, EncodeQuery(ps)) == path + Query(ps)
    {
      WorkerReadsExactly(t, path, query);
      SortExactly(ParseQuery(query, decode), ps);
      AssembledExactly(path, ps, decode, false);
    }
    if TsTarget(t, decode) == Some(c) {
      var target := TsParse(t).value;
      assert WorkerForm(t, c, decode, target.path, target.query, Sort(ParseQuery(target.query, decode), TsLe));
    }
  }
}
