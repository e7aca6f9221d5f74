/**
 The canonical request message, computed by the core in Python and by the worker in TypeScript: request targets
 with sorted, re-encoded query parameters, joined with the other fields by newlines.
 */
module Signing {
  import opened Common
  import opened Percent
  import opened Sorting
  import opened Strings

  type Parameter = (Text, Text)

  type Decode = Bytes -> Text

  /** One `name=value` part of a query; without an equals sign the value is empty. */
  function Parameterise(part: string, decode: Decode): Parameter
    requires Ascii(part)
  {
    var i := Find(part, '=');
    (decode(Unquote(part[..i])), if i < |part| then decode(Unquote(part[i + 1..])) else decode([]))
  }

  function ParameteriseAll(parts: seq<string>, decode: Decode): seq<Parameter>
    requires forall p :: p in parts ==> Ascii(p)
  {
    if parts == [] then []
    else (if parts[0] == "" then [] else [Parameterise(parts[0], decode)]) + ParameteriseAll(parts[1..], decode)
  }

  /** The query parser both sides use: empty parts are skipped. */
  function ParseQuery(query: string, decode: Decode): seq<Parameter>
    requires Ascii(query)
  {
    SplitAscii(query, '&');
    ParameteriseAll(Split(query, '&'), decode)
  }

  lemma {:induction false} SplitAscii(s: string, c: char)
    requires Ascii(s)
    ensures forall p :: p in Split(s, c) ==> Ascii(p)
    decreases |s|
  {
    var i := Find(s, c);
    assert Ascii(s[..i]);
    if i < |s| {
      SplitAscii(s[i + 1..], c);
      assert Split(s, c) == [s[..i]] + Split(s[i + 1..], c);
    }
  }

  function EncodeParameter(p: Parameter): string {
    Quote(EncodeText(p.0)) + "=" + Quote(EncodeText(p.1))
  }

  function EncodeAll(ps: seq<Parameter>): seq<string> {
    if ps == [] then [] else [EncodeParameter(ps[0])] + EncodeAll(ps[1..])
  }

  function EncodeQuery(ps: seq<Parameter>): string {
    Join(EncodeAll(ps), '&')
  }

  /** ASCII without line breaks, tabs or the delimiters of a target. */
  predicate Plain(s: string) {
    Ascii(s) && Without(s, '\n') && Without(s, '\r') && Without(s, '\t') && Without(s, '#') && Without(s, '?')
  }

  lemma ParameterRoundTrip(p: Parameter, decode: Decode)
    requires Decoder(decode)
    ensures var s := EncodeParameter(p);
      && Plain(s) && s != "" && Without(s, '&')
      && Parameterise(s, decode) == p
  {
    hide EncodeText, Quote, Unquote;
    var k, v := Quote(EncodeText(p.0)), Quote(EncodeText(p.1));
    QuoteChars(EncodeText(p.0));
    QuoteChars(EncodeText(p.1));
    UnquoteQuote(EncodeText(p.0));
    UnquoteQuote(EncodeText(p.1));
    assert Without(k, '=');
    assert EncodeParameter(p) == k + ['='] + v;
    FindAt(k, '=', v);
  }

  lemma {:induction false} AllRoundTrip(ps: seq<Parameter>, decode: Decode)
    requires Decoder(decode)
    ensures |EncodeAll(ps)| == |ps|
    ensures forall s :: s in EncodeAll(ps) ==> Ascii(s)
    ensures forall s :: s in EncodeAll(ps) ==> Plain(s) && Without(s, '&')
    ensures ParameteriseAll(EncodeAll(ps), decode) == ps
  {
    hide EncodeParameter, Parameterise;
    if ps != [] {
      ParameterRoundTrip(ps[0], decode);
      AllRoundTrip(ps[1..], decode);
      assert EncodeAll(ps)[1..] == EncodeAll(ps[1..]);
      assert ps == [ps[0]] + ps[1..];
    }
  }

  lemma {:induction false} JoinAscii(parts: seq<string>, c: char)
    requires c as int < 128 && forall p :: p in parts ==> Ascii(p)
    ensures Ascii(Join(parts, c))
  {
    if |parts| > 1 {
      JoinAscii(parts[1..], c);
      assert parts[0] in parts;
    } else if |parts| == 1 {
      assert parts[0] in parts;
    }
  }

  /** Parsing undoes encoding, and an encoded query contains none of the delimiters of a target. */
  lemma QueryRoundTrip(ps: seq<Parameter>, decode: Decode)
    requires Decoder(decode)
    ensures var q := EncodeQuery(ps);
      && Plain(q) && ParseQuery(q, decode) == ps && (q == "" <==> ps == [])
  {
    hide EncodeParameter, Parameterise;
    AllRoundTrip(ps, decode);
    var parts := EncodeAll(ps);
    JoinAscii(parts, '&');
    JoinWithout(parts, '&', '\n');
    JoinWithout(parts, '&', '#');
    JoinWithout(parts, '&', '?');
    JoinWithout(parts, '&', '\t');
    JoinWithout(parts, '&', '\r');
    if ps == [] {
      assert Split("", '&') == [""];
    } else {
      SplitJoin(parts, '&');
      ParameterRoundTrip(ps[0], decode);
      assert parts[0] == EncodeParameter(ps[0]) && parts[0] != "";
    }
  }

  /** Python compares strings by code point, a browser by UTF-16 code unit; both compare names first. */
  predicate PyLe(p: Parameter, q: Parameter) {
    if p.0 == q.0 then LexLe(p.1, q.1) else LexLe(p.0, q.0)
  }

  predicate TsLe(p: Parameter, q: Parameter) {
    if p.0 == q.0 then LexLe(Utf16(p.1), Utf16(q.1)) else LexLe(Utf16(p.0), Utf16(q.0))
  }

  lemma Orders()
    ensures TotalOrder(PyLe) && TotalOrder(TsLe)
  {
    forall p: Parameter, q: Parameter
      ensures (PyLe(p, q) || PyLe(q, p)) && (PyLe(p, q) && PyLe(q, p) ==> p == q)
      ensures (TsLe(p, q) || TsLe(q, p)) && (TsLe(p, q) && TsLe(q, p) ==> p == q)
    {
      PairTotal(p, q);
    }
    forall p: Parameter, q: Parameter, r: Parameter
      ensures PyLe(p, q) && PyLe(q, r) ==> PyLe(p, r)
      ensures TsLe(p, q) && TsLe(q, r) ==> TsLe(p, r)
    {
      PairTrans(p, q, r);
    }
  }

  lemma PairTotal(p: Parameter, q: Parameter)
    ensures (PyLe(p, q) || PyLe(q, p)) && (PyLe(p, q) && PyLe(q, p) ==> p == q)
    ensures (TsLe(p, q) || TsLe(q, p)) && (TsLe(p, q) && TsLe(q, p) ==> p == q)
  {
    hide LexLe, Utf16;
    LexTotal(p.0, q.0);
    LexTotal(p.1, q.1);
    LexTotal(Utf16(p.0), Utf16(q.0));
    LexTotal(Utf16(p.1), Utf16(q.1));
    if Utf16(p.0) == Utf16(q.0) { Utf16Injective(p.0, q.0); }
    if Utf16(p.1) == Utf16(q.1) { Utf16Injective(p.1, q.1); }
  }

  lemma PairTrans(p: Parameter, q: Parameter, r: Parameter)
    ensures PyLe(p, q) && PyLe(q, r) ==> PyLe(p, r)
    ensures TsLe(p, q) && TsLe(q, r) ==> TsLe(p, r)
  {
    hide LexLe, Utf16;
    if PyLe(p, q) && PyLe(q, r) {
      if p.0 == q.0 == r.0 { LexTrans(p.1, q.1, r.1); }
      if p.0 != q.0 && q.0 != r.0 {
        LexTrans(p.0, q.0, r.0);
        LexTotal(p.0, q.0);
      }
    }
    if TsLe(p, q) && TsLe(q, r) {
      if p.0 == q.0 == r.0 { LexTrans(Utf16(p.1), Utf16(q.1), Utf16(r.1)); }
      if p.0 != q.0 && q.0 != r.0 {
        LexTrans(Utf16(p.0), Utf16(q.0), Utf16(r.0));
        LexTotal(Utf16(p.0), Utf16(q.0));
        if Utf16(p.0) == Utf16(q.0) { Utf16Injective(p.0, q.0); }
      }
    }
  }

  function RemoveTabs(s: string): string {
    if s == "" then "" else (if s[0] == '\t' then "" else [s[0]]) + RemoveTabs(s[1..])
  }

  lemma {:induction false} TabsRemoved(s: string)
    ensures Without(RemoveTabs(s), '\t') && (Without(s, '\t') <==> RemoveTabs(s) == s) && |RemoveTabs(s)| <= |s|
    ensures forall c :: Without(s, c) ==> Without(RemoveTabs(s), c)
    ensures Ascii(s) ==> Ascii(RemoveTabs(s))
    ensures s != "" && s[0] != '\t' ==> RemoveTabs(s) != "" && RemoveTabs(s)[0] == s[0]
  {
    if s != "" {
      TabsRemoved(s[1..]);
      assert s == [s[0]] + s[1..];
      forall c
        ensures Without(s, c) ==> s[0] != c && Without(s[1..], c)
      {
        assert forall i :: 0 <= i < |s| - 1 ==> s[1..][i] == s[i + 1];
      }
    }
  }

  datatype Target = Target(path: string, query: string)

  /** A part of a text has no other characters than the text. */
  lemma PartOf(s: string, lo: nat, hi: nat)
    requires lo <= hi <= |s|
    ensures Ascii(s) ==> Ascii(s[lo..hi])
    ensures forall c :: Without(s, c) ==> Without(s[lo..hi], c)
  {
    assert forall i :: 0 <= i < hi - lo ==> s[lo..hi][i] == s[lo + i];
  }

  function SplitTarget(s: string): (t: Target)
    ensures Without(t.path, '?') && |t.path| <= |s|
    ensures Ascii(s) ==> Ascii(t.path) && Ascii(t.query)
    ensures forall c :: Without(s, c) ==> Without(t.path, c) && Without(t.query, c)
    ensures s != "" && s[0] == '/' ==> t.path != "" && t.path[0] == '/'
    ensures s == "" || s[0] == '?' ==> t.path == ""
  {
    var i := Find(s, '?');
    PartOf(s, 0, i);
    if i < |s| then
      PartOf(s, i + 1, |s|);
      Target(s[..i], s[i + 1..])
    else Target(s[..i], "")
  }

  function Assemble(path: string, query: string): string {
    if query == "" then path else path + ['?'] + query
  }

  predicate LineFree(t: string) {
    t != "" && Without(t, '\n') && Without(t, '\r')
  }

  /** Two slashes at the start would begin an authority. */
  predicate TwoSlashes(t: string) {
    |t| >= 2 && t[0] == '/' && t[1] == '/'
  }

  /** Whether what follows two slashes begins with an empty authority. */
  predicate NoAuthority(rest: string) {
    rest == "" || rest[0] == '/' || rest[0] == '?' || rest[0] == '#'
  }

  /** What is left of a target after its tabs and the two slashes of an authority. */
  function Rest(t: string): (rest: string)
    ensures Without(rest, '\t') && (Ascii(t) ==> Ascii(rest))
    ensures forall c :: Without(t, c) ==> Without(rest, c)
    ensures t != "" && t[0] == '/' && !TwoSlashes(RemoveTabs(t)) ==> rest != "" && rest[0] == '/'
  {
    TabsRemoved(t);
    var url := RemoveTabs(t);
    if TwoSlashes(url) then
      PartOf(url, 2, |url|);
      url[2..]
    else url
  }

  /**
   The core's parse of a target: tabs and an empty authority dropped, any other authority refused, an empty fragment
   dropped, any other refused; an empty path becomes the root.
   */
  function PyParse(t: string): (r: Option<Target>)
    requires Ascii(t)
    ensures r.Some? ==> Ascii(r.value.query) && Ascii(r.value.path)
  {
    hide Ascii, Find, SplitTarget;
    var rest := Rest(t);
    var i := Find(rest, '#');
    if !LineFree(t) || t[0] != '/' || (TwoSlashes(RemoveTabs(t)) && !NoAuthority(rest)) || i + 1 < |rest| then None
    else
      PartOf(rest, 0, i);
      Some(RootIfEmpty(SplitTarget(rest[..i])))
  }

  function RootIfEmpty(target: Target): (r: Target)
    ensures Ascii(target.path) ==> Ascii(r.path)
  {
    if target.path == "" then target.(path := "/") else target
  }

  /** urlunsplit; from 3.12.4 on Python keeps an empty authority before a path of two slashes. */
  function Unsplit(path: string, keeps: bool): string {
    if keeps && TwoSlashes(path) then "//" + path else path
  }

  /** The worker's parse: any hash sign is refused, and the query parser drops one leading question mark. */
  function TsParse(t: string): (r: Option<Target>)
    requires Ascii(t)
    ensures r.Some? ==> Ascii(r.value.query) && Ascii(r.value.path)
  {
    if !LineFree(t) || t[0] != '/' || !Without(t, '#') then None
    else
      var target := SplitTarget(t);
      Some(if target.query != "" && target.query[0] == '?' then target.(query := target.query[1..]) else target)
  }

  function PyTarget(t: string, decode: Decode, keeps: bool): Option<string>
    requires Ascii(t)
  {
    match PyParse(t)
    case None => None
    case Some(target) =>
      Some(Assemble(Unsplit(target.path, keeps), EncodeQuery(Sort(ParseQuery(target.query, decode), PyLe))))
  }

  function TsTarget(t: string, decode: Decode): Option<string>
    requires Ascii(t)
  {
    match TsParse(t)
    case None => None
    case Some(target) => Some(Assemble(target.path, EncodeQuery(Sort(ParseQuery(target.query, decode), TsLe))))
  }

  /** A path and an encoded query can be read back from the assembled target. */
  lemma AssembleSplit(path: string, ps: seq<Parameter>, decode: Decode)
    requires Decoder(decode) && Without(path, '?')
    ensures var t := SplitTarget(Assemble(path, EncodeQuery(ps)));
      t.path == path && Ascii(t.query) && ParseQuery(t.query, decode) == ps && (t.query == "" || t.query[0] != '?')
  {
    hide EncodeQuery, ParseQuery;
    QueryRoundTrip(ps, decode);
    FindAt(path, '?', EncodeQuery(ps));
  }

  lemma AssembledChars(path: string, ps: seq<Parameter>, decode: Decode, c: char)
    requires Decoder(decode) && Ascii(path)
    ensures Ascii(Assemble(path, EncodeQuery(ps)))
    ensures c in {'\n', '\r', '\t', '#'} && Without(path, c) ==> Without(Assemble(path, EncodeQuery(ps)), c)
  {
    hide EncodeQuery, ParseQuery;
    QueryRoundTrip(ps, decode);
  }

  /** What the path of an accepted target looks like; the worker may keep tabs. */
  predicate PathLike(path: string) {
    Ascii(path) && path != "" && path[0] == '/' && Without(path, '\n') && Without(path, '\r') && Without(path, '#') &&
      Without(path, '?')
  }

  lemma PyPath(t: string)
    requires Ascii(t) && PyParse(t).Some?
    ensures PathLike(PyParse(t).value.path) && Without(PyParse(t).value.path, '\t')
  {
    hide Ascii, SplitTarget;
    var rest := Rest(t);
    var i := Find(rest, '#');
    PartOf(rest, 0, i);
    hide Without, Find, Rest;
    assert !TwoSlashes(RemoveTabs(t)) ==> rest[..i] != "" && rest[..i][0] == '/';
  }

  lemma TsPath(t: string)
    requires Ascii(t) && TsParse(t).Some?
    ensures PathLike(TsParse(t).value.path)
  {
    var path := TsParse(t).value.path;
    assert forall k :: 0 <= k < |path| ==> path[k] == t[k];
  }

  /** An assembled target is read back by the worker into the path and the parameters it was made of. */
  lemma TsReparsed(path: string, ps: seq<Parameter>, decode: Decode)
    requires Decoder(decode) && PathLike(path)
    ensures var c := Assemble(path, EncodeQuery(ps));
      && Ascii(c) && TsParse(c) == Some(SplitTarget(c)) && SplitTarget(c).path == path
      && ParseQuery(SplitTarget(c).query, decode) == ps
  {
    hide EncodeQuery, ParseQuery, Decoder, SplitTarget;
    AssembleSplit(path, ps, decode);
    AssembledChars(path, ps, decode, '\n');
    AssembledChars(path, ps, decode, '\r');
    AssembledChars(path, ps, decode, '#');
  }

  /** A target without fragment or tabs is parsed after its empty authority, if it has one. */
  lemma ParseOf(u: string)
    requires Ascii(u) && LineFree(u) && u[0] == '/' && Without(u, '#') && Without(u, '\t')
    ensures var rest := if TwoSlashes(u) then u[2..] else u;
      PyParse(u) == if TwoSlashes(u) && !NoAuthority(rest) then None else Some(RootIfEmpty(SplitTarget(rest)))
  {
    hide SplitTarget, RootIfEmpty, Ascii;
    TabsRemoved(u);
    var rest := Rest(u);
    assert rest[..|rest|] == rest;
  }

  /** An assembled target may be parsed. */
  lemma AssembledParses(path: string, ps: seq<Parameter>, decode: Decode)
    requires Decoder(decode) && PathLike(path) && Without(path, '\t')
    ensures var c := Assemble(path, EncodeQuery(ps));
      && Ascii(c) && LineFree(c) && c[0] == '/' && Without(c, '#') && Without(c, '\t') &&
        TwoSlashes(c) == TwoSlashes(path)
  {
    hide EncodeQuery, Decoder, Ascii;
    AssembledChars(path, ps, decode, '\n');
    AssembledChars(path, ps, decode, '\r');
    AssembledChars(path, ps, decode, '\t');
    AssembledChars(path, ps, decode, '#');
  }

  lemma Guarded(c: string)
    requires Ascii(c) && LineFree(c) && c[0] == '/' && Without(c, '#') && Without(c, '\t')
    ensures var u := "//" + c;
      Ascii(u) && LineFree(u) && Without(u, '#') && Without(u, '\t') && u[2..] == c
  {
  }

  /** The core reads back a path that does not begin an authority, and any path after an empty one. */
  predicate Reparses(c: string, path: string, ps: seq<Parameter>, decode: Decode) {
    && Ascii(c) && Ascii("//" + c) && SplitTarget(c).path == path && ParseQuery(SplitTarget(c).query, decode) == ps
    && (!TwoSlashes(path) ==> PyParse(c) == Some(SplitTarget(c)))
    && PyParse("//" + c) == Some(SplitTarget(c))
  }

  lemma PyReparsed(path: string, ps: seq<Parameter>, decode: Decode)
    requires Decoder(decode) && PathLike(path) && Without(path, '\t')
    ensures Reparses(Assemble(path, EncodeQuery(ps)), path, ps, decode)
  {
    hide EncodeQuery, ParseQuery, Decoder, SplitTarget, PyParse, Assemble, Ascii, LineFree;
    var c := Assemble(path, EncodeQuery(ps));
    AssembleSplit(path, ps, decode);
    AssembledParses(path, ps, decode);
    ParseOf(c);
    Guarded(c);
    ParseOf("//" + c);
  }

  /** An unguarded path of two slashes is not read back. */
  lemma NotReparsed(path: string, ps: seq<Parameter>, decode: Decode)
    requires Decoder(decode) && PathLike(path) && Without(path, '\t') && TwoSlashes(path)
    ensures var c := Assemble(path, EncodeQuery(ps));
      Ascii(c) && (PyParse(c).Some? ==> |PyParse(c).value.path| < |path|)
  {
    var q := EncodeQuery(ps);
    var c := Assemble(path, q);
    AssembledParses(path, ps, decode);
    hide EncodeQuery, ParseQuery, Decoder, PyParse, Ascii, LineFree;
    ParseOf(c);
    assert c[2..] == Assemble(path[2..], q);
    PartOf(path, 2, |path|);
    FindAt(path[2..], '?', q);
  }

  predicate ReadBack(c: string, path: string, ps: seq<Parameter>, decode: Decode)
    requires Ascii(c)
  {
    PyParse(c).Some? && PyParse(c).value.path == path && ParseQuery(PyParse(c).value.query, decode) == ps
  }

  /**
   The parser reads back the path and the sorted parameters of a canonical target, and canonicalising again changes
   nothing, exactly unless the path begins with two slashes and Python does not guard it.
   */
  lemma PyIdempotent(t: string, decode: Decode, keeps: bool)
    requires Decoder(decode) && Ascii(t) && PyTarget(t, decode, keeps).Some?
    ensures var c := PyTarget(t, decode, keeps).value; var path := PyParse(t).value.path;
      && Ascii(c)
      && (PyTarget(c, decode, keeps) == Some(c) <==> keeps || !TwoSlashes(path))
      && (keeps || !TwoSlashes(path) ==>
        ReadBack(c, path, Sort(ParseQuery(PyParse(t).value.query, decode), PyLe), decode))
  {
    hide EncodeQuery, ParseQuery, Decoder, SplitTarget, PyParse, PyLe, Sort, PathLike, TwoSlashes;
    var target := PyParse(t).value;
    var ps := ParseQuery(target.query, decode);
    var sorted := Sort(ps, PyLe);
    PyPath(t);
    PyReparsed(target.path, sorted, decode);
    OrderedAlready(ps);
    var c := PyTarget(t, decode, keeps).value;
    if keeps && TwoSlashes(target.path) {
      assert c == "//" + Assemble(target.path, EncodeQuery(sorted));
      AssembledParses(target.path, sorted, decode);
      Guarded(Assemble(target.path, EncodeQuery(sorted)));
    } else if TwoSlashes(target.path) {
      NotReparsed(target.path, sorted, decode);
      OtherPath(c, decode, target.path, sorted);
    }
  }

  lemma OrderedAlready(ps: seq<Parameter>)
    ensures Sort(Sort(ps, PyLe), PyLe) == Sort(ps, PyLe) && Sort(Sort(ps, TsLe), TsLe) == Sort(ps, TsLe)
  {
    hide PyLe, TsLe, Sort;
    Orders();
    SortEffect(ps, PyLe);
    SortEffect(ps, TsLe);
    SortCanonical(Sort(ps, PyLe), ps, PyLe);
    SortCanonical(Sort(ps, TsLe), ps, TsLe);
  }

  /** A target whose path comes out shorter is not its own canonical form. */
  lemma OtherPath(c: string, decode: Decode, path: string, sorted: seq<Parameter>)
    requires Decoder(decode) && Ascii(c) && PathLike(path) && c == Assemble(path, EncodeQuery(sorted))
    requires PyParse(c).Some? ==> |PyParse(c).value.path| < |path|
    ensures PyTarget(c, decode, false) != Some(c)
  {
    hide EncodeQuery, ParseQuery, Decoder, SplitTarget, PyParse, PyLe, Sort;
    if PyParse(c).Some? {
      PyPath(c);
      AssembleSplit(path, sorted, decode);
      AssembleSplit(PyParse(c).value.path, Sort(ParseQuery(PyParse(c).value.query, decode), PyLe), decode);
    }
  }

  lemma TsIdempotent(t: string, decode: Decode)
    requires Decoder(decode) && Ascii(t) && TsTarget(t, decode).Some?
    ensures var c := TsTarget(t, decode).value;
      && Ascii(c) && TsTarget(c, decode) == Some(c)
      && TsParse(c).value.path == TsParse(t).value.path
      && ParseQuery(TsParse(c).value.query, decode) == Sort(ParseQuery(TsParse(t).value.query, decode), TsLe)
  {
    hide EncodeQuery, ParseQuery, Decoder, SplitTarget, TsParse, TsLe, Assemble, Sort;
    var target := TsParse(t).value;
    var ps := ParseQuery(target.query, decode);
    TsPath(t);
    TsReparsed(target.path, Sort(ps, TsLe), decode);
    OrderedAlready(ps);
  }

  lemma UnsplitInjective(a: string, b: string, keeps: bool)
    ensures Unsplit(a, keeps) == Unsplit(b, keeps) <==> a == b
  {
    if keeps && TwoSlashes(a) { assert Unsplit(a, keeps)[2..] == a && Unsplit(a, keeps)[2] == '/'; }
    if keeps && TwoSlashes(b) { assert Unsplit(b, keeps)[2..] == b && Unsplit(b, keeps)[2] == '/'; }
    if keeps && TwoSlashes(a) && !TwoSlashes(b) { assert TwoSlashes(Unsplit(a, keeps)); }
    if keeps && TwoSlashes(b) && !TwoSlashes(a) { assert TwoSlashes(Unsplit(b, keeps)); }
  }

  lemma UnsplitPathLike(path: string, keeps: bool)
    requires PathLike(path)
    ensures PathLike(Unsplit(path, keeps))
    ensures forall c :: c != '/' && Without(path, c) ==> Without(Unsplit(path, keeps), c)
  {
  }

  /** Two assembled targets are equal exactly when paths and parameters are. */
  lemma SameAssembly(a: string, ps: seq<Parameter>, b: string, qs: seq<Parameter>, decode: Decode)
    requires Decoder(decode) && PathLike(a) && PathLike(b)
    ensures Assemble(a, EncodeQuery(ps)) == Assemble(b, EncodeQuery(qs)) <==> a == b && ps == qs
  {
    hide EncodeQuery, ParseQuery, Decoder, Assemble, SplitTarget;
    AssembleSplit(a, ps, decode);
    AssembleSplit(b, qs, decode);
  }

  /**
   Two targets have one canonical form exactly when they have the same path and the same parameters in any order:
   the form ignores the order of parameters and what parsing drops, and nothing else.
   */
  lemma PyCanonical(a: string, b: string, decode: Decode, keeps: bool)
    requires Decoder(decode) && Ascii(a) && Ascii(b) && PyTarget(a, decode, keeps).Some?
    requires PyTarget(b, decode, keeps).Some?
    ensures PyTarget(a, decode, keeps) == PyTarget(b, decode, keeps) <==>
      (PyParse(a).value.path == PyParse(b).value.path &&
       multiset(ParseQuery(PyParse(a).value.query, decode)) == multiset(ParseQuery(PyParse(b).value.query, decode)))
  {
    hide EncodeQuery, ParseQuery, Decoder, PyParse, PyLe, Assemble, Sort, PathLike, Unsplit;
    var x, y := PyParse(a).value, PyParse(b).value;
    var ps, qs := ParseQuery(x.query, decode), ParseQuery(y.query, decode);
    PyPath(a);
    PyPath(b);
    UnsplitPathLike(x.path, keeps);
    UnsplitPathLike(y.path, keeps);
    UnsplitInjective(x.path, y.path, keeps);
    SameAssembly(Unsplit(x.path, keeps), Sort(ps, PyLe), Unsplit(y.path, keeps), Sort(qs, PyLe), decode);
    Orders();
    SortCanonical(ps, qs, PyLe);
  }

  /**
   Two slashes before a target that begins with one change nothing, two slashes alone are the root, and two slashes
   before a host are refused. So the core reads ///x as /x.
   */
  lemma EmptyAuthority(t: string, decode: Decode, keeps: bool)
    requires Ascii(t)
    ensures Ascii("//" + t) && Ascii("//") && Ascii("/") && Ascii("///x") && Ascii("/x")
    ensures t != "" && t[0] == '/' && !TwoSlashes(RemoveTabs(t)) ==>
      PyTarget("//" + t, decode, keeps) == PyTarget(t, decode, keeps)
    ensures t != "" && t[0] != '\t' && !NoAuthority(t) ==> PyTarget("//" + t, decode, keeps) == None
    ensures PyTarget("//", decode, keeps) == PyTarget("/", decode, keeps)
    ensures PyTarget("///x", decode, keeps) == PyTarget("/x", decode, keeps)
  {
    hide ParseQuery, EncodeQuery, Sort, PyParse;
    AuthorityParse(t);
    AuthorityParse("/x");
    RootParse();
    assert "///x" == "//" + "/x";
  }

  lemma AuthorityParse(t: string)
    requires Ascii(t)
    ensures Ascii("//" + t)
    ensures t != "" && t[0] == '/' && !TwoSlashes(RemoveTabs(t)) ==> PyParse("//" + t) == PyParse(t)
    ensures t != "" && t[0] != '\t' && !NoAuthority(t) ==> PyParse("//" + t) == None
  {
    AuthorityRest(t);
    AuthorityLines(t);
    hide SplitTarget, RootIfEmpty, Find, Ascii, RemoveTabs, LineFree, Rest;
  }

  lemma AuthorityLines(t: string)
    ensures Ascii(t) ==> Ascii("//" + t)
    ensures t != "" ==> LineFree("//" + t) == LineFree(t)
  {
    if LineFree("//" + t) {
      PartOf("//" + t, 2, |t| + 2);
      assert ("//" + t)[2..] == t;
    }
  }

  lemma AuthorityRest(t: string)
    ensures var u := "//" + t;
      TwoSlashes(RemoveTabs(u)) && Rest(u) == RemoveTabs(t)
    ensures t != "" && t[0] != '\t' ==> RemoveTabs(t) != "" && RemoveTabs(t)[0] == t[0]
    ensures !TwoSlashes(RemoveTabs(t)) ==> Rest(t) == RemoveTabs(t)
  {
    var u := "//" + t;
    assert u[1..][1..] == t && u[1..] == "/" + t;
    assert RemoveTabs(u) == "/" + RemoveTabs("/" + t) == "//" + RemoveTabs(t);
    TabsRemoved(t);
  }

  lemma RootParse()
    ensures Ascii("//") && Ascii("/") && PyParse("//") == PyParse("/")
  {
    ParseOf("/");
    ParseOf("//");
    FindAt("/", '?', "");
    FindAt("", '?', "");
    assert "//"[2..] == "" && SplitTarget("/") == Target("/", "") && SplitTarget("") == Target("", "");
  }

  lemma TsCanonical(a: string, b: string, decode: Decode)
    requires Decoder(decode) && Ascii(a) && Ascii(b) && TsTarget(a, decode).Some? && TsTarget(b, decode).Some?
    ensures TsTarget(a, decode) == TsTarget(b, decode) <==>
      (TsParse(a).value.path == TsParse(b).value.path &&
       multiset(ParseQuery(TsParse(a).value.query, decode)) == multiset(ParseQuery(TsParse(b).value.query, decode)))
  {
    hide EncodeQuery, ParseQuery, Decoder, TsParse, TsLe, Assemble, Sort, PathLike;
    var x, y := TsParse(a).value, TsParse(b).value;
    var ps, qs := ParseQuery(x.query, decode), ParseQuery(y.query, decode);
    TsPath(a);
    TsPath(b);
    SameAssembly(x.path, Sort(ps, TsLe), y.path, Sort(qs, TsLe), decode);
    Orders();
    SortCanonical(ps, qs, TsLe);
  }

  /** No two of the parameters are put in different orders by the two comparisons. */
  predicate OrdersAgree(ps: seq<Parameter>) {
    forall p, q :: p in ps && q in ps ==> (PyLe(p, q) <==> TsLe(p, q))
  }

  lemma SameSort(ps: seq<Parameter>)
    ensures Sort(ps, PyLe) == Sort(ps, TsLe) <==> OrdersAgree(ps)
  {
    hide PyLe, TsLe, Sort;
    Orders();
    SortEffect(ps, PyLe);
    SortEffect(ps, TsLe);
    var a, b := Sort(ps, PyLe), Sort(ps, TsLe);
    forall p
      ensures p in ps <==> p in a
    {
      assert p in multiset(ps) <==> p in multiset(a);
    }
    if OrdersAgree(ps) {
      SortedUnique(a, b, TsLe);
    }
    if a == b {
      forall p, q | p in ps && q in ps
        ensures PyLe(p, q) <==> TsLe(p, q)
      {
        SameOrder(a, p, q);
      }
    }
  }

  lemma SameOrder(s: seq<Parameter>, p: Parameter, q: Parameter)
    requires p in s && q in s && Sorted(s, PyLe) && Sorted(s, TsLe) && TotalOrder(PyLe) && TotalOrder(TsLe)
    ensures PyLe(p, q) <==> TsLe(p, q)
  {
    hide PyLe, TsLe;
    var i :| 0 <= i < |s| && s[i] == p;
    var j :| 0 <= j < |s| && s[j] == q;
  }

  datatype Fields = Fields(
    keyId: string,
    verb: string,
    target: string,
    timestamp: string,
    nonce: string,
    bodyDigest: string,
    requestId: string,
    idempotencyKey: string,
    owner: string)

  function Upper(s: string): (r: string)
    ensures |r| == |s|
  {
    if s == "" then "" else [if 'a' <= s[0] <= 'z' then (s[0] as int - 32) as char else s[0]] + Upper(s[1..])
  }

  function Lower(s: string): (r: string)
    ensures |r| == |s|
  {
    if s == "" then "" else [if 'A' <= s[0] <= 'Z' then (s[0] as int + 32) as char else s[0]] + Lower(s[1..])
  }

  predicate OneLine(s: string) {
    Without(s, '\n') && Without(s, '\r')
  }

  /** The core's lines of a message, target already canonical. */
  function Parts(f: Fields, target: string): seq<string> {
    ["v2", f.keyId, Upper(f.verb), target, f.timestamp, f.nonce, Lower(f.bodyDigest), f.requestId, f.idempotencyKey,
      f.owner]
  }

  /** The worker's lines. */
  function TsParts(f: Fields, target: string): seq<string> {
    var verb, digest := Upper(f.verb), Lower(f.bodyDigest);
    ["v2", f.keyId, verb, target, f.timestamp, f.nonce, digest, f.requestId, f.idempotencyKey, f.owner]
  }

  predicate FieldsValid(f: Fields) {
    && f.keyId != "" && OneLine(f.keyId) && f.verb != "" && OneLine(f.verb) && f.timestamp != "" && OneLine(f.timestamp)
    && f.nonce != "" && OneLine(f.nonce) && OneLine(f.bodyDigest) && IsDigest(Lower(f.bodyDigest))
    && f.requestId != "" && OneLine(f.requestId) && OneLine(f.idempotencyKey) && f.owner != "" && OneLine(f.owner)
  }

  function PyMessage(f: Fields, decode: Decode, keeps: bool): Option<string>
    requires Ascii(f.target)
  {
    if !FieldsValid(f) || PyTarget(f.target, decode, keeps).None? then None
    else Some(Join(Parts(f, PyTarget(f.target, decode, keeps).value), '\n'))
  }

  function TsMessage(f: Fields, decode: Decode): Option<string>
    requires Ascii(f.target)
  {
    if !FieldsValid(f) || TsTarget(f.target, decode).None? then None
    else Some(Join(TsParts(f, TsTarget(f.target, decode).value), '\n'))
  }

  lemma {:induction false} CaseKeepsLines(s: string)
    requires Without(s, '\n')
    ensures Without(Upper(s), '\n') && Without(Lower(s), '\n')
  {
    if s != "" {
      assert forall i :: 0 <= i < |s| - 1 ==> s[1..][i] == s[i + 1];
      CaseKeepsLines(s[1..]);
    }
  }

  lemma PartsOneLine(f: Fields, target: string)
    requires FieldsValid(f) && Without(target, '\n')
    ensures |Parts(f, target)| == 10 && forall p :: p in Parts(f, target) ==> Without(p, '\n')
    ensures TsParts(f, target) == Parts(f, target)
  {
    hide Upper, Lower, IsDigest;
    CaseKeepsLines(f.verb);
    CaseKeepsLines(f.bodyDigest);
    assert Without("v2", '\n');
  }

  lemma TargetOneLine(t: string, decode: Decode, keeps: bool)
    requires Decoder(decode) && Ascii(t)
    ensures PyTarget(t, decode, keeps).Some? ==> Without(PyTarget(t, decode, keeps).value, '\n')
    ensures TsTarget(t, decode).Some? ==> Without(TsTarget(t, decode).value, '\n')
  {
    hide EncodeQuery, ParseQuery, Decoder, PyLe, TsLe, Sort, PyParse, TsParse, Unsplit;
    if PyTarget(t, decode, keeps).Some? {
      var path := PyParse(t).value.path;
      PyPath(t);
      UnsplitPathLike(path, keeps);
      AssembledChars(Unsplit(path, keeps), Sort(ParseQuery(PyParse(t).value.query, decode), PyLe), decode, '\n');
    }
    if TsTarget(t, decode).Some? {
      TsPath(t);
      AssembledChars(TsParse(t).value.path, Sort(ParseQuery(TsParse(t).value.query, decode), TsLe), decode, '\n');
    }
  }

  /**
   The signing message determines the request: two messages are equal exactly when every field is, up to the case
   of method and digest, what parsing the target drops, and the order of query parameters.
   */
  lemma MessageInjective(f: Fields, g: Fields, decode: Decode, keeps: bool)
    requires Decoder(decode) && Ascii(f.target) && Ascii(g.target)
    requires PyMessage(f, decode, keeps).Some? && PyMessage(g, decode, keeps).Some?
    ensures PyMessage(f, decode, keeps) == PyMessage(g, decode, keeps) <==>
      && f.keyId == g.keyId && Upper(f.verb) == Upper(g.verb) && f.timestamp == g.timestamp && f.nonce == g.nonce
      && Lower(f.bodyDigest) == Lower(g.bodyDigest) && f.requestId == g.requestId
      && f.idempotencyKey == g.idempotencyKey && f.owner == g.owner
      && PyParse(f.target).value.path == PyParse(g.target).value.path
      && multiset(ParseQuery(PyParse(f.target).value.query, decode)) ==
        multiset(ParseQuery(PyParse(g.target).value.query, decode))
  {
    hide Upper, Lower, Join, PyTarget, PyParse, ParseQuery, FieldsValid, Decoder;
    PyTargetParses(f.target, decode, keeps);
    PyTargetParses(g.target, decode, keeps);
    var c, d := PyTarget(f.target, decode, keeps).value, PyTarget(g.target, decode, keeps).value;
    TargetOneLine(f.target, decode, keeps);
    TargetOneLine(g.target, decode, keeps);
    PartsOneLine(f, c);
    PartsOneLine(g, d);
    JoinInjective(Parts(f, c), Parts(g, d), '\n');
    PyCanonical(f.target, g.target, decode, keeps);
    PartsEqual(f, c, g, d);
  }

  lemma PyTargetParses(t: string, decode: Decode, keeps: bool)
    requires Ascii(t)
    ensures PyTarget(t, decode, keeps).Some? <==> PyParse(t).Some?
  {
  }

  lemma PartsEqual(f: Fields, c: string, g: Fields, d: string)
    ensures Parts(f, c) == Parts(g, d) <==>
      && f.keyId == g.keyId && Upper(f.verb) == Upper(g.verb) && c == d && f.timestamp == g.timestamp &&
        f.nonce == g.nonce
      && Lower(f.bodyDigest) == Lower(g.bodyDigest) && f.requestId == g.requestId
      && f.idempotencyKey == g.idempotencyKey && f.owner == g.owner
  {
    hide Upper, Lower;
    var a, b := Parts(f, c), Parts(g, d);
    if a == b {
      assert a[1] == b[1] && a[2] == b[2] && a[3] == b[3] && a[4] == b[4] && a[5] == b[5] && a[6] == b[6];
      assert a[7] == b[7] && a[8] == b[8] && a[9] == b[9];
    }
  }
}
