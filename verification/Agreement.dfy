/** When the core's and the worker's canonical forms of one request target are the same text. */
module Agreement {
  import opened Common
  import opened Percent
  import opened Signing
  import opened Sorting
  import opened Strings

  /** ASCII bytes, or only the question marks among them. */
  function Count(b: Bytes, all: bool): nat {
    if b == [] then 0 else (if b[0] < 128 && (all || b[0] == 63) then 1 else 0) + Count(b[1..], all)
  }

  lemma {:induction false} CountAscii(b: Bytes, all: bool)
    ensures Count(AsciiBytes(b), all) == Count(b, all)
  {
    if b != [] {
      CountAscii(b[1..], all);
      assert if b[0] < 128 then AsciiBytes(b)[1..] == AsciiBytes(b[1..]) else AsciiBytes(b) == AsciiBytes(b[1..]);
    }
  }

  function Weight(p: Parameter, all: bool): nat {
    Count(AsciiOf(p.0), all) + Count(AsciiOf(p.1), all)
  }

  function Total(ps: seq<Parameter>, all: bool): nat {
    if ps == [] then 0 else Weight(ps[0], all) + Total(ps[1..], all)
  }

  lemma {:induction false} InsertTotal(ps: seq<Parameter>, p: Parameter, le: (Parameter, Parameter) -> bool, all: bool)
    ensures Total(Insert(ps, p, le), all) == Total(ps, all) + Weight(p, all)
  {
    if ps != [] && !le(p, ps[0]) {
      InsertTotal(ps[1..], p, le, all);
    } else {
      assert ([p] + ps)[1..] == ps;
    }
  }

  lemma {:induction false} SortTotal(ps: seq<Parameter>, le: (Parameter, Parameter) -> bool, all: bool)
    ensures Total(Sort(ps, le), all) == Total(ps, all)
  {
    if ps != [] {
      SortTotal(ps[1..], le, all);
      InsertTotal(Sort(ps[1..], le), ps[0], le, all);
    }
  }

  /** The count of a part and of a query, taken before decoding to text. */
  function PartCount(part: string, all: bool): nat
    requires Ascii(part)
  {
    var i := Find(part, '=');
    PartOf(part, 0, i);
    Count(Unquote(part[..i]), all) +
    if i < |part| then PartOf(part, i + 1, |part|); Count(Unquote(part[i + 1..]), all) else 0
  }

  function QueryCount(query: string, all: bool): nat
    requires Ascii(query)
    decreases |query|
  {
    var i := Find(query, '&');
    PartOf(query, 0, i);
    PartCount(query[..i], all) +
    if i < |query| then PartOf(query, i + 1, |query|); QueryCount(query[i + 1..], all) else 0
  }

  lemma PartWeight(part: string, decode: Decode, all: bool)
    requires Decoder(decode) && Ascii(part)
    ensures Weight(Parameterise(part, decode), all) == PartCount(part, all)
  {
    hide Unquote, Count;
    var i := Find(part, '=');
    PartOf(part, 0, i);
    CountAscii(Unquote(part[..i]), all);
    if i < |part| {
      PartOf(part, i + 1, |part|);
      CountAscii(Unquote(part[i + 1..]), all);
    } else {
      DecodeNothing(decode, all);
    }
  }

  lemma DecodeNothing(decode: Decode, all: bool)
    requires Decoder(decode)
    ensures Count(AsciiOf(decode([])), all) == 0
  {
    assert AsciiBytes([]) == [];
  }

  lemma EmptyPart(all: bool)
    ensures PartCount("", all) == 0
  {
  }

  lemma SplitFirst(query: string)
    ensures var i, parts := Find(query, '&'), Split(query, '&');
      && parts[0] == query[..i]
      && (i < |query| ==> parts[1..] == Split(query[i + 1..], '&'))
      && (i == |query| ==> parts[1..] == [])
  {
    hide Find, Without;
    var i := Find(query, '&');
    if i == |query| { assert query[..i] == query; }
  }

  lemma AsciiHalves(s: string, c: char)
    requires Ascii(s)
    ensures var i := Find(s, c); Ascii(s[..i]) && (i < |s| ==> Ascii(s[i + 1..]))
  {
    hide Find, Without;
  }

  /** Parsing a query is parsing its first part and then the rest. */
  lemma ParseFirst(query: string, decode: Decode)
    requires Ascii(query)
    ensures var i := Find(query, '&');
      && Ascii(query[..i]) && (i < |query| ==> Ascii(query[i + 1..]))
      && ParseQuery(query, decode) == (if query[..i] == "" then [] else [Parameterise(query[..i], decode)]) +
        (if i < |query| then ParseQuery(query[i + 1..], decode) else [])
  {
    hide Parameterise, Ascii, Find, Split, Without;
    SplitFirst(query);
    AsciiHalves(query, '&');
    SplitAscii(query, '&');
    var i := Find(query, '&');
    if i < |query| { SplitAscii(query[i + 1..], '&'); }
    var parts := Split(query, '&');
    assert ParseQuery(query, decode) == ParameteriseAll(parts, decode);
    assert i == |query| ==> ParameteriseAll(parts[1..], decode) == [];
  }

  lemma {:induction false} QueryTotal(query: string, decode: Decode, all: bool)
    requires Decoder(decode) && Ascii(query)
    ensures Total(ParseQuery(query, decode), all) == QueryCount(query, all)
    decreases |query|
  {
    hide PartCount, Parameterise, Weight, Decoder, ParseQuery, Find;
    ParseFirst(query, decode);
    var i := Find(query, '&');
    var part := query[..i];
    PartWeight(part, decode, all);
    EmptyPart(all);
    var tail := if i < |query| then ParseQuery(query[i + 1..], decode) else [];
    if i < |query| { QueryTotal(query[i + 1..], decode, all); }
    if part == "" {
      assert [] + tail == tail;
    } else {
      assert ([Parameterise(part, decode)] + tail)[1..] == tail;
    }
  }

  lemma {:induction false} TabsApart(a: string, b: string)
    ensures RemoveTabs(a + b) == RemoveTabs(a) + RemoveTabs(b)
  {
    if a == "" {
      assert a + b == b;
    } else {
      TabsApart(a[1..], b);
      TabsFirst(a[0], a[1..]);
      TabsFirst(a[0], a[1..] + b);
      hide RemoveTabs;
      assert a == [a[0]] + a[1..] && a + b == [a[0]] + (a[1..] + b);
    }
  }

  lemma TabsFirst(c: char, s: string)
    ensures RemoveTabs([c] + s) == (if c == '\t' then "" else [c]) + RemoveTabs(s)
  {
    assert ([c] + s)[1..] == s;
  }

  /** Removing tabs before decoding loses at least the tabs, and no question mark. */
  predicate TabsLose(s: string)
    requires Ascii(s)
  {
    TabsRemoved(s);
    var r := RemoveTabs(s);
    && Count(Unquote(s), true) >= Count(Unquote(r), true) + (|s| - |r|)
    && Count(Unquote(s), false) <= Count(Unquote(r), false)
  }

  predicate Escape(s: string) {
    |s| >= 3 && s[0] == '%' && HexValue(s[1]) >= 0 && HexValue(s[2]) >= 0
  }

  lemma {:induction false} UnquoteTabs(s: string)
    requires Ascii(s)
    ensures TabsLose(s)
    decreases |s|
  {
    hide TabsLose, Escape;
    if s == "" {
      NoTabs();
    } else if Escape(s) {
      EscapeStep(s);
      UnquoteTabs(s[3..]);
    } else {
      PlainStep(s);
      UnquoteTabs(s[1..]);
    }
  }

  lemma NoTabs()
    ensures TabsLose("")
  {
  }

  lemma EscapeStep(s: string)
    requires Ascii(s) && Escape(s)
    ensures |s| >= 3 && Ascii(s[3..]) && (TabsLose(s[3..]) ==> TabsLose(s))
  {
    hide HexValue;
    PartOf(s, 3, |s|);
    TabsRemoved(s);
    EscapeKept(s);
  }

  lemma EscapeKept(s: string)
    requires Escape(s)
    ensures Escape(RemoveTabs(s)) && RemoveTabs(s)[..3] == s[..3] && RemoveTabs(s)[3..] == RemoveTabs(s[3..])
  {
    var r := RemoveTabs(s);
    assert s[1..][1..] == s[2..] && s[2..][1..] == s[3..];
    assert RemoveTabs(s[1..]) == [s[1]] + RemoveTabs(s[2..]) && RemoveTabs(s[2..]) == [s[2]] + RemoveTabs(s[3..]);
    assert r[1] == s[1] && r[2] == s[2] && r[3..] == RemoveTabs(s[3..]);
  }

  lemma PlainStep(s: string)
    requires Ascii(s) && s != "" && !Escape(s)
    ensures Ascii(s[1..]) && (TabsLose(s[1..]) ==> TabsLose(s))
  {
    PartOf(s, 1, |s|);
    TabsRemoved(s);
    var r, t := RemoveTabs(s), RemoveTabs(s[1..]);
    if s[0] == '\t' {
      assert r == t;
    } else {
      assert r[1..] == t;
      UnquoteMade(r);
      hide HexValue, RemoveTabs;
    }
  }

  /** Decoding a character with what follows never counts more than decoding it apart, and finds no fewer marks. */
  lemma UnquoteMade(r: string)
    requires Ascii(r) && r != ""
    ensures Ascii(r[1..])
    ensures Count(Unquote(r), true) <= 1 + Count(Unquote(r[1..]), true)
    ensures Count(Unquote(r), false) >= (if r[0] == '?' then 1 else 0) + Count(Unquote(r[1..]), false)
  {
    PartOf(r, 1, |r|);
    if Escape(r) {
      PartOf(r, 2, |r|);
      PartOf(r, 3, |r|);
      assert r[1..][1..] == r[2..] && r[2..][1..] == r[3..];
      var u := Unquote(r[3..]);
      assert Unquote(r[2..]) == [r[2] as byte] + u && Unquote(r[1..]) == [r[1] as byte] + Unquote(r[2..]);
    }
  }

  /** The same holds part by part, since tabs are no separators. */
  lemma PartTabs(part: string)
    requires Ascii(part)
    ensures Ascii(RemoveTabs(part))
    ensures PartCount(part, true) >= PartCount(RemoveTabs(part), true) + (|part| - |RemoveTabs(part)|)
    ensures PartCount(part, false) <= PartCount(RemoveTabs(part), false)
  {
    hide Count, Unquote, RemoveTabs, Find, Without, Ascii;
    TabsRemoved(part);
    Halves(part, '=');
    AsciiHalves(part, '=');
    var i := Find(part, '=');
    UnquoteTabs(part[..i]);
    if i < |part| { UnquoteTabs(part[i + 1..]); }
  }

  lemma Halves(s: string, c: char)
    requires c != '\t'
    ensures var r := RemoveTabs(s); var i, j := Find(s, c), Find(r, c);
      && r[..j] == RemoveTabs(s[..i]) && (j < |r| <==> i < |s|)
      && (i < |s| ==> r[j + 1..] == RemoveTabs(s[i + 1..]))
  {
    hide Without, RemoveTabs;
    var i := Find(s, c);
    if i < |s| {
      var a, b := s[..i], s[i + 1..];
      HalvesFound(a, c, b);
      assert s == a + [c] + b;
    } else {
      assert s[..i] == s;
      TabsRemoved(s);
      FindAt(RemoveTabs(s), c, "");
    }
  }

  lemma HalvesFound(a: string, c: char, b: string)
    requires c != '\t' && Without(a, c)
    ensures var r, i := RemoveTabs(a + [c] + b), |RemoveTabs(a)|;
      i < |r| && Find(r, c) == i && r[..i] == RemoveTabs(a) && r[i + 1..] == RemoveTabs(b)
  {
    TabsRemoved(a);
    TabsApart(a, [c] + b);
    assert a + [c] + b == a + ([c] + b) && ([c] + b)[1..] == b;
    assert RemoveTabs([c] + b) == [c] + RemoveTabs(b);
    var x, y := RemoveTabs(a), RemoveTabs(b);
    FindAt(x, c, y);
    hide Find, Without, RemoveTabs;
    assert x + ([c] + y) == x + [c] + y;
  }

  lemma {:induction false} QueryTabs(query: string)
    requires Ascii(query)
    ensures Ascii(RemoveTabs(query))
    ensures QueryCount(query, true) >= QueryCount(RemoveTabs(query), true) + (|query| - |RemoveTabs(query)|)
    ensures QueryCount(query, false) <= QueryCount(RemoveTabs(query), false)
    decreases |query|
  {
    hide PartCount, RemoveTabs, Without;
    TabsRemoved(query);
    Halves(query, '&');
    var i := Find(query, '&');
    PartOf(query, 0, i);
    PartTabs(query[..i]);
    if i < |query| {
      PartOf(query, i + 1, |query|);
      QueryTabs(query[i + 1..]);
    }
  }

  /** A question mark before a query is one question mark more in its parameters. */
  lemma QuestionMore(query: string)
    requires Ascii(query)
    ensures Ascii("?" + query) && QueryCount("?" + query, false) == 1 + QueryCount(query, false)
  {
    hide PartCount, Find, Without;
    QuestionFind(query, '&');
    AsciiHalves(query, '&');
    QuestionPart(query[..Find(query, '&')]);
  }

  lemma QuestionFind(s: string, c: char)
    requires c != '?'
    ensures var q, i := "?" + s, Find(s, c);
      Find(q, c) == i + 1 && q[..i + 1] == "?" + s[..i] && (i < |s| ==> q[i + 2..] == s[i + 1..])
  {
    assert ("?" + s)[1..] == s;
  }

  lemma QuestionPart(part: string)
    requires Ascii(part)
    ensures Ascii("?" + part) && PartCount("?" + part, false) == 1 + PartCount(part, false)
  {
    QuestionFind(part, '=');
    var i := Find(part, '=');
    PartOf(part, 0, i);
    assert ("?" + part[..i])[1..] == part[..i];
    assert Unquote("?" + part[..i]) == [63] + Unquote(part[..i]);
  }

  /** The query begins with a second question mark. */
  predicate LeadingQuestion(t: string) {
    SplitTarget(t).query != "" && SplitTarget(t).query[0] == '?'
  }

  /**
   Both sides take a target apart in the same way: there is no raw tab, the query does not begin with a question mark,
   and two slashes at the start are two more than Python drops and puts back.
   */
  predicate Alike(t: string, keeps: bool) {
    Without(t, '\t') && !LeadingQuestion(t) && (TwoSlashes(t) ==> keeps && TwoSlashes(t[2..]))
  }

  /** The core's path and query of a target the worker accepts. */
  lemma PyParts(t: string)
    requires Ascii(t) && TsParse(t).Some? && PyParse(t).Some?
    ensures PyParse(t).value.query == RemoveTabs(SplitTarget(t).query)
    ensures Without(t, '\t') ==> var path := SplitTarget(t).path;
      PyParse(t).value.path == if path == "//" then "/" else if TwoSlashes(t) then path[2..] else path
  {
    hide PyParse, TsParse, RemoveTabs, Without, SplitTarget, Ascii, Find;
    ParsedRest(t);
    TabsRemoved(t);
    SplitTabs(t);
    if TwoSlashes(RemoveTabs(t)) { AfterTwo(RemoveTabs(t)); }
    TwoExactly(t);
  }

  lemma ParsedRest(t: string)
    requires Ascii(t) && TsParse(t).Some? && PyParse(t).Some?
    ensures PyParse(t) == Some(RootIfEmpty(SplitTarget(Rest(t)))) && t != "" && t[0] == '/'
  {
    hide SplitTarget, Ascii, RootIfEmpty;
    var rest := Rest(t);
    assert rest[..|rest|] == rest;
  }

  /** Removing tabs first or splitting first makes no difference to the query. */
  lemma SplitTabs(t: string)
    ensures SplitTarget(RemoveTabs(t)).query == RemoveTabs(SplitTarget(t).query)
  {
    Halves(t, '?');
  }

  lemma TwoExactly(t: string)
    ensures SplitTarget(t).path == "//" ==> TwoSlashes(t)
    ensures t != "" && t[0] == '/' ==> SplitTarget(t).path != ""
  {
  }

  /** Splitting what follows two slashes. */
  lemma AfterTwo(r: string)
    requires TwoSlashes(r)
    ensures SplitTarget(r[2..]).query == SplitTarget(r).query
    ensures TwoSlashes(SplitTarget(r).path) && SplitTarget(r[2..]).path == SplitTarget(r).path[2..]
    ensures |SplitTarget(r).path| == 2 ==> SplitTarget(r).path == "//"
  {
    var s := r[2..];
    assert r[1..][1..] == s;
    var i := Find(s, '?');
    assert Find(r, '?') == i + 2;
    hide Find, Without;
    assert r[..i + 2][2..] == s[..i];
    if i < |s| { assert r[i + 3..] == s[i + 1..]; }
  }

  /** A raw tab in the query, or a question mark before it, leaves the two sides with different parameters. */
  lemma DifferentParameters(q: string, decode: Decode)
    requires Decoder(decode) && Ascii(q) && (!Without(q, '\t') || (q != "" && q[0] == '?'))
    ensures var r := if q != "" && q[0] == '?' then q[1..] else q;
      && Ascii(RemoveTabs(q)) && Ascii(r)
      && Sort(ParseQuery(RemoveTabs(q), decode), PyLe) != Sort(ParseQuery(r, decode), TsLe)
  {
    TabsRemoved(q);
    var leading := q != "" && q[0] == '?';
    var r := if leading then q[1..] else q;
    if leading { PartOf(q, 1, |q|); }
    var ps, qs := ParseQuery(RemoveTabs(q), decode), ParseQuery(r, decode);
    CountsDiffer(q);
    hide Ascii, Decoder, ParseQuery, Sort, PyLe, TsLe, QueryCount, Total, RemoveTabs, Without;
    QueryTotal(RemoveTabs(q), decode, !leading);
    QueryTotal(r, decode, !leading);
    SortTotal(ps, PyLe, !leading);
    SortTotal(qs, TsLe, !leading);
  }

  lemma CountsDiffer(q: string)
    requires Ascii(q)
    ensures Ascii(RemoveTabs(q))
    ensures q != "" && q[0] == '?' ==> Ascii(q[1..]) && QueryCount(RemoveTabs(q), false) > QueryCount(q[1..], false)
    ensures !Without(q, '\t') ==> QueryCount(RemoveTabs(q), true) < QueryCount(q, true)
  {
    TabsRemoved(q);
    Shortened(q);
    QueryTabs(q);
    if q != "" && q[0] == '?' {
      PartOf(q, 1, |q|);
      TabsRemoved(q[1..]);
      QueryTabs(q[1..]);
      QuestionMore(RemoveTabs(q[1..]));
      hide QueryCount;
      assert RemoveTabs(q) == "?" + RemoveTabs(q[1..]);
    }
  }

  lemma {:induction false} Shortened(s: string)
    ensures |RemoveTabs(s)| == |s| ==> RemoveTabs(s) == s
  {
    if s != "" {
      Shortened(s[1..]);
      TabsRemoved(s[1..]);
      assert s == [s[0]] + s[1..];
    }
  }

  /** Two slashes that Python drops from a path come back only before two more. */
  lemma SlashesBack(path: string, keeps: bool)
    requires TwoSlashes(path)
    ensures Unsplit(if path == "//" then "/" else path[2..], keeps) == path <==> keeps && TwoSlashes(path[2..])
  {
    assert path == "//" + path[2..];
    if path == "//" { assert path[2..] == ""; }
  }

  lemma SlashPlaces(t: string)
    ensures TwoSlashes(t) <==> TwoSlashes(SplitTarget(t).path)
    ensures TwoSlashes(t) ==> (TwoSlashes(t[2..]) <==> TwoSlashes(SplitTarget(t).path[2..]))
  {
    SlashPlace(t);
    if TwoSlashes(t) {
      AfterTwo(t);
      SlashPlace(t[2..]);
    }
  }

  lemma SlashPlace(t: string)
    ensures TwoSlashes(t) <==> TwoSlashes(SplitTarget(t).path)
  {
    var i := Find(t, '?');
    if TwoSlashes(t) { assert i > 1; }
  }

  /** Without tabs the paths of the two sides agree under the slash condition; with a tab in the path they differ. */
  lemma SamePath(t: string, keeps: bool)
    requires Ascii(t) && TsParse(t).Some? && PyParse(t).Some?
    ensures !Without(SplitTarget(t).path, '\t') ==> Unsplit(PyParse(t).value.path, keeps) != TsParse(t).value.path
    ensures Without(t, '\t') ==>
      (Unsplit(PyParse(t).value.path, keeps) == TsParse(t).value.path <==>
        (TwoSlashes(t) ==> keeps && TwoSlashes(t[2..])))
  {
    PyParts(t);
    PyPath(t);
    SlashPlaces(t);
    var path := SplitTarget(t).path;
    assert TsParse(t).value.path == path;
    UnsplitPathLike(PyParse(t).value.path, keeps);
    hide PyParse, TsParse, Ascii, SplitTarget, TwoSlashes, PathLike, Without;
    if TwoSlashes(path) {
      SlashesBack(path, keeps);
    } else {
      NoSlashes(path, keeps);
    }
  }

  lemma NoSlashes(path: string, keeps: bool)
    requires !TwoSlashes(path)
    ensures Unsplit(path, keeps) == path && path != "//"
  {
  }

  /**
   The two implementations agree on a target the worker accepts exactly when both take it apart in the same way and no
   two parameters are ordered differently by code point and by UTF-16 unit.
   */
  lemma TargetsAgree(t: string, decode: Decode, keeps: bool)
    requires Decoder(decode) && Ascii(t) && TsTarget(t, decode).Some?
    ensures PyTarget(t, decode, keeps) == TsTarget(t, decode) <==>
      Alike(t, keeps) && OrdersAgree(ParseQuery(SplitTarget(t).query, decode))
  {
    hide EncodeQuery, ParseQuery, Decoder, PyLe, TsLe, Assemble, Sort, OrdersAgree, PyParse, PathLike, Unsplit,
         SplitTarget, Ascii, TwoSlashes;
    var q := SplitTarget(t).query;
    TabsRemoved(q);
    TabPlaces(t);
    if PyParse(t).None? {
      RefusedAuthority(t, keeps);
    } else {
      PyParts(t);
      SamePath(t, keeps);
      PyPath(t);
      TsPath(t);
      var py, ts := PyParse(t).value, TsParse(t).value;
      UnsplitPathLike(py.path, keeps);
      var ps, qs := ParseQuery(py.query, decode), ParseQuery(ts.query, decode);
      SameAssembly(Unsplit(py.path, keeps), Sort(ps, PyLe), ts.path, Sort(qs, TsLe), decode);
      if !Without(q, '\t') || LeadingQuestion(t) {
        DifferentParameters(q, decode);
      } else {
        SameSort(ps);
      }
    }
  }

  lemma TabPlaces(t: string)
    ensures Without(t, '\t') <==> Without(SplitTarget(t).path, '\t') && Without(SplitTarget(t).query, '\t')
  {
    var i := Find(t, '?');
    if Without(t[..i], '\t') && i < |t| && Without(t[i + 1..], '\t') {
      assert t == t[..i] + ['?'] + t[i + 1..];
    }
  }

  lemma RefusedAuthority(t: string, keeps: bool)
    requires Ascii(t) && TsParse(t).Some? && PyParse(t).None?
    ensures !Alike(t, keeps)
  {
    if Without(t, '\t') { ParseOf(t); }
  }

  /** A request the worker signs has the core's message exactly under the agreement condition on its target. */
  lemma MessagesAgree(f: Fields, decode: Decode, keeps: bool)
    requires Decoder(decode) && Ascii(f.target) && TsMessage(f, decode).Some?
    ensures PyMessage(f, decode, keeps) == TsMessage(f, decode) <==>
      Alike(f.target, keeps) && OrdersAgree(ParseQuery(SplitTarget(f.target).query, decode))
  {
    hide Upper, Lower, Join, PyTarget, TsTarget, ParseQuery, FieldsValid, Decoder, OrdersAgree, Alike, SplitTarget,
         Parts, TsParts;
    TargetsAgree(f.target, decode, keeps);
    TargetOneLine(f.target, decode, keeps);
    var c, d := PyTarget(f.target, decode, keeps), TsTarget(f.target, decode).value;
    PartsOneLine(f, d);
    if c.Some? {
      PartsOneLine(f, c.value);
      PartsEqual(f, c.value, f, d);
      JoinInjective(Parts(f, c.value), Parts(f, d), '\n');
    }
  }

  /** A second question mark, a raw tab and two slashes each give the core another form than the worker's. */
  lemma DifferentForms(decode: Decode, keeps: bool)
    requires Decoder(decode)
    ensures Ascii("/p??a") && TsTarget("/p??a", decode).Some?
    ensures PyTarget("/p??a", decode, keeps) != TsTarget("/p??a", decode)
    ensures Ascii("/p?\ta") && TsTarget("/p?\ta", decode).Some?
    ensures PyTarget("/p?\ta", decode, keeps) != TsTarget("/p?\ta", decode)
    ensures Ascii("///x") && TsTarget("///x", decode).Some?
    ensures PyTarget("///x", decode, keeps) != TsTarget("///x", decode)
  {
    QuestionTarget(keeps);
    TabTarget(keeps);
    hide Decoder, OrdersAgree, TsParse, Alike, EncodeQuery, ParseQuery, Sort, Assemble, PyTarget, Ascii;
    TargetsAgree("/p??a", decode, keeps);
    TargetsAgree("/p?\ta", decode, keeps);
    TargetsAgree("///x", decode, keeps);
  }

  lemma QuestionTarget(keeps: bool)
    ensures Ascii("/p??a") && TsParse("/p??a").Some? && !Alike("/p??a", keeps)
  {
    FindAt("/p", '?', "?a");
    assert "/p??a" == "/p" + ['?'] + "?a";
  }

  lemma TabTarget(keeps: bool)
    ensures Ascii("/p?\ta") && TsParse("/p?\ta").Some? && !Alike("/p?\ta", keeps)
    ensures Ascii("///x") && TsParse("///x").Some? && !Alike("///x", keeps)
  {
    hide SplitTarget;
    assert "/p?\ta"[3] == '\t' && "///x"[2..] == "/x";
  }

  /** U+E000 and U+10000, percent-coded in an ASCII target, are put in opposite orders. */
  const OPPOSITE: seq<Parameter> := [([0xE000], []), ([0x1_0000], [])]

  lemma OrdersDiffer(decode: Decode, keeps: bool)
    requires Decoder(decode)
    ensures var t := "/p?" + EncodeQuery(OPPOSITE);
      Ascii(t) && Alike(t, keeps) && TsTarget(t, decode).Some? && PyTarget(t, decode, keeps) != TsTarget(t, decode)
  {
    var t := "/p?" + EncodeQuery(OPPOSITE);
    OppositeTarget(t, decode, keeps);
    hide EncodeQuery, ParseQuery, Decoder, OrdersAgree, PyTarget, Sort, Alike, SplitTarget, TsParse, Ascii;
    TargetsAgree(t, decode, keeps);
  }

  lemma OppositeTarget(t: string, decode: Decode, keeps: bool)
    requires Decoder(decode) && t == "/p?" + EncodeQuery(OPPOSITE)
    ensures Ascii(t) && Alike(t, keeps) && TsParse(t).Some? && !OrdersAgree(ParseQuery(SplitTarget(t).query, decode))
  {
    hide ParseQuery, Decoder, OrdersAgree, PyLe, TsLe, EncodeQuery, SplitTarget;
    var q := EncodeQuery(OPPOSITE);
    QueryRoundTrip(OPPOSITE, decode);
    OppositeOrders(OPPOSITE[0], OPPOSITE[1]);
    Disagree(OPPOSITE, OPPOSITE[0], OPPOSITE[1]);
    AssembleSplit("/p", OPPOSITE, decode);
    assert t == Assemble("/p", q);
  }

  lemma Disagree(ps: seq<Parameter>, p: Parameter, q: Parameter)
    requires p in ps && q in ps && PyLe(p, q) && !TsLe(p, q)
    ensures !OrdersAgree(ps)
  {
    hide PyLe, TsLe;
  }

  lemma OppositeOrders(p: Parameter, q: Parameter)
    requires p == ([0xE000], []) && q == ([0x1_0000], [])
    ensures PyLe(p, q) && !TsLe(p, q)
  {
    hide Units;
    UnitsOf();
    assert Utf16(p.0)[0] == 0xE000 && Utf16(q.0)[0] == 0xD800;
    assert p.0[0] == 0xE000 && q.0[0] == 0x1_0000;
  }

  lemma UnitsOf()
    ensures Units(0xE000) == [0xE000] && Units(0x1_0000) == [0xD800, 0xDC00]
  {
  }
}
