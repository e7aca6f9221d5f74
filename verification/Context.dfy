/** The bounded project context sent with a job, and the check that a frozen one bounds to itself. */
module Context {
  import opened Common
  import opened Text

  /** A UTF-16 code unit, which is what a browser counts and cuts. */
  newtype Unit = x: int | 0 <= x < 0x1_0000

  type Units = seq<Unit>

  /** Text.Space as a predicate on units; no white space lies above the basic plane. */
  predicate Blank(u: Unit) {
    u in {0x20, 0x09, 0x0A, 0x0D, 0x0B, 0x0C, 0xA0, 0x1680, 0x2028, 0x2029, 0x202F, 0x205F, 0x3000, 0xFEFF} ||
      0x2000 <= u <= 0x200A
  }

  function TrimUnits(s: Units): Units {
    TrimBy(s, Blank)
  }

  datatype Item =
    | Requirement(text: Units, status: Units)
    | Milestone(title: Units, milestoneStatus: Units, target: Option<Units>)
    | BoardItem(boardTitle: Units, detail: Units, column: Units)
    | Note(noteText: Units, createdAt: Units)

  datatype Header = Header(projectId: Units, name: Units, description: Units, status: Units)

  datatype ProjectContext = ProjectContext(
    header: Header,
    requirements: seq<Item>,
    milestones: seq<Item>,
    board: seq<Item>,
    notes: seq<Item>)

  /** One element of a raw list; its fields in the order of the item it becomes. */
  datatype RawItem = RawItem(a: FieldOf<Units>, b: FieldOf<Units>, c: FieldOf<Units>) | NotAnObject

  datatype Raw = Raw(
    projectId: FieldOf<Units>, name: FieldOf<Units>, description: FieldOf<Units>, status: FieldOf<Units>,
    requirements: seq<RawItem>, milestones: seq<RawItem>, board: seq<RawItem>, notes: seq<RawItem>)

  const MAX_CONTEXT_BYTES := 8 * 1024

  function Cut(s: Units, max: nat): (r: Units)
    ensures |r| <= max
  {
    if |TrimUnits(s)| > max then TrimUnits(s)[..max] else TrimUnits(s)
  }

  function TextOf(f: FieldOf<Units>, max: nat): Units {
    if f.Text? then Cut(f.text, max) else []
  }

  function OrNull(s: Units): Option<Units> {
    if s == [] then None else Some(s)
  }

  datatype Kind = RequirementKind | MilestoneKind | BoardKind | NoteKind

  function Clean(k: Kind, r: RawItem): Item
    requires r.RawItem?
  {
    match k
    case RequirementKind => Requirement(TextOf(r.a, 500), TextOf(r.b, 32))
    case MilestoneKind => Milestone(TextOf(r.a, 256), TextOf(r.b, 32), OrNull(TextOf(r.c, 10)))
    case BoardKind => BoardItem(TextOf(r.a, 256), TextOf(r.b, 500), TextOf(r.c, 32))
    case NoteKind => Note(TextOf(r.a, 500), TextOf(r.b, 40))
  }

  function Max(k: Kind): nat {
    match k
    case RequirementKind => 100
    case MilestoneKind => 50
    case BoardKind => 100
    case NoteKind => 50
  }

  function ListOf(raw: Raw, k: Kind): seq<RawItem> {
    var all := match k
      case RequirementKind => raw.requirements
      case MilestoneKind => raw.milestones
      case BoardKind => raw.board
      case NoteKind => raw.notes;
    if |all| > Max(k) then all[..Max(k)] else all
  }

  function CleanAll(k: Kind, items: seq<RawItem>): seq<Item>
    requires forall r :: r in items ==> r.RawItem?
  {
    seq(|items|, i requires 0 <= i < |items| => Clean(k, items[i]))
  }

  function HeaderOf(raw: Raw): Header {
    Header(TextOf(raw.projectId, 128), TextOf(raw.name, 256), TextOf(raw.description, 2000), TextOf(raw.status, 32))
  }

  predicate Readable(raw: Raw) {
    forall k: Kind, r :: r in ListOf(raw, k) ==> r.RawItem?
  }

  /** Every candidate in the fixed list order. */
  function Candidates(raw: Raw): seq<Item>
    requires Readable(raw)
  {
    CleanAll(RequirementKind, ListOf(raw, RequirementKind)) + CleanAll(MilestoneKind, ListOf(raw, MilestoneKind)) +
    CleanAll(BoardKind, ListOf(raw, BoardKind)) + CleanAll(NoteKind, ListOf(raw, NoteKind))
  }

  function Push(c: ProjectContext, x: Item): ProjectContext {
    match x
    case Requirement(_, _) => c.(requirements := c.requirements + [x])
    case Milestone(_, _, _) => c.(milestones := c.milestones + [x])
    case BoardItem(_, _, _) => c.(board := c.board + [x])
    case Note(_, _) => c.(notes := c.notes + [x])
  }

  function Build(h: Header, items: seq<Item>): ProjectContext {
    if items == [] then ProjectContext(h, [], [], [], []) else Push(Build(h, items[..|items| - 1]), items[|items| - 1])
  }

  predicate Leading(u: Unit) {
    0xD800 <= u < 0xDC00
  }

  predicate Trailing(u: Unit) {
    0xDC00 <= u < 0xE000
  }

  /** The bytes of a unit that is no half of a pair: short and long escapes, and one to three bytes of UTF-8. */
  function UnitWidth(u: Unit): nat {
    if u == 0x22 || u == 0x5C || u == 8 || u == 9 || u == 10 || u == 12 || u == 13 then 2
    else if u < 0x20 || Leading(u) || Trailing(u) then 6
    else if u < 0x80 then 1 else if u < 0x800 then 2 else 3
  }

  /** The bytes between the quotes of a JSON string, as JSON.stringify writes it and UTF-8 encodes it. */
  function BodyWidth(s: Units): nat {
    if s == [] then 0
    else if Leading(s[0]) && |s| > 1 && Trailing(s[1]) then 4 + BodyWidth(s[2..])
    else UnitWidth(s[0]) + BodyWidth(s[1..])
  }

  function Width(s: Units): nat {
    2 + BodyWidth(s)
  }

  /** Encoded sizes: the width of the texts, punctuation and fixed keys. */
  function ItemSize(x: Item): nat {
    match x
    case Requirement(t, s) => 19 + Width(t) + Width(s)
    case Milestone(t, s, d) => 34 + Width(t) + Width(s) + (if d.Some? then Width(d.value) else 4)
    case BoardItem(t, d, c) => 30 + Width(t) + Width(d) + Width(c)
    case Note(t, d) => 22 + Width(t) + Width(d)
  }

  function ListSize(items: seq<Item>): nat {
    if items == [] then 2
    else ListSize(items[..|items| - 1]) + ItemSize(items[|items| - 1]) + (if |items| > 1 then 1 else 0)
  }

  const FIXED_BYTES := 132

  function Size(c: ProjectContext): nat {
    FIXED_BYTES + Width(c.header.projectId) + Width(c.header.name) + Width(c.header.description) +
    Width(c.header.status) +
    ListSize(c.requirements) + ListSize(c.milestones) + ListSize(c.board) + ListSize(c.notes)
  }

  predicate Fits(c: ProjectContext) {
    Size(c) <= MAX_CONTEXT_BYTES
  }

  lemma ListGrows(items: seq<Item>, x: Item)
    ensures ListSize(items + [x]) > ListSize(items)
  {
    assert (items + [x])[..|items|] == items;
  }

  lemma PushGrows(c: ProjectContext, x: Item)
    ensures Size(Push(c, x)) > Size(c)
  {
    hide ListSize;
    ListGrows(c.requirements, x);
    ListGrows(c.milestones, x);
    ListGrows(c.board, x);
    ListGrows(c.notes, x);
  }

  /** n candidates fit and no more do. */
  predicate Longest(h: Header, all: seq<Item>, n: nat) {
    && n <= |all|
    && Fits(Build(h, all[..n]))
    && forall m :: n < m <= |all| ==> !Fits(Build(h, all[..m]))
  }

  lemma {:induction false} LongerIsLarger(h: Header, all: seq<Item>, n: nat, m: nat)
    requires n <= m <= |all|
    ensures Size(Build(h, all[..n])) <= Size(Build(h, all[..m]))
  {
    hide Size, Push;
    if n < m {
      LongerIsLarger(h, all, n, m - 1);
      assert all[..m][..m - 1] == all[..m - 1];
      PushGrows(Build(h, all[..m - 1]), all[m - 1]);
    }
  }

  /** c is what bounding raw gives. */
  ghost predicate Bounded(raw: Raw, c: ProjectContext) {
    Readable(raw) &&
    exists n: nat :: n <= |Candidates(raw)| && c == Build(HeaderOf(raw), Candidates(raw)[..n]) && Keeps(raw, n)
  }

  ghost predicate Keeps(raw: Raw, n: nat)
    requires Readable(raw)
  {
    if Fits(Build(HeaderOf(raw), [])) then Longest(HeaderOf(raw), Candidates(raw), n) else n == 0
  }

  /**
   boundedProjectContext keeps the longest prefix of the candidates that fits, whenever the header fits; when even
   the header is too long it is returned all the same, with no candidate, and so over the limit.
   */
  method BoundedProjectContext(raw: Raw) returns (r: Option<ProjectContext>)
    ensures r.Some? <==> Readable(raw)
    ensures r.Some? ==> Bounded(raw, r.value)
    ensures r.Some? ==> (Fits(r.value) <==> Fits(Build(HeaderOf(raw), [])))
  {
    hide Size, Clean, ListOf, Push;
    var kept := 0;
    if exists k: Kind, x :: x in ListOf(raw, k) && !x.RawItem? { return None; }
    var all, h := Candidates(raw), HeaderOf(raw);
    var context := ProjectContext(h, [], [], [], []);
    while kept < |all|
      invariant 0 <= kept <= |all| && context == Build(h, all[..kept])
      invariant kept > 0 ==> Fits(context)
    {
      var longer := Push(context, all[kept]);
      assert all[..kept + 1][..kept] == all[..kept];
      assert longer == Build(h, all[..kept + 1]);
      forall m | kept < m <= |all|
        ensures Size(longer) <= Size(Build(h, all[..m]))
      {
        LongerIsLarger(h, all, kept + 1, m);
      }
      LongerIsLarger(h, all, 0, kept);
      LongerIsLarger(h, all, 0, kept + 1);
      if !Fits(longer) {
        assert Keeps(raw, kept);
        return Some(context);
      }
      context, kept := longer, kept + 1;
    }
    LongerIsLarger(h, all, 0, kept);
    assert Keeps(raw, kept);
    r := Some(context);
  }

  /** A bounded context written out and read back. */
  function AsRawItem(x: Item): RawItem {
    match x
    case Requirement(t, s) => RawItem(Text(t), Text(s), Null)
    case Milestone(t, s, d) => RawItem(Text(t), Text(s), if d.Some? then Text(d.value) else Null)
    case BoardItem(t, d, c) => RawItem(Text(t), Text(d), Text(c))
    case Note(t, d) => RawItem(Text(t), Text(d), Null)
  }

  function AsRawItems(items: seq<Item>): (r: seq<RawItem>)
    ensures |r| == |items| && forall i :: 0 <= i < |r| ==> r[i] == AsRawItem(items[i])
  {
    seq(|items|, i requires 0 <= i < |items| => AsRawItem(items[i]))
  }

  function AsRaw(c: ProjectContext): Raw {
    Raw(Text(c.header.projectId), Text(c.header.name), Text(c.header.description), Text(c.header.status),
        AsRawItems(c.requirements), AsRawItems(c.milestones), AsRawItems(c.board), AsRawItems(c.notes))
  }

  /** No field of the item was cut directly after a space. */
  predicate UncutItem(x: Item) {
    match x
    case Requirement(t, s) => TrimUnits(t) == t && TrimUnits(s) == s
    case Milestone(t, s, d) => TrimUnits(t) == t && TrimUnits(s) == s && (d.Some? ==> TrimUnits(d.value) == d.value)
    case BoardItem(t, d, c) => TrimUnits(t) == t && TrimUnits(d) == d && TrimUnits(c) == c
    case Note(t, d) => TrimUnits(t) == t && TrimUnits(d) == d
  }

  predicate UncutHeader(h: Header) {
    TrimUnits(h.projectId) == h.projectId && TrimUnits(h.name) == h.name && TrimUnits(h.description) == h.description &&
    TrimUnits(h.status) == h.status
  }

  function Flatten(c: ProjectContext): seq<Item> {
    c.requirements + c.milestones + c.board + c.notes
  }

  predicate Uncut(c: ProjectContext) {
    UncutHeader(c.header) && forall x :: x in Flatten(c) ==> UncutItem(x)
  }

  lemma CutTwice(f: FieldOf<Units>, max: nat)
    ensures TextOf(Text(TextOf(f, max)), max) == TextOf(f, max) <==> TrimUnits(TextOf(f, max)) == TextOf(f, max)
  {
    TrimmedBy(TextOf(f, max), Blank);
    hide TrimBy, Blank;
  }

  lemma CleanTwice(k: Kind, r: RawItem)
    requires r.RawItem?
    ensures Clean(k, AsRawItem(Clean(k, r))) == Clean(k, r) <==> UncutItem(Clean(k, r))
  {
    match k
    case RequirementKind => TwiceRequirement(r);
    case MilestoneKind => TwiceMilestone(r);
    case BoardKind => TwiceBoard(r);
    case NoteKind => TwiceNote(r);
  }

  lemma TwiceRequirement(r: RawItem)
    requires r.RawItem?
    ensures Clean(RequirementKind, AsRawItem(Clean(RequirementKind, r))) == Clean(RequirementKind, r) <==>
      UncutItem(Clean(RequirementKind, r))
  {
    hide TextOf, TrimUnits;
    CutTwice(r.a, 500);
    CutTwice(r.b, 32);
  }

  lemma TwiceMilestone(r: RawItem)
    requires r.RawItem?
    ensures Clean(MilestoneKind, AsRawItem(Clean(MilestoneKind, r))) == Clean(MilestoneKind, r) <==>
      UncutItem(Clean(MilestoneKind, r))
  {
    hide TextOf, TrimUnits;
    CutTwice(r.a, 256);
    CutTwice(r.b, 32);
    CutTwice(r.c, 10);
    CutEmpty();
  }

  lemma TwiceBoard(r: RawItem)
    requires r.RawItem?
    ensures Clean(BoardKind, AsRawItem(Clean(BoardKind, r))) == Clean(BoardKind, r) <==> UncutItem(Clean(BoardKind, r))
  {
    hide TextOf, TrimUnits;
    CutTwice(r.a, 256);
    CutTwice(r.b, 500);
    CutTwice(r.c, 32);
  }

  lemma TwiceNote(r: RawItem)
    requires r.RawItem?
    ensures Clean(NoteKind, AsRawItem(Clean(NoteKind, r))) == Clean(NoteKind, r) <==> UncutItem(Clean(NoteKind, r))
  {
    hide TextOf, TrimUnits;
    CutTwice(r.a, 500);
    CutTwice(r.b, 40);
  }

  lemma CutEmpty()
    ensures TextOf(Null, 10) == [] && TrimUnits([]) == []
  {
    TrimmedBy([], Blank);
  }

  lemma HeaderTwice(raw: Raw)
    ensures HeaderOf(AsRaw(Build(HeaderOf(raw), []))) == HeaderOf(raw) <==> UncutHeader(HeaderOf(raw))
  {
    hide TextOf;
    CutTwice(raw.projectId, 128);
    CutTwice(raw.name, 256);
    CutTwice(raw.description, 2000);
    CutTwice(raw.status, 32);
  }

  function KindOf(x: Item): nat {
    match x
    case Requirement(_, _) => 0
    case Milestone(_, _, _) => 1
    case BoardItem(_, _, _) => 2
    case Note(_, _) => 3
  }

  predicate Pure(items: seq<Item>, k: nat) {
    forall i :: 0 <= i < |items| ==> KindOf(items[i]) == k
  }

  predicate Tidy(c: ProjectContext) {
    Pure(c.requirements, 0) && Pure(c.milestones, 1) && Pure(c.board, 2) && Pure(c.notes, 3)
  }

  predicate Ordered(items: seq<Item>) {
    forall i, j :: 0 <= i < j < |items| ==> KindOf(items[i]) <= KindOf(items[j])
  }

  /** Building from ordered items loses neither their order nor their kinds. */
  lemma {:induction false} BuildOrdered(h: Header, items: seq<Item>)
    requires Ordered(items)
    ensures var c := Build(h, items); c.header == h && Tidy(c) && Flatten(c) == items
  {
    if items != [] {
      var n := |items| - 1;
      var x, before := items[n], Build(h, items[..n]);
      BuildOrdered(h, items[..n]);
      assert forall i :: 0 <= i < n ==> items[..n][i] == items[i] && KindOf(items[i]) <= KindOf(x);
      LastGoesLast(before, items[..n], x);
      assert items == items[..n] + [x];
    }
  }

  lemma LastGoesLast(c: ProjectContext, items: seq<Item>, x: Item)
    requires Tidy(c) && Flatten(c) == items && forall i :: 0 <= i < |items| ==> KindOf(items[i]) <= KindOf(x)
    ensures Tidy(Push(c, x)) && Flatten(Push(c, x)) == items + [x] && Push(c, x).header == c.header
  {
    LaterEmpty(c.requirements, c.milestones, c.board + c.notes, 1, x);
    LaterEmpty(c.requirements + c.milestones, c.board, c.notes, 2, x);
    LaterEmpty(c.requirements + c.milestones + c.board, c.notes, [], 3, x);
    assert c.requirements + c.milestones + (c.board + c.notes) == items;
    Appended(c, x);
  }

  lemma LaterEmpty(before: seq<Item>, part: seq<Item>, after: seq<Item>, k: nat, x: Item)
    requires Pure(part, k)
    ensures var all := before + part + after;
      (forall i :: 0 <= i < |all| ==> KindOf(all[i]) <= KindOf(x)) && KindOf(x) < k ==> part == []
  {
    if part != [] { assert (before + part + after)[|before|] == part[0]; }
  }

  lemma Appended(c: ProjectContext, x: Item)
    requires Tidy(c)
    requires (KindOf(x) < 1 ==> c.milestones == []) && (KindOf(x) < 2 ==> c.board == [])
    requires (KindOf(x) < 3 ==> c.notes == [])
    ensures Tidy(Push(c, x)) && Flatten(Push(c, x)) == Flatten(c) + [x] && Push(c, x).header == c.header
  {
    PureMore(c.requirements, x);
    PureMore(c.milestones, x);
    PureMore(c.board, x);
    PureMore(c.notes, x);
    hide Pure;
    match x
    case Requirement(_, _) => assert c.requirements + [x] + [] + [] + [] == c.requirements + [] + [] + [] + [x];
    case Milestone(_, _, _) => assert c.requirements + (c.milestones + [x]) + [] + [] ==
      c.requirements + c.milestones + [] + [] + [x];
    case BoardItem(_, _, _) =>
      assert c.requirements + c.milestones + (c.board + [x]) + [] == c.requirements + c.milestones + c.board + [] + [x];
    case Note(_, _) =>
      assert c.requirements + c.milestones + c.board + (c.notes + [x]) ==
        c.requirements + c.milestones + c.board + c.notes + [x];
  }

  lemma PureMore(items: seq<Item>, x: Item)
    ensures Pure(items, KindOf(x)) ==> Pure(items + [x], KindOf(x))
  {
  }

  function KindNumber(k: Kind): nat {
    match k
    case RequirementKind => 0
    case MilestoneKind => 1
    case BoardKind => 2
    case NoteKind => 3
  }

  function KindNamed(n: nat): Kind {
    if n == 0 then RequirementKind else if n == 1 then MilestoneKind else if n == 2 then BoardKind else NoteKind
  }

  lemma CleanKind(k: Kind, r: RawItem)
    requires r.RawItem?
    ensures KindOf(Clean(k, r)) == KindNumber(k) && KindNamed(KindNumber(k)) == k
  {
    hide TextOf;
  }

  function Place(i: nat, a: nat, b: nat, d: nat): nat {
    if i < a then 0 else if i < a + b then 1 else if i < a + b + d then 2 else 3
  }

  /** The item comes out of the cleaning of its kind. */
  ghost predicate Cleaned(x: Item) {
    exists r: RawItem :: r.RawItem? && x == Clean(KindNamed(KindOf(x)), r)
  }

  /** Where each kind lies among the candidates, and that every candidate is cleaned. */
  lemma CandidateKinds(raw: Raw)
    requires Readable(raw)
    ensures var all := Candidates(raw);
      var a, b, d, e := |ListOf(raw, RequirementKind)|, |ListOf(raw, MilestoneKind)|, |ListOf(raw, BoardKind)|,
        |ListOf(raw, NoteKind)|;
      && |all| == a + b + d + e && Ordered(all)
      && forall i :: 0 <= i < |all| ==>
           KindOf(all[i]) == Place(i, a, b, d) && Cleaned(all[i])
  {
    hide Clean, ListOf, KindOf;
    var all := Candidates(raw);
    var p, q, s, t := ListOf(raw, RequirementKind), ListOf(raw, MilestoneKind), ListOf(raw, BoardKind),
      ListOf(raw, NoteKind);
    forall i | 0 <= i < |all|
      ensures KindOf(all[i]) == Place(i, |p|, |q|, |s|) && Cleaned(all[i])
    {
      var k, r := if i < |p| then (RequirementKind, p[i]) else if i < |p| + |q| then (MilestoneKind, q[i - |p|])
                  else if i < |p| + |q| + |s| then (BoardKind, s[i - |p| - |q|])
                    else (NoteKind, t[i - |p| - |q| - |s|]), 0;
      CleanKind(k.0, k.1);
      assert all[i] == Clean(k.0, k.1);
    }
  }

  /** A bounded context is tidy, within the list limits, and made of cleaned items. */
  lemma BoundedShape(raw: Raw, n: nat, c: ProjectContext)
    requires Readable(raw) && n <= |Candidates(raw)| && c == Build(HeaderOf(raw), Candidates(raw)[..n])
    ensures Tidy(c) && Flatten(c) == Candidates(raw)[..n] && c.header == HeaderOf(raw)
    ensures |c.requirements| <= 100 && |c.milestones| <= 50 && |c.board| <= 100 && |c.notes| <= 50
    ensures forall x :: x in Flatten(c) ==> Cleaned(x)
  {
    hide Clean, KindOf, TextOf, Candidates, KindNamed, ListOf, Tidy, Flatten, Build, Cleaned, Readable, HeaderOf;
    var all := Candidates(raw);
    CandidateKinds(raw);
    BuildOrdered(HeaderOf(raw), all[..n]);
    ListLimits(raw);
    ShapeSizes(c, all, n, |ListOf(raw, RequirementKind)|, |ListOf(raw, MilestoneKind)|, |ListOf(raw, BoardKind)|);
  }

  lemma ListLimits(raw: Raw)
    ensures |ListOf(raw, RequirementKind)| <= 100 && |ListOf(raw, MilestoneKind)| <= 50
    ensures |ListOf(raw, BoardKind)| <= 100 && |ListOf(raw, NoteKind)| <= 50
  {
  }

  lemma ShapeSizes(c: ProjectContext, all: seq<Item>, n: nat, p: nat, q: nat, r: nat)
    requires Tidy(c) && n <= |all| && Flatten(c) == all[..n] && p + q + r <= |all|
    requires forall i :: 0 <= i < |all| ==> KindOf(all[i]) == Place(i, p, q, r)
    ensures |c.requirements| <= p && |c.milestones| <= q && |c.board| <= r && |c.notes| <= |all| - p - q - r
  {
    hide KindOf, Tidy, Flatten;
    TidyParts(c);
    var none: seq<Item> := [];
    PartLimit(none, c.requirements, c.milestones + c.board + c.notes, all, n, 0, 0, p);
    PartLimit(c.requirements, c.milestones, c.board + c.notes, all, n, 1, p, p + q);
    PartLimit(c.requirements + c.milestones, c.board, c.notes, all, n, 2, p + q, p + q + r);
    PartLimit(c.requirements + c.milestones + c.board, c.notes, none, all, n, 3, p + q + r, |all|);
  }

  lemma TidyParts(c: ProjectContext)
    requires Tidy(c)
    ensures Pure(c.requirements, 0) && Pure(c.milestones, 1) && Pure(c.board, 2) && Pure(c.notes, 3)
    ensures Flatten(c) == [] + c.requirements + (c.milestones + c.board + c.notes)
    ensures Flatten(c) == c.requirements + c.milestones + (c.board + c.notes)
    ensures Flatten(c) == c.requirements + c.milestones + c.board + c.notes + []
  {
  }

  /** A part of one kind is no longer than the stretch of that kind among all candidates. */
  lemma PartLimit(before: seq<Item>, part: seq<Item>, after: seq<Item>, all: seq<Item>, n: nat, k: nat, lo: nat,
                  hi: nat)
    requires Pure(part, k) && n <= |all| && before + part + after == all[..n] && lo <= hi <= |all|
    requires forall i :: 0 <= i < |all| && KindOf(all[i]) == k ==> lo <= i < hi
    ensures |part| <= hi - lo
  {
    if part != [] {
      var items := before + part + after;
      assert items[|before|] == part[0] == all[|before|];
      assert items[|before| + |part| - 1] == part[|part| - 1] == all[|before| + |part| - 1];
    }
  }

  lemma RereadLists(c: ProjectContext)
    requires |c.requirements| <= 100 && |c.milestones| <= 50 && |c.board| <= 100 && |c.notes| <= 50
    ensures ListOf(AsRaw(c), RequirementKind) == AsRawItems(c.requirements)
    ensures ListOf(AsRaw(c), MilestoneKind) == AsRawItems(c.milestones)
    ensures ListOf(AsRaw(c), BoardKind) == AsRawItems(c.board) && ListOf(AsRaw(c), NoteKind) == AsRawItems(c.notes)
    ensures Readable(AsRaw(c))
  {
    hide AsRawItems;
  }

  /** The candidates of a context read back are its own items, cleaned once more. */
  lemma Reread(c: ProjectContext)
    requires Tidy(c) && |c.requirements| <= 100 && |c.milestones| <= 50 && |c.board| <= 100 && |c.notes| <= 50
    ensures Readable(AsRaw(c)) && |Candidates(AsRaw(c))| == |Flatten(c)|
    ensures forall i :: 0 <= i < |Flatten(c)| ==>
      Candidates(AsRaw(c))[i] == Clean(KindNamed(KindOf(Flatten(c)[i])), AsRawItem(Flatten(c)[i]))
  {
    hide Clean, KindOf, AsRawItem, AsRaw, ListOf, AsRawItems;
    RereadLists(c);
  }

  lemma ItemsTwice(c: ProjectContext, again: seq<Item>)
    requires |again| == |Flatten(c)|
    requires forall i :: 0 <= i < |again| ==>
      again[i] == Clean(KindNamed(KindOf(Flatten(c)[i])), AsRawItem(Flatten(c)[i]))
    requires forall x :: x in Flatten(c) ==> Cleaned(x)
    ensures again == Flatten(c) <==> forall x :: x in Flatten(c) ==> UncutItem(x)
  {
    hide Clean, KindOf, AsRawItem, UncutItem, KindNamed;
    var items := Flatten(c);
    hide Flatten;
    forall i | 0 <= i < |items|
      ensures again[i] == items[i] <==> UncutItem(items[i])
    {
      assert Cleaned(items[i]);
      var r: RawItem :| r.RawItem? && items[i] == Clean(KindNamed(KindOf(items[i])), r);
      CleanTwice(KindNamed(KindOf(items[i])), r);
    }
  }

  /**
   Frozen-request recovery demands that a bounded context bounds to itself. It does exactly when no field was cut
   directly after a space: trimming comes before cutting, so such a field is trimmed further the second time.
   */
  lemma FixedPoint(raw: Raw, c: ProjectContext, d: ProjectContext)
    requires Bounded(raw, c) && Bounded(AsRaw(c), d)
    ensures d == c <==> Uncut(c)
  {
    hide Clean, KindOf, AsRawItem, UncutItem, Candidates, AsRaw, Build, Fits, Tidy, HeaderOf, ListOf, Readable,
         Flatten, UncutHeader;
    var n: nat :| n <= |Candidates(raw)| && c == Build(HeaderOf(raw), Candidates(raw)[..n]) && Keeps(raw, n);
    var again := Candidates(AsRaw(c));
    var m: nat :| m <= |again| && d == Build(HeaderOf(AsRaw(c)), again[..m]) && Keeps(AsRaw(c), m);
    BoundedShape(raw, n, c);
    BoundedShape(AsRaw(c), m, d);
    Reread(c);
    ItemsTwice(c, again);
    HeaderAgain(raw, c);
    assert again[..|again|] == again;
    assert Candidates(raw)[..n][..0] == [];
  }

  lemma HeaderAgain(raw: Raw, c: ProjectContext)
    requires c.header == HeaderOf(raw)
    ensures HeaderOf(AsRaw(c)) == c.header <==> UncutHeader(c.header)
  {
    hide TextOf;
    HeaderTwice(raw);
  }

  /** A project with nothing but a status or a description. */
  function Lone(description: Units, status: Units): Raw {
    Raw(Null, Null, Text(description), Text(status), [], [], [], [])
  }

  lemma LoneBounded(description: Units, status: Units)
    ensures var raw := Lone(description, status); Bounded(raw, Build(HeaderOf(raw), []))
  {
    hide Size, TextOf;
    var raw := Lone(description, status);
    assert Candidates(raw) == [] && Candidates(raw)[..0] == [];
    assert Keeps(raw, 0);
  }

  /** A status of 31 letters, a space and one more letter is cut after the space. */
  const CUT_STATUS: Units := seq(31, _ => 0x61) + [0x20, 0x62]

  /** So a context that does not bound to itself exists. */
  lemma NoFixedPoint()
    ensures var c := Build(HeaderOf(Lone([], CUT_STATUS)), []);
      && Bounded(Lone([], CUT_STATUS), c)
      && !Bounded(AsRaw(c), c)
  {
    hide Bounded, Build, AsRaw;
    var raw := Lone([], CUT_STATUS);
    var c := Build(HeaderOf(raw), []);
    LoneBounded([], CUT_STATUS);
    CutStatus();
    if Bounded(AsRaw(c), c) {
      FixedPoint(raw, c, c);
      HeaderKept(HeaderOf(raw));
      assert false;
    }
  }

  lemma HeaderKept(h: Header)
    ensures Build(h, []).header == h
  {
  }

  lemma CutStatus()
    ensures !UncutHeader(HeaderOf(Lone([], CUT_STATUS)))
  {
    hide TextOf, TrimUnits;
    CutText(CUT_STATUS, 32);
  }

  /** A text without outer space, cut after a space, can be trimmed further. */
  lemma CutText(s: Units, max: nat)
    requires 0 < max < |s| && !Blank(s[0]) && !Blank(s[|s| - 1]) && Blank(s[max - 1])
    ensures TextOf(Text(s), max) == s[..max] && TrimUnits(s[..max]) != s[..max]
  {
    hide TrimBy, Blank;
    TrimmedBy(s, Blank);
    TrimmedBy(s[..max], Blank);
  }

  /** A description of control characters takes six bytes each in JSON. */
  const CONTROLS: Units := seq(2000, _ => 1)

  lemma {:induction false} ControlWidth(s: Units)
    requires forall i :: 0 <= i < |s| ==> s[i] == 1
    ensures Width(s) == 2 + 6 * |s|
  {
    if s != [] {
      assert forall i :: 0 <= i < |s| - 1 ==> s[1..][i] == s[i + 1];
      ControlWidth(s[1..]);
    }
  }

  /** A text without outer space that is not too long is kept as it is. */
  lemma UncutText(s: Units, max: nat)
    requires 0 < |s| <= max && !Blank(s[0]) && !Blank(s[|s| - 1])
    ensures TextOf(Text(s), max) == s
  {
    hide TrimBy, Blank;
    TrimmedBy(s, Blank);
  }

  lemma ControlText()
    ensures TextOf(Text(CONTROLS), 2000) == CONTROLS && Width(CONTROLS) == 12002
  {
    hide TextOf, Width;
    UncutText(CONTROLS, 2000);
    ControlWidth(CONTROLS);
  }

  /** So a header over the limit exists. */
  lemma Oversized()
    ensures var raw := Lone(CONTROLS, []);
      var c := Build(HeaderOf(raw), []);
      Bounded(raw, c) && !Fits(c)
  {
    hide Bounded, TextOf, Width, ListSize;
    LoneBounded(CONTROLS, []);
    ControlText();
  }
}
