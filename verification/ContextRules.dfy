/** The bounded context written out: which entries it takes, what it keeps of each, and the bytes it is measured by. */
module ContextRules {
  import opened Common
  import opened Text
  import opened Percent
  import opened Context

  /** Both trims take away the same characters. */
  lemma SpaceIsBlank(u: Unit)
    requires !Leading(u) && !Trailing(u)
    ensures Blank(u) <==> Space(u as char)
  {
  }

  /** A text without the white space around it, cut at max units; anything that is no text counts as empty. */
  ghost predicate Shortened(f: FieldOf<Units>, max: nat, s: Units) {
    if f.Text? then exists t :: Stripped(f.text, t) && s == if |t| > max then t[..max] else t else s == []
  }

  ghost predicate Stripped(s: Units, t: Units) {
    && (exists i: nat, j: nat :: Inner(s, Blank, t, i, j))
    && (t == [] || (!Blank(t[0]) && !Blank(t[|t| - 1])))
  }

  lemma StrippedExactly(s: Units, t: Units)
    ensures Stripped(s, t) <==> t == TrimUnits(s)
  {
    hide Blank;
    TrimmedPart(s, Blank);
    TrimmedBy(s, Blank);
    hide TrimBy;
    var r := TrimUnits(s);
    if Stripped(s, t) {
      var i: nat, j: nat :| Inner(s, Blank, t, i, j);
      var k: nat, l: nat :| Inner(s, Blank, r, k, l);
      assert r == s[k..l];
      if t == [] {
        BlankAll(s, i, j, k, l);
      } else {
        assert !Blank(s[i]) && !Blank(s[j - 1]);
        if r == [] { BlankAll(s, k, l, i, j); }
        assert i == k && j == l;
      }
    }
  }

  /** Where nothing is left after trimming, every other way of trimming leaves nothing. */
  lemma BlankAll(s: Units, i: nat, j: nat, k: nat, l: nat)
    requires i == j <= |s| && k <= l <= |s| && (forall m :: 0 <= m < i ==> Blank(s[m]))
    requires (forall m :: j <= m < |s| ==> Blank(s[m])) && (k < l ==> !Blank(s[k]))
    ensures k == l
  {
    hide Blank;
  }

  lemma ShortenedExactly(f: FieldOf<Units>, max: nat, s: Units)
    ensures Shortened(f, max, s) <==> s == TextOf(f, max)
  {
    hide TrimUnits, Stripped;
    if f.Text? {
      forall t
        ensures Stripped(f.text, t) <==> t == TrimUnits(f.text)
      {
        StrippedExactly(f.text, t);
      }
    }
  }

  /** What is kept of one entry. */
  ghost predicate RequirementKept(r: RawItem, x: Item) {
    r.RawItem? && x.Requirement? && Shortened(r.a, 500, x.text) && Shortened(r.b, 32, x.status)
  }

  ghost predicate MilestoneKept(r: RawItem, x: Item) {
    && r.RawItem? && x.Milestone? && Shortened(r.a, 256, x.title) && Shortened(r.b, 32, x.milestoneStatus)
    && match x.target case None => Shortened(r.c, 10, []) case Some(d) => d != [] && Shortened(r.c, 10, d)
  }

  ghost predicate BoardKept(r: RawItem, x: Item) {
    && r.RawItem? && x.BoardItem? && Shortened(r.a, 256, x.boardTitle) && Shortened(r.b, 500, x.detail)
    && Shortened(r.c, 32, x.column)
  }

  ghost predicate NoteKept(r: RawItem, x: Item) {
    r.RawItem? && x.Note? && Shortened(r.a, 500, x.noteText) && Shortened(r.b, 40, x.createdAt)
  }

  ghost predicate HeaderKept(raw: Raw, h: Header) {
    && Shortened(raw.projectId, 128, h.projectId) && Shortened(raw.name, 256, h.name)
    && Shortened(raw.description, 2000, h.description) && Shortened(raw.status, 32, h.status)
  }

  lemma KeptExactly(r: RawItem, x: Item)
    ensures RequirementKept(r, x) <==> r.RawItem? && x == Clean(RequirementKind, r)
    ensures MilestoneKept(r, x) <==> r.RawItem? && x == Clean(MilestoneKind, r)
    ensures BoardKept(r, x) <==> r.RawItem? && x == Clean(BoardKind, r)
    ensures NoteKept(r, x) <==> r.RawItem? && x == Clean(NoteKind, r)
  {
    hide TextOf, Shortened;
    forall f, max, s
      ensures Shortened(f, max, s) <==> s == TextOf(f, max)
    {
      ShortenedExactly(f, max, s);
    }
  }

  lemma HeaderExactly(raw: Raw, h: Header)
    ensures HeaderKept(raw, h) <==> h == HeaderOf(raw)
  {
    hide TextOf, Shortened;
    ShortenedExactly(raw.projectId, 128, h.projectId);
    ShortenedExactly(raw.name, 256, h.name);
    ShortenedExactly(raw.description, 2000, h.description);
    ShortenedExactly(raw.status, 32, h.status);
  }

  function Least(a: nat, b: nat): nat {
    if a <= b then a else b
  }

  /** Each list begins as the raw one does; no entry after the hundredth or fiftieth is looked at. */
  ghost predicate ListsKept(raw: Raw, c: ProjectContext) {
    && |c.requirements| <= Least(|raw.requirements|, 100) && |c.milestones| <= Least(|raw.milestones|, 50)
    && |c.board| <= Least(|raw.board|, 100) && |c.notes| <= Least(|raw.notes|, 50)
    && (forall i :: 0 <= i < |c.requirements| ==> RequirementKept(raw.requirements[i], c.requirements[i]))
    && (forall i :: 0 <= i < |c.milestones| ==> MilestoneKept(raw.milestones[i], c.milestones[i]))
    && (forall i :: 0 <= i < |c.board| ==> BoardKept(raw.board[i], c.board[i]))
    && (forall i :: 0 <= i < |c.notes| ==> NoteKept(raw.notes[i], c.notes[i]))
  }

  /** Later lists are begun only when the earlier ones are complete. */
  predicate InOrder(raw: Raw, c: ProjectContext) {
    && (c.milestones + c.board + c.notes != [] ==> |c.requirements| == Least(|raw.requirements|, 100))
    && (c.board + c.notes != [] ==> |c.milestones| == Least(|raw.milestones|, 50))
    && (c.notes != [] ==> |c.board| == Least(|raw.board|, 100))
  }

  predicate Bare(c: ProjectContext) {
    c.requirements == [] && c.milestones == [] && c.board == [] && c.notes == []
  }

  /** Every list is as long as it may be. */
  predicate Complete(raw: Raw, c: ProjectContext) {
    |c.requirements| + |c.milestones| + |c.board| + |c.notes| ==
    Least(|raw.requirements|, 100) + Least(|raw.milestones|, 50) + Least(|raw.board|, 100) + Least(|raw.notes|, 50)
  }

  /** The context with the next entry of the first list that is not complete. */
  ghost predicate OneMore(raw: Raw, c: ProjectContext, d: ProjectContext) {
    ListsKept(raw, d) && InOrder(raw, d) && d.header == c.header &&
      exists x :: d == c.(requirements := c.requirements + [x]) || d == c.(milestones := c.milestones + [x]) ||
        d == c.(board := c.board + [x]) || d == c.(notes := c.notes + [x])
  }

  /**
   A bounded context keeps the header, and from the lists in their order as many entries as fit: one more would be too
   many bytes, unless there is no more. A header over the limit is kept with no entry.
   */
  lemma BoundedExactly(raw: Raw, c: ProjectContext)
    requires Bounded(raw, c)
    ensures HeaderKept(raw, c.header) && ListsKept(raw, c) && InOrder(raw, c)
    ensures Fits(c) || Bare(c)
    ensures Fits(c) && !Complete(raw, c) ==> exists d :: OneMore(raw, c, d) && !Fits(d)
  {
    hide Clean, HeaderOf, Candidates, Build, Fits, ListsKept, InOrder, Complete, Readable, HeaderKept, ListOf, Push,
         Bare, OneMore;
    var n: nat :| n <= |Candidates(raw)| && c == Build(HeaderOf(raw), Candidates(raw)[..n]) && Keeps(raw, n);
    var h, all := HeaderOf(raw), Candidates(raw);
    HeaderExactly(raw, h);
    PrefixKept(raw, c, n);
    NothingBuilt(h);
    assert all[..0] == [];
    if n < |all| {
      var d := Push(c, all[n]);
      assert all[..n + 1][..n] == all[..n];
      BuildStep(h, all[..n + 1]);
      PrefixKept(raw, d, n + 1);
      PushOne(raw, c, d, all[n]);
      if Fits(Build(h, [])) { assert !Fits(d); }
    }
    if !Fits(Build(h, [])) { assert n == 0; }
  }

  lemma NothingBuilt(h: Header)
    ensures Bare(Build(h, []))
  {
  }

  lemma BuildStep(h: Header, items: seq<Item>)
    requires items != []
    ensures Build(h, items) == Push(Build(h, items[..|items| - 1]), items[|items| - 1])
  {
  }

  lemma PushOne(raw: Raw, c: ProjectContext, d: ProjectContext, x: Item)
    requires d == Push(c, x) && ListsKept(raw, d) && InOrder(raw, d)
    ensures OneMore(raw, c, d)
  {
    hide ListsKept, InOrder;
  }

  /** The first n candidates fill the lists one after the other. */
  lemma PrefixKept(raw: Raw, c: ProjectContext, n: nat)
    requires Readable(raw) && n <= |Candidates(raw)| && c == Build(HeaderOf(raw), Candidates(raw)[..n])
    ensures c.header == HeaderOf(raw) && ListsKept(raw, c) && InOrder(raw, c)
    ensures Complete(raw, c) <==> n == |Candidates(raw)|
  {
    hide Clean, HeaderOf, Candidates, Build, ListOf, Readable, KindOf, Tidy, Flatten;
    BoundedShape(raw, n, c);
    CandidateKinds(raw);
    ListsExactly(raw);
    var all := Candidates(raw);
    var p, q, s, t := ListOf(raw, RequirementKind), ListOf(raw, MilestoneKind), ListOf(raw, BoardKind),
      ListOf(raw, NoteKind);
    Lengths(c, all, n, |p|, |q|, |s|);
    CandidateAt(raw);
    Pieces(c);
    hide Pure, RequirementKept, MilestoneKept, BoardKept, NoteKept;
    Matched(c, all, n, raw, p, q, s, t);
  }

  lemma Matched(c: ProjectContext, all: seq<Item>, n: nat, raw: Raw, p: seq<RawItem>, q: seq<RawItem>,
                s: seq<RawItem>, t: seq<RawItem>)
    requires n <= |all| && Flatten(c) == all[..n]
    requires p <= raw.requirements && q <= raw.milestones && s <= raw.board && t <= raw.notes
    requires |c.requirements| <= |p| && |c.milestones| <= |q| && |c.board| <= |s| && |c.notes| <= |t|
    requires c.milestones != [] ==> |c.requirements| == |p|
    requires c.board != [] ==> |c.requirements| == |p| && |c.milestones| == |q|
    requires c.notes != [] ==> |c.requirements| == |p| && |c.milestones| == |q| && |c.board| == |s|
    requires |all| == |p| + |q| + |s| + |t|
    requires forall i :: 0 <= i < |p| ==> p[i].RawItem? && all[i] == Clean(RequirementKind, p[i])
    requires forall i :: 0 <= i < |q| ==> q[i].RawItem? && all[|p| + i] == Clean(MilestoneKind, q[i])
    requires forall i :: 0 <= i < |s| ==> s[i].RawItem? && all[|p| + |q| + i] == Clean(BoardKind, s[i])
    requires forall i :: 0 <= i < |t| ==> t[i].RawItem? && all[|p| + |q| + |s| + i] == Clean(NoteKind, t[i])
    ensures forall i :: 0 <= i < |c.requirements| ==> RequirementKept(raw.requirements[i], c.requirements[i])
    ensures forall i :: 0 <= i < |c.milestones| ==> MilestoneKept(raw.milestones[i], c.milestones[i])
    ensures forall i :: 0 <= i < |c.board| ==> BoardKept(raw.board[i], c.board[i])
    ensures forall i :: 0 <= i < |c.notes| ==> NoteKept(raw.notes[i], c.notes[i])
  {
    hide Clean, RequirementKept, MilestoneKept, BoardKept, NoteKept, Flatten;
    Pieces(c);
    forall i | 0 <= i < |c.requirements|
      ensures RequirementKept(raw.requirements[i], c.requirements[i])
    {
      assert c.requirements[i] == Flatten(c)[i] == all[i] && p[i] == raw.requirements[i];
      KeptExactly(p[i], c.requirements[i]);
    }
    forall i | 0 <= i < |c.milestones|
      ensures MilestoneKept(raw.milestones[i], c.milestones[i])
    {
      assert c.milestones[i] == Flatten(c)[|c.requirements| + i] == all[|p| + i] && q[i] == raw.milestones[i];
      KeptExactly(q[i], c.milestones[i]);
    }
    forall i | 0 <= i < |c.board|
      ensures BoardKept(raw.board[i], c.board[i])
    {
      assert c.board[i] == Flatten(c)[|c.requirements| + |c.milestones| + i] == all[|p| + |q| + i];
      assert s[i] == raw.board[i];
      KeptExactly(s[i], c.board[i]);
    }
    forall i | 0 <= i < |c.notes|
      ensures NoteKept(raw.notes[i], c.notes[i])
    {
      assert c.notes[i] == Flatten(c)[|c.requirements| + |c.milestones| + |c.board| + i];
      assert c.notes[i] == all[|p| + |q| + |s| + i] && t[i] == raw.notes[i];
      KeptExactly(t[i], c.notes[i]);
    }
  }

  lemma ListsExactly(raw: Raw)
    ensures ListOf(raw, RequirementKind) == raw.requirements[..Least(|raw.requirements|, 100)]
    ensures ListOf(raw, MilestoneKind) == raw.milestones[..Least(|raw.milestones|, 50)]
    ensures ListOf(raw, BoardKind) == raw.board[..Least(|raw.board|, 100)]
    ensures ListOf(raw, NoteKind) == raw.notes[..Least(|raw.notes|, 50)]
  {
  }

  lemma CandidateAt(raw: Raw)
    requires Readable(raw)
    ensures var all := Candidates(raw);
      var p, q, s, t := ListOf(raw, RequirementKind), ListOf(raw, MilestoneKind), ListOf(raw, BoardKind),
        ListOf(raw, NoteKind);
      && |all| == |p| + |q| + |s| + |t|
      && (forall i :: 0 <= i < |p| ==> p[i].RawItem? && all[i] == Clean(RequirementKind, p[i]))
      && (forall i :: 0 <= i < |q| ==> q[i].RawItem? && all[|p| + i] == Clean(MilestoneKind, q[i]))
      && (forall i :: 0 <= i < |s| ==> s[i].RawItem? && all[|p| + |q| + i] == Clean(BoardKind, s[i]))
      && (forall i :: 0 <= i < |t| ==> t[i].RawItem? && all[|p| + |q| + |s| + i] == Clean(NoteKind, t[i]))
  {
    hide Clean, ListOf;
  }

  lemma Pieces(c: ProjectContext)
    ensures var all := Flatten(c);
      var p, q, s := |c.requirements|, |c.milestones|, |c.board|;
      && |all| == p + q + s + |c.notes|
      && (forall i :: 0 <= i < p ==> all[i] == c.requirements[i])
      && (forall i :: 0 <= i < q ==> all[p + i] == c.milestones[i])
      && (forall i :: 0 <= i < s ==> all[p + q + i] == c.board[i])
      && (forall i :: 0 <= i < |c.notes| ==> all[p + q + s + i] == c.notes[i])
  {
  }

  /** How many of the first n candidates are of each kind. */
  lemma Lengths(c: ProjectContext, all: seq<Item>, n: nat, p: nat, q: nat, r: nat)
    requires Tidy(c) && n <= |all| && Flatten(c) == all[..n] && p + q + r <= |all|
    requires forall i :: 0 <= i < |all| ==> KindOf(all[i]) == Place(i, p, q, r)
    ensures |c.requirements| == Least(n, p)
    ensures |c.requirements| + |c.milestones| == Least(n, p + q)
    ensures |c.requirements| + |c.milestones| + |c.board| == Least(n, p + q + r)
    ensures |c.requirements| + |c.milestones| + |c.board| + |c.notes| == n
  {
    hide KindOf, Flatten;
    Pieces(c);
    var a, b, d := |c.requirements|, |c.milestones|, |c.board|;
    forall i | 0 <= i < n
      ensures KindOf(all[i]) == Place(i, a, b, d)
    {
      assert all[i] == Flatten(c)[i];
      if i < a {
        assert all[i] == c.requirements[i];
      } else if i < a + b {
        assert all[i] == c.milestones[i - a];
      } else if i < a + b + d {
        assert all[i] == c.board[i - a - b];
      } else {
        assert all[i] == c.notes[i - a - b - d];
      }
    }
    SamePlaces(n, a, b, d, p, q, r);
  }

  lemma SamePlaces(n: nat, a: nat, b: nat, d: nat, p: nat, q: nat, r: nat)
    requires a + b + d <= n && forall i :: 0 <= i < n ==> Place(i, a, b, d) == Place(i, p, q, r)
    ensures a == Least(n, p) && a + b == Least(n, p + q) && a + b + d == Least(n, p + q + r)
  {
    SameBorder(n, a, b, d, p, q, r, a);
    SameBorder(n, a, b, d, p, q, r, a + b);
    SameBorder(n, a, b, d, p, q, r, a + b + d);
    SameBorder(n, a, b, d, p, q, r, p);
    SameBorder(n, a, b, d, p, q, r, p + q);
    SameBorder(n, a, b, d, p, q, r, p + q + r);
  }

  lemma SameBorder(n: nat, a: nat, b: nat, d: nat, p: nat, q: nat, r: nat, i: nat)
    requires forall i :: 0 <= i < n ==> Place(i, a, b, d) == Place(i, p, q, r)
    ensures i < n ==> Place(i, a, b, d) == Place(i, p, q, r)
    ensures 0 < i <= n ==> Place(i - 1, a, b, d) == Place(i - 1, p, q, r)
  {
  }

  /** The encoded size of an entry is that of its JSON text. */
  lemma ItemBytes(t: Units, s: Units, u: Units)
    ensures ItemSize(Requirement(t, s)) == |"{\"text\":"| + Width(t) + |",\"status\":"| + Width(s) + |"}"|
    ensures ItemSize(Milestone(t, s, None)) ==
      |"{\"title\":"| + Width(t) + |",\"status\":"| + Width(s) + |",\"targetDate\":"| + |"null"| + |"}"|
    ensures ItemSize(Milestone(t, s, Some(u))) ==
      |"{\"title\":"| + Width(t) + |",\"status\":"| + Width(s) + |",\"targetDate\":"| + Width(u) + |"}"|
    ensures ItemSize(BoardItem(t, s, u)) ==
      |"{\"title\":"| + Width(t) + |",\"detail\":"| + Width(s) + |",\"column\":"| + Width(u) + |"}"|
    ensures ItemSize(Note(t, s)) == |"{\"text\":"| + Width(t) + |",\"createdAt\":"| + Width(s) + |"}"|
  {
    hide Width;
  }

  lemma ListBytes(items: seq<Item>, x: Item)
    ensures ListSize([]) == |"[]"| && ListSize([x]) == |"["| + ItemSize(x) + |"]"|
    ensures items != [] ==> ListSize(items + [x]) == ListSize(items) + |","| + ItemSize(x)
  {
    assert (items + [x])[..|items|] == items && [x][..0] == [];
  }

  lemma ContextBytes(c: ProjectContext)
    ensures Size(c) ==
      |"{\"schemaVersion\":\"project-context-v1\",\"projectId\":"| + Width(c.header.projectId) +
      |",\"name\":"| + Width(c.header.name) + |",\"description\":"| + Width(c.header.description) +
      |",\"status\":"| + Width(c.header.status) + |",\"requirements\":"| + ListSize(c.requirements) +
      |",\"milestones\":"| + ListSize(c.milestones) + |",\"board\":"| + ListSize(c.board) +
      |",\"notes\":"| + ListSize(c.notes) + |"}"|
    ensures Fits(c) <==> Size(c) <= 8192
  {
    hide Width, ListSize;
  }

  /** How JSON.stringify escapes a unit that is no half of a pair; the four zeros stand for its hexadecimal digits. */
  function Escape(u: Unit): Option<string> {
    if u == '"' as Unit then Some("\\\"")
    else if u == '\\' as Unit then Some("\\\\")
    else if u == 8 then Some("\\b") else if u == 9 then Some("\\t") else if u == 10 then Some("\\n")
    else if u == 12 then Some("\\f") else if u == 13 then Some("\\r")
    else if u < 0x20 || 0xD800 <= u < 0xE000 then Some("\\u0000")
    else None
  }

  /** A text is measured character by character: escapes by their length, all else by its UTF-8 bytes. */
  lemma WidthExactly(u: Unit, rest: Units)
    ensures Width([]) == |"\"\""|
    ensures !(Leading(u) && rest != [] && Trailing(rest[0])) ==>
      Width([u] + rest) == Width(rest) + if Escape(u).Some? then |Escape(u).value| else |Utf8(u as int)|
    ensures Leading(u) && rest != [] && Trailing(rest[0]) ==>
      Width([u] + rest) == Width(rest[1..]) +
        |Utf8(0x1_0000 + (u as int - 0xD800) * 0x400 + (rest[0] as int - 0xDC00))|
  {
    assert ([u] + rest)[1..] == rest;
    if rest != [] { assert ([u] + rest)[2..] == rest[1..]; }
  }
}
