/** What the sanitiser makes of every field it is given, and when it refuses. */
module ProjectRules {
  import opened Common
  import opened Text
  import opened Project

  /** Text that is required: something is left of it after trimming, and it is not too long. */
  predicate Given(f: Field, max: nat, s: string) {
    f.Text? && s == Trim(f.text) && 1 <= |s| <= max
  }

  /** Text that may be missing. */
  predicate MayBeGiven(f: Field, max: nat, s: string) {
    (f.Text? && s == Trim(f.text) && |s| <= max) || (f == Null && s == "")
  }

  /** One of the allowed words, or the default for anything else. */
  predicate Chosen(f: Field, allowed: seq<string>, default: string, s: string) {
    if f.Text? && f.text in allowed then s == f.text else s == default
  }

  predicate HexDigits(s: string) {
    |s| == 32 && forall c :: c in s ==> c in "0123456789abcdef"
  }

  /** The given identifier if it has the right form, or else a fresh one. */
  ghost predicate Identified(f: Field, prefix: string, index: nat, env: Env, id: string) {
    if f.Text? && exists hex :: f.text == prefix + ":" + hex && HexDigits(hex) then id == f.text
    else id == env.newId(prefix, index)
  }

  predicate Digits(s: string) {
    forall c :: c in s ==> c in "0123456789"
  }

  /** Four, two and two digits with dashes between. */
  ghost predicate DateText(s: string) {
    exists y, m, d :: |y| == 4 && |m| == |d| == 2 && Digits(y + m + d) && s == y + "-" + m + "-" + d
  }

  ghost predicate RequirementFollows(r: RawRequirement, i: nat, env: Env, x: Requirement) {
    && Given(r.text, 4000, x.text)
    && Chosen(r.status, ["planned", "active", "complete", "blocked"], "planned", x.status)
    && Identified(r.id, "requirement", i, env, x.id)
  }

  ghost predicate MilestoneFollows(m: RawMilestone, i: nat, env: Env, x: Milestone) {
    && Given(m.title, 256, x.title)
    && Chosen(m.status, ["planned", "active", "complete", "blocked"], "planned", x.status)
    && Identified(m.id, "milestone", i, env, x.id)
    && ((m.target.Text? && DateText(m.target.text) && x.target == Some(m.target.text)) ||
      (m.target == Null && x.target == None))
  }

  ghost predicate ItemFollows(b: RawItem, i: nat, env: Env, x: BoardItem) {
    && Given(b.title, 256, x.title) && MayBeGiven(b.detail, 4000, x.detail)
    && Chosen(b.column, ["backlog", "ready", "active", "review", "done"], "backlog", x.column)
    && Identified(b.id, "board", i, env, x.id)
  }

  /** The date is normalised if it is one, or else it is now. */
  ghost predicate NoteFollows(n: RawNote, i: nat, env: Env, x: Note) {
    && Given(n.text, 16000, x.text)
    && (if n.createdAt.Text? && env.iso(n.createdAt.text).Some? then Some(x.createdAt) == env.iso(n.createdAt.text)
        else x.createdAt == env.now)
    && Identified(n.id, "note", i, env, x.id)
  }

  /** No identifier occurs twice, within or across the four lists. */
  predicate AllDistinct(c: Content) {
    && (forall i, j :: 0 <= i < j < |c.requirements| ==> c.requirements[i].id != c.requirements[j].id)
    && (forall i, j :: 0 <= i < j < |c.milestones| ==> c.milestones[i].id != c.milestones[j].id)
    && (forall i, j :: 0 <= i < j < |c.board| ==> c.board[i].id != c.board[j].id)
    && (forall i, j :: 0 <= i < j < |c.notes| ==> c.notes[i].id != c.notes[j].id)
    && (forall r, m :: r in c.requirements && m in c.milestones ==> r.id != m.id)
    && (forall r, b :: r in c.requirements && b in c.board ==> r.id != b.id)
    && (forall r, n :: r in c.requirements && n in c.notes ==> r.id != n.id)
    && (forall m, b :: m in c.milestones && b in c.board ==> m.id != b.id)
    && (forall m, n :: m in c.milestones && n in c.notes ==> m.id != n.id)
    && (forall b, n :: b in c.board && n in c.notes ==> b.id != n.id)
  }

  /** What c must be to be what the input raw says, item by item and in order. */
  ghost predicate Follows(raw: Raw, env: Env, c: Content) {
    && Given(raw.name, 256, c.name) && MayBeGiven(raw.description, 16000, c.description)
    && Chosen(raw.status, ["planned", "active", "complete", "archived"], "planned", c.status)
    && |c.requirements| == |raw.requirements| <= 500 && |c.milestones| == |raw.milestones| <= 200
    && |c.board| == |raw.board| <= 1000 && |c.notes| == |raw.notes| <= 1000
    && (forall i :: 0 <= i < |c.requirements| ==> RequirementFollows(raw.requirements[i], i, env, c.requirements[i]))
    && (forall i :: 0 <= i < |c.milestones| ==> MilestoneFollows(raw.milestones[i], i, env, c.milestones[i]))
    && (forall i :: 0 <= i < |c.board| ==> ItemFollows(raw.board[i], i, env, c.board[i]))
    && (forall i :: 0 <= i < |c.notes| ==> NoteFollows(raw.notes[i], i, env, c.notes[i]))
    && AllDistinct(c)
  }

  lemma TextExactly(f: Field, max: nat, s: string)
    ensures RequiredText(f, max) == Some(s) <==> Given(f, max, s)
    ensures OptionalText(f, max) == Some(s) <==> MayBeGiven(f, max, s)
  {
    hide Trim;
  }

  /** A file name without path separators and control characters. */
  predicate FileNamed(f: Field, s: string) {
    && Given(f, 255, s) && s != "." && s != ".."
    && forall i :: 0 <= i < |s| ==> s[i] != '/' && s[i] as int !in {92, 127} && s[i] as int >= 32
  }

  lemma FileNameExactly(f: Field, s: string)
    ensures PortableFilename(f) == Some(s) <==> FileNamed(f, s)
  {
    hide RequiredText, Given;
    TextExactly(f, 255, s);
    assert forall i :: 0 <= i < |s| ==> s[i] in s;
  }

  /** The given media type, or the one for arbitrary bytes. */
  predicate MediaNamed(f: Field, s: string) {
    (MayBeGiven(f, 128, s) && s != "") || (MayBeGiven(f, 128, "") && s == "application/octet-stream")
  }

  lemma MediaTypeExactly(f: Field, s: string)
    ensures MediaType(f) == Some(s) <==> MediaNamed(f, s)
  {
    hide OptionalText, MayBeGiven;
    TextExactly(f, 128, s);
    TextExactly(f, 128, "");
  }

  lemma TotalExactly(attachments: seq<Attachment>, a: Attachment)
    ensures Total([]) == 0 && Total(attachments + [a]) == Total(attachments) + a.size
  {
    assert (attachments + [a])[..|attachments|] == attachments;
  }

  lemma ChoiceExactly(f: Field, s: string)
    ensures ValueFrom(f, STATUSES, "planned") == s <==>
      Chosen(f, ["planned", "active", "complete", "archived"], "planned", s)
    ensures ValueFrom(f, ITEM_STATUSES, "planned") == s <==>
      Chosen(f, ["planned", "active", "complete", "blocked"], "planned", s)
    ensures ValueFrom(f, COLUMNS, "backlog") == s <==>
      Chosen(f, ["backlog", "ready", "active", "review", "done"], "backlog", s)
  {
  }

  lemma DigitExactly(c: char)
    ensures c in "0123456789" <==> '0' <= c <= '9'
    ensures c in "0123456789abcdef" <==> '0' <= c <= '9' || 'a' <= c <= 'f'
  {
  }

  lemma IdExactly(prefix: string, id: string)
    ensures IsId(prefix, id) <==> exists hex :: id == prefix + ":" + hex && HexDigits(hex)
  {
    forall c: char
      ensures c in "0123456789abcdef" <==> Hex(c)
    {
      DigitExactly(c);
    }
    var n := |prefix|;
    if IsId(prefix, id) {
      var hex := id[n + 1..];
      assert id == prefix + ":" + hex;
      assert forall i :: 0 <= i < 32 ==> hex[i] == id[n + 1 + i];
      assert HexDigits(hex);
    }
    if hex :| id == prefix + ":" + hex && HexDigits(hex) {
      assert forall i :: n < i < |id| ==> id[i] == hex[i - n - 1] && hex[i - n - 1] in hex;
    }
  }

  lemma DateExactly(s: string)
    ensures IsDate(s) <==> DateText(s)
  {
    forall c: char
      ensures c in "0123456789" <==> '0' <= c <= '9'
    {
      DigitExactly(c);
    }
    if IsDate(s) {
      var y, m, d := s[..4], s[5..7], s[8..];
      assert s == y + "-" + m + "-" + d;
      assert Digits(y + m + d) by {
        forall c | c in y + m + d
          ensures '0' <= c <= '9'
        {
          var i :| 0 <= i < 8 && (y + m + d)[i] == c;
          assert c == s[if i < 4 then i else if i < 6 then i + 1 else i + 2];
        }
      }
    }
    if DateText(s) {
      var y, m, d :| |y| == 4 && |m| == |d| == 2 && Digits(y + m + d) && s == y + "-" + m + "-" + d;
      var all := y + m + d;
      forall i | 0 <= i < 10 && i != 4 && i != 7
        ensures '0' <= s[i] <= '9'
      {
        assert s[i] == all[if i < 4 then i else if i < 7 then i - 1 else i - 2];
        assert s[i] in all;
      }
    }
  }

  lemma IdentifiedExactly(f: Field, prefix: string, index: nat, env: Env, id: string)
    ensures IdFrom(f, prefix, index, env) == id <==> Identified(f, prefix, index, env, id)
  {
    if f.Text? { IdExactly(prefix, f.text); }
    hide IsId, HexDigits;
  }

  lemma RequirementExactly(r: RawRequirement, i: nat, env: Env, x: Requirement)
    ensures CleanRequirement(r, i, env) == Some(x) <==> RequirementFollows(r, i, env, x)
  {
    hide RequiredText, ValueFrom, IdFrom, Given, Chosen, Identified;
    TextExactly(r.text, 4000, x.text);
    ChoiceExactly(r.status, x.status);
    IdentifiedExactly(r.id, "requirement", i, env, x.id);
  }

  lemma MilestoneExactly(m: RawMilestone, i: nat, env: Env, x: Milestone)
    ensures CleanMilestone(m, i, env) == Some(x) <==> MilestoneFollows(m, i, env, x)
  {
    hide RequiredText, ValueFrom, IdFrom, Given, Chosen, Identified, IsDate, DateText;
    TextExactly(m.title, 256, x.title);
    ChoiceExactly(m.status, x.status);
    IdentifiedExactly(m.id, "milestone", i, env, x.id);
    if m.target.Text? { DateExactly(m.target.text); }
  }

  lemma ItemExactly(b: RawItem, i: nat, env: Env, x: BoardItem)
    ensures CleanItem(b, i, env) == Some(x) <==> ItemFollows(b, i, env, x)
  {
    hide RequiredText, OptionalText, ValueFrom, IdFrom, Given, MayBeGiven, Chosen, Identified;
    TextExactly(b.title, 256, x.title);
    TextExactly(b.detail, 4000, x.detail);
    ChoiceExactly(b.column, x.column);
    IdentifiedExactly(b.id, "board", i, env, x.id);
  }

  lemma NoteExactly(n: RawNote, i: nat, env: Env, x: Note)
    ensures CleanNote(n, i, env) == Some(x) <==> NoteFollows(n, i, env, x)
  {
    hide RequiredText, IdFrom, Given, Identified;
    TextExactly(n.text, 16000, x.text);
    IdentifiedExactly(n.id, "note", i, env, x.id);
  }

  predicate Apart(a: seq<string>, b: seq<string>) {
    forall i, j :: 0 <= i < |a| && 0 <= j < |b| ==> a[i] != b[j]
  }

  lemma DistinctConcat(a: seq<string>, b: seq<string>)
    ensures Distinct(a + b) <==> Distinct(a) && Distinct(b) && Apart(a, b)
  {
    var s := a + b;
    assert forall i :: 0 <= i < |b| ==> s[|a| + i] == b[i];
    if Distinct(s) {
      forall i, j | 0 <= i < |a| && 0 <= j < |b|
        ensures a[i] != b[j]
      {
        assert s[i] != s[|a| + j];
      }
      forall i, j | 0 <= i < j < |b|
        ensures b[i] != b[j]
      {
        assert s[|a| + i] != s[|a| + j];
      }
      forall i, j | 0 <= i < j < |a|
        ensures a[i] != a[j]
      {
        assert s[i] != s[j];
      }
    }
  }

  lemma ApartConcat(a: seq<string>, b: seq<string>, c: seq<string>)
    ensures Apart(a + b, c) <==> Apart(a, c) && Apart(b, c)
  {
    var s := a + b;
    assert forall i :: 0 <= i < |b| ==> s[|a| + i] == b[i];
    assert forall i :: 0 <= i < |a| ==> s[i] == a[i];
    if Apart(s, c) {
      forall i, j | 0 <= i < |b| && 0 <= j < |c|
        ensures b[i] != c[j]
      {
        assert s[|a| + i] != c[j];
      }
    }
  }

  lemma FourDistinct(a: seq<string>, b: seq<string>, c: seq<string>, d: seq<string>)
    ensures Distinct(a + b + c + d) <==>
      && Distinct(a) && Distinct(b) && Distinct(c) && Distinct(d)
      && Apart(a, b) && Apart(a, c) && Apart(b, c) && Apart(a, d) && Apart(b, d) && Apart(c, d)
  {
    hide Distinct, Apart;
    DistinctConcat(a + b + c, d);
    DistinctConcat(a + b, c);
    DistinctConcat(a, b);
    ApartConcat(a, b, c);
    ApartConcat(a + b, c, d);
    ApartConcat(a, b, d);
  }

  lemma DistinctExactly(c: Content)
    ensures Distinct(ItemIds(c)) <==> AllDistinct(c)
  {
    var p := seq(|c.requirements|, i requires 0 <= i < |c.requirements| => c.requirements[i].id);
    var q := seq(|c.milestones|, i requires 0 <= i < |c.milestones| => c.milestones[i].id);
    var r := seq(|c.board|, i requires 0 <= i < |c.board| => c.board[i].id);
    var s := seq(|c.notes|, i requires 0 <= i < |c.notes| => c.notes[i].id);
    assert ItemIds(c) == p + q + r + s;
    FourDistinct(p, q, r, s);
    hide ItemIds;
    assert forall i :: 0 <= i < |p| ==> p[i] == c.requirements[i].id;
    assert forall i :: 0 <= i < |q| ==> q[i] == c.milestones[i].id;
    assert forall i :: 0 <= i < |r| ==> r[i] == c.board[i].id;
    assert forall i :: 0 <= i < |s| ==> s[i] == c.notes[i].id;
  }

  /** The sanitiser gives exactly what follows from its input, and refuses exactly when nothing does. */
  lemma SanitizeExactly(raw: Raw, env: Env, c: Content)
    ensures Sanitize(raw, env) == Some(c) <==> Follows(raw, env, c)
  {
    if Sanitize(raw, env) == Some(c) { SanitizedFollows(raw, env, c); }
    if Follows(raw, env, c) { FollowsSanitized(raw, env, c); }
  }

  lemma SanitizedFollows(raw: Raw, env: Env, c: Content)
    requires Sanitize(raw, env) == Some(c)
    ensures Follows(raw, env, c)
  {
    hide Sanitize, RequiredText, OptionalText, ValueFrom, CleanRequirement, CleanMilestone, CleanItem, CleanNote, Given,
         MayBeGiven, Chosen, RequirementFollows, MilestoneFollows, ItemFollows, NoteFollows, Distinct, ItemIds,
         AllDistinct;
    SanitizedParts(raw, env, c);
    SanitizedItems(raw, env, c);
    TextExactly(raw.name, 256, c.name);
    TextExactly(raw.description, 16000, c.description);
    ChoiceExactly(raw.status, c.status);
    DistinctExactly(c);
    forall i | 0 <= i < |c.requirements|
      ensures RequirementFollows(raw.requirements[i], i, env, c.requirements[i])
    {
      RequirementExactly(raw.requirements[i], i, env, c.requirements[i]);
    }
    forall i | 0 <= i < |c.milestones|
      ensures MilestoneFollows(raw.milestones[i], i, env, c.milestones[i])
    {
      MilestoneExactly(raw.milestones[i], i, env, c.milestones[i]);
    }
    forall i | 0 <= i < |c.board|
      ensures ItemFollows(raw.board[i], i, env, c.board[i])
    {
      ItemExactly(raw.board[i], i, env, c.board[i]);
    }
    forall i | 0 <= i < |c.notes|
      ensures NoteFollows(raw.notes[i], i, env, c.notes[i])
    {
      NoteExactly(raw.notes[i], i, env, c.notes[i]);
    }
  }

  lemma SanitizedItems(raw: Raw, env: Env, c: Content)
    requires Sanitize(raw, env) == Some(c)
    ensures |c.requirements| == |raw.requirements| && |c.milestones| == |raw.milestones|
    ensures |c.board| == |raw.board| && |c.notes| == |raw.notes|
    ensures forall i :: 0 <= i < |c.requirements| ==>
      CleanRequirement(raw.requirements[i], i, env) == Some(c.requirements[i])
    ensures forall i :: 0 <= i < |c.milestones| ==> CleanMilestone(raw.milestones[i], i, env) == Some(c.milestones[i])
    ensures forall i :: 0 <= i < |c.board| ==> CleanItem(raw.board[i], i, env) == Some(c.board[i])
    ensures forall i :: 0 <= i < |c.notes| ==> CleanNote(raw.notes[i], i, env) == Some(c.notes[i])
    ensures ValueFrom(raw.status, STATUSES, "planned") == c.status
  {
    hide CleanRequirement, CleanMilestone, CleanItem, CleanNote, RequiredText, OptionalText, ItemIds, Distinct,
         ValueFrom;
  }

  lemma FollowsSanitized(raw: Raw, env: Env, c: Content)
    requires Follows(raw, env, c)
    ensures Sanitize(raw, env) == Some(c)
  {
    hide Sanitize, RequiredText, OptionalText, ValueFrom, CleanRequirement, CleanMilestone, CleanItem, CleanNote, Given,
         MayBeGiven, Chosen, RequirementFollows, MilestoneFollows, ItemFollows, NoteFollows, Distinct, ItemIds,
         AllDistinct;
    TextExactly(raw.name, 256, c.name);
    TextExactly(raw.description, 16000, c.description);
    ChoiceExactly(raw.status, c.status);
    DistinctExactly(c);
    forall i | 0 <= i < |c.requirements|
      ensures CleanRequirement(raw.requirements[i], i, env) == Some(c.requirements[i])
    {
      RequirementExactly(raw.requirements[i], i, env, c.requirements[i]);
    }
    forall i | 0 <= i < |c.milestones|
      ensures CleanMilestone(raw.milestones[i], i, env) == Some(c.milestones[i])
    {
      MilestoneExactly(raw.milestones[i], i, env, c.milestones[i]);
    }
    forall i | 0 <= i < |c.board|
      ensures CleanItem(raw.board[i], i, env) == Some(c.board[i])
    {
      ItemExactly(raw.board[i], i, env, c.board[i]);
    }
    forall i | 0 <= i < |c.notes|
      ensures CleanNote(raw.notes[i], i, env) == Some(c.notes[i])
    {
      NoteExactly(raw.notes[i], i, env, c.notes[i]);
    }
    Rebuilt(raw, env, c);
  }
}
