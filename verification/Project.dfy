/** Project documents of the workspace and the sanitiser every stored one has been through. */
module Project {
  import opened Common
  import opened Text

  datatype Requirement = Requirement(id: string, text: string, status: string)
  datatype Milestone = Milestone(id: string, title: string, target: Option<string>, status: string)
  datatype BoardItem = BoardItem(id: string, title: string, detail: string, column: string)
  datatype Note = Note(id: string, text: string, createdAt: string)
  datatype Attachment = Attachment(id: string, filename: string, mediaType: string, size: nat, sha256: string)

  datatype Content = Content(
    name: string,
    description: string,
    status: string,
    requirements: seq<Requirement>,
    milestones: seq<Milestone>,
    board: seq<BoardItem>,
    notes: seq<Note>)

  datatype Document = Document(
    id: string,
    revision: nat,
    content: Content,
    attachments: seq<Attachment>,
    createdAt: string,
    updatedAt: string)

  datatype RawRequirement = RawRequirement(id: Field, text: Field, status: Field)
  datatype RawMilestone = RawMilestone(id: Field, title: Field, target: Field, status: Field)
  datatype RawItem = RawItem(id: Field, title: Field, detail: Field, column: Field)
  datatype RawNote = RawNote(id: Field, text: Field, createdAt: Field)

  datatype Raw = Raw(
    name: Field,
    description: Field,
    status: Field,
    requirements: seq<RawRequirement>,
    milestones: seq<RawMilestone>,
    board: seq<RawItem>,
    notes: seq<RawNote>)

  /** The clock, the date parser and the identifier source a request sees. */
  datatype Env = Env(now: string, iso: string -> Option<string>, newId: (string, nat) -> string)

  const STATUSES: set<string> := {"planned", "active", "complete", "archived"}
  const ITEM_STATUSES: set<string> := {"planned", "active", "complete", "blocked"}
  const COLUMNS: set<string> := {"backlog", "ready", "active", "review", "done"}

  function RequiredText(f: Field, max: nat): Option<string> {
    if !f.Text? || Trim(f.text) == "" || |Trim(f.text)| > max then None else Some(Trim(f.text))
  }

  function OptionalText(f: Field, max: nat): Option<string> {
    match f
    case Null => Some("")
    case Other => None
    case Text(s) => if |Trim(s)| > max then None else Some(Trim(s))
  }

  function ValueFrom(f: Field, allowed: set<string>, fallback: string): string {
    if f.Text? && f.text in allowed then f.text else fallback
  }

  predicate Hex(c: char) {
    '0' <= c <= '9' || 'a' <= c <= 'f'
  }

  predicate IsId(prefix: string, id: string) {
    && |id| == |prefix| + 33 && id[..|prefix|] == prefix && id[|prefix|] == ':'
    && forall i :: |prefix| < i < |id| ==> Hex(id[i])
  }

  function IdFrom(f: Field, prefix: string, index: nat, env: Env): string {
    if f.Text? && IsId(prefix, f.text) then f.text else env.newId(prefix, index)
  }

  predicate IsDate(s: string) {
    |s| == 10 && s[4] == '-' && s[7] == '-' && forall i :: 0 <= i < 10 && i != 4 && i != 7 ==> '0' <= s[i] <= '9'
  }

  function CleanRequirement(r: RawRequirement, index: nat, env: Env): Option<Requirement> {
    match RequiredText(r.text, 4000)
    case None => None
    case Some(text) =>
      Some(Requirement(IdFrom(r.id, "requirement", index, env), text, ValueFrom(r.status, ITEM_STATUSES, "planned")))
  }

  function CleanMilestone(m: RawMilestone, index: nat, env: Env): Option<Milestone> {
    if m.target.Other? || (m.target.Text? && !IsDate(m.target.text)) then None else
      match RequiredText(m.title, 256)
      case None => None
      case Some(title) =>
        Some(Milestone(IdFrom(m.id, "milestone", index, env), title,
                       if m.target.Text? then Some(m.target.text) else None,
                       ValueFrom(m.status, ITEM_STATUSES, "planned")))
  }

  function CleanItem(b: RawItem, index: nat, env: Env): Option<BoardItem> {
    var title, detail := RequiredText(b.title, 256), OptionalText(b.detail, 4000);
    if title.None? || detail.None? then None
    else
      Some(BoardItem(IdFrom(b.id, "board", index, env), title.value, detail.value,
                     ValueFrom(b.column, COLUMNS, "backlog")))
  }

  function CleanNote(n: RawNote, index: nat, env: Env): Option<Note> {
    var created := if n.createdAt.Text? then env.iso(n.createdAt.text) else None;
    match RequiredText(n.text, 16000)
    case None => None
    case Some(text) =>
      Some(Note(IdFrom(n.id, "note", index, env), text, if created.Some? then created.value else env.now))
  }

  /** Cleans every item, failing if one fails. */
  function Clean<A, B>(items: seq<A>, f: (A, nat) -> Option<B>): (r: Option<seq<B>>)
    ensures r.Some? <==> forall i :: 0 <= i < |items| ==> f(items[i], i).Some?
    ensures r.Some? ==> |r.value| == |items| && forall i :: 0 <= i < |items| ==> f(items[i], i) == Some(r.value[i])
  {
    if items == [] then Some([]) else
      var n := |items| - 1;
      var rest, last := Clean(items[..n], f), f(items[n], n);
      if rest.None? || last.None? then None else Some(rest.value + [last.value])
  }

  function ItemIds(c: Content): seq<string> {
    seq(|c.requirements|, i requires 0 <= i < |c.requirements| => c.requirements[i].id) +
    seq(|c.milestones|, i requires 0 <= i < |c.milestones| => c.milestones[i].id) +
    seq(|c.board|, i requires 0 <= i < |c.board| => c.board[i].id) +
    seq(|c.notes|, i requires 0 <= i < |c.notes| => c.notes[i].id)
  }

  function Sanitize(raw: Raw, env: Env): Option<Content> {
    if |raw.requirements| > 500 || |raw.milestones| > 200 || |raw.board| > 1000 || |raw.notes| > 1000 then None else
      var requirements := Clean(raw.requirements, (r, i) => CleanRequirement(r, i, env));
      var milestones := Clean(raw.milestones, (m, i) => CleanMilestone(m, i, env));
      var board := Clean(raw.board, (b, i) => CleanItem(b, i, env));
      var notes := Clean(raw.notes, (n, i) => CleanNote(n, i, env));
      var name, description := RequiredText(raw.name, 256), OptionalText(raw.description, 16000);
      if requirements.None? || milestones.None? || board.None? || notes.None? then None
      else if name.None? || description.None? then None
      else
        var content := Content(name.value, description.value, ValueFrom(raw.status, STATUSES, "planned"),
                               requirements.value, milestones.value, board.value, notes.value);
        if Distinct(ItemIds(content)) then Some(content) else None
  }

  /** A document written out and read back field by field, as an export carries it. */
  function AsRaw(c: Content): Raw {
    Raw(Text(c.name), Text(c.description), Text(c.status),
        seq(|c.requirements|, i requires 0 <= i < |c.requirements| =>
          RawRequirement(Text(c.requirements[i].id), Text(c.requirements[i].text), Text(c.requirements[i].status))),
        seq(|c.milestones|, i requires 0 <= i < |c.milestones| =>
          RawMilestone(Text(c.milestones[i].id), Text(c.milestones[i].title),
                       if c.milestones[i].target.Some? then Text(c.milestones[i].target.value) else Null,
                       Text(c.milestones[i].status))),
        seq(|c.board|, i requires 0 <= i < |c.board| =>
          RawItem(Text(c.board[i].id), Text(c.board[i].title), Text(c.board[i].detail), Text(c.board[i].column))),
        seq(|c.notes|, i requires 0 <= i < |c.notes| =>
          RawNote(Text(c.notes[i].id), Text(c.notes[i].text), Text(c.notes[i].createdAt))))
  }

  /** Normalising a date twice is normalising it once, now is normal, and fresh identifiers have the right form. */
  ghost predicate Sound(env: Env) {
    && (forall s :: env.iso(s).Some? ==> env.iso(env.iso(s).value) == env.iso(s))
    && env.iso(env.now) == Some(env.now)
    && (forall prefix, i :: IsId(prefix, env.newId(prefix, i)))
  }

  lemma RequiredTwice(f: Field, max: nat)
    requires RequiredText(f, max).Some?
    ensures RequiredText(Text(RequiredText(f, max).value), max) == RequiredText(f, max)
  {
    hide Trim;
    Trimmed(f.text);
  }

  lemma OptionalTwice(f: Field, max: nat)
    requires OptionalText(f, max).Some?
    ensures OptionalText(Text(OptionalText(f, max).value), max) == OptionalText(f, max)
  {
    hide Trim;
    if f.Text? { Trimmed(f.text); } else { Trimmed(""); }
  }

  lemma RequirementTwice(r: RawRequirement, index: nat, env: Env, other: Env)
    requires Sound(env) && CleanRequirement(r, index, env).Some?
    ensures var c := CleanRequirement(r, index, env).value;
      CleanRequirement(RawRequirement(Text(c.id), Text(c.text), Text(c.status)), index, other) == Some(c)
  {
    hide RequiredText, IsId;
    RequiredTwice(r.text, 4000);
  }

  lemma MilestoneTwice(m: RawMilestone, index: nat, env: Env, other: Env)
    requires Sound(env) && CleanMilestone(m, index, env).Some?
    ensures var c := CleanMilestone(m, index, env).value;
      CleanMilestone(RawMilestone(Text(c.id), Text(c.title),
                                  if c.target.Some? then Text(c.target.value) else Null, Text(c.status)),
                     index, other) == Some(c)
  {
    hide RequiredText, IsId, IsDate;
    RequiredTwice(m.title, 256);
  }

  lemma ItemTwice(b: RawItem, index: nat, env: Env, other: Env)
    requires Sound(env) && CleanItem(b, index, env).Some?
    ensures var c := CleanItem(b, index, env).value;
      CleanItem(RawItem(Text(c.id), Text(c.title), Text(c.detail), Text(c.column)), index, other) == Some(c)
  {
    hide RequiredText, OptionalText, IsId;
    RequiredTwice(b.title, 256);
    OptionalTwice(b.detail, 4000);
  }

  lemma NoteTwice(n: RawNote, index: nat, env: Env, other: Env)
    requires Sound(env) && other.iso == env.iso && CleanNote(n, index, env).Some?
    ensures var c := CleanNote(n, index, env).value;
      CleanNote(RawNote(Text(c.id), Text(c.text), Text(c.createdAt)), index, other) == Some(c)
  {
    hide RequiredText, IsId;
    RequiredTwice(n.text, 16000);
  }

  lemma ItemsTwice(raw: Raw, env: Env, other: Env, c: Content)
    requires Sound(env) && other.iso == env.iso && Sanitize(raw, env) == Some(c)
    ensures forall i :: 0 <= i < |c.requirements| ==>
      CleanRequirement(AsRaw(c).requirements[i], i, other) == Some(c.requirements[i])
    ensures forall i :: 0 <= i < |c.milestones| ==>
      CleanMilestone(AsRaw(c).milestones[i], i, other) == Some(c.milestones[i])
    ensures forall i :: 0 <= i < |c.board| ==> CleanItem(AsRaw(c).board[i], i, other) == Some(c.board[i])
    ensures forall i :: 0 <= i < |c.notes| ==> CleanNote(AsRaw(c).notes[i], i, other) == Some(c.notes[i])
  {
    hide CleanRequirement, CleanMilestone, CleanItem, CleanNote, RequiredText, OptionalText, Distinct, ItemIds;
    forall i | 0 <= i < |c.requirements|
      ensures CleanRequirement(AsRaw(c).requirements[i], i, other) == Some(c.requirements[i])
    {
      RequirementTwice(raw.requirements[i], i, env, other);
    }
    forall i | 0 <= i < |c.milestones|
      ensures CleanMilestone(AsRaw(c).milestones[i], i, other) == Some(c.milestones[i])
    {
      MilestoneTwice(raw.milestones[i], i, env, other);
    }
    forall i | 0 <= i < |c.board|
      ensures CleanItem(AsRaw(c).board[i], i, other) == Some(c.board[i])
    {
      ItemTwice(raw.board[i], i, env, other);
    }
    forall i | 0 <= i < |c.notes|
      ensures CleanNote(AsRaw(c).notes[i], i, other) == Some(c.notes[i])
    {
      NoteTwice(raw.notes[i], i, env, other);
    }
  }

  /** Sanitising what a sanitised document exports gives the same content, whenever and with whatever fresh ids. */
  lemma SanitizeIdempotent(raw: Raw, env: Env, other: Env)
    requires Sound(env) && other.iso == env.iso && Sanitize(raw, env).Some?
    ensures Sanitize(AsRaw(Sanitize(raw, env).value), other) == Sanitize(raw, env)
  {
    hide Sanitize, RequiredText, OptionalText, ValueFrom, ItemIds, Distinct, CleanRequirement, CleanMilestone,
         CleanItem, CleanNote;
    var c := Sanitize(raw, env).value;
    ItemsTwice(raw, env, other, c);
    SanitizedParts(raw, env, c);
    RequiredTwice(raw.name, 256);
    OptionalTwice(raw.description, 16000);
    Rebuilt(AsRaw(c), other, c);
  }

  lemma SanitizedParts(raw: Raw, env: Env, c: Content)
    requires Sanitize(raw, env) == Some(c)
    ensures |c.requirements| <= 500 && |c.milestones| <= 200 && |c.board| <= 1000 && |c.notes| <= 1000
    ensures RequiredText(raw.name, 256) == Some(c.name) && OptionalText(raw.description, 16000) == Some(c.description)
    ensures ValueFrom(Text(c.status), STATUSES, "planned") == c.status && Distinct(ItemIds(c))
  {
    hide CleanRequirement, CleanMilestone, CleanItem, CleanNote, RequiredText, OptionalText, ItemIds, Distinct;
  }

  lemma Rebuilt(raw: Raw, env: Env, c: Content)
    requires |raw.requirements| == |c.requirements| <= 500 && |raw.milestones| == |c.milestones| <= 200
    requires |raw.board| == |c.board| <= 1000 && |raw.notes| == |c.notes| <= 1000
    requires forall i :: 0 <= i < |c.requirements| ==>
      CleanRequirement(raw.requirements[i], i, env) == Some(c.requirements[i])
    requires forall i :: 0 <= i < |c.milestones| ==> CleanMilestone(raw.milestones[i], i, env) == Some(c.milestones[i])
    requires forall i :: 0 <= i < |c.board| ==> CleanItem(raw.board[i], i, env) == Some(c.board[i])
    requires forall i :: 0 <= i < |c.notes| ==> CleanNote(raw.notes[i], i, env) == Some(c.notes[i])
    requires RequiredText(raw.name, 256) == Some(c.name) && OptionalText(raw.description, 16000) == Some(c.description)
    requires ValueFrom(raw.status, STATUSES, "planned") == c.status && Distinct(ItemIds(c))
    ensures Sanitize(raw, env) == Some(c)
  {
    hide CleanRequirement, CleanMilestone, CleanItem, CleanNote, RequiredText, OptionalText, ItemIds, Distinct;
    assert Clean(raw.requirements, (r, i) => CleanRequirement(r, i, env)).value == c.requirements;
    assert Clean(raw.milestones, (m, i) => CleanMilestone(m, i, env)).value == c.milestones;
    assert Clean(raw.board, (b, i) => CleanItem(b, i, env)).value == c.board;
    assert Clean(raw.notes, (n, i) => CleanNote(n, i, env)).value == c.notes;
  }

  datatype RawAttachment = RawAttachment(id: Field, filename: Field, mediaType: Field, size: Option<int>, sha256: Field)

  const MAX_ATTACHMENT_BYTES := 1_000_000
  const MAX_PROJECT_ATTACHMENT_BYTES := 2_000_000
  const MAX_ENCODED := 1_400_000

  predicate Portable(name: string) {
    name != "." && name != ".." && forall c :: c in name ==> c != '/' && c != '\\' && c as int >= 32 && c as int != 127
  }

  function PortableFilename(f: Field): Option<string> {
    match RequiredText(f, 255)
    case None => None
    case Some(name) => if Portable(name) then Some(name) else None
  }

  function MediaType(f: Field): Option<string> {
    match OptionalText(f, 128)
    case None => None
    case Some(t) => Some(if t == "" then "application/octet-stream" else t)
  }

  function Total(attachments: seq<Attachment>): nat {
    if attachments == [] then 0 else Total(attachments[..|attachments| - 1]) + attachments[|attachments| - 1].size
  }

  function AsRawAttachment(a: Attachment): RawAttachment {
    RawAttachment(Text(a.id), Text(a.filename), Text(a.mediaType), Some(a.size), Text(a.sha256))
  }

  predicate CleanAttachment(a: Attachment) {
    && IsId("attachment", a.id) && PortableFilename(Text(a.filename)) == Some(a.filename) &&
      MediaType(Text(a.mediaType)) == Some(a.mediaType)
    && 1 <= a.size <= MAX_ATTACHMENT_BYTES
  }

  lemma FilenameTwice(f: Field)
    requires PortableFilename(f).Some?
    ensures PortableFilename(Text(PortableFilename(f).value)) == PortableFilename(f)
  {
    hide RequiredText, Portable;
    RequiredTwice(f, 255);
  }

  lemma MediaTypeTwice(f: Field)
    requires MediaType(f).Some?
    ensures MediaType(Text(MediaType(f).value)) == MediaType(f)
  {
    hide Trim;
    OptionalTwice(f, 128);
    Trimmed("application/octet-stream");
  }

  function AttachmentIds(attachments: seq<Attachment>): seq<string> {
    seq(|attachments|, i requires 0 <= i < |attachments| => attachments[i].id)
  }

  /** What every stored document satisfies; env gives the date parser. */
  predicate WellStored(d: Document, env: Env) {
    && Sanitize(AsRaw(d.content), env) == Some(d.content)
    && Total(d.attachments) <= MAX_PROJECT_ATTACHMENT_BYTES
    && forall a :: a in d.attachments ==> CleanAttachment(a)
  }
}
