/** The JSON of an export: how a project is written out, and how an importer reads and checks whatever it is given. */
module Bundles {
  import opened Common
  import opened Project
  import opened Sorting
  import Base64
  import Json

  type Value = Json.Value

  /** The order in which the digest takes the keys of an object, and the digest of a value in that order. */
  datatype Seal = Seal(le: (string, string) -> bool, hash: Value -> string)

  function Str(s: string): Value {
    Json.Value.Text(s)
  }

  function Record(keys: seq<string>, values: seq<Value>): Value
    requires |keys| == |values|
  {
    Json.Object(seq(|keys|, i requires 0 <= i < |keys| => (keys[i], values[i])))
  }

  /** What an object holds under a key; anything else holds nothing. */
  function At(v: Value, k: string): Option<Value> {
    if v.Object? && k in Json.Keys(v.entries) then Some(v.entries[Json.IndexOf(Json.Keys(v.entries), k)].1) else None
  }

  function AsField(v: Option<Value>): Field {
    match v
    case None => Null
    case Some(value) => if value.Null? then Null else if value.Text? then Text(value.s) else Other
  }

  function FieldAt(v: Value, k: string): Field {
    AsField(At(v, k))
  }

  /** A list, empty if absent. */
  function ItemsAt(v: Value, k: string): Option<seq<Value>> {
    match At(v, k)
    case None => Some([])
    case Some(value) => if value.Null? then Some([]) else if value.List? then Some(value.items) else None
  }

  function SizeAt(v: Value, k: string): Option<int> {
    match At(v, k)
    case None => None
    case Some(value) => if value.Number? && value.n == value.n.Floor as real then Some(value.n.Floor) else None
  }

  predicate IsObject(v: Option<Value>) {
    v.Some? && (v.value.Object? || v.value.List?)
  }

  const REQUIREMENT_KEYS: seq<string> := ["id", "text", "status"]
  const MILESTONE_KEYS: seq<string> := ["id", "title", "target_date", "status"]
  const ITEM_KEYS: seq<string> := ["id", "title", "detail", "column"]
  const NOTE_KEYS: seq<string> := ["id", "text", "created_at"]
  const ATTACHMENT_KEYS: seq<string> := ["id", "filename", "media_type", "size_bytes", "sha256"]
  const PROJECT_KEYS: seq<string> := [
    "name", "description", "status", "requirements", "milestones", "board", "notes", "attachments",
    "schema_version", "id", "revision", "created_at", "updated_at", "model_call", "model_tokens"]
  const PAYLOAD_KEYS: seq<string> := ["schema_version", "project", "attachment_content"]
  const EXPORT_KEYS: seq<string> := ["schema_version", "project", "attachment_content", "export_sha256"]

  const PROJECT_SCHEMA := "project-workspace-v1"
  const EXPORT_SCHEMA := "project-workspace-export-v1"

  function RequirementValue(r: Requirement): Value {
    Record(REQUIREMENT_KEYS, [Str(r.id), Str(r.text), Str(r.status)])
  }

  function MilestoneValue(m: Milestone): Value {
    Record(MILESTONE_KEYS,
      [Str(m.id), Str(m.title), if m.target.Some? then Str(m.target.value) else Json.Value.Null, Str(m.status)])
  }

  function ItemValue(b: BoardItem): Value {
    Record(ITEM_KEYS, [Str(b.id), Str(b.title), Str(b.detail), Str(b.column)])
  }

  function NoteValue(n: Note): Value {
    Record(NOTE_KEYS, [Str(n.id), Str(n.text), Str(n.createdAt)])
  }

  function AttachmentValue(a: Attachment): Value {
    Record(ATTACHMENT_KEYS, [Str(a.id), Str(a.filename), Str(a.mediaType), Json.Number(a.size as real), Str(a.sha256)])
  }

  function ListOf<T>(items: seq<T>, write: T -> Value): Value {
    Json.List(seq(|items|, i requires 0 <= i < |items| => write(items[i])))
  }

  function ProjectValues(d: Document): (r: seq<Value>)
    ensures |r| == |PROJECT_KEYS|
  {
    var c := d.content;
    [Str(c.name), Str(c.description), Str(c.status), ListOf(c.requirements, RequirementValue),
     ListOf(c.milestones, MilestoneValue),
     ListOf(c.board, ItemValue), ListOf(c.notes, NoteValue), ListOf(d.attachments, AttachmentValue),
     Str(PROJECT_SCHEMA), Str(d.id), Json.Number(d.revision as real), Str(d.createdAt), Str(d.updatedAt),
     Str("NO MODEL CALL"), Json.Number(0.0)]
  }

  function ProjectValue(d: Document): Value {
    Record(PROJECT_KEYS, ProjectValues(d))
  }

  function Payload(project: Value, contents: Value): Value {
    Record(PAYLOAD_KEYS, [Str(EXPORT_SCHEMA), project, contents])
  }

  function DigestOf(payload: Value, seal: Seal): string {
    seal.hash(Json.Stable(payload, seal.le))
  }

  /** A payload with its digest. */
  function Sealed(project: Value, contents: Value, seal: Seal): Value {
    Record(EXPORT_KEYS, [Str(EXPORT_SCHEMA), project, contents, Str(DigestOf(Payload(project, contents), seal))])
  }

  /** Identifiers in the order of their first occurrence. */
  function Names(ids: seq<string>): (r: seq<string>)
    ensures Distinct(r) && |r| <= |ids| && forall id :: id in r <==> id in ids
    ensures |r| == |ids| <==> Distinct(ids)
  {
    if ids == [] then [] else
      var n := |ids| - 1;
      var rest := Names(ids[..n]);
      assert ids == ids[..n] + [ids[n]];
      DistinctLast(ids[..n], ids[n]);
      DistinctLast(rest, ids[n]);
      if ids[n] in rest then rest else rest + [ids[n]]
  }

  lemma DistinctLast(rest: seq<string>, last: string)
    ensures Distinct(rest + [last]) <==> Distinct(rest) && last !in rest
  {
    var all := rest + [last];
    if Distinct(all) {
      assert forall i :: 0 <= i < |rest| ==> all[i] == rest[i] && all[|rest|] == last;
    }
  }

  function BytesAt(bytes: map<string, Bytes>, id: string): Bytes {
    if id in bytes then bytes[id] else []
  }

  function ContentsValue(ids: seq<string>, bytes: map<string, Bytes>): Value {
    var names := Names(ids);
    Record(names, seq(|names|, i requires 0 <= i < |names| => Str(Base64.Encode(BytesAt(bytes, names[i])))))
  }

  /** Assignment to a key of an object: an existing key keeps its place. */
  function Assign(entries: seq<(string, Value)>, k: string, v: Value): seq<(string, Value)> {
    if k in Json.Keys(entries) then entries[Json.IndexOf(Json.Keys(entries), k) := (k, v)] else entries + [(k, v)]
  }

  lemma AssignContents(ids: seq<string>, bytes: map<string, Bytes>, id: string, read: Bytes)
    ensures ContentsValue(ids + [id], bytes[id := read]) ==
      Json.Object(Assign(ContentsValue(ids, bytes).entries, id, Str(Base64.Encode(read))))
  {
    hide Base64.Encode;
    var names := Names(ids);
    assert (ids + [id])[..|ids|] == ids;
    assert Names(ids + [id]) == if id in names then names else names + [id];
    var before, after := ContentsValue(ids, bytes).entries, ContentsValue(ids + [id], bytes[id := read]).entries;
    assert Json.Keys(before) == names;
    if id in names { Json.IndexUnique(names, Json.IndexOf(names, id)); }
    assert forall i :: 0 <= i < |names| && names[i] == id ==> i == Json.IndexOf(names, id);
    assert after == Assign(before, id, Str(Base64.Encode(read)));
  }

  /** What exportProject answers for a document and the bytes of its attachments. */
  function ExportedValue(d: Document, bytes: map<string, Bytes>, seal: Seal): Value {
    Sealed(ProjectValue(d), ContentsValue(AttachmentIds(d.attachments), bytes), seal)
  }

  function ReadRequirement(v: Value): RawRequirement {
    RawRequirement(FieldAt(v, "id"), FieldAt(v, "text"), FieldAt(v, "status"))
  }

  function ReadMilestone(v: Value): RawMilestone {
    RawMilestone(FieldAt(v, "id"), FieldAt(v, "title"), FieldAt(v, "target_date"), FieldAt(v, "status"))
  }

  function ReadItem(v: Value): RawItem {
    RawItem(FieldAt(v, "id"), FieldAt(v, "title"), FieldAt(v, "detail"), FieldAt(v, "column"))
  }

  function ReadNote(v: Value): RawNote {
    RawNote(FieldAt(v, "id"), FieldAt(v, "text"), FieldAt(v, "created_at"))
  }

  function ReadAttachment(v: Value): RawAttachment {
    RawAttachment(FieldAt(v, "id"), FieldAt(v, "filename"), FieldAt(v, "media_type"), SizeAt(v, "size_bytes"),
      FieldAt(v, "sha256"))
  }

  function ReadAll<T>(items: seq<Value>, read: Value -> T): seq<T> {
    seq(|items|, i requires 0 <= i < |items| => read(items[i]))
  }

  /** The fields of a project the sanitiser looks at; None if one of its lists is no list. */
  function ReadProject(v: Value): Option<Raw> {
    var r, m, b, n := ItemsAt(v, "requirements"), ItemsAt(v, "milestones"), ItemsAt(v, "board"), ItemsAt(v, "notes");
    if r.None? || m.None? || b.None? || n.None? then None
    else Some(Raw(FieldAt(v, "name"), FieldAt(v, "description"), FieldAt(v, "status"),
      ReadAll(r.value, ReadRequirement),
                  ReadAll(m.value, ReadMilestone), ReadAll(b.value, ReadItem), ReadAll(n.value, ReadNote)))
  }

  function ReadContents(v: Value): map<string, Field> {
    if v.Object? then map k | k in Json.Keys(v.entries) :: FieldAt(v, k) else map[]
  }

  function KeyCount(v: Value): nat {
    if v.Object? then |v.entries| else if v.List? then |v.items| else 0
  }

  /** An import after its shape and its digest have been checked; entries counts the keys of its contents. */
  datatype Bundle = Bundle(project: Raw, attachments: seq<RawAttachment>, contents: map<string, Field>, entries: nat)

  function ReadParts(project: Value, contents: Value): Option<Bundle> {
    var raw, attachments := ReadProject(project), ItemsAt(project, "attachments");
    if raw.None? || attachments.None? then None
    else Some(Bundle(raw.value, ReadAll(attachments.value, ReadAttachment), ReadContents(contents), KeyCount(contents)))
  }

  function ReadBundle(v: Value, seal: Seal): Option<Bundle> {
    var project, contents := At(v, "project"), At(v, "attachment_content");
    if FieldAt(v, "schema_version") != Text(EXPORT_SCHEMA) || !IsObject(project) || !IsObject(contents) then None
    else if FieldAt(v, "export_sha256") != Text(DigestOf(Payload(project.value, contents.value), seal)) then None
    else ReadParts(project.value, contents.value)
  }

  /** The keys an export can have. */
  predicate ExportName(k: string) {
    k in REQUIREMENT_KEYS || k in MILESTONE_KEYS || k in ITEM_KEYS || k in NOTE_KEYS || k in ATTACHMENT_KEYS ||
    k in PROJECT_KEYS || k in PAYLOAD_KEYS || k in EXPORT_KEYS || IsId("attachment", k)
  }

  /** An order on keys that ranks no two of them equal. */
  ghost predicate TellsApart(le: (string, string) -> bool) {
    TotalPreorder(le) && forall k, m :: ExportName(k) && ExportName(m) && le(k, m) && le(m, k) ==> k == m
  }

  lemma RecordAt(keys: seq<string>, values: seq<Value>, i: nat)
    requires |keys| == |values| && Distinct(keys) && i < |keys|
    ensures At(Record(keys, values), keys[i]) == Some(values[i])
  {
    var v := Record(keys, values);
    assert Json.Keys(v.entries) == keys;
    Json.IndexUnique(keys, i);
  }

  /** Differing in the order of keys only, two values hold alike things under every key. */
  lemma AtSame(v: Value, w: Value, k: string)
    requires Json.Keyed(v) && Json.Keyed(w) && Json.Same(v, w)
    ensures At(v, k).Some? <==> At(w, k).Some?
    ensures At(v, k).Some? ==>
      Json.Keyed(At(v, k).value) && Json.Keyed(At(w, k).value) && Json.Same(At(v, k).value, At(w, k).value)
    ensures FieldAt(v, k) == FieldAt(w, k) && SizeAt(v, k) == SizeAt(w, k)
  {
    if v.Object? {
      var x, y := Json.Keys(v.entries), Json.Keys(w.entries);
      assert k in x <==> k in y by { assert k in multiset(x) <==> k in multiset(y); }
    }
  }

  ghost predicate ItemsSame(x: Option<seq<Value>>, y: Option<seq<Value>>) {
    && (x.Some? <==> y.Some?)
    && (x.Some? ==> |x.value| == |y.value|)
    && (x.Some? ==> forall i :: 0 <= i < |x.value| ==>
          Json.Keyed(x.value[i]) && Json.Keyed(y.value[i]) && Json.Same(x.value[i], y.value[i]))
  }

  lemma ItemsAtSame(v: Value, w: Value, k: string)
    requires Json.Keyed(v) && Json.Keyed(w) && Json.Same(v, w)
    ensures ItemsSame(ItemsAt(v, k), ItemsAt(w, k))
  {
    hide At;
    AtSame(v, w, k);
  }

  ghost predicate Blind<T(!new)>(read: Value -> T) {
    forall v, w :: Json.Keyed(v) && Json.Keyed(w) && Json.Same(v, w) ==> read(v) == read(w)
  }

  lemma ReadAllSame<T(!new)>(x: Option<seq<Value>>, y: Option<seq<Value>>, read: Value -> T)
    requires ItemsSame(x, y) && x.Some? && Blind(read)
    ensures ReadAll(x.value, read) == ReadAll(y.value, read)
  {
    hide Json.Keyed, Json.Same;
  }

  lemma ReadersBlind()
    ensures Blind(ReadRequirement) && Blind(ReadMilestone) && Blind(ReadItem) && Blind(ReadNote)
    ensures Blind(ReadAttachment)
  {
    hide Json.Keyed, Json.Same, FieldAt, SizeAt;
    forall v, w | Json.Keyed(v) && Json.Keyed(w) && Json.Same(v, w)
      ensures ReadRequirement(v) == ReadRequirement(w) && ReadMilestone(v) == ReadMilestone(w)
      ensures ReadItem(v) == ReadItem(w)
      ensures ReadNote(v) == ReadNote(w) && ReadAttachment(v) == ReadAttachment(w)
    {
      AtSame(v, w, "id");
      AtSame(v, w, "text");
      AtSame(v, w, "status");
      AtSame(v, w, "title");
      AtSame(v, w, "target_date");
      AtSame(v, w, "detail");
      AtSame(v, w, "column");
      AtSame(v, w, "created_at");
      AtSame(v, w, "filename");
      AtSame(v, w, "media_type");
      AtSame(v, w, "size_bytes");
      AtSame(v, w, "sha256");
    }
  }

  lemma PartsSame(p: Value, q: Value, c: Value, e: Value)
    requires Json.Keyed(p) && Json.Keyed(q) && Json.Same(p, q) && Json.Keyed(c) && Json.Keyed(e) && Json.Same(c, e)
    ensures ReadParts(p, c) == ReadParts(q, e)
  {
    ProjectSame(p, q);
    ContentsSame(c, e);
  }

  lemma ProjectSame(p: Value, q: Value)
    requires Json.Keyed(p) && Json.Keyed(q) && Json.Same(p, q)
    ensures ReadProject(p) == ReadProject(q)
    ensures ItemsAt(p, "attachments").Some? <==> ItemsAt(q, "attachments").Some?
    ensures ItemsAt(p, "attachments").Some? ==>
      ReadAll(ItemsAt(p, "attachments").value, ReadAttachment) ==
        ReadAll(ItemsAt(q, "attachments").value, ReadAttachment)
  {
    hide Json.Keyed, Json.Same, FieldAt, ItemsAt, ReadAll, Blind;
    ReadersBlind();
    AtSame(p, q, "name");
    AtSame(p, q, "description");
    AtSame(p, q, "status");
    ListSame(p, q, "requirements", ReadRequirement);
    ListSame(p, q, "milestones", ReadMilestone);
    ListSame(p, q, "board", ReadItem);
    ListSame(p, q, "notes", ReadNote);
    ListSame(p, q, "attachments", ReadAttachment);
  }

  lemma ListSame<T(!new)>(p: Value, q: Value, k: string, read: Value -> T)
    requires Json.Keyed(p) && Json.Keyed(q) && Json.Same(p, q) && Blind(read)
    ensures ItemsAt(p, k).Some? <==> ItemsAt(q, k).Some?
    ensures ItemsAt(p, k).Some? ==> ReadAll(ItemsAt(p, k).value, read) == ReadAll(ItemsAt(q, k).value, read)
  {
    hide Json.Keyed, Json.Same, ItemsAt, ReadAll, Blind;
    ItemsAtSame(p, q, k);
    if ItemsAt(p, k).Some? { ReadAllSame(ItemsAt(p, k), ItemsAt(q, k), read); }
  }

  lemma ContentsSame(c: Value, e: Value)
    requires Json.Keyed(c) && Json.Keyed(e) && Json.Same(c, e)
    ensures ReadContents(c) == ReadContents(e) && KeyCount(c) == KeyCount(e)
  {
    if c.Object? {
      var x, y := Json.Keys(c.entries), Json.Keys(e.entries);
      assert |x| == |multiset(x)| && |y| == |multiset(y)|;
      forall k
        ensures (k in x <==> k in y) && FieldAt(c, k) == FieldAt(e, k)
      {
        assert k in multiset(x) <==> k in multiset(y);
        AtSame(c, e, k);
      }
    }
  }

  /** A value whose keys are distinct and told apart, at every depth. */
  predicate Fine(v: Value, le: (string, string) -> bool) {
    Json.Keyed(v) && Json.NoTies(v, le)
  }

  lemma FineRecord(keys: seq<string>, values: seq<Value>, le: (string, string) -> bool)
    requires |keys| == |values| && Distinct(keys) && TellsApart(le)
    requires forall k :: k in keys ==> ExportName(k)
    requires forall i :: 0 <= i < |values| ==> Fine(values[i], le)
    ensures Fine(Record(keys, values), le)
  {
    hide ExportName, TotalPreorder;
    var v := Record(keys, values);
    assert Json.Keys(v.entries) == keys;
    assert Separates(le, keys);
  }

  lemma FineText(le: (string, string) -> bool)
    ensures forall s: string :: Fine(Str(s), le)
    ensures forall n :: Fine(Json.Number(n), le)
    ensures Fine(Json.Value.Null, le)
  {
  }

  lemma FineList<T>(items: seq<T>, write: T -> Value, le: (string, string) -> bool)
    requires forall i :: 0 <= i < |items| ==> Fine(write(items[i]), le)
    ensures Fine(ListOf(items, write), le)
  {
  }

  lemma KeysDistinct()
    ensures Distinct(REQUIREMENT_KEYS) && Distinct(MILESTONE_KEYS) && Distinct(ITEM_KEYS) && Distinct(NOTE_KEYS)
    ensures Distinct(ATTACHMENT_KEYS) && Distinct(PAYLOAD_KEYS) && Distinct(EXPORT_KEYS)
  {
  }

  /** Length and first letters tell the keys of a project apart. */
  function Tag(k: string): int
    requires |k| >= 2
  {
    |k| * 1_0000 + k[0] as int + 2 * k[1] as int
  }

  lemma ProjectKeysDistinct()
    ensures Distinct(PROJECT_KEYS)
  {
    var k := PROJECT_KEYS;
    assert Tag(k[0]) == 40304 && Tag(k[1]) == 110302 && Tag(k[2]) == 60347 && Tag(k[3]) == 120316 &&
      Tag(k[4]) == 100319;
    assert Tag(k[5]) == 50320 && Tag(k[6]) == 50332 && Tag(k[7]) == 110329 && Tag(k[8]) == 140313 && Tag(k[9]) == 20305;
    assert Tag(k[10]) == 80316 && Tag(k[11]) == 100327 && Tag(k[12]) == 100341 && Tag(k[13]) == 100331 &&
      Tag(k[14]) == 120331;
    forall i, j | 0 <= i < j < |k|
      ensures k[i] != k[j]
    {
      assert Tag(k[i]) != Tag(k[j]);
    }
  }

  lemma FineItems(d: Document, le: (string, string) -> bool)
    requires TellsApart(le)
    ensures forall r: Requirement :: Fine(RequirementValue(r), le)
    ensures forall m: Milestone :: Fine(MilestoneValue(m), le)
    ensures forall b: BoardItem :: Fine(ItemValue(b), le)
    ensures forall n: Note :: Fine(NoteValue(n), le)
    ensures forall a: Attachment :: Fine(AttachmentValue(a), le)
  {
    hide Fine, Record, Distinct, TellsApart;
    KeysDistinct();
    FineText(le);
    forall r: Requirement
      ensures Fine(RequirementValue(r), le)
    {
      FineRecord(REQUIREMENT_KEYS, [Str(r.id), Str(r.text), Str(r.status)], le);
    }
    forall m: Milestone
      ensures Fine(MilestoneValue(m), le)
    {
      var target := if m.target.Some? then Str(m.target.value) else Json.Value.Null;
      FineRecord(MILESTONE_KEYS, [Str(m.id), Str(m.title), target, Str(m.status)], le);
    }
    forall b: BoardItem
      ensures Fine(ItemValue(b), le)
    {
      FineRecord(ITEM_KEYS, [Str(b.id), Str(b.title), Str(b.detail), Str(b.column)], le);
    }
    forall n: Note
      ensures Fine(NoteValue(n), le)
    {
      FineRecord(NOTE_KEYS, [Str(n.id), Str(n.text), Str(n.createdAt)], le);
    }
    forall a: Attachment
      ensures Fine(AttachmentValue(a), le)
    {
      FineRecord(ATTACHMENT_KEYS,
        [Str(a.id), Str(a.filename), Str(a.mediaType), Json.Number(a.size as real), Str(a.sha256)], le);
    }
  }

  lemma FineProject(d: Document, le: (string, string) -> bool)
    requires TellsApart(le)
    ensures Fine(ProjectValue(d), le)
  {
    hide Fine, Record, Distinct, TellsApart, RequirementValue, MilestoneValue, ItemValue, NoteValue, AttachmentValue;
    ProjectKeysDistinct();
    FineItems(d, le);
    FineText(le);
    var c := d.content;
    FineList(c.requirements, RequirementValue, le);
    FineList(c.milestones, MilestoneValue, le);
    FineList(c.board, ItemValue, le);
    FineList(c.notes, NoteValue, le);
    FineList(d.attachments, AttachmentValue, le);
    hide ListOf;
    FineRecord(PROJECT_KEYS, ProjectValues(d), le);
  }

  lemma FineSealed(project: Value, contents: Value, seal: Seal)
    requires TellsApart(seal.le) && Fine(project, seal.le) && Fine(contents, seal.le)
    ensures Fine(Payload(project, contents), seal.le) && Fine(Sealed(project, contents, seal), seal.le)
  {
    hide Fine, Record, Distinct, TellsApart, DigestOf;
    KeysDistinct();
    FineText(seal.le);
    FineRecord(PAYLOAD_KEYS, [Str(EXPORT_SCHEMA), project, contents], seal.le);
    FineRecord(EXPORT_KEYS, [Str(EXPORT_SCHEMA), project, contents, Str(DigestOf(Payload(project, contents), seal))],
      seal.le);
  }

  lemma FineContents(ids: seq<string>, bytes: map<string, Bytes>, le: (string, string) -> bool)
    requires TellsApart(le) && forall id :: id in ids ==> IsId("attachment", id)
    ensures Fine(ContentsValue(ids, bytes), le)
  {
    hide Fine, Record, Distinct, TellsApart, IsId, Base64.Encode;
    FineText(le);
    var names := Names(ids);
    FineRecord(names, seq(|names|, i requires 0 <= i < |names| => Str(Base64.Encode(BytesAt(bytes, names[i])))), le);
  }

  /** A checked import does not depend on the order of keys, its digest included. */
  lemma ReadSame(v: Value, w: Value, seal: Seal)
    requires TellsApart(seal.le) && Json.Keyed(v) && Json.Keyed(w) && Json.Same(v, w) && Json.NoTies(v, seal.le)
    ensures ReadBundle(v, seal) == ReadBundle(w, seal)
  {
    hide Json.Keyed, Json.Same, Json.NoTies, FieldAt, SizeAt, At, IsObject, ReadParts, DigestOf, TellsApart, Payload;
    AtSame(v, w, "schema_version");
    AtSame(v, w, "export_sha256");
    AtSame(v, w, "project");
    AtSame(v, w, "attachment_content");
    KindSame(At(v, "project"), At(w, "project"));
    KindSame(At(v, "attachment_content"), At(w, "attachment_content"));
    if At(v, "project").Some? && At(v, "attachment_content").Some? { SamePayload(v, w, seal); }
    ObjectThere(At(v, "project"));
    ObjectThere(At(v, "attachment_content"));
  }

  lemma ObjectThere(v: Option<Value>)
    ensures IsObject(v) ==> v.Some?
  {
  }

  lemma SamePayload(v: Value, w: Value, seal: Seal)
    requires TellsApart(seal.le) && Json.Keyed(v) && Json.Keyed(w) && Json.Same(v, w) && Json.NoTies(v, seal.le)
    requires At(v, "project").Some? && At(v, "attachment_content").Some?
    ensures At(w, "project").Some? && At(w, "attachment_content").Some?
    ensures var p, q := At(v, "project").value, At(w, "project").value;
      var c, e := At(v, "attachment_content").value, At(w, "attachment_content").value;
      DigestOf(Payload(p, c), seal) == DigestOf(Payload(q, e), seal) && ReadParts(p, c) == ReadParts(q, e)
  {
    hide Json.Keyed, Json.Same, Json.NoTies, FieldAt, SizeAt, At, ReadParts, DigestOf, TellsApart, Payload;
    AtSame(v, w, "project");
    AtSame(v, w, "attachment_content");
    AtNoTies(v, "project", seal.le);
    AtNoTies(v, "attachment_content", seal.le);
    var p, q := At(v, "project").value, At(w, "project").value;
    var c, e := At(v, "attachment_content").value, At(w, "attachment_content").value;
    DigestSame(p, q, c, e, seal);
    PartsSame(p, q, c, e);
  }

  lemma KindSame(p: Option<Value>, q: Option<Value>)
    requires p.Some? <==> q.Some?
    requires p.Some? ==> Json.Same(p.value, q.value)
    ensures IsObject(p) <==> IsObject(q)
  {
  }

  lemma AtNoTies(v: Value, k: string, le: (string, string) -> bool)
    requires Json.NoTies(v, le)
    ensures At(v, k).Some? ==> Json.NoTies(At(v, k).value, le)
  {
  }

  lemma RecordSame(keys: seq<string>, xs: seq<Value>, ys: seq<Value>)
    requires |keys| == |xs| == |ys| && Distinct(keys)
    requires forall i :: 0 <= i < |keys| ==> Json.Keyed(xs[i]) && Json.Keyed(ys[i])
    ensures Json.Keyed(Record(keys, xs)) && Json.Keyed(Record(keys, ys))
    ensures Json.Same(Record(keys, xs), Record(keys, ys)) <==> forall i :: 0 <= i < |keys| ==> Json.Same(xs[i], ys[i])
  {
    var x, y := Record(keys, xs).entries, Record(keys, ys).entries;
    assert Json.Keys(x) == keys == Json.Keys(y);
    forall i | 0 <= i < |keys|
      ensures x[i] == (keys[i], xs[i]) && y[i] == (keys[i], ys[i])
    {
    }
    assert forall i, j :: 0 <= i < |keys| && 0 <= j < |keys| && x[i].0 == y[j].0 ==> i == j;
    if Json.Same(Record(keys, xs), Record(keys, ys)) {
      forall i | 0 <= i < |keys|
        ensures Json.Same(xs[i], ys[i])
      {
        assert x[i].0 == y[i].0;
      }
    }
  }

  lemma TripleSame(keys: seq<string>, xs: seq<Value>, ys: seq<Value>)
    requires |keys| == |xs| == |ys| == 3 && Distinct(keys)
    requires forall i :: 0 <= i < 3 ==> Json.Keyed(xs[i]) && Json.Keyed(ys[i])
    ensures Json.Keyed(Record(keys, xs)) && Json.Keyed(Record(keys, ys))
    ensures Json.Same(Record(keys, xs), Record(keys, ys)) <==>
      Json.Same(xs[0], ys[0]) && Json.Same(xs[1], ys[1]) && Json.Same(xs[2], ys[2])
  {
    hide Distinct, Record, Json.Keyed, Json.Same;
    RecordSame(keys, xs, ys);
  }

  lemma PayloadSame(p: Value, q: Value, c: Value, e: Value)
    requires Json.Keyed(p) && Json.Keyed(q) && Json.Keyed(c) && Json.Keyed(e)
    ensures Json.Keyed(Payload(p, c)) && Json.Keyed(Payload(q, e))
    ensures Json.Same(Payload(p, c), Payload(q, e)) <==> Json.Same(p, q) && Json.Same(c, e)
  {
    hide Distinct, Record, Json.Keyed, Json.Same, Str;
    KeysDistinct();
    var name := Str(EXPORT_SCHEMA);
    TextSame(EXPORT_SCHEMA);
    TripleSame(PAYLOAD_KEYS, [name, p, c], [name, q, e]);
  }

  lemma TextSame(s: string)
    ensures Json.Keyed(Str(s)) && Json.Same(Str(s), Str(s))
  {
  }

  lemma DigestSame(p: Value, q: Value, c: Value, e: Value, seal: Seal)
    requires TellsApart(seal.le) && Json.Keyed(p) && Json.Keyed(q) && Json.Keyed(c) && Json.Keyed(e)
    requires Json.NoTies(p, seal.le) && Json.NoTies(c, seal.le)
    ensures Json.Stable(Payload(p, c), seal.le) == Json.Stable(Payload(q, e), seal.le) <==>
      Json.Same(p, q) && Json.Same(c, e)
    ensures Json.Same(p, q) && Json.Same(c, e) ==> DigestOf(Payload(p, c), seal) == DigestOf(Payload(q, e), seal)
  {
    FineSealed(p, c, seal);
    PayloadSame(p, q, c, e);
    hide Json.Keyed, Json.Same, Json.NoTies, Json.Stable, Payload;
    Json.StableExactly(Payload(p, c), Payload(q, e), seal.le);
  }

  lemma RequirementReadBack(r: Requirement)
    ensures ReadRequirement(RequirementValue(r)) == RawRequirement(Text(r.id), Text(r.text), Text(r.status))
  {
    KeysDistinct();
    hide Distinct, Record, At;
    var v := [Str(r.id), Str(r.text), Str(r.status)];
    RecordAt(REQUIREMENT_KEYS, v, 0);
    RecordAt(REQUIREMENT_KEYS, v, 1);
    RecordAt(REQUIREMENT_KEYS, v, 2);
  }

  lemma MilestoneReadBack(m: Milestone)
    ensures ReadMilestone(MilestoneValue(m)) == RawMilestone(
      Text(m.id), Text(m.title), if m.target.Some? then Text(m.target.value) else Null, Text(m.status))
  {
    KeysDistinct();
    hide Distinct, Record, At;
    var v := [Str(m.id), Str(m.title), if m.target.Some? then Str(m.target.value) else Json.Value.Null, Str(m.status)];
    RecordAt(MILESTONE_KEYS, v, 0);
    RecordAt(MILESTONE_KEYS, v, 1);
    RecordAt(MILESTONE_KEYS, v, 2);
    RecordAt(MILESTONE_KEYS, v, 3);
  }

  lemma ItemReadBack(b: BoardItem)
    ensures ReadItem(ItemValue(b)) == RawItem(Text(b.id), Text(b.title), Text(b.detail), Text(b.column))
  {
    KeysDistinct();
    hide Distinct, Record, At;
    var v := [Str(b.id), Str(b.title), Str(b.detail), Str(b.column)];
    RecordAt(ITEM_KEYS, v, 0);
    RecordAt(ITEM_KEYS, v, 1);
    RecordAt(ITEM_KEYS, v, 2);
    RecordAt(ITEM_KEYS, v, 3);
  }

  lemma NoteReadBack(n: Note)
    ensures ReadNote(NoteValue(n)) == RawNote(Text(n.id), Text(n.text), Text(n.createdAt))
  {
    KeysDistinct();
    hide Distinct, Record, At;
    var v := [Str(n.id), Str(n.text), Str(n.createdAt)];
    RecordAt(NOTE_KEYS, v, 0);
    RecordAt(NOTE_KEYS, v, 1);
    RecordAt(NOTE_KEYS, v, 2);
  }

  lemma AttachmentReadBack(a: Attachment)
    ensures ReadAttachment(AttachmentValue(a)) == AsRawAttachment(a)
  {
    KeysDistinct();
    hide Distinct, Record, At;
    var v := [Str(a.id), Str(a.filename), Str(a.mediaType), Json.Number(a.size as real), Str(a.sha256)];
    RecordAt(ATTACHMENT_KEYS, v, 0);
    RecordAt(ATTACHMENT_KEYS, v, 1);
    RecordAt(ATTACHMENT_KEYS, v, 2);
    RecordAt(ATTACHMENT_KEYS, v, 3);
    RecordAt(ATTACHMENT_KEYS, v, 4);
  }

  lemma ContentReadBack(c: Content)
    ensures ReadAll(ListOf(c.requirements, RequirementValue).items, ReadRequirement) == AsRaw(c).requirements
    ensures ReadAll(ListOf(c.milestones, MilestoneValue).items, ReadMilestone) == AsRaw(c).milestones
    ensures ReadAll(ListOf(c.board, ItemValue).items, ReadItem) == AsRaw(c).board
    ensures ReadAll(ListOf(c.notes, NoteValue).items, ReadNote) == AsRaw(c).notes
  {
    hide RequirementValue, MilestoneValue, ItemValue, NoteValue, ReadRequirement, ReadMilestone, ReadItem, ReadNote;
    forall i | 0 <= i < |c.requirements|
      ensures ReadRequirement(RequirementValue(c.requirements[i])) == AsRaw(c).requirements[i]
    {
      RequirementReadBack(c.requirements[i]);
    }
    forall i | 0 <= i < |c.milestones|
      ensures ReadMilestone(MilestoneValue(c.milestones[i])) == AsRaw(c).milestones[i]
    {
      MilestoneReadBack(c.milestones[i]);
    }
    forall i | 0 <= i < |c.board|
      ensures ReadItem(ItemValue(c.board[i])) == AsRaw(c).board[i]
    {
      ItemReadBack(c.board[i]);
    }
    forall i | 0 <= i < |c.notes|
      ensures ReadNote(NoteValue(c.notes[i])) == AsRaw(c).notes[i]
    {
      NoteReadBack(c.notes[i]);
    }
  }

  function RawAttachments(attachments: seq<Attachment>): seq<RawAttachment> {
    seq(|attachments|, i requires 0 <= i < |attachments| => AsRawAttachment(attachments[i]))
  }

  lemma AttachmentsReadBack(attachments: seq<Attachment>)
    ensures ReadAll(ListOf(attachments, AttachmentValue).items, ReadAttachment) == RawAttachments(attachments)
  {
    hide AttachmentValue, ReadAttachment, AsRawAttachment;
    forall i | 0 <= i < |attachments|
      ensures ReadAttachment(AttachmentValue(attachments[i])) == AsRawAttachment(attachments[i])
    {
      AttachmentReadBack(attachments[i]);
    }
  }

  /** What the importer looks up in a project that was written out. */
  lemma ProjectAt(d: Document)
    ensures var v, p := ProjectValues(d), ProjectValue(d);
      && At(p, "name") == Some(v[0]) && At(p, "description") == Some(v[1]) && At(p, "status") == Some(v[2])
      && At(p, "requirements") == Some(v[3]) && At(p, "milestones") == Some(v[4]) && At(p, "board") == Some(v[5])
      && At(p, "notes") == Some(v[6]) && At(p, "attachments") == Some(v[7])
  {
    hide At, Record, ProjectValues, Distinct;
    ProjectKeysDistinct();
    var k, v := PROJECT_KEYS, ProjectValues(d);
    assert k[0] == "name" && k[1] == "description" && k[2] == "status" && k[3] == "requirements";
    assert k[4] == "milestones" && k[5] == "board" && k[6] == "notes" && k[7] == "attachments";
    RecordAt(k, v, 0);
    RecordAt(k, v, 1);
    RecordAt(k, v, 2);
    RecordAt(k, v, 3);
    RecordAt(k, v, 4);
    RecordAt(k, v, 5);
    RecordAt(k, v, 6);
    RecordAt(k, v, 7);
  }

  /** A document written out is read back field by field. */
  lemma ProjectReadBack(d: Document)
    ensures IsObject(Some(ProjectValue(d))) && ReadProject(ProjectValue(d)) == Some(AsRaw(d.content))
    ensures ItemsAt(ProjectValue(d), "attachments").Some?
    ensures ReadAll(ItemsAt(ProjectValue(d), "attachments").value, ReadAttachment) == RawAttachments(d.attachments)
  {
    assert ProjectValue(d).Object?;
    hide ProjectValue, At, ReadAll, RawAttachments;
    ContentReadBack(d.content);
    AttachmentsReadBack(d.attachments);
    ProjectAt(d);
  }

  function EncodedContents(ids: seq<string>, bytes: map<string, Bytes>): map<string, Field> {
    map id | id in ids :: Text(Base64.Encode(BytesAt(bytes, id)))
  }

  /** The contents of an export, read back. */
  lemma ContentsReadBack(ids: seq<string>, bytes: map<string, Bytes>)
    ensures var v := ContentsValue(ids, bytes);
      && IsObject(Some(v)) && KeyCount(v) == |Names(ids)|
      && ReadContents(v) == EncodedContents(ids, bytes)
  {
    hide Base64.Encode, At, Distinct, BytesAt;
    var names := Names(ids);
    var values := seq(|names|, i requires 0 <= i < |names| => Str(Base64.Encode(BytesAt(bytes, names[i]))));
    var v := ContentsValue(ids, bytes);
    assert v == Record(names, values) && Json.Keys(v.entries) == names;
    forall id | id in ids
      ensures FieldAt(v, id) == Text(Base64.Encode(BytesAt(bytes, id)))
    {
      var i :| 0 <= i < |names| && names[i] == id;
      RecordAt(names, values, i);
    }
  }

  /** A sealed payload passes the digest check. */
  lemma SealedReadBack(project: Value, contents: Value, seal: Seal)
    requires IsObject(Some(project)) && IsObject(Some(contents))
    ensures ReadBundle(Sealed(project, contents, seal), seal) == ReadParts(project, contents)
  {
    KeysDistinct();
    hide Distinct, Record, At, DigestOf, Payload, ReadParts;
    var v := [Str(EXPORT_SCHEMA), project, contents, Str(DigestOf(Payload(project, contents), seal))];
    RecordAt(EXPORT_KEYS, v, 0);
    RecordAt(EXPORT_KEYS, v, 1);
    RecordAt(EXPORT_KEYS, v, 2);
    RecordAt(EXPORT_KEYS, v, 3);
  }

  /** What is checked when an import is read: its digest is the one of its payload, up to the order of keys. */
  lemma Tampered(v: Value, w: Value, seal: Seal)
    requires TellsApart(seal.le) && Fine(v, seal.le) && Json.Keyed(w)
    requires ReadBundle(v, seal).Some? && ReadBundle(w, seal).Some?
    requires FieldAt(v, "export_sha256") == FieldAt(w, "export_sha256")
    ensures var x, y := Payload(At(v, "project").value, At(v, "attachment_content").value),
                        Payload(At(w, "project").value, At(w, "attachment_content").value);
      && DigestOf(x, seal) == DigestOf(y, seal)
      && (Json.Same(x, y) <==> Json.Stable(x, seal.le) == Json.Stable(y, seal.le))
  {
    hide Json.Keyed, Json.Same, Json.NoTies, DigestOf, ReadParts, TellsApart, Payload, Json.Stable;
    var p, q := At(v, "project").value, At(w, "project").value;
    var c, e := At(v, "attachment_content").value, At(w, "attachment_content").value;
    AtNoTies(v, "project", seal.le);
    AtNoTies(v, "attachment_content", seal.le);
    AtKeyed(v, "project");
    AtKeyed(v, "attachment_content");
    AtKeyed(w, "project");
    AtKeyed(w, "attachment_content");
    hide At;
    PayloadSame(p, q, c, e);
    DigestSame(p, q, c, e, seal);
  }

  lemma AtKeyed(v: Value, k: string)
    requires Json.Keyed(v)
    ensures At(v, k).Some? ==> Json.Keyed(At(v, k).value)
  {
  }

  lemma ContentsCount(v: Value)
    requires Json.Keyed(v)
    ensures v.Object? ==> KeyCount(v) == |ReadContents(v)|
  {
    if v.Object? {
      var keys := Json.Keys(v.entries);
      DistinctCount(keys);
      assert ReadContents(v).Keys == set k | k in keys;
      assert |ReadContents(v)| == |ReadContents(v).Keys|;
    }
  }

  lemma {:induction false} DistinctCount(keys: seq<string>)
    requires Distinct(keys)
    ensures |set k | k in keys| == |keys|
  {
    if keys != [] {
      var n := |keys| - 1;
      DistinctCount(keys[..n]);
      assert (set k | k in keys) == (set k | k in keys[..n]) + {keys[n]};
    }
  }
}
