/** The JSON of exports and imports written out: every key, what is read from it, and when an import is accepted. */
module PortableRules {
  import opened Common
  import opened Project
  import opened ProjectRules
  import opened Bundles
  import opened Workspace
  import opened Portable
  import Base64
  import Json

  /** An object holds what stands under a key; anything else, and a missing key, holds nothing. */
  lemma AtExactly(v: Value, k: string)
    requires Json.Keyed(v)
    ensures At(v, k).None? <==> !v.Object? || k !in Json.Keys(v.entries)
    ensures v.Object? ==> forall i :: 0 <= i < |v.entries| && v.entries[i].0 == k ==> At(v, k) == Some(v.entries[i].1)
  {
    if v.Object? {
      forall i | 0 <= i < |v.entries| && v.entries[i].0 == k
        ensures At(v, k) == Some(v.entries[i].1)
      {
        assert Json.Keys(v.entries)[i] == k;
        Json.IndexUnique(Json.Keys(v.entries), i);
      }
    }
  }

  /** A field is missing, text, or something else; a size is a whole number. */
  lemma FieldExactly(v: Value, k: string, s: string, n: int)
    ensures FieldAt(v, k) == Null <==> At(v, k) == None || At(v, k) == Some(Json.Value.Null)
    ensures FieldAt(v, k) == Text(s) <==> At(v, k) == Some(Json.Value.Text(s))
    ensures SizeAt(v, k) == Some(n) <==> At(v, k) == Some(Json.Number(n as real))
  {
    hide At;
  }

  function Name(s: string): Value {
    Json.Value.Text(s)
  }

  function RequirementJson(r: Requirement): Value {
    Json.Object([("id", Name(r.id)), ("text", Name(r.text)), ("status", Name(r.status))])
  }

  function MilestoneJson(m: Milestone): Value {
    Json.Object([("id", Name(m.id)), ("title", Name(m.title)),
                 ("target_date", if m.target.Some? then Name(m.target.value) else Json.Value.Null),
                 ("status", Name(m.status))])
  }

  function ItemJson(b: BoardItem): Value {
    Json.Object([("id", Name(b.id)), ("title", Name(b.title)), ("detail", Name(b.detail)), ("column", Name(b.column))])
  }

  function NoteJson(n: Note): Value {
    Json.Object([("id", Name(n.id)), ("text", Name(n.text)), ("created_at", Name(n.createdAt))])
  }

  function AttachmentJson(a: Attachment): Value {
    Json.Object([("id", Name(a.id)), ("filename", Name(a.filename)), ("media_type", Name(a.mediaType)),
                 ("size_bytes", Json.Number(a.size as real)), ("sha256", Name(a.sha256))])
  }

  lemma RecordShape(keys: seq<string>, values: seq<Value>)
    requires |keys| == |values|
    ensures Record(keys, values).Object? && |Record(keys, values).entries| == |keys|
    ensures forall i :: 0 <= i < |keys| ==> Record(keys, values).entries[i] == (keys[i], values[i])
  {
  }

  /** Each entry of a project is written under these keys, in this order. */
  lemma EntryShapes()
    ensures forall r: Requirement :: RequirementValue(r) == RequirementJson(r)
    ensures forall m: Milestone :: MilestoneValue(m) == MilestoneJson(m)
    ensures forall b: BoardItem :: ItemValue(b) == ItemJson(b)
    ensures forall n: Note :: NoteValue(n) == NoteJson(n)
    ensures forall a: Attachment :: AttachmentValue(a) == AttachmentJson(a)
  {
    forall r: Requirement
      ensures RequirementValue(r) == RequirementJson(r)
    {
      assert RequirementValue(r).entries == RequirementJson(r).entries;
    }
    forall m: Milestone
      ensures MilestoneValue(m) == MilestoneJson(m)
    {
      assert MilestoneValue(m).entries == MilestoneJson(m).entries;
    }
    forall b: BoardItem
      ensures ItemValue(b) == ItemJson(b)
    {
      assert ItemValue(b).entries == ItemJson(b).entries;
    }
    forall n: Note
      ensures NoteValue(n) == NoteJson(n)
    {
      assert NoteValue(n).entries == NoteJson(n).entries;
    }
    forall a: Attachment
      ensures AttachmentValue(a) == AttachmentJson(a)
    {
      assert AttachmentValue(a).entries == AttachmentJson(a).entries;
    }
  }

  /** v lists the items in their order, each as write puts it. */
  predicate Lists<T>(v: Value, items: seq<T>, write: T -> Value) {
    v.List? && |v.items| == |items| && forall i :: 0 <= i < |items| ==> v.items[i] == write(items[i])
  }

  /** A project as it is written out. */
  predicate ProjectShape(v: Value, d: Document) {
    && v.Object? && |v.entries| == 15
    && v.entries[0] == ("name", Name(d.content.name)) && v.entries[1] == ("description", Name(d.content.description))
    && v.entries[2] == ("status", Name(d.content.status))
    && v.entries[3].0 == "requirements" && Lists(v.entries[3].1, d.content.requirements, RequirementJson)
    && v.entries[4].0 == "milestones" && Lists(v.entries[4].1, d.content.milestones, MilestoneJson)
    && v.entries[5].0 == "board" && Lists(v.entries[5].1, d.content.board, ItemJson)
    && v.entries[6].0 == "notes" && Lists(v.entries[6].1, d.content.notes, NoteJson)
    && v.entries[7].0 == "attachments" && Lists(v.entries[7].1, d.attachments, AttachmentJson)
    && v.entries[8] == ("schema_version", Name("project-workspace-v1")) && v.entries[9] == ("id", Name(d.id))
    && v.entries[10] == ("revision", Json.Number(d.revision as real))
    && v.entries[11] == ("created_at", Name(d.createdAt)) && v.entries[12] == ("updated_at", Name(d.updatedAt))
    && v.entries[13] == ("model_call", Name("NO MODEL CALL")) && v.entries[14] == ("model_tokens", Json.Number(0.0))
  }

  lemma ProjectWritten(d: Document)
    ensures ProjectShape(ProjectValue(d), d)
  {
    hide RequirementValue, MilestoneValue, ItemValue, NoteValue, AttachmentValue, RequirementJson, MilestoneJson,
         ItemJson, NoteJson, AttachmentJson, Record;
    ListsWritten(d);
    RecordShape(PROJECT_KEYS, ProjectValues(d));
    hide Lists, ListOf;
  }

  lemma ListsWritten(d: Document)
    ensures Lists(ListOf(d.content.requirements, RequirementValue), d.content.requirements, RequirementJson)
    ensures Lists(ListOf(d.content.milestones, MilestoneValue), d.content.milestones, MilestoneJson)
    ensures Lists(ListOf(d.content.board, ItemValue), d.content.board, ItemJson)
    ensures Lists(ListOf(d.content.notes, NoteValue), d.content.notes, NoteJson)
    ensures Lists(ListOf(d.attachments, AttachmentValue), d.attachments, AttachmentJson)
  {
    hide RequirementValue, MilestoneValue, ItemValue, NoteValue, AttachmentValue, RequirementJson, MilestoneJson,
         ItemJson, NoteJson, AttachmentJson;
    EntryShapes();
    ListWritten(d.content.requirements, RequirementValue, RequirementJson);
    ListWritten(d.content.milestones, MilestoneValue, MilestoneJson);
    ListWritten(d.content.board, ItemValue, ItemJson);
    ListWritten(d.content.notes, NoteValue, NoteJson);
    ListWritten(d.attachments, AttachmentValue, AttachmentJson);
  }

  lemma ListWritten<T>(items: seq<T>, write: T -> Value, shape: T -> Value)
    requires forall i :: 0 <= i < |items| ==> write(items[i]) == shape(items[i])
    ensures Lists(ListOf(items, write), items, shape)
  {
  }

  /** The contents of an export: under each attachment's id, once, the Base64 text of its bytes. */
  predicate ContentsShape(v: Value, d: Document, bytes: map<string, Bytes>) {
    && v.Object? && Distinct(Json.Keys(v.entries))
    && (forall i :: 0 <= i < |v.entries| ==>
          v.entries[i].0 in bytes && v.entries[i].1 == Name(Base64.Encode(bytes[v.entries[i].0])))
    && (forall a :: a in d.attachments ==> a.id in Json.Keys(v.entries))
    && (forall k :: k in Json.Keys(v.entries) ==> exists a :: a in d.attachments && a.id == k)
  }

  lemma ContentsWritten(d: Document, bytes: map<string, Bytes>, sha: Digest)
    requires AllHeld(d, bytes, sha)
    ensures ContentsShape(ContentsValue(AttachmentIds(d.attachments), bytes), d, bytes)
  {
    hide Base64.Encode, Names, Distinct, AttachmentIds;
    var ids := AttachmentIds(d.attachments);
    var names, v := Names(ids), ContentsValue(ids, bytes);
    assert Json.Keys(v.entries) == names;
    NamesThere(d, bytes, sha);
  }

  lemma NamesThere(d: Document, bytes: map<string, Bytes>, sha: Digest)
    requires AllHeld(d, bytes, sha)
    ensures var names := Names(AttachmentIds(d.attachments));
      && (forall a :: a in d.attachments ==> a.id in names)
      && (forall k :: k in names ==> k in bytes && exists a :: a in d.attachments && a.id == k)
  {
    hide Names;
    var ids := AttachmentIds(d.attachments);
    assert forall k :: k in Names(ids) <==> k in ids;
    forall i | 0 <= i < |d.attachments|
      ensures ids[i] == d.attachments[i].id && d.attachments[i] in d.attachments && ids[i] in bytes
    {
      assert Held(bytes, sha, d.attachments[i]);
    }
  }

  /** What the digest of an export is taken over. */
  function Sealing(project: Value, contents: Value): Value {
    Json.Object([("schema_version", Name("project-workspace-export-v1")), ("project", project),
                 ("attachment_content", contents)])
  }

  /** An export is schema, project, contents and the digest of the three in canonical form. */
  lemma ExportWritten(d: Document, bytes: map<string, Bytes>, seal: Seal, sha: Digest)
    requires AllHeld(d, bytes, sha)
    ensures exists project, contents ::
      && ProjectShape(project, d) && ContentsShape(contents, d, bytes)
      && ExportedValue(d, bytes, seal) == Json.Object(Sealing(project, contents).entries +
        [("export_sha256", Name(seal.hash(Json.Stable(Sealing(project, contents), seal.le))))])
  {
    hide ProjectValue, ContentsValue, ProjectShape, ContentsShape, Json.Stable;
    ProjectWritten(d);
    ContentsWritten(d, bytes, sha);
    var p, c := ProjectValue(d), ContentsValue(AttachmentIds(d.attachments), bytes);
    SealShape(p, c, seal);
  }

  lemma SealShape(p: Value, c: Value, seal: Seal)
    ensures Payload(p, c) == Sealing(p, c)
    ensures Sealed(p, c, seal) == Json.Object(Sealing(p, c).entries +
      [("export_sha256", Name(seal.hash(Json.Stable(Sealing(p, c), seal.le))))])
  {
    hide Json.Stable;
    assert Payload(p, c).entries == Sealing(p, c).entries;
    assert Sealed(p, c, seal).entries == Sealing(p, c).entries +
      [("export_sha256", Name(seal.hash(Json.Stable(Sealing(p, c), seal.le))))];
  }

  /** A list under a key; a missing one counts as empty. */
  predicate Listed(v: Value, k: string, items: seq<Value>) {
    if At(v, k) == None || At(v, k) == Some(Json.Value.Null) then items == [] else At(v, k) == Some(Json.List(items))
  }

  /** The entries of a list under a key, each read as it says. */
  ghost predicate AllRead<T>(p: Value, k: string, raw: seq<T>, says: (Value, T) -> bool) {
    exists items :: Listed(p, k, items) && |raw| == |items| && forall i :: 0 <= i < |raw| ==> says(items[i], raw[i])
  }

  predicate RequirementRead(v: Value, r: RawRequirement) {
    r.id == FieldAt(v, "id") && r.text == FieldAt(v, "text") && r.status == FieldAt(v, "status")
  }

  predicate MilestoneRead(v: Value, m: RawMilestone) {
    m.id == FieldAt(v, "id") && m.title == FieldAt(v, "title") && m.target == FieldAt(v, "target_date") &&
      m.status == FieldAt(v, "status")
  }

  predicate ItemRead(v: Value, b: RawItem) {
    b.id == FieldAt(v, "id") && b.title == FieldAt(v, "title") && b.detail == FieldAt(v, "detail") &&
      b.column == FieldAt(v, "column")
  }

  predicate NoteRead(v: Value, n: RawNote) {
    n.id == FieldAt(v, "id") && n.text == FieldAt(v, "text") && n.createdAt == FieldAt(v, "created_at")
  }

  predicate AttachmentRead(v: Value, a: RawAttachment) {
    a.id == FieldAt(v, "id") && a.filename == FieldAt(v, "filename") && a.mediaType == FieldAt(v, "media_type") &&
      a.size == SizeAt(v, "size_bytes") && a.sha256 == FieldAt(v, "sha256")
  }

  /** The project an import holds, read key by key. */
  ghost predicate ProjectRead(p: Value, raw: Raw) {
    && raw.name == FieldAt(p, "name") && raw.description == FieldAt(p, "description")
    && raw.status == FieldAt(p, "status")
    && AllRead(p, "requirements", raw.requirements, RequirementRead)
    && AllRead(p, "milestones", raw.milestones, MilestoneRead)
    && AllRead(p, "board", raw.board, ItemRead) && AllRead(p, "notes", raw.notes, NoteRead)
  }

  ghost predicate AttachmentsRead(p: Value, raw: seq<RawAttachment>) {
    AllRead(p, "attachments", raw, AttachmentRead)
  }

  /** The contents under each key; a list has no content, but its items count as keys. */
  predicate ContentsRead(c: Value, contents: map<string, Field>, entries: nat) {
    if c.List? then contents == map[] && entries == |c.items|
    else
      && c.Object? && entries == |c.entries|
      && contents == map k | k in Json.Keys(c.entries) :: FieldAt(c, k)
  }

  /** What an import must look like: an export's keys, and the digest of what it holds. */
  ghost predicate BundleRead(v: Value, seal: Seal, b: Bundle) {
    && At(v, "schema_version") == Some(Name("project-workspace-export-v1"))
    && exists p, c :: BundleParts(v, seal, b, p, c)
  }

  ghost predicate BundleParts(v: Value, seal: Seal, b: Bundle, p: Value, c: Value) {
    && At(v, "project") == Some(p) && At(v, "attachment_content") == Some(c)
    && (p.Object? || p.List?) && (c.Object? || c.List?)
    && At(v, "export_sha256") == Some(Name(seal.hash(Json.Stable(Sealing(p, c), seal.le))))
    && ProjectRead(p, b.project) && AttachmentsRead(p, b.attachments) && ContentsRead(c, b.contents, b.entries)
  }

  lemma ListedExactly(v: Value, k: string)
    ensures forall items :: Listed(v, k, items) <==> ItemsAt(v, k) == Some(items)
  {
    hide At;
  }

  lemma AllReadExactly<T>(p: Value, k: string, raw: seq<T>, says: (Value, T) -> bool, read: Value -> T)
    requires forall v, r :: says(v, r) <==> r == read(v)
    ensures AllRead(p, k, raw, says) <==> ItemsAt(p, k).Some? && raw == ReadAll(ItemsAt(p, k).value, read)
  {
    hide Listed, ItemsAt;
    ListedExactly(p, k);
    if ItemsAt(p, k).Some? && raw == ReadAll(ItemsAt(p, k).value, read) {
      assert Listed(p, k, ItemsAt(p, k).value);
    }
  }

  lemma ProjectExactly(p: Value, raw: Raw)
    ensures ProjectRead(p, raw) <==> ReadProject(p) == Some(raw)
  {
    ReadersExactly();
    hide FieldAt, ItemsAt, AllRead, ReadAll, RequirementRead, MilestoneRead, ItemRead, NoteRead, ReadRequirement,
         ReadMilestone, ReadItem, ReadNote;
    AllReadExactly(p, "requirements", raw.requirements, RequirementRead, ReadRequirement);
    AllReadExactly(p, "milestones", raw.milestones, MilestoneRead, ReadMilestone);
    AllReadExactly(p, "board", raw.board, ItemRead, ReadItem);
    AllReadExactly(p, "notes", raw.notes, NoteRead, ReadNote);
  }

  lemma ReadersExactly()
    ensures forall v, r :: RequirementRead(v, r) <==> r == ReadRequirement(v)
    ensures forall v, m :: MilestoneRead(v, m) <==> m == ReadMilestone(v)
    ensures forall v, b :: ItemRead(v, b) <==> b == ReadItem(v)
    ensures forall v, n :: NoteRead(v, n) <==> n == ReadNote(v)
    ensures forall v, a :: AttachmentRead(v, a) <==> a == ReadAttachment(v)
  {
    hide FieldAt, SizeAt;
  }

  lemma AttachmentsExactly(p: Value, raw: seq<RawAttachment>)
    ensures AttachmentsRead(p, raw) <==>
      ItemsAt(p, "attachments").Some? && raw == ReadAll(ItemsAt(p, "attachments").value, ReadAttachment)
  {
    ReadersExactly();
    hide FieldAt, ItemsAt, AllRead, ReadAll, AttachmentRead, ReadAttachment;
    AllReadExactly(p, "attachments", raw, AttachmentRead, ReadAttachment);
  }

  lemma ContentsExactly(c: Value, contents: map<string, Field>, entries: nat)
    requires c.Object? || c.List?
    ensures ContentsRead(c, contents, entries) <==> contents == ReadContents(c) && entries == KeyCount(c)
  {
    hide FieldAt;
  }

  lemma BundleExactly(v: Value, seal: Seal, b: Bundle)
    ensures ReadBundle(v, seal) == Some(b) <==> BundleRead(v, seal, b)
  {
    hide At, SizeAt, Json.Stable, ProjectRead, AttachmentsRead, ContentsRead, ReadProject, ItemsAt, ReadAll,
         ReadContents, KeyCount, Payload, Sealing;
    if At(v, "project").Some? && At(v, "attachment_content").Some? {
      var p, c := At(v, "project").value, At(v, "attachment_content").value;
      SealShape(p, c, seal);
      if c.Object? || c.List? { PartsExactly(p, c, b); }
      var digest := seal.hash(Json.Stable(Sealing(p, c), seal.le));
      FieldExactly(v, "export_sha256", digest, 0);
      FieldExactly(v, "schema_version", EXPORT_SCHEMA, 0);
      var there := At(v, "schema_version") == Some(Name(EXPORT_SCHEMA));
      assert BundleRead(v, seal, b) <==> there && BundleParts(v, seal, b, p, c);
    }
  }

  lemma PartsExactly(p: Value, c: Value, b: Bundle)
    requires c.Object? || c.List?
    ensures ReadParts(p, c) == Some(b) <==>
      ProjectRead(p, b.project) && AttachmentsRead(p, b.attachments) && ContentsRead(c, b.contents, b.entries)
  {
    hide ProjectRead, AttachmentsRead, ContentsRead, ReadProject, ItemsAt, ReadAll, ReadContents, KeyCount;
    ProjectExactly(p, b.project);
    AttachmentsExactly(p, b.attachments);
    ContentsExactly(c, b.contents, b.entries);
  }

  /** An attachment of an import: its id, size and digest are those of the bytes filed under the id. */
  ghost predicate Attached(r: RawAttachment, contents: map<string, Field>, sha: Digest, a: Attachment) {
    && Given(r.id, 64, a.id) && (exists hex :: a.id == "attachment:" + hex && HexDigits(hex)) && a.id in contents
    && FileNamed(r.filename, a.filename) && MediaNamed(r.mediaType, a.mediaType)
    && r.size == Some(a.size) && r.sha256 == Text(a.sha256)
    && exists bytes :: Encodes(contents[a.id], bytes) && a.size == |bytes| && a.sha256 == sha(bytes)
  }

  /** When an import is accepted as d: everything sanitised follows, every attachment checks, and all limits hold. */
  ghost predicate Accepted(b: Bundle, request: Env, newId: string, sha: Digest, fits: Document -> bool, d: Document) {
    && d.id == newId && d.revision == 0 && d.createdAt == d.updatedAt == request.now
    && Follows(b.project, request, d.content)
    && |b.attachments| == |d.attachments| == b.entries <= 100
    && (forall i :: 0 <= i < |d.attachments| ==> Attached(b.attachments[i], b.contents, sha, d.attachments[i]))
    && Total(d.attachments) <= 2_000_000 && fits(d)
  }

  lemma AttachedExactly(r: RawAttachment, contents: map<string, Field>, sha: Digest, a: Attachment)
    ensures CheckImported(r, contents, sha) == Some(a) <==> Attached(r, contents, sha, a)
  {
    hide RequiredText, IsId, PortableFilename, MediaType, BytesFrom, Given, HexDigits, FileNamed, MediaNamed, Encodes;
    TextExactly(r.id, 64, a.id);
    IdExactly("attachment", a.id);
    assert forall hex :: "attachment:" + hex == "attachment" + ":" + hex;
    FileNameExactly(r.filename, a.filename);
    MediaTypeExactly(r.mediaType, a.mediaType);
    forall bytes
      ensures BytesFrom(ContentAt(contents, a.id)) == Some(bytes) <==>
        a.id in contents && Encodes(contents[a.id], bytes)
    {
      EncodesExactly(ContentAt(contents, a.id), bytes);
      NoText(bytes);
    }
  }

  lemma NoText(bytes: Bytes)
    ensures !Encodes(Null, bytes)
  {
  }

  lemma AcceptedExactly(b: Bundle, request: Env, newId: string, sha: Digest, fits: Document -> bool, d: Document)
    ensures StoreOf(b, request, newId, sha, fits) == Some(d) <==> Accepted(b, request, newId, sha, fits, d)
  {
    hide Sanitize, Follows, CheckImported, Attached, Total;
    SanitizeExactly(b.project, request, d.content);
    forall i | 0 <= i < |b.attachments| && i < |d.attachments|
      ensures CheckImported(b.attachments[i], b.contents, sha) == Some(d.attachments[i]) <==>
        Attached(b.attachments[i], b.contents, sha, d.attachments[i])
    {
      AttachedExactly(b.attachments[i], b.contents, sha, d.attachments[i]);
    }
    ImportedExactly(b, sha, d.attachments);
    hide ImportedAttachments;
  }

  lemma ImportedExactly(b: Bundle, sha: Digest, attachments: seq<Attachment>)
    ensures ImportedAttachments(b, sha) == Some(attachments) <==>
      && |attachments| == |b.attachments|
      && forall i :: 0 <= i < |attachments| ==> CheckImported(b.attachments[i], b.contents, sha) == Some(attachments[i])
  {
    hide CheckImported;
    var all := ImportedAttachments(b, sha);
    if |attachments| == |b.attachments| &&
      forall i :: 0 <= i < |attachments| ==> CheckImported(b.attachments[i], b.contents, sha) == Some(attachments[i])
    {
      assert all.Some?;
      assert forall i :: 0 <= i < |attachments| ==> Some(all.value[i]) == Some(attachments[i]);
      assert all.value == attachments;
    }
  }

  /** What an import of any JSON value stores, and that nothing else is accepted. */
  lemma ImportExactly(v: Value, request: Env, newId: string, sha: Digest, fits: Document -> bool, seal: Seal,
                      d: Document)
    ensures ImportOf(v, request, newId, sha, fits, seal) == Some(d) <==>
      exists b :: BundleRead(v, seal, b) && Accepted(b, request, newId, sha, fits, d)
  {
    hide ReadBundle, BundleRead, StoreOf, Accepted;
    forall b
      ensures ReadBundle(v, seal) == Some(b) <==> BundleRead(v, seal, b)
      ensures StoreOf(b, request, newId, sha, fits) == Some(d) <==> Accepted(b, request, newId, sha, fits, d)
    {
      BundleExactly(v, seal, b);
      AcceptedExactly(b, request, newId, sha, fits, d);
    }
  }
}
