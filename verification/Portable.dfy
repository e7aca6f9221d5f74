/** Export and import of whole projects. */
module Portable {
  import opened Common
  import opened Text
  import opened Project
  import opened Bundles
  import opened Workspace
  import Base64
  import Json

  function ContentAt(contents: map<string, Field>, id: string): Field {
    if id in contents then contents[id] else Null
  }

  function CheckImported(r: RawAttachment, contents: map<string, Field>, sha: Digest): Option<Attachment> {
    var id := RequiredText(r.id, 64);
    if id.None? || !IsId("attachment", id.value) then None else
      var bytes := BytesFrom(ContentAt(contents, id.value));
      var name, kind := PortableFilename(r.filename), MediaType(r.mediaType);
      if bytes.None? || r.size != Some(|bytes.value|) || r.sha256 != Text(sha(bytes.value)) then None
      else if name.None? || kind.None? then None
      else Some(Attachment(id.value, name.value, kind.value, |bytes.value|, sha(bytes.value)))
  }

  function ImportedAttachments(b: Bundle, sha: Digest): (r: Option<seq<Attachment>>)
    ensures r.Some? <==> forall i :: 0 <= i < |b.attachments| ==> CheckImported(b.attachments[i], b.contents, sha).Some?
    ensures r.Some? ==> |r.value| == |b.attachments|
    ensures r.Some? ==> forall i :: 0 <= i < |b.attachments| ==>
      CheckImported(b.attachments[i], b.contents, sha) == Some(r.value[i])
  {
    Clean(b.attachments, (r, i) => CheckImported(r, b.contents, sha))
  }

  /** What an import stores once its shape and digest have been checked, if it is accepted. */
  function StoreOf(b: Bundle, request: Env, newId: string, sha: Digest, fits: Document -> bool): Option<Document> {
    var content := Sanitize(b.project, request);
    var attachments := ImportedAttachments(b, sha);
    if |b.attachments| > 100 || content.None? || attachments.None? then None
    else if b.entries != |attachments.value| || Total(attachments.value) > MAX_PROJECT_ATTACHMENT_BYTES then None
    else
      var d := Document(newId, 0, content.value, attachments.value, request.now, request.now);
      if fits(d) then Some(d) else None
  }

  /** What an import of a JSON value stores, if it is accepted. */
  function ImportOf(v: Value, request: Env, newId: string, sha: Digest, fits: Document -> bool,
                    seal: Seal): Option<Document> {
    match ReadBundle(v, seal)
    case None => None
    case Some(b) => StoreOf(b, request, newId, sha, fits)
  }

  lemma IdTrimmed(id: string)
    requires IsId("attachment", id)
    ensures RequiredText(Text(id), 64) == Some(id)
  {
    Trimmed(id);
    hide Trim;
    assert id[0] == "attachment"[0];
  }

  lemma AttachmentSurvives(a: Attachment, bytes: Bytes, contents: map<string, Field>, sha: Digest)
    requires CleanAttachment(a) && a.size == |bytes| && a.sha256 == sha(bytes)
    requires a.id in contents && contents[a.id] == Text(Base64.Encode(bytes))
    ensures CheckImported(AsRawAttachment(a), contents, sha) == Some(a) && BytesFrom(contents[a.id]) == Some(bytes)
  {
    hide RequiredText, PortableFilename, MediaType, IsId, Base64.Atob, Base64.Encode;
    IdTrimmed(a.id);
    Base64.RoundTrip(bytes);
  }

  /** The document a copy becomes. */
  function CopyOf(d: Document, request: Env, newId: string): Document {
    Document(newId, 0, d.content, d.attachments, request.now, request.now)
  }

  /** The attachments of d are there in bytes, as they are described. */
  predicate AllHeld(d: Document, bytes: map<string, Bytes>, sha: Digest) {
    forall a :: a in d.attachments ==> Held(bytes, sha, a)
  }

  /**
   Export followed by import is the identity on content and attachments, with a fresh id and revision 0, for every
   stored document with at most a hundred attachments whose copy fits the record limit, exactly when its attachment
   ids are distinct; the bytes come back too. The text may be written with its keys in any order in between.
   */
  lemma ExportImport(d: Document, bytes: map<string, Bytes>, w: Value, env: Env, request: Env, newId: string,
                     sha: Digest,
                     fits: Document -> bool, seal: Seal)
    requires Sound(env) && request.iso == env.iso && WellStored(d, env) && |d.attachments| <= 100
    requires AllHeld(d, bytes, sha)
    requires fits(CopyOf(d, request, newId)) && TellsApart(seal.le)
    requires Json.Keyed(w) && Json.Same(ExportedValue(d, bytes, seal), w)
    ensures ImportOf(w, request, newId, sha, fits, seal) ==
      if Distinct(AttachmentIds(d.attachments)) then Some(CopyOf(d, request, newId)) else None
    ensures ReadBundle(w, seal).Some?
    ensures forall a :: a in d.attachments ==>
      BytesFrom(ContentAt(ReadBundle(w, seal).value.contents, a.id)) == Some(bytes[a.id])
  {
    hide WellStored, Sanitize, AsRaw, CheckImported, CleanAttachment, BytesFrom, Distinct, Total, Sound,
         ImportedAttachments,
         AttachmentIds, Base64.Encode, ReadBundle, ExportedValue, TellsApart, Json.Keyed, Json.Same, Json.NoTies,
         AllHeld;
    StoredParts(d, env);
    SanitizeIdempotent(AsRaw(d.content), env, request);
    ExportedReadBack(d, bytes, seal);
    ReadSame(ExportedValue(d, bytes, seal), w, seal);
    AttachmentsSurvive(d, bytes, sha, ReadBundle(w, seal).value);
  }

  lemma StoredParts(d: Document, env: Env)
    requires WellStored(d, env)
    ensures Sanitize(AsRaw(d.content), env) == Some(d.content) && Total(d.attachments) <= MAX_PROJECT_ATTACHMENT_BYTES
    ensures forall a :: a in d.attachments ==> CleanAttachment(a)
  {
    hide Sanitize, AsRaw, CleanAttachment, Total;
  }

  /** What the importer makes of an export as it was written. */
  function ExportedBundle(d: Document, bytes: map<string, Bytes>): Bundle {
    var ids := AttachmentIds(d.attachments);
    Bundle(AsRaw(d.content), RawAttachments(d.attachments), EncodedContents(ids, bytes), |Names(ids)|)
  }

  lemma ExportedReadBack(d: Document, bytes: map<string, Bytes>, seal: Seal)
    requires TellsApart(seal.le) && forall a :: a in d.attachments ==> CleanAttachment(a)
    ensures var v := ExportedValue(d, bytes, seal);
      Json.Keyed(v) && Json.NoTies(v, seal.le) && ReadBundle(v, seal) == Some(ExportedBundle(d, bytes))
  {
    hide Json.Keyed, Json.NoTies, TellsApart, ReadBundle, Sealed, ProjectValue, ContentsValue, ReadProject,
         ReadContents, KeyCount, ItemsAt,
         ReadAll, RawAttachments, AsRaw, EncodedContents, CleanAttachment, AttachmentIds;
    var ids := AttachmentIds(d.attachments);
    ExportedFine(d, bytes, seal);
    ProjectReadBack(d);
    ContentsReadBack(ids, bytes);
    SealedReadBack(ProjectValue(d), ContentsValue(ids, bytes), seal);
  }

  lemma ExportedFine(d: Document, bytes: map<string, Bytes>, seal: Seal)
    requires TellsApart(seal.le) && forall a :: a in d.attachments ==> CleanAttachment(a)
    ensures Fine(ExportedValue(d, bytes, seal), seal.le)
  {
    hide Fine, TellsApart, Sealed, ProjectValue, ContentsValue, CleanAttachment, IsId;
    CleanIds(d);
    FineProject(d, seal.le);
    FineContents(AttachmentIds(d.attachments), bytes, seal.le);
    FineSealed(ProjectValue(d), ContentsValue(AttachmentIds(d.attachments), bytes), seal);
  }

  lemma CleanIds(d: Document)
    requires forall a :: a in d.attachments ==> CleanAttachment(a)
    ensures forall id :: id in AttachmentIds(d.attachments) ==> IsId("attachment", id)
  {
    hide IsId;
    forall i | 0 <= i < |d.attachments|
      ensures IsId("attachment", d.attachments[i].id)
    {
      assert d.attachments[i] in d.attachments;
    }
  }

  lemma AttachmentsSurvive(d: Document, bytes: map<string, Bytes>, sha: Digest, b: Bundle)
    requires AllHeld(d, bytes, sha) && b == ExportedBundle(d, bytes)
    requires forall a :: a in d.attachments ==> CleanAttachment(a)
    ensures b.project == AsRaw(d.content) && |b.attachments| == |d.attachments|
    ensures ImportedAttachments(b, sha) == Some(d.attachments)
    ensures b.entries == |d.attachments| <==> Distinct(AttachmentIds(d.attachments))
    ensures forall a :: a in d.attachments ==> BytesFrom(ContentAt(b.contents, a.id)) == Some(bytes[a.id])
  {
    hide Sanitize, AsRaw, CheckImported, CleanAttachment, BytesFrom, Base64.Encode, Distinct;
    forall i | 0 <= i < |d.attachments|
      ensures Held(bytes, sha, d.attachments[i])
      ensures CheckImported(b.attachments[i], b.contents, sha) == Some(d.attachments[i])
      ensures d.attachments[i].id in b.contents
      ensures BytesFrom(b.contents[d.attachments[i].id]) == Some(bytes[d.attachments[i].id])
    {
      var a := d.attachments[i];
      assert AttachmentIds(d.attachments)[i] == a.id && Held(bytes, sha, a);
      AttachmentSurvives(a, bytes[a.id], b.contents, sha);
    }
    assert ImportedAttachments(b, sha).value == d.attachments;
  }

  /** An accepted import stores distinct attachment ids exactly when every key of its contents is one of them. */
  lemma DistinctExactly(v: Value, request: Env, newId: string, sha: Digest, fits: Document -> bool, seal: Seal)
    requires Json.Keyed(v) && ImportOf(v, request, newId, sha, fits, seal).Some?
    ensures var ids := AttachmentIds(ImportOf(v, request, newId, sha, fits, seal).value.attachments);
      Distinct(ids) <==> forall k :: k in ReadBundle(v, seal).value.contents ==> k in ids
  {
    hide Sanitize, CheckImported, Json.Keyed, ReadProject, ItemsAt, DigestOf, Payload, At, Distinct, ReadContents,
         KeyCount, Total;
    var b, contents := ReadBundle(v, seal).value, At(v, "attachment_content").value;
    AtKeyed(v, "attachment_content");
    ContentsCount(contents);
    ListContents(contents);
    var attachments := ImportedAttachments(b, sha).value;
    forall i | 0 <= i < |attachments|
      ensures attachments[i].id in b.contents
    {
      ImportedThere(b.attachments[i], b.contents, sha);
    }
    Declared(AttachmentIds(attachments), b.contents, b.entries);
  }

  lemma ListContents(v: Value)
    ensures !v.Object? ==> ReadContents(v) == map[]
  {
  }

  lemma ImportedThere(r: RawAttachment, contents: map<string, Field>, sha: Digest)
    requires CheckImported(r, contents, sha).Some?
    ensures CheckImported(r, contents, sha).value.id in contents
  {
    hide RequiredText, IsId, PortableFilename, MediaType, Base64.Atob;
  }

  lemma Declared(ids: seq<string>, contents: map<string, Field>, entries: nat)
    requires entries == |ids| && (entries == |contents| || contents == map[])
    requires forall id :: id in ids ==> id in contents
    ensures Distinct(ids) <==> forall k :: k in contents ==> k in ids
  {
    var names, keys := Names(ids), contents.Keys;
    DistinctCount(names);
    var declared := set id | id in names;
    assert declared <= keys && |keys| == |contents|;
    assert ids != [] ==> ids[0] in contents;
    SubsetSame(declared, keys);
  }

  lemma SubsetSame(a: set<string>, b: set<string>)
    requires a <= b
    ensures |a| == |b| <==> b <= a
  {
    assert b == a + (b - a) && |b| == |a| + |b - a|;
    assert b <= a <==> b - a == {};
  }

  /**
   Distinct ids are not guaranteed: an import that names one attachment twice is accepted if an undeclared content
   entry makes up the count, and what it stores cannot be imported from its own export.
   */
  lemma DuplicateImport(d: Document, bytes: map<string, Bytes>, extra: string, env: Env, request: Env, newId: string,
                        sha: Digest,
                        fits: Document -> bool, seal: Seal)
    requires Sound(env) && request.iso == env.iso && WellStored(d, env) && AllHeld(d, bytes, sha) && TellsApart(seal.le)
    requires |d.attachments| == 2 && d.attachments[0] == d.attachments[1] && extra != d.attachments[0].id
    requires fits(CopyOf(d, request, newId))
    ensures ImportOf(DuplicateValue(d, bytes, extra, seal), request, newId, sha, fits, seal) ==
      Some(CopyOf(d, request, newId))
    ensures !Distinct(AttachmentIds(d.attachments))
    ensures ImportOf(ExportedValue(d, bytes, seal), request, newId, sha, fits, seal) == None
  {
    hide WellStored, Sanitize, AsRaw, CheckImported, CleanAttachment, BytesFrom, Total, Sound, ImportedAttachments,
         Base64.Encode, ReadBundle,
         ExportedValue, TellsApart, Json.Keyed, Json.Same, Json.NoTies, AllHeld, DuplicateValue;
    var v, b := ExportedValue(d, bytes, seal), ExportedBundle(d, bytes);
    StoredParts(d, env);
    SanitizeIdempotent(AsRaw(d.content), env, request);
    ExportedReadBack(d, bytes, seal);
    AttachmentsSurvive(d, bytes, sha, b);
    Json.SameItself(v);
    ExportImport(d, bytes, v, env, request, newId, sha, fits, seal);
    DuplicateReadBack(d, bytes, extra, seal);
    SpareContents(b, extra, sha);
    assert AttachmentIds(d.attachments)[0] == AttachmentIds(d.attachments)[1];
  }

  /** A project of one name and one attachment of one byte, listed twice. */
  const SAMPLE_ID: string := "attachment:" + seq(32, _ => '0')

  function Sample(sha: Digest): Document {
    var a := Attachment(SAMPLE_ID, "f", "t", 1, sha([65]));
    Document("p", 0, Content("p", "", "planned", [], [], [], []), [a, a], "", "")
  }

  lemma SampleStored(env: Env, sha: Digest)
    ensures WellStored(Sample(sha), env) && AllHeld(Sample(sha), map[SAMPLE_ID := [65]], sha) && SAMPLE_ID != "spare"
  {
    hide Trim, CleanAttachment;
    var d := Sample(sha);
    Trimmed("p");
    Trimmed("");
    SampleClean(sha);
    hide RequiredText, OptionalText, IsId;
    Rebuilt(AsRaw(d.content), env, d.content);
    TwoBytes(d.attachments[0]);
  }

  lemma TwoBytes(a: Attachment)
    requires a.size == 1
    ensures Total([a, a]) == 2
  {
    assert [a, a][..1] == [a] && [a][..0] == [];
    assert Total([a]) == 1;
  }

  lemma SampleClean(sha: Digest)
    ensures CleanAttachment(Sample(sha).attachments[0]) && SAMPLE_ID != "spare"
    ensures RequiredText(Text("p"), 256) == Some("p") && OptionalText(Text(""), 16000) == Some("")
  {
    hide Trim;
    Trimmed("f");
    Trimmed("t");
    Trimmed("p");
    Trimmed("");
    var id := SAMPLE_ID;
    assert |id| == 43 && id[..10] == "attachment" && id[10] == ':';
    assert forall c :: c in "f" ==> c == 'f';
  }

  /** Such an import exists: whatever the digests, the clock and the identifiers. */
  lemma DuplicateSample(env: Env, request: Env, newId: string, sha: Digest, fits: Document -> bool, seal: Seal)
    requires Sound(env) && request.iso == env.iso && TellsApart(seal.le) && fits(CopyOf(Sample(sha), request, newId))
    ensures var d, bytes := Sample(sha), map[SAMPLE_ID := [65]];
      && ImportOf(DuplicateValue(d, bytes, "spare", seal), request, newId, sha, fits, seal) ==
        Some(CopyOf(d, request, newId))
      && !Distinct(AttachmentIds(d.attachments))
      && ImportOf(ExportedValue(d, bytes, seal), request, newId, sha, fits, seal) == None
  {
    hide ImportOf, ExportedValue, DuplicateValue, WellStored, AllHeld, TellsApart, Sound, Distinct, AttachmentIds;
    SampleStored(env, sha);
    DuplicateImport(Sample(sha), map[SAMPLE_ID := [65]], "spare", env, request, newId, sha, fits, seal);
  }

  /** The export of a document that repeats its attachment, with one more content entry. */
  function DuplicateValue(d: Document, bytes: map<string, Bytes>, extra: string, seal: Seal): Value
    requires |d.attachments| > 0
  {
    var id := d.attachments[0].id;
    Sealed(ProjectValue(d), Record([id, extra], [Str(Base64.Encode(BytesAt(bytes, id))), Json.Value.Null]), seal)
  }

  lemma DuplicateReadBack(d: Document, bytes: map<string, Bytes>, extra: string, seal: Seal)
    requires |d.attachments| == 2 && d.attachments[0] == d.attachments[1] && extra != d.attachments[0].id
    ensures var b := ExportedBundle(d, bytes);
      && ReadBundle(DuplicateValue(d, bytes, extra, seal), seal) ==
        Some(b.(contents := b.contents[extra := Null], entries := 2))
      && extra !in b.contents
  {
    hide ReadBundle, Sealed, ProjectValue, ReadProject, ItemsAt, ReadAll, RawAttachments, AsRaw, Base64.Encode, Record,
         At, BytesAt, Json.IndexOf;
    var id, ids := d.attachments[0].id, AttachmentIds(d.attachments);
    assert ids == [id, id];
    var values := [Str(Base64.Encode(BytesAt(bytes, id))), Json.Value.Null];
    var contents := Record([id, extra], values);
    SpareReadBack(id, extra, values);
    ProjectReadBack(d);
    SealedReadBack(ProjectValue(d), contents, seal);
    assert ReadContents(contents) == ExportedBundle(d, bytes).contents[extra := Null];
  }

  lemma SpareReadBack(id: string, extra: string, values: seq<Value>)
    requires id != extra && |values| == 2 && values[1].Null?
    ensures var v := Record([id, extra], values);
      IsObject(Some(v)) && KeyCount(v) == 2 && ReadContents(v) == map[id := AsField(Some(values[0])), extra := Null]
  {
    hide At;
    var v := Record([id, extra], values);
    RecordAt([id, extra], values, 0);
    RecordAt([id, extra], values, 1);
    assert Json.Keys(v.entries) == [id, extra];
  }

  lemma SpareContents(b: Bundle, extra: string, sha: Digest)
    requires extra !in b.contents && ImportedAttachments(b, sha).Some?
    ensures ImportedAttachments(b.(contents := b.contents[extra := Null], entries := 2), sha) ==
      ImportedAttachments(b, sha)
  {
    hide CheckImported;
    var c := b.(contents := b.contents[extra := Null], entries := 2);
    forall i | 0 <= i < |b.attachments|
      ensures CheckImported(c.attachments[i], c.contents, sha) == CheckImported(b.attachments[i], b.contents, sha)
    {
      SpareCheck(b.attachments[i], b.contents, extra, sha);
    }
    assert ImportedAttachments(c, sha).value == ImportedAttachments(b, sha).value;
  }

  lemma SpareCheck(r: RawAttachment, contents: map<string, Field>, extra: string, sha: Digest)
    requires extra !in contents && CheckImported(r, contents, sha).Some?
    ensures CheckImported(r, contents[extra := Null], sha) == CheckImported(r, contents, sha)
  {
    hide RequiredText, IsId, PortableFilename, MediaType, Base64.Atob;
    ImportedThere(r, contents, sha);
  }

  predicate Held(bytes: map<string, Bytes>, sha: Digest, a: Attachment) {
    a.id in bytes && |bytes[a.id]| == a.size && sha(bytes[a.id]) == a.sha256
  }

  /** Attachments once referred to stay intact as long as records only become newer. */
  lemma StillIntact(p0: map<string, Document>, p: map<string, Document>, o: map<Key, Bytes>, sha: Digest, id: string)
    requires id in p0 && AllNewer(p0, p) && NoDangling(p, o, sha)
    ensures forall a :: a in p0[id].attachments ==> Intact(o, sha, id, a)
  {
    hide Intact;
    assert Newer(p0[id], p[id]);
  }

  /** Bytes read for attachment i serve every attachment of that id, and disturb no other. */
  ghost predicate Serves(attachments: seq<Attachment>, i: nat, bytes: map<string, Bytes>, sha: Digest, read: Bytes)
    requires i < |attachments|
  {
    var id := attachments[i].id;
    forall j :: 0 <= j < |attachments| && (attachments[j].id == id || Held(bytes, sha, attachments[j])) ==>
      Held(bytes[id := read], sha, attachments[j])
  }

  lemma IntactMeans(o: map<Key, Bytes>, sha: Digest, id: string, attachments: seq<Attachment>, i: nat,
                    bytes: map<string, Bytes>)
    requires i < |attachments| && forall a :: a in attachments ==> Intact(o, sha, id, a) && CleanAttachment(a)
    ensures var a := attachments[i]; var key := Key(id, a.id);
      && key in o && |o[key]| == a.size && sha(o[key]) == a.sha256 && a.size <= MAX_ATTACHMENT_BYTES
      && Serves(attachments, i, bytes, sha, o[key])
  {
    hide CleanAttachment;
    var a := attachments[i];
    var key := Key(id, a.id);
    assert Intact(o, sha, id, a) && CleanAttachment(a);
    SizeBounded(a);
    forall j | 0 <= j < |attachments| && (attachments[j].id == a.id || Held(bytes, sha, attachments[j]))
      ensures Held(bytes[a.id := o[key]], sha, attachments[j])
    {
      assert Intact(o, sha, id, attachments[j]);
    }
  }

  lemma SizeBounded(a: Attachment)
    requires CleanAttachment(a)
    ensures a.size <= MAX_ATTACHMENT_BYTES
  {
  }

  /** What the export loop has read after i attachments. */
  ghost predicate Collected(d: Document, i: nat, contents: seq<(string, Value)>, bytes: map<string, Bytes>,
                            sha: Digest) {
    && i <= |d.attachments|
    && ContentsValue(AttachmentIds(d.attachments)[..i], bytes) == Json.Object(contents)
    && (forall j :: 0 <= j < i ==> Held(bytes, sha, d.attachments[j]))
  }

  lemma CollectStep(d: Document, i: nat, contents: seq<(string, Value)>, bytes: map<string, Bytes>, sha: Digest,
                    read: Bytes)
    requires Collected(d, i, contents, bytes, sha) && i < |d.attachments|
    requires Serves(d.attachments, i, bytes, sha, read)
    ensures var id := d.attachments[i].id;
      Collected(d, i + 1, Assign(contents, id, Str(Base64.Encode(read))), bytes[id := read], sha)
  {
    hide Held, Base64.Encode, ContentsValue, Assign;
    var ids, id := AttachmentIds(d.attachments), d.attachments[i].id;
    AssignContents(ids[..i], bytes, id, read);
    assert ids[..i + 1] == ids[..i] + [id];
  }

  lemma CollectEnd(d: Document, contents: seq<(string, Value)>, bytes: map<string, Bytes>, sha: Digest, seal: Seal)
    requires Collected(d, |d.attachments|, contents, bytes, sha)
    ensures AllHeld(d, bytes, sha)
    ensures Sealed(ProjectValue(d), Json.Object(contents), seal) == ExportedValue(d, bytes, seal)
  {
    hide ProjectValue, Sealed, ContentsValue, Held;
    assert AttachmentIds(d.attachments)[..|d.attachments|] == AttachmentIds(d.attachments);
  }

  /** One attachment of an export, read after others may have been at work. */
  method ReadObject(s: Store, ghost p0: map<string, Document>, id: string, d: Document, i: nat,
                    ghost bytes: map<string, Bytes>)
    returns (r: Result<Bytes, Error>)
    requires s.Valid() && id in p0 && p0[id] == d && AllNewer(p0, s.projects) && i < |d.attachments|
    requires forall a :: a in d.attachments ==> CleanAttachment(a)
    modifies s
    ensures s.Valid() && AllNewer(p0, s.projects)
    ensures r.Success? ==> Serves(d.attachments, i, bytes, s.sha, r.value)
    ensures r.Failure? ==> r.error.Unavailable?
    ensures s.faults == old(s.faults) + if r.Success? then 0 else 1
  {
    hide WellStored, Sound, NoDangling, Since, AllNewer, Intact, CleanAttachment, Held, Newer, Serves;
    ghost var p1, o1 := s.projects, s.objects;
    s.Others(Nothing);
    SinceNewer(p1, o1, s.projects, s.objects, Nothing);
    AllNewerTrans(p0, p1, s.projects);
    StillIntact(p0, s.projects, s.objects, s.sha, id);
    var readable: bool := *;
    if !readable {
      s.faults := s.faults + 1;
      return Failure(Unavailable);
    }
    var a := d.attachments[i];
    var key := Key(id, a.id);
    IntactMeans(s.objects, s.sha, id, d.attachments, i, bytes);
    if key !in s.objects { return Failure(Corrupt); }
    var stored := s.objects[key];
    if |stored| > MAX_ATTACHMENT_BYTES || |stored| != a.size || s.sha(stored) != a.sha256 { return Failure(Corrupt); }
    r := Success(stored);
  }

  /** exportProject never finds an object missing or wrong, whatever others do while it runs. */
  method ExportProject(s: Store, id: string, seal: Seal)
    returns (r: Result<Value, Error>, ghost bytes: map<string, Bytes>)
    requires s.Valid()
    modifies s
    ensures s.Valid() && AllNewer(old(s.projects), s.projects)
    ensures r.Success? ==> id in old(s.projects) && AllHeld(old(s.projects)[id], bytes, s.sha)
    ensures r.Success? ==> r.value == ExportedValue(old(s.projects)[id], bytes, seal)
    ensures r.Failure? ==> r.error.NotFound? || r.error.Unavailable?
    ensures r == Failure(NotFound) <==> id !in old(s.projects)
    ensures s.faults == old(s.faults) + if r == Failure(Unavailable) then 1 else 0
  {
    hide WellStored, Sound, NoDangling, AllNewer, Base64.Encode, CleanAttachment, Collected, Serves, Sanitize, Total,
         ProjectValue, Sealed,
         ExportedValue, AllHeld, Assign;
    bytes := map[];
    AllNewerSelf(s.projects);
    if id !in s.projects { return Failure(NotFound), bytes; }
    var d := s.projects[id];
    StoredParts(d, s.env);
    var contents: seq<(string, Value)> := [];
    var i := 0;
    CollectStart(d, s.sha);
    while i < |d.attachments|
      invariant 0 <= i <= |d.attachments| && s.Valid() && AllNewer(old(s.projects), s.projects)
      invariant Collected(d, i, contents, bytes, s.sha) && s.faults == old(s.faults)
    {
      var read := ReadObject(s, old(s.projects), id, d, i, bytes);
      if read.Failure? { return Failure(read.error), bytes; }
      var name := d.attachments[i].id;
      CollectStep(d, i, contents, bytes, s.sha, read.value);
      contents, bytes := Assign(contents, name, Str(Base64.Encode(read.value))), bytes[name := read.value];
      i := i + 1;
    }
    CollectEnd(d, contents, bytes, s.sha, seal);
    r := Success(Sealed(ProjectValue(d), Json.Object(contents), seal));
  }

  lemma CollectStart(d: Document, sha: Digest)
    ensures Collected(d, 0, [], map[], sha)
  {
    assert Names([]) == [];
  }

  /** An accepted attachment is clean and describes the content filed under its id. */
  lemma ImportedClean(r: RawAttachment, contents: map<string, Field>, sha: Digest)
    requires CheckImported(r, contents, sha).Some?
    ensures var a := CheckImported(r, contents, sha).value;
      CleanAttachment(a) && Describes(a, a.id, ContentAt(contents, a.id), sha)
  {
    hide RequiredText, PortableFilename, MediaType, IsId, Base64.Atob;
    FilenameTwice(r.filename);
    MediaTypeTwice(r.mediaType);
  }

  /** An object of a project that does not exist yet, uploaded while others are at work. */
  method UploadImported(s: Store, newId: string, a: Attachment, bytes: Bytes, ghost earlier: seq<Attachment>)
    returns (ok: bool)
    requires s.Valid() && newId !in s.projects && a.size == |bytes| && a.sha256 == s.sha(bytes)
    requires forall e :: e in earlier ==>
      Intact(s.objects, s.sha, newId, e) && (e.id == a.id ==> e.size == a.size && e.sha256 == a.sha256)
    modifies s
    ensures s.Valid() && newId !in s.projects && AllNewer(old(s.projects), s.projects)
    ensures ok ==> forall e :: e in earlier + [a] ==> Intact(s.objects, s.sha, newId, e)
    ensures s.faults == old(s.faults) + if ok then 0 else 1
  {
    hide WellStored, Sound, NoDangling;
    ok := s.Put(Key(newId, a.id), bytes);
    ghost var p1, o1 := s.projects, s.objects;
    s.Others(WholeProject(newId));
    SinceNewer(p1, o1, s.projects, s.objects, WholeProject(newId));
  }

  /** Takes the uploaded objects of a failed import away again. */
  method Discard(s: Store, newId: string, attachments: seq<Attachment>)
    requires s.Valid() && newId !in s.projects
    modifies s
    ensures s.Valid() && newId !in s.projects && AllNewer(old(s.projects), s.projects) && s.faults == old(s.faults)
  {
    hide WellStored, Sound, NoDangling, AllNewer;
    AllNewerSelf(s.projects);
    var i := 0;
    while i < |attachments|
      invariant s.Valid() && newId !in s.projects && AllNewer(old(s.projects), s.projects) && s.faults == old(s.faults)
    {
      s.Delete(Key(newId, attachments[i].id));
      ghost var p1, o1 := s.projects, s.objects;
      s.Others(WholeProject(newId));
      SinceNewer(p1, o1, s.projects, s.objects, WholeProject(newId));
      AllNewerTrans(old(s.projects), p1, s.projects);
      i := i + 1;
    }
  }

  /** The upload loop of an import. */
  method UploadAll(s: Store, b: Bundle, newId: string) returns (r: Result<seq<Attachment>, Error>)
    requires s.Valid() && newId !in s.projects
    modifies s
    ensures s.Valid() && newId !in s.projects && AllNewer(old(s.projects), s.projects)
    ensures r.Success? ==> ImportedAttachments(b, s.sha) == Some(r.value)
    ensures r.Success? ==> forall a :: a in r.value ==> Intact(s.objects, s.sha, newId, a)
    ensures r.Failure? ==> r.error.Unavailable? || (r.error.BadRequest? && ImportedAttachments(b, s.sha) == None)
    ensures s.faults == old(s.faults) + if r == Failure(Unavailable) then 1 else 0
  {
    hide WellStored, Sound, NoDangling, AllNewer, CheckImported, CleanAttachment, Intact, Describes, BytesFrom;
    AllNewerSelf(s.projects);
    var attachments: seq<Attachment> := [];
    var i := 0;
    while i < |b.attachments|
      invariant 0 <= i <= |b.attachments| && |attachments| == i
      invariant s.Valid() && newId !in s.projects && AllNewer(old(s.projects), s.projects)
      invariant forall j :: 0 <= j < i ==> CheckImported(b.attachments[j], b.contents, s.sha) == Some(attachments[j])
      invariant forall a :: a in attachments ==> Intact(s.objects, s.sha, newId, a)
      invariant s.faults == old(s.faults)
    {
      var checked := CheckImported(b.attachments[i], b.contents, s.sha);
      ghost var p1 := s.projects;
      if checked.None? {
        Discard(s, newId, attachments);
        AllNewerTrans(old(s.projects), p1, s.projects);
        return Failure(BadRequest);
      }
      var a := checked.value;
      SameContent(b, s.sha, attachments, i, a);
      var bytes := BytesFrom(ContentAt(b.contents, a.id));
      var ok := UploadImported(s, newId, a, bytes.value, attachments);
      AllNewerTrans(old(s.projects), p1, s.projects);
      if !ok {
        ghost var p2 := s.projects;
        Discard(s, newId, attachments);
        AllNewerTrans(old(s.projects), p2, s.projects);
        return Failure(Unavailable);
      }
      attachments := attachments + [a];
      i := i + 1;
    }
    assert ImportedAttachments(b, s.sha).value == attachments;
    r := Success(attachments);
  }

  lemma SameContent(b: Bundle, sha: Digest, attachments: seq<Attachment>, i: nat, a: Attachment)
    requires |attachments| == i < |b.attachments| && CheckImported(b.attachments[i], b.contents, sha) == Some(a)
    requires forall j :: 0 <= j < i ==> CheckImported(b.attachments[j], b.contents, sha) == Some(attachments[j])
    ensures var bytes := BytesFrom(ContentAt(b.contents, a.id));
      bytes.Some? && a.size == |bytes.value| && a.sha256 == sha(bytes.value)
    ensures forall e :: e in attachments && e.id == a.id ==> e.size == a.size && e.sha256 == a.sha256
  {
    hide CheckImported, BytesFrom, CleanAttachment;
    ImportedClean(b.attachments[i], b.contents, sha);
    forall j | 0 <= j < i
      ensures Describes(attachments[j], attachments[j].id, ContentAt(b.contents, attachments[j].id), sha)
    {
      ImportedClean(b.attachments[j], b.contents, sha);
    }
  }

  lemma ImportedWell(b: Bundle, d: Document, sha: Digest, request: Env, env: Env)
    requires Sound(request) && request.iso == env.iso && Sanitize(b.project, request) == Some(d.content)
    requires ImportedAttachments(b, sha) == Some(d.attachments) && Total(d.attachments) <= MAX_PROJECT_ATTACHMENT_BYTES
    ensures WellStored(d, env)
  {
    hide Sanitize, AsRaw, CheckImported, CleanAttachment, Total, Describes;
    SanitizeIdempotent(b.project, request, env);
    forall i | 0 <= i < |d.attachments|
      ensures CleanAttachment(d.attachments[i])
    {
      ImportedClean(b.attachments[i], b.contents, sha);
    }
  }

  /** importProject stores exactly what ImportOf says, or nothing; its clean-up never takes a referenced object. */
  method ImportProject(s: Store, v: Value, request: Env, newId: string, seal: Seal) returns (r: Result<Document, Error>)
    requires s.Valid() && Sound(request) && request.iso == s.env.iso && newId !in s.projects
    modifies s
    ensures s.Valid() && AllNewer(old(s.projects), s.projects)
    ensures r.Success? ==> ImportOf(v, request, newId, s.sha, s.fits, seal) == Some(r.value) && newId in s.projects
    ensures r.Success? ==> s.projects[newId] == r.value
    ensures r.Failure? ==> newId !in s.projects && (r.error.Unavailable? || r.error.BadRequest?)
    ensures r.Failure? && r.error.BadRequest? ==> ImportOf(v, request, newId, s.sha, s.fits, seal) == None
    ensures r == Failure(Unavailable) ==> s.faults > old(s.faults)
  {
    hide WellStored, Sound, NoDangling, AllNewer, Sanitize, Total, ImportedAttachments, Intact, ReadBundle;
    AllNewerSelf(s.projects);
    var parsed := ReadBundle(v, seal);
    if parsed.None? { return Failure(BadRequest); }
    var b := parsed.value;
    if |b.attachments| > 100 { return Failure(BadRequest); }
    var content := Sanitize(b.project, request);
    if content.None? { return Failure(BadRequest); }
    var uploaded := UploadAll(s, b, newId);
    if uploaded.Failure? { return Failure(uploaded.error); }
    var attachments := uploaded.value;
    var d := Document(newId, 0, content.value, attachments, request.now, request.now);
    ghost var p1 := s.projects;
    if b.entries != |attachments| || Total(attachments) > MAX_PROJECT_ATTACHMENT_BYTES || !s.fits(d) {
      Discard(s, newId, attachments);
      AllNewerTrans(old(s.projects), p1, s.projects);
      return Failure(BadRequest);
    }
    ImportedWell(b, d, s.sha, request, s.env);
    var ok := s.Insert(d);
    if ok {
      AllNewerInsert(p1, d);
      AllNewerTrans(old(s.projects), p1, s.projects);
      return Success(d);
    }
    Discard(s, newId, attachments);
    AllNewerTrans(old(s.projects), p1, s.projects);
    r := Failure(Unavailable);
  }

  lemma AllNewerInsert(p: map<string, Document>, d: Document)
    requires d.id !in p
    ensures AllNewer(p, p[d.id := d])
  {
  }

  /**
   Why a failing insert must have stored nothing: were it stored, removing the uploaded objects would leave no
   reference dangling only if the project has no attachments.
   */
  lemma CleanupAfterLostInsert(projects: map<string, Document>, objects: map<Key, Bytes>, sha: Digest, d: Document,
                               landed: bool)
    requires NoDangling(projects, objects, sha) && d.id !in projects
    requires forall a :: a in d.attachments ==> Intact(objects, sha, d.id, a)
    ensures var after := objects - (set a | a in d.attachments :: Key(d.id, a.id));
      NoDangling(if landed then projects[d.id := d] else projects, after, sha) <==> (landed ==> d.attachments == [])
  {
    var after := objects - (set a | a in d.attachments :: Key(d.id, a.id));
    forall id, a | id in projects && a in projects[id].attachments
      ensures Intact(after, sha, id, a)
    {
      assert Intact(objects, sha, id, a) && projects[id].id == id;
    }
    assert NoDangling(projects, after, sha);
    if d.attachments != [] {
      var a := d.attachments[0];
      assert a in d.attachments && Key(d.id, a.id) !in after;
      assert landed ==> a in projects[d.id := d][d.id].attachments && !Intact(after, sha, d.id, a);
    } else {
      assert NoDangling(projects[d.id := d], after, sha);
    }
  }
}
