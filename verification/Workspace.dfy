/**
 The workspace store: one record per project, written by compare-and-set on the whole record, and an object store
 for attachment bytes. Other requests commit between any two of a request's statements, and a database write may
 commit and still report a failure.
 */
module Workspace {
  import opened Common
  import opened Project
  import opened ProjectRules
  import opened Base64

  datatype Key = Key(project: string, attachment: string)

  type Digest = Bytes -> string

  /** The stored bytes are those the attachment describes. */
  predicate Intact(objects: map<Key, Bytes>, sha: Digest, id: string, a: Attachment) {
    var key := Key(id, a.id);
    key in objects && |objects[key]| == a.size && sha(objects[key]) == a.sha256
  }

  /** No stored attachment points to a missing or different object. */
  predicate NoDangling(projects: map<string, Document>, objects: map<Key, Bytes>, sha: Digest) {
    forall id :: id in projects ==>
      projects[id].id == id && forall a :: a in projects[id].attachments ==> Intact(objects, sha, id, a)
  }

  predicate Refers(projects: map<string, Document>, key: Key) {
    key.project in projects && exists a :: a in projects[key.project].attachments && a.id == key.attachment
  }

  /** A record changes only by becoming newer, and attachments are only ever appended. */
  predicate Newer(a: Document, b: Document) {
    a == b || (a.id == b.id && a.revision < b.revision && a.attachments <= b.attachments)
  }

  lemma NewerTrans(a: Document, b: Document, c: Document)
    requires Newer(a, b) && Newer(b, c)
    ensures Newer(a, c)
  {
  }

  /** Names nobody else was given: one attachment key, or every key of a new project. */
  datatype Mine = Nothing | OneKey(key: Key) | WholeProject(id: string)

  predicate Owns(mine: Mine, key: Key) {
    match mine
    case Nothing => false
    case OneKey(k) => k == key
    case WholeProject(id) => id == key.project
  }

  /** What others may have done between two moments. */
  predicate Since(p0: map<string, Document>, o0: map<Key, Bytes>, p: map<string, Document>, o: map<Key, Bytes>,
                  mine: Mine) {
    && (forall id :: id in p0 ==> id in p && Newer(p0[id], p[id]))
    && (forall key :: key in o0 && Owns(mine, key) ==> key in o && o[key] == o0[key])
    && (forall key :: key in o && Owns(mine, key) ==> key in o0)
    && (forall id :: id in p && id !in p0 ==> mine != WholeProject(id))
    && (mine.OneKey? && Refers(p, mine.key) ==> Refers(p0, mine.key))
  }

  lemma SinceTrans(p0: map<string, Document>, o0: map<Key, Bytes>, p1: map<string, Document>, o1: map<Key, Bytes>,
                   p2: map<string, Document>, o2: map<Key, Bytes>, mine: Mine)
    requires Since(p0, o0, p1, o1, mine) && Since(p1, o1, p2, o2, mine)
    ensures Since(p0, o0, p2, o2, mine)
  {
    forall id | id in p0
      ensures id in p2 && Newer(p0[id], p2[id])
    {
      NewerTrans(p0[id], p1[id], p2[id]);
    }
  }

  lemma SinceSelf(p: map<string, Document>, o: map<Key, Bytes>, mine: Mine)
    ensures Since(p, o, p, o, mine)
  {
  }

  datatype Reply = Changed | Unmatched | Lost

  /** What a request answers when the outcome of its write is unknown, from the record it reads afterwards. */
  function Reconcile(existing: Document, next: Document, current: Option<Document>): Result<Document, Error> {
    if current.None? then Failure(Indeterminate)
    else if current.value == next then Success(next)
    else if current.value != existing then Failure(Conflict(current))
    else Failure(Unavailable)
  }

  datatype Error =
    | BadRequest
    | NotFound
    | Conflict(current: Option<Document>)
    | Corrupt // a stored object is missing or is not what its reference describes
    | Indeterminate
    | Unavailable // a write or upload failed and took no effect

  /** The record an update of existing with this content leads to. */
  function Updated(existing: Document, content: Content, request: Env): Document {
    Document(existing.id, existing.revision + 1, content, existing.attachments, existing.createdAt, request.now)
  }

  lemma UpdatedParts(existing: Document, c: Content, request: Env)
    ensures Updated(existing, c, request) ==
      existing.(revision := existing.revision + 1, content := c, updatedAt := request.now)
    ensures var next := Updated(existing, c, request);
      && next.id == existing.id && next.revision == existing.revision + 1 && next.content == c
      && next.attachments == existing.attachments
  {
  }

  function Found(projects: map<string, Document>, id: string): Option<Document> {
    if id in projects then Some(projects[id]) else None
  }

  predicate AtRevision(found: Option<Document>, revision: int) {
    found.Some? && found.value.revision == revision
  }

  predicate AfterRevision(found: Option<Document>, revision: int) {
    found.Some? && found.value.revision > revision
  }

  /**
   What an update answers, from the record it found: success is the sanitised content as the next revision over
   everything else in the record; no record, another revision and an unusable input are refused, and nothing else is.
   */
  ghost predicate UpdateAnswer(found: Option<Document>, raw: Raw, request: Env, expected: int, fits: Document -> bool,
                               r: Result<Document, Error>) {
    && (r.Success? ==> AtRevision(found, expected) && Follows(raw, request, r.value.content) &&
                       r.value == found.value.(revision := expected + 1, content := r.value.content,
                                               updatedAt := request.now) && fits(r.value))
    && (r == Failure(NotFound) <==> expected >= 0 && found.None?)
    && (expected >= 0 && found.Some? && !AtRevision(found, expected) ==> r == Failure(Conflict(found)))
    && (r == Failure(BadRequest) <==>
      expected < 0 || (AtRevision(found, expected) && !Usable(found.value, raw, request, fits)))
    && r != Failure(Corrupt)
  }

  ghost predicate Usable(existing: Document, raw: Raw, request: Env, fits: Document -> bool) {
    exists c :: Follows(raw, request, c) &&
      fits(existing.(revision := existing.revision + 1, content := c, updatedAt := request.now))
  }

  lemma UsableExactly(existing: Document, raw: Raw, request: Env, fits: Document -> bool)
    ensures Usable(existing, raw, request, fits) <==>
      Sanitize(raw, request).Some? && fits(Updated(existing, Sanitize(raw, request).value, request))
  {
    hide Sanitize, Follows;
    OneContent(raw, request);
  }

  lemma UpdateNewer(existing: Document, next: Document)
    requires existing.id == next.id && existing.revision < next.revision && existing.attachments <= next.attachments
    ensures Newer(existing, next)
  {
  }

  /** A record that was not replaced because it was no longer the one read has a later revision. */
  lemma Overtakes(p0: map<string, Document>, o0: map<Key, Bytes>, p1: map<string, Document>, o1: map<Key, Bytes>,
                  next: Document, landed: bool, p2: map<string, Document>, o2: map<Key, Bytes>)
    requires Since(p0, o0, p1, o1, Nothing) && Since(if landed then p1[next.id := next] else p1, o1, p2, o2, Nothing)
    requires next.id in p0
    ensures next.id in p1 && next.id in p2
    ensures !landed && p1[next.id] != p0[next.id] ==> p2[next.id].revision > p0[next.id].revision
  {
  }

  /** Base64 text of at most 1.4 million characters for one to a million bytes. */
  predicate Encodes(f: Field, bytes: Bytes) {
    f.Text? && |f.text| <= 1_400_000 && Atob(f.text) == Some(bytes) && 1 <= |bytes| <= 1_000_000
  }

  lemma EncodesExactly(f: Field, bytes: Bytes)
    ensures BytesFrom(f) == Some(bytes) <==> Encodes(f, bytes)
  {
    hide Atob;
  }

  /** What is recorded of an uploaded file. */
  predicate Uploaded(a: Attachment, newId: string, filename: Field, mediaType: Field, encoded: Field, sha: Digest,
                     bytes: Bytes) {
    && Encodes(encoded, bytes) && a.id == newId && FileNamed(filename, a.filename) && MediaNamed(mediaType, a.mediaType)
    && a.size == |bytes| && a.sha256 == sha(bytes)
  }

  /** An upload can be attached: it is usable, and project and record stay within their limits. */
  ghost predicate AttachUsable(existing: Document, newId: string, filename: Field, mediaType: Field, encoded: Field,
                               sha: Digest,
                               now: string, fits: Document -> bool) {
    exists a, bytes :: Uploaded(a, newId, filename, mediaType, encoded, sha, bytes) &&
      Total(existing.attachments) + |bytes| <= 2_000_000 &&
      fits(existing.(revision := existing.revision + 1, attachments := existing.attachments + [a], updatedAt := now))
  }

  /** What attaching a file answers, from the record it found. */
  ghost predicate AttachAnswer(found: Option<Document>, newId: string, filename: Field, mediaType: Field,
                               encoded: Field,
                               sha: Digest, expected: int, now: string, fits: Document -> bool,
                               r: Result<Document, Error>) {
    && (r.Success? ==> AtRevision(found, expected) && exists a, bytes ::
          a in r.value.attachments && Uploaded(a, newId, filename, mediaType, encoded, sha, bytes) &&
          (r.value == found.value.(revision := expected + 1, attachments := found.value.attachments + [a],
                                   updatedAt := now)
           || r.value.revision > expected + 1))
    && (r == Failure(NotFound) <==> expected >= 0 && found.None?)
    && (expected >= 0 && found.Some? && !AtRevision(found, expected) ==> r == Failure(Conflict(found)))
    && (expected < 0 ==> r == Failure(BadRequest))
    && (r == Failure(BadRequest) ==> expected < 0 || AtRevision(found, expected))
    && (AtRevision(found, expected) && expected >= 0 ==>
          if AttachUsable(found.value, newId, filename, mediaType, encoded, sha, now, fits) then
            r != Failure(BadRequest)
          else r == Failure(BadRequest) || r == Failure(Unavailable))
    && r != Failure(Corrupt)
  }

  lemma UploadedExactly(a: Attachment, newId: string, filename: Field, mediaType: Field, encoded: Field, sha: Digest,
                        bytes: Bytes)
    ensures Uploaded(a, newId, filename, mediaType, encoded, sha, bytes) <==>
      && BytesFrom(encoded) == Some(bytes)
      && PortableFilename(filename) == Some(a.filename) && MediaType(mediaType) == Some(a.mediaType)
      && a == Attachment(newId, a.filename, a.mediaType, |bytes|, sha(bytes))
  {
    hide BytesFrom, PortableFilename, MediaType, Encodes, FileNamed, MediaNamed;
    EncodesExactly(encoded, bytes);
    FileNameExactly(filename, a.filename);
    MediaTypeExactly(mediaType, a.mediaType);
  }

  /** The request's own checks find the one attachment there can be. */
  lemma AttachExactly(existing: Document, newId: string, filename: Field, mediaType: Field, encoded: Field, sha: Digest,
                      now: string, fits: Document -> bool)
    ensures var bytes, name, kind := BytesFrom(encoded), PortableFilename(filename), MediaType(mediaType);
      AttachUsable(existing, newId, filename, mediaType, encoded, sha, now, fits) <==>
        && bytes.Some? && name.Some? && kind.Some? && Total(existing.attachments) + |bytes.value| <= 2_000_000
        && fits(existing.(revision := existing.revision + 1, updatedAt := now, attachments := existing.attachments +
                          [Attachment(newId, name.value, kind.value, |bytes.value|, sha(bytes.value))]))
    ensures var bytes, name, kind := BytesFrom(encoded), PortableFilename(filename), MediaType(mediaType);
      bytes.Some? && name.Some? && kind.Some? ==>
        Uploaded(Attachment(newId, name.value, kind.value, |bytes.value|, sha(bytes.value)), newId, filename, mediaType,
                 encoded, sha, bytes.value)
  {
    hide BytesFrom, PortableFilename, MediaType, Uploaded, Total;
    forall a: Attachment, b: Bytes
      ensures Uploaded(a, newId, filename, mediaType, encoded, sha, b) <==>
        && BytesFrom(encoded) == Some(b)
        && PortableFilename(filename) == Some(a.filename) && MediaType(mediaType) == Some(a.mediaType)
        && a == Attachment(newId, a.filename, a.mediaType, |b|, sha(b))
    {
      UploadedExactly(a, newId, filename, mediaType, encoded, sha, b);
    }
  }

  /** What may be answered before anything is uploaded. */
  lemma EarlyAnswers(found: Option<Document>, newId: string, filename: Field, mediaType: Field, encoded: Field,
                     sha: Digest, expected: int, now: string, fits: Document -> bool)
    ensures expected < 0 ==>
      AttachAnswer(found, newId, filename, mediaType, encoded, sha, expected, now, fits, Failure(BadRequest))
    ensures expected >= 0 && found.None? ==>
      AttachAnswer(found, newId, filename, mediaType, encoded, sha, expected, now, fits, Failure(NotFound))
    ensures expected >= 0 && found.Some? && !AtRevision(found, expected) ==>
      AttachAnswer(found, newId, filename, mediaType, encoded, sha, expected, now, fits, Failure(Conflict(found)))
    ensures AtRevision(found, expected) ==>
      AttachUsable(found.value, newId, filename, mediaType, encoded, sha, now, fits) ||
      AttachAnswer(found, newId, filename, mediaType, encoded, sha, expected, now, fits, Failure(BadRequest))
    ensures expected >= 0 && AtRevision(found, expected) ==>
      AttachAnswer(found, newId, filename, mediaType, encoded, sha, expected, now, fits, Failure(Unavailable))
  {
    hide AttachUsable, Uploaded;
  }

  /** What may be answered for a usable upload. */
  lemma LateAnswer(found: Option<Document>, newId: string, filename: Field, mediaType: Field, encoded: Field,
                   sha: Digest, expected: int, now: string, fits: Document -> bool, r: Result<Document, Error>,
                   a: Attachment, bytes: Bytes)
    requires AtRevision(found, expected)
    requires AttachUsable(found.value, newId, filename, mediaType, encoded, sha, now, fits)
    requires Uploaded(a, newId, filename, mediaType, encoded, sha, bytes)
    requires r.Failure? ==> r.error.Conflict? || r.error.Indeterminate? || r.error.Unavailable?
    requires r.Success? ==> a in r.value.attachments
    requires r.Success? ==>
      || r.value == found.value.(revision := expected + 1, attachments := found.value.attachments + [a],
                                  updatedAt := now)
      || r.value.revision > expected + 1
    ensures AttachAnswer(found, newId, filename, mediaType, encoded, sha, expected, now, fits, r)
  {
    hide AttachUsable, Uploaded;
  }

  /** At most one content follows from an input, and the sanitiser finds it. */
  lemma OneContent(raw: Raw, request: Env)
    ensures forall c :: Follows(raw, request, c) <==> Sanitize(raw, request) == Some(c)
  {
    hide Follows, Sanitize;
    forall c
      ensures Follows(raw, request, c) <==> Sanitize(raw, request) == Some(c)
    {
      SanitizeExactly(raw, request, c);
    }
  }

  class Store {
    var projects: map<string, Document>
    var objects: map<Key, Bytes>
    ghost var faults: nat            // calls of this request that failed
    const sha: Digest
    const env: Env                   // the date parser; its clock and identifiers play no part
    const fits: Document -> bool     // whether the record stays within 256 KB

    ghost predicate Valid()
      reads this
    {
      Sound(env) && NoDangling(projects, objects, sha) && forall id :: id in projects ==> WellStored(projects[id], env)
    }

    constructor (sha: Digest, env: Env, fits: Document -> bool)
      requires Sound(env)
      ensures Valid() && projects == map[] && objects == map[] && this.sha == sha && this.env == env &&
        this.fits == fits
    {
      this.sha, this.env, this.fits, projects, objects, faults := sha, env, fits, map[], map[], 0;
    }

    method Put(key: Key, bytes: Bytes) returns (ok: bool)
      requires Valid() && !Refers(projects, key)
      modifies this`objects, this`faults
      ensures Valid() && (objects == old(objects) || objects == old(objects)[key := bytes])
      ensures ok ==> objects == old(objects)[key := bytes]
      ensures faults == old(faults) + if ok then 0 else 1
    {
      ok := *;
      if !ok { faults := faults + 1; }
      var stored: bool := *;
      if ok || stored {
        PutKeeps(projects, objects, sha, key, bytes);
        objects := objects[key := bytes];
      }
    }

    method Delete(key: Key)
      requires Valid() && !Refers(projects, key)
      modifies this`objects
      ensures Valid() && (objects == old(objects) || objects == old(objects) - {key})
    {
      hide WellStored, Sound;
      var ok: bool := *;
      if ok { objects := objects - {key}; }
    }

    /** UPDATE ... WHERE record_json=?; the write may be applied although its answer is lost. */
    method CompareAndSet(expected: Document, next: Document) returns (reply: Reply, ghost landed: bool)
      requires Valid() && Newer(expected, next) && expected != next && WellStored(next, env)
      requires forall a :: a in next.attachments && a !in expected.attachments ==> Intact(objects, sha, next.id, a)
      modifies this`projects, this`faults
      ensures Valid() && faults == old(faults) + if reply.Lost? then 1 else 0
      ensures reply.Unmatched? ==> next.id !in projects || projects[next.id] != expected
      ensures landed ==> next.id in old(projects) && old(projects)[next.id] == expected
      ensures landed ==> projects == old(projects)[next.id := next]
      ensures !landed ==> projects == old(projects)
      ensures reply.Changed? ==> landed
      ensures reply.Unmatched? ==> !landed
    {
      hide WellStored, Sound, Intact;
      landed := false;
      var lost: bool := *;
      var applied: bool := *;
      if lost { faults := faults + 1; }
      if next.id !in projects || projects[next.id] != expected {
        return if lost then Lost else Unmatched, false;
      }
      if lost && !applied { return Lost, false; }
      projects := projects[next.id := next];
      return if lost then Lost else Changed, true;
    }

    /** INSERT; a failing insert is taken to have stored nothing. */
    method Insert(d: Document) returns (ok: bool)
      requires Valid() && WellStored(d, env) && forall a :: a in d.attachments ==> Intact(objects, sha, d.id, a)
      modifies this`projects, this`faults
      ensures Valid() && faults == old(faults) + if ok || d.id in old(projects) then 0 else 1
      ensures ok ==> d.id !in old(projects) && projects == old(projects)[d.id := d]
      ensures !ok ==> projects == old(projects)
    {
      ok := *;
      if d.id in projects { ok := false; } else if !ok { faults := faults + 1; }
      if ok { projects := projects[d.id := d]; }
    }

    /** Any number of statements of other requests; none of them was given the names in mine. */
    method Others(mine: Mine)
      requires Valid()
      modifies this
      ensures Valid() && Since(old(projects), old(objects), projects, objects, mine) && faults == old(faults)
    {
      hide WellStored, Sound, NoDangling, Since;
      var steps: nat := *;
      SinceSelf(projects, objects, mine);
      while steps > 0
        invariant Valid() && Since(old(projects), old(objects), projects, objects, mine)
      {
        ghost var p1, o1 := projects, objects;
        OtherStatement(mine);
        SinceTrans(old(projects), old(objects), p1, o1, projects, objects, mine);
        steps := steps - 1;
      }
      faults := old(faults);
    }

    method OtherStatement(mine: Mine)
      requires Valid()
      modifies this
      ensures Valid() && Since(old(projects), old(objects), projects, objects, mine)
    {
      hide WellStored, Sound, NoDangling, Intact;
      var choice: nat := *;
      var key: Key := *;
      var next: Document := *;
      var bytes: Bytes := *;
      if choice == 0 && !Refers(projects, key) && !Owns(mine, key) {
        var _ := Put(key, bytes);
      } else if choice == 1 && !Refers(projects, key) && !Owns(mine, key) {
        Delete(key);
      } else if choice == 2 && WellStored(next, env) && next.id in projects && Newer(projects[next.id], next) &&
        next != projects[next.id] &&
                (forall a :: a in next.attachments && a !in projects[next.id].attachments ==>
                   Intact(objects, sha, next.id, a) && mine != OneKey(Key(next.id, a.id)))
      {
        var _, _ := CompareAndSet(projects[next.id], next);
      } else if choice == 3 && WellStored(next, env) && mine != WholeProject(next.id) &&
                (forall a :: a in next.attachments ==>
                  Intact(objects, sha, next.id, a) && mine != OneKey(Key(next.id, a.id)))
      {
        var _ := Insert(next);
      }
    }

    /** writeProject for an existing project, with its reconciliation of lost answers. */
    method WriteProject(existing: Document, next: Document, mine: Mine)
      returns (r: Result<Document, Error>, ghost landed: bool)
      requires Valid() && existing.id == next.id && existing.revision < next.revision
      requires existing.attachments <= next.attachments
      requires WellStored(next, env)
      requires forall a :: a in next.attachments && a !in existing.attachments ==> Intact(objects, sha, next.id, a)
      modifies this
      ensures Valid()
      ensures var before := if landed then old(projects)[next.id := next] else old(projects);
        Since(before, old(objects), projects, objects, mine)
      ensures landed ==> next.id in old(projects) && old(projects)[next.id] == existing
      ensures r.Success? ==> r.value == next && (landed || (next.id in projects && projects[next.id] == next))
      ensures r.Failure? && !r.error.Indeterminate? && !r.error.Conflict? ==> !landed
      ensures r.Failure? && r.error.Conflict? && r.error.current.Some? ==>
        next.id in projects && projects[next.id] == r.error.current.value
      ensures r.Failure? && r.error.Conflict? && r.error.current.Some? && landed ==>
        r.error.current.value.revision > next.revision
      ensures r.Failure? && r.error.Conflict? && r.error.current.None? ==> !landed
      ensures faults >= old(faults) && (r == Failure(BadRequest) <==> !fits(next))
      ensures fits(next) && faults == old(faults) ==>
        && (landed <==> next.id in old(projects) && old(projects)[next.id] == existing)
        && (landed <==> r.Success?)
        && (r.Failure? ==> r == Failure(Conflict(Found(projects, next.id))))
      ensures r.Failure? ==> !r.error.NotFound? && !r.error.Corrupt?
    {
      hide NoDangling, WellStored, Sound;
      if !fits(next) { return Failure(BadRequest), false; }
      var reply: Reply;
      reply, landed := CompareAndSet(existing, next);
      if reply.Changed? { return Success(next), landed; }
      ghost var p0, o0 := projects, objects;
      Others(mine);
      var readable: bool := *;
      if !readable { faults := faults + 1; }
      if reply.Unmatched? {
        return Failure(Conflict(if readable && next.id in projects then Some(projects[next.id]) else None)), landed;
      }
      r := Reconcile(existing, next, if readable && next.id in projects then Some(projects[next.id]) else None);
    }

    /** updateProject: new content over the attachments that were loaded. */
    method UpdateProject(id: string, raw: Raw, request: Env, expected: int)
      returns (r: Result<Document, Error>, ghost landed: bool)
      requires Valid() && Sound(request) && request.iso == env.iso
      modifies this
      ensures Valid()
      ensures AllNewer(old(projects), projects)
      ensures UpdateAnswer(Found(old(projects), id), raw, request, expected, fits, r)
      ensures r.Success? ==> landed || Found(projects, id) == Some(r.value)
      ensures r.Failure? && !r.error.Indeterminate? && !r.error.Conflict? ==> !landed
      ensures r.Failure? && r.error.Conflict? && landed ==>
        r.error.current.Some? && r.error.current.value.revision > expected + 1
      ensures r.Failure? && r.error.Conflict? && faults == old(faults) ==>
        !AtRevision(Found(old(projects), id), expected) ||
        (AfterRevision(r.error.current, expected) && r.error.current == Found(projects, id))
      ensures r.Failure? && (r.error.Unavailable? || r.error.Indeterminate?) ==> faults > old(faults)
    {
      hide WellStored, Sound, Sanitize, Intact, Follows, Since, AllNewer, NoDangling, Newer, Updated, Usable;
      AllNewerSelf(projects);
      landed := false;
      if expected < 0 { return Failure(BadRequest), false; }
      if id !in projects { return Failure(NotFound), false; }
      var existing := projects[id];
      if existing.revision != expected { return Failure(Conflict(Some(existing))), false; }
      StoredId(projects, objects, sha, id);
      ghost var p0, o0 := projects, objects;
      Others(Nothing);
      SinceNewer(p0, o0, projects, objects, Nothing);
      var content := Sanitize(raw, request);
      OneContent(raw, request);
      UsableExactly(existing, raw, request, fits);
      if content.None? { return Failure(BadRequest), false; }
      var next := Updated(existing, content.value, request);
      UpdatedParts(existing, content.value, request);
      assert WellStored(next, env) by { SanitizeIdempotent(raw, request, env); UpdatedWell(existing, next, env); }
      ghost var p1, o1 := projects, objects;
      r, landed := WriteProject(existing, next, Nothing);
      UpdateNewer(existing, next);
      AfterWrite(p0, o0, p1, o1, next, landed, projects, objects, Nothing);
      Overtakes(p0, o0, p1, o1, next, landed, projects, objects);
    }

    /**
     attachFile: the object first, then the record. newId was given to this call alone. Whatever else happens, the
     reference is in the store afterwards exactly when this call's write landed; success means it landed, and any
     error but an indeterminate one means it did not.
     */
    method AttachFile(id: string, filename: Field, mediaType: Field, encoded: Field, expected: int, newId: string,
                      now: string)
      returns (r: Result<Document, Error>, ghost landed: bool)
      requires Valid() && IsId("attachment", newId) && !Refers(projects, Key(id, newId))
      modifies this
      ensures Valid() && AllNewer(old(projects), projects)
      ensures landed <==> Refers(projects, Key(id, newId))
      ensures r.Success? ==> landed
      ensures r.Failure? && !r.error.Indeterminate? ==> !landed
      ensures AttachAnswer(Found(old(projects), id), newId, filename, mediaType, encoded, sha, expected, now, fits, r)
      ensures r.Failure? && r.error.Conflict? && faults == old(faults) ==>
        !AtRevision(Found(old(projects), id), expected) || AfterRevision(r.error.current, expected)
      ensures r.Failure? && (r.error.Unavailable? || r.error.Indeterminate?) ==> faults > old(faults)
    {
      hide WellStored, Sound, NoDangling, IsId, PortableFilename, MediaType, BytesFrom, Since, Refers, Intact, AllNewer,
           AttachAnswer, AttachUsable, Newer;
      AllNewerSelf(projects);
      ghost var found := Found(projects, id);
      EarlyAnswers(found, newId, filename, mediaType, encoded, sha, expected, now, fits);
      landed := false;
      if expected < 0 { return Failure(BadRequest), false; }
      if id !in projects { return Failure(NotFound), false; }
      var key, existing := Key(id, newId), projects[id];
      if existing.revision != expected { return Failure(Conflict(Some(existing))), false; }
      var bytes, name, kind := BytesFrom(encoded), PortableFilename(filename), MediaType(mediaType);
      AttachExactly(existing, newId, filename, mediaType, encoded, sha, now, fits);
      if bytes.None? || name.None? || kind.None? ||
         Total(existing.attachments) + |bytes.value| > MAX_PROJECT_ATTACHMENT_BYTES
      {
        return Failure(BadRequest), false;
      }
      var a := Attachment(newId, name.value, kind.value, |bytes.value|, sha(bytes.value));
      var next := existing.(revision := existing.revision + 1, attachments := existing.attachments + [a],
                            updatedAt := now);
      assert existing.id == id by { StoredId(projects, objects, sha, id); }
      AttachedWell(existing, next, a, filename, mediaType, encoded, env);
      var ok := PutAlone(key, bytes.value);
      if !ok {
        Delete(key);
        return Failure(Unavailable), false;
      }
      LaterRecord(old(projects), projects, id, existing);
      StoredIntact(objects, sha, key, a, bytes.value);
      ghost var p1 := projects;
      r, landed := PutReference(existing, next, a);
      AllNewerTrans(old(projects), p1, projects);
      if r != Failure(BadRequest) {
        LateAnswer(found, newId, filename, mediaType, encoded, sha, expected, now, fits, r, a, bytes.value);
      }
    }

    /** The record with its new reference, or the object is deleted again unless the write's outcome is unknown. */
    method PutReference(existing: Document, next: Document, a: Attachment)
      returns (r: Result<Document, Error>, ghost landed: bool)
      requires Valid() && !Refers(projects, Key(next.id, a.id)) && Intact(objects, sha, next.id, a)
      requires existing.id == next.id && existing.revision < next.revision && WellStored(next, env)
      requires next.attachments == existing.attachments + [a]
      requires next.id in projects && Newer(existing, projects[next.id])
      modifies this
      ensures Valid() && AllNewer(old(projects), projects)
      ensures landed <==> Refers(projects, Key(next.id, a.id))
      ensures r.Success? ==> landed && a in r.value.attachments && (r.value == next || r.value.revision > next.revision)
      ensures r.Failure? && !r.error.Indeterminate? ==> !landed
      ensures r == Failure(BadRequest) <==> !fits(next)
      ensures r.Failure? ==> !r.error.NotFound? && !r.error.Corrupt?
      ensures r.Failure? && r.error.Conflict? && faults == old(faults) ==>
        AfterRevision(r.error.current, existing.revision)
      ensures r.Failure? && (r.error.Unavailable? || r.error.Indeterminate?) ==> faults > old(faults)
    {
      hide WellStored, Sound, NoDangling, Since, Refers, Intact, AllNewer;
      var key := Key(next.id, a.id);
      ghost var p0, o0 := projects, objects;
      r, landed := WriteProject(existing, next, OneKey(key));
      AttachWritten(p0, o0, existing, next, a, landed, projects, objects, key);
      LaterRecord(p0, projects, next.id, existing);
      if r.Success? { return r, landed; }
      if r.error.Conflict? && r.error.current.Some? && a in r.error.current.value.attachments {
        return Success(r.error.current.value), landed;
      }
      if !r.error.Indeterminate? {
        ghost var p1, o1 := projects, objects;
        Others(OneKey(key));
        SinceOneKey(p1, o1, projects, objects, key);
        AllNewerTrans(old(projects), p1, projects);
        Delete(key);
      }
    }

    /** Uploads an object nobody refers to, with others at work before and after. */
    method PutAlone(key: Key, bytes: Bytes) returns (ok: bool)
      requires Valid() && !Refers(projects, key)
      modifies this
      ensures Valid() && !Refers(projects, key) && AllNewer(old(projects), projects)
      ensures ok ==> key in objects && objects[key] == bytes
      ensures faults == old(faults) + if ok then 0 else 1
    {
      hide WellStored, Sound, NoDangling, Since, Refers, Intact, AllNewer;
      Others(OneKey(key));
      SinceOneKey(old(projects), old(objects), projects, objects, key);
      ghost var p1 := projects;
      ok := Put(key, bytes);
      ghost var o1 := objects;
      Others(OneKey(key));
      SinceOneKey(p1, o1, projects, objects, key);
      AllNewerTrans(old(projects), p1, projects);
    }
  }

  lemma PutKeeps(projects: map<string, Document>, objects: map<Key, Bytes>, sha: Digest, key: Key, bytes: Bytes)
    requires NoDangling(projects, objects, sha) && !Refers(projects, key)
    ensures NoDangling(projects, objects[key := bytes], sha)
  {
    forall id, a | id in projects && a in projects[id].attachments
      ensures Intact(objects[key := bytes], sha, id, a)
    {
      assert Intact(objects, sha, id, a) && Refers(projects, Key(id, a.id));
    }
  }

  lemma UpdatedWell(existing: Document, next: Document, env: Env)
    requires WellStored(existing, env) && next.attachments == existing.attachments
    requires Sanitize(AsRaw(next.content), env) == Some(next.content)
    ensures WellStored(next, env)
  {
    hide Sanitize, Total, CleanAttachment;
  }

  /** Interference, then a write that may have landed, then interference again. */
  lemma AfterWrite(p0: map<string, Document>, o0: map<Key, Bytes>, p1: map<string, Document>, o1: map<Key, Bytes>,
                   next: Document, landed: bool, p2: map<string, Document>, o2: map<Key, Bytes>, mine: Mine)
    requires Since(p0, o0, p1, o1, mine)
    requires Since(if landed then p1[next.id := next] else p1, o1, p2, o2, mine)
    requires landed ==> next.id in p1 && Newer(p1[next.id], next)
    ensures AllNewer(p0, p2)
  {
    forall id | id in p0
      ensures id in p2 && Newer(p0[id], p2[id])
    {
      NewerTrans(p0[id], p1[id], p2[id]);
    }
  }

  function BytesFrom(f: Field): Option<Bytes> {
    if !f.Text? || |f.text| > MAX_ENCODED || Atob(f.text).None? then None
    else if 1 <= |Atob(f.text).value| <= MAX_ATTACHMENT_BYTES then Atob(f.text) else None
  }

  /** The attachment records exactly the uploaded bytes. */
  predicate Describes(a: Attachment, id: string, encoded: Field, sha: Digest) {
    a.id == id && BytesFrom(encoded).Some? && a.size == |BytesFrom(encoded).value| &&
      a.sha256 == sha(BytesFrom(encoded).value)
  }

  ghost predicate AllNewer(p: map<string, Document>, q: map<string, Document>) {
    forall id :: id in p ==> id in q && Newer(p[id], q[id])
  }

  lemma LaterRecord(p: map<string, Document>, q: map<string, Document>, id: string, existing: Document)
    requires AllNewer(p, q) && id in p && Newer(existing, p[id])
    ensures id in q && Newer(existing, q[id])
    ensures p[id] != existing ==> q[id].revision > existing.revision
  {
    NewerTrans(existing, p[id], q[id]);
  }

  lemma AllNewerSelf(p: map<string, Document>)
    ensures AllNewer(p, p)
  {
  }

  lemma AllNewerTrans(p: map<string, Document>, q: map<string, Document>, r: map<string, Document>)
    requires AllNewer(p, q) && AllNewer(q, r)
    ensures AllNewer(p, r)
  {
    forall id | id in p
      ensures id in r && Newer(p[id], r[id])
    {
      NewerTrans(p[id], q[id], r[id]);
    }
  }

  lemma SinceOneKey(p0: map<string, Document>, o0: map<Key, Bytes>, p: map<string, Document>, o: map<Key, Bytes>,
                    key: Key)
    requires Since(p0, o0, p, o, OneKey(key))
    ensures AllNewer(p0, p) && (Refers(p, key) ==> Refers(p0, key))
    ensures key in o0 ==> key in o && o[key] == o0[key]
  {
    hide Refers;
  }

  lemma SinceNewer(p0: map<string, Document>, o0: map<Key, Bytes>, p: map<string, Document>, o: map<Key, Bytes>,
                   mine: Mine)
    requires Since(p0, o0, p, o, mine)
    ensures AllNewer(p0, p)
  {
  }

  lemma StoredId(projects: map<string, Document>, objects: map<Key, Bytes>, sha: Digest, id: string)
    requires NoDangling(projects, objects, sha) && id in projects
    ensures projects[id].id == id
  {
  }

  lemma StoredIntact(objects: map<Key, Bytes>, sha: Digest, key: Key, a: Attachment, bytes: Bytes)
    requires key in objects && objects[key] == bytes && a.id == key.attachment && a.size == |bytes|
    requires a.sha256 == sha(bytes)
    ensures Intact(objects, sha, key.project, a)
  {
  }

  lemma AttachedWell(existing: Document, next: Document, a: Attachment,
                     filename: Field, mediaType: Field, encoded: Field, env: Env)
    requires WellStored(existing, env)
    requires next == existing.(revision := next.revision, attachments := existing.attachments + [a],
                               updatedAt := next.updatedAt)
    requires IsId("attachment", a.id) && BytesFrom(encoded).Some?
    requires PortableFilename(filename) == Some(a.filename) && MediaType(mediaType) == Some(a.mediaType)
    requires a.size == |BytesFrom(encoded).value|
    requires Total(existing.attachments) + a.size <= MAX_PROJECT_ATTACHMENT_BYTES
    ensures WellStored(next, env)
  {
    hide Sanitize, Atob, PortableFilename, MediaType, IsId;
    FilenameTwice(filename);
    MediaTypeTwice(mediaType);
    assert next.attachments[..|next.attachments| - 1] == existing.attachments;
  }

  /** Once the write of a fresh reference has been tried, the reference is there exactly when it landed. */
  lemma AttachWritten(p0: map<string, Document>, o0: map<Key, Bytes>, existing: Document, next: Document, a: Attachment,
                      landed: bool,
                      p: map<string, Document>, o: map<Key, Bytes>, key: Key)
    requires key == Key(next.id, a.id) && !Refers(p0, key) && Newer(existing, next) && a in next.attachments
    requires landed ==> next.id in p0 && p0[next.id] == existing
    requires Since(if landed then p0[next.id := next] else p0, o0, p, o, OneKey(key))
    ensures AllNewer(p0, p) && (landed <==> Refers(p, key))
    ensures next.id in p && a in p[next.id].attachments ==> landed
    ensures landed ==> next.id in p && a in p[next.id].attachments
  {
    var p1 := if landed then p0[next.id := next] else p0;
    SinceOneKey(p1, o0, p, o, key);
    assert AllNewer(p0, p1);
    AllNewerTrans(p0, p1, p);
    if landed {
      assert Newer(next, p[next.id]);
    }
  }

  /** next landed on existing, its answer was lost, another update followed, and the request answers with a conflict. */
  predicate Overtaken(existing: Document, next: Document, later: Document) {
    && Newer(existing, next) && existing.revision + 1 == next.revision && Newer(next, later) && next != later
    && Since(map[next.id := next], map[], map[next.id := later], map[], Nothing)
    && Reconcile(existing, next, Some(later)) == Failure(Conflict(Some(later)))
  }

  lemma OvertakenUpdate()
    ensures exists existing: Document, next: Document, later: Document :: Overtaken(existing, next, later)
  {
    var content := Content("name", "", "planned", [], [], [], []);
    var existing := Document("project", 0, content, [], "", "");
    assert Overtaken(existing, existing.(revision := 1), existing.(revision := 2));
  }
}
