/** The five-statement upload batch against the in-memory store's single step. */
module Uploads {
  import opened Common
  import opened Text
  import opened Mirror
  import opened MirrorRuns

  /** The in-memory store's view of a job that is being uploaded. */
  datatype MemoryJob = MemoryJob(state: JobState, summary: string, revision: nat, sources: map<string, Option<Upload>>)

  datatype UploadError = NotFound | Mismatch | InvalidUpload

  /** A job whose sources are all there is queued. */
  function WhenReady(m: MemoryJob): MemoryJob {
    if forall k :: k in m.sources ==> m.sources[k].Some? then m.(state := Queued, summary := READY) else m
  }

  function MemoryUpload(m: MemoryJob, id: string, etag: string, sha256: string): Result<MemoryJob, UploadError> {
    if id !in m.sources then Failure(NotFound)
    else if m.sources[id].Some? then
      if m.sources[id].value != Upload(etag, sha256) then Failure(Mismatch) else Success(m)
    else if Trim(etag) == "" || !IsDigest(sha256) then Failure(InvalidUpload)
    else
      var sources := m.sources[id := Some(Upload(etag, sha256))];
      var bumped := m.(revision := m.revision + 1, sources := sources);
      Success(WhenReady(bumped))
  }

  /** The in-memory store's single step, case by case. */
  lemma MemoryExactly(m: MemoryJob, id: string, etag: string, sha256: string)
    ensures var r := MemoryUpload(m, id, etag, sha256);
      && (r == Failure(NotFound) <==> id !in m.sources)
      && (r == Failure(Mismatch) <==>
        id in m.sources && m.sources[id].Some? && m.sources[id].value != Upload(etag, sha256))
      && (r == Failure(InvalidUpload) <==>
        id in m.sources && m.sources[id].None? && (Trim(etag) == "" || !IsDigest(sha256)))
    ensures id in m.sources && m.sources[id] == Some(Upload(etag, sha256)) ==>
      MemoryUpload(m, id, etag, sha256) == Success(m)
    ensures id in m.sources && m.sources[id].None? && Trim(etag) != "" && IsDigest(sha256) ==>
      var r := MemoryUpload(m, id, etag, sha256);
      && r.Success? && r.value.sources == m.sources[id := Some(Upload(etag, sha256))]
      && r.value.revision == m.revision + 1
      && if exists k :: k in m.sources && k != id && m.sources[k].None? then
           r.value.state == m.state && r.value.summary == m.summary
         else r.value.state == Queued && r.value.summary == "Ready for secure dispatch."
  {
    hide Trim, IsDigest;
    if k :| k in m.sources && k != id && m.sources[k].None? {
      assert m.sources[id := Some(Upload(etag, sha256))][k].None?;
    }
  }

  function Abstract(db: Db): MemoryJob {
    MemoryJob(db.row.state, db.row.summary, db.row.revision, map id | id in db.sources :: db.sources[id].uploaded)
  }

  function UploadedIds(sources: map<string, Source>): set<string> {
    set id | id in sources && sources[id].uploaded.Some?
  }

  /** The ledger of uploads at a batch boundary. */
  predicate Counted(db: Db) {
    && (forall id :: id in db.sources ==> (db.sources[id].uploaded.Some? <==> db.sources[id].applied))
    && (db.row.state.Uploading? ==> db.row.revision == |UploadedIds(db.sources)| && Pending(db.sources))
    && (Pending(db.sources) ==>
      (db.row.state.Uploading? || db.row.state.Cancelled?) && !db.row.reserved && db.row.remote.None?)
  }

  /** The sources a batch leaves behind, and when it finds them all uploaded. */
  lemma BatchSources(db: Db, id: string, etag: string, sha256: string)
    requires id in db.sources && db.sources[id] == Source(None, false)
    ensures var after := UploadBatch(db, id, etag, sha256);
      && after.sources == db.sources[id := Source(Some(Upload(etag, sha256)), true)]
      && after.row == (if !db.row.state.Uploading? then db.row
                       else if Pending(after.sources) then db.row.(revision := db.row.revision + 1)
                       else db.row.(revision := db.row.revision + 1, state := Queued, summary := READY))
      && (Pending(after.sources) ==> Pending(db.sources))
  {
    var after := UploadBatch(db, id, etag, sha256);
    var first := db.sources[id := Source(Some(Upload(etag, sha256)), false)];
    if Pending(first) {
      var k :| k in first && first[k].uploaded.None?;
      assert k in after.sources && after.sources[k].uploaded.None?;
    }
    if Pending(after.sources) {
      var k :| k in after.sources && after.sources[k].uploaded.None?;
      assert k in first && first[k].uploaded.None? && k in db.sources && db.sources[k].uploaded.None?;
    }
  }

  lemma UploadCounts(db: Db, id: string, etag: string, sha256: string)
    requires Counted(db) && id in db.sources
    ensures Counted(UploadBatch(db, id, etag, sha256))
    ensures db.sources[id].uploaded.Some? ==> UploadBatch(db, id, etag, sha256) == db
  {
    var after := UploadBatch(db, id, etag, sha256);
    if db.sources[id].uploaded.Some? {
      assert db.sources[id].applied;
    } else {
      assert UploadedIds(after.sources) == UploadedIds(db.sources) + {id};
      BatchSources(db, id, etag, sha256);
    }
  }

  lemma OthersCount(h: seq<Db>, n: nat, op: Op)
    requires Timely(h, n, op) && !op.UploadSource? && Counted(h[n]) && Safe(h[n])
    requires op.CancelJob? ==> Reaches(h[op.rowRead], h[n])
    requires op.MirrorSnapshot? ==> h[n].row.remote.Some? && !h[op.rowRead].row.state.Uploading?
    ensures Counted(Next(h, n, op))
  {
    hide IsDigest, Parsed, UploadedIds, Decide, InsertAll;
    if op.MirrorSnapshot? {
      var v := ViewOf(h, op);
      assert !Pending(h[n].sources);
      if Decide(v, op.snapshot).Update? { NeverUploading(v, op.snapshot); }
    }
  }

  lemma NeverUploading(v: View, s: Snapshot)
    requires Decide(v, s).Update?
    requires !v.row.state.Uploading?
    ensures !Decide(v, s).row.state.Uploading?
  {
    hide IsDigest, DistinctEvidence, ManifestKept, AlreadyMirrored, Summarise;
  }

  /**
   In every run, uploaded and applied agree at every batch boundary; while a job is uploading its revision is the
   number of uploaded sources; and it leaves that state exactly when nothing is pending (or it is cancelled).
   */
  lemma {:induction false} UploadLedger(h: seq<Db>, ops: seq<Op>, n: nat)
    requires Run(h, ops) && n < |h|
    ensures Counted(h[n])
  {
    if n == 0 {
      assert UploadedIds(h[0].sources) == {};
      if h[0].sources != map[] {
        var id :| id in h[0].sources;
        assert h[0].sources[id].uploaded.None?;
      }
    } else {
      UploadLedger(h, ops, n - 1);
      Invariants(h, ops, n);
      var op := ops[n - 1];
      if op.UploadSource? {
        hide Safe, Counted, UploadBatch, IsDigest;
        if op.id in h[n - 1].sources { UploadCounts(h[n - 1], op.id, op.etag, op.sha256); }
      } else {
        hide Safe, Counted, Next;
        if op.MirrorSnapshot? { 
          assert Reaches(h[op.called], h[n - 1]) && Reaches(h[op.called], h[op.rowRead]);
          BoundStays(h[op.called], h[n - 1]);
          BoundStays(h[op.called], h[op.rowRead]);
        }
        if op.CancelJob? { assert Reaches(h[op.rowRead], h[n - 1]); }
        OthersCount(h, n - 1, op);
      }
    }
  }

  lemma BoundStays(a: Db, b: Db)
    requires Reaches(a, b) && a.row.remote.Some? && Safe(b)
    ensures b.row.remote.Some? && !b.row.state.Uploading?
  {
  }

  /** Whether the call returns the job rather than throwing, from the row it read first and the state it left. */
  predicate Accepted(read: Option<Source>, after: Db, id: string, etag: string, sha256: string) {
    && read.Some? && etag != "" && IsDigest(sha256)
    && (read.value.uploaded.Some? ==> read.value.uploaded.value == Upload(etag, sha256))
    && id in after.sources && after.sources[id] == Source(Some(Upload(etag, sha256)), true)
  }

  /** The one input on which the two stores differ: an ETag of spaces only, for a source still pending. */
  predicate BlankEtag(db: Db, id: string, etag: string, sha256: string) {
    id in db.sources && db.sources[id].uploaded.None? && etag != "" && Trim(etag) == "" && IsDigest(sha256)
  }

  /** However late the batch comes after the read, while the job is uploading it is the in-memory step. */
  lemma UploadRefines(h: seq<Db>, ops: seq<Op>, n: nat)
    requires Run(h, ops) && n < |ops| && ops[n].UploadSource? && h[n].row.state.Uploading?
    ensures var op := ops[n];
      var memory := MemoryUpload(Abstract(h[n]), op.id, op.etag, op.sha256);
      var read := if op.id in h[op.read].sources then Some(h[op.read].sources[op.id]) else None;
      && (Abstract(h[n + 1]) == (if memory.Success? then memory.value else Abstract(h[n])) <==>
        !BlankEtag(h[n], op.id, op.etag, op.sha256))
      && (!BlankEtag(h[n], op.id, op.etag, op.sha256) && op.etag != "" && IsDigest(op.sha256) ==>
            (Accepted(read, h[n + 1], op.id, op.etag, op.sha256) <==> memory.Success?))
      && (memory.Failure? && memory.error.Mismatch? ==> h[n + 1] == h[n])
  {
    hide IsDigest, Trim, Safe, UploadBatch, Created;
    var op, db, after := ops[n], h[n], h[n + 1];
    UploadLedger(h, ops, n);
    Invariants(h, ops, n);
    assert Reaches(h[op.read], db);
    if op.id in db.sources {
      UploadCounts(db, op.id, op.etag, op.sha256);
      if db.sources[op.id].uploaded.None? { BatchIsStep(db, op.id, op.etag, op.sha256); }
      Trimmed("");
    }
  }

  lemma BatchIsStep(db: Db, id: string, etag: string, sha256: string)
    requires Counted(db) && db.row.state.Uploading? && id in db.sources && db.sources[id].uploaded.None?
    ensures var after := Abstract(UploadBatch(db, id, etag, sha256));
      var sources := Abstract(db).sources[id := Some(Upload(etag, sha256))];
      var bumped := Abstract(db).(revision := db.row.revision + 1, sources := sources);
      && after == WhenReady(bumped)
      && after != Abstract(db)
      && id in UploadBatch(db, id, etag, sha256).sources
      && UploadBatch(db, id, etag, sha256).sources[id] == Source(Some(Upload(etag, sha256)), true)
  {
    var batch := UploadBatch(db, id, etag, sha256);
    BatchSources(db, id, etag, sha256);
    var sources := Abstract(db).sources[id := Some(Upload(etag, sha256))];
    assert Abstract(batch).sources == sources;
    if Pending(batch.sources) {
      var k :| k in batch.sources && batch.sources[k].uploaded.None?;
      assert k in sources && sources[k].None?;
    }
  }

  const ZEROES: string := seq(64, _ => '0')

  /** A job with one pending source, and the same job after an upload whose ETag is one space. */
  const WAITING := Db(Row(Uploading, "Waiting for source upload.", 0, None, None, None, false, None, false, None, None),
                      map[], map["s" := Source(None, false)])
  const BLANK := Db(WAITING.row.(revision := 1, state := Queued, summary := READY), map[],
                    map["s" := Source(Some(Upload(" ", ZEROES)), true)])

  /** The database store takes it and queues the job; the in-memory store refuses it. */
  lemma BlankEtagTaken()
    ensures Run([WAITING, BLANK], [UploadSource(0, "s", " ", ZEROES)])
    ensures BlankEtag(WAITING, "s", " ", ZEROES)
    ensures MemoryUpload(Abstract(WAITING), "s", " ", ZEROES) == Failure(InvalidUpload)
    ensures Abstract(BLANK) != Abstract(WAITING)
  {
    hide Trim;
    BlankTrimmed();
    BatchSources(WAITING, "s", " ", ZEROES);
    var batch := UploadBatch(WAITING, "s", " ", ZEROES);
    assert batch.sources == BLANK.sources && !Pending(batch.sources);
    assert batch == BLANK;
  }

  lemma BlankTrimmed()
    ensures Trim(" ") == ""
  {
    Trimmed(" ");
  }
}
