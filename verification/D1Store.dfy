/**
 The mirror's store as it runs: each call reads the database several times, other calls may commit between any
 two of its statements, and its own batch is atomic. Every such execution is one of the runs of MirrorRuns.
 */
module D1Store {
  import opened Common
  import opened Text
  import opened Mirror
  import opened MirrorRules
  import opened MirrorRuns
  import opened Uploads

  class D1EngineeringStore {
    var db: Db
    var history: seq<Db> // what the database has been, oldest first
    var ops: seq<Op>     // the operation behind each change of it

    ghost predicate Valid()
      reads this
    {
      |history| == |ops| + 1 && db == history[|history| - 1] && Run(history, ops)
    }

    constructor (created: Db)
      requires Created(created)
      ensures Valid() && db == created && ops == []
    {
      db, history, ops := created, [created], [];
    }

    /** Everything that happened here happened after before, and the run so far is kept. */
    twostate predicate Continues()
      reads this
    {
      Valid() && old(history) <= history && old(ops) <= ops
    }

    /** Ends an atomic batch: the new database state is the next one of the run. */
    method Commit(op: Op, after: Db)
      requires Valid() && Timely(history, |history| - 1, op) && after == Next(history, |history| - 1, op)
      modifies this
      ensures Continues() && db == after && ops == old(ops) + [op] && history == old(history) + [after]
    {
      Extend(history, ops, op);
      history, ops, db := history + [after], ops + [op], after;
    }

    /** Whatever other requests do in the meantime. */
    method Others()
      requires Valid()
      modifies this
      ensures Continues()
    {
      hide Run, Next;
      var steps: nat := *;
      while steps > 0
        invariant Continues()
      {
        var op: Op := *;
        if Timely(history, |history| - 1, op) { Commit(op, Next(history, |history| - 1, op)); }
        steps := steps - 1;
      }
    }

    /** The batch of markSourceUploaded after its one read; at is the moment of the batch. */
    method MarkSourceUploaded(id: string, etag: string, sha256: string) returns (ok: bool, ghost at: nat)
      requires Valid()
      modifies this
      ensures Continues()
      ensures at + 1 < |history| <==>
        && id in old(db.sources) && etag != "" && IsDigest(sha256)
        && (old(db.sources)[id].uploaded.Some? ==> old(db.sources)[id].uploaded.value == Upload(etag, sha256))
      ensures at + 1 < |history| ==>
        id in history[at].sources && Uploaded(history[at], id, etag, sha256, history[at + 1])
      ensures ok <==>
        at + 1 < |history| && history[at + 1].sources[id] == Source(Some(Upload(etag, sha256)), true)
      ensures |old(history)| - 1 <= at < |history|
      ensures ok ==> exists n :: |old(ops)| <= n < |ops| && ops[n].UploadSource? && ops[n].id == id &&
                                 ops[n].etag == etag && ops[n].sha256 == sha256 && ops[n].read >= |old(history)| - 1
    {
      hide Run, IsDigest, Next, Pending;
      var read := |history| - 1;
      at := read;
      if id !in db.sources || etag == "" || !IsDigest(sha256) { return false, at; }
      var source := db.sources[id];
      if source.uploaded.Some? && source.uploaded.value != Upload(etag, sha256) { return false, at; }
      ghost var first := db;
      Others();
      KeysStay(history, ops, read, |history| - 1);
      at := |history| - 1;
      var op := UploadSource(read, id, etag, sha256);
      ghost var n := |ops|;
      var after := FiveStatements(id, etag, sha256);
      assert after == Next(history, |history| - 1, op) by { UploadIsNext(history, op); }
      Commit(op, after);
      assert ops[n] == op && history[at + 1] == after;
      ok := after.sources[id] == Source(Some(Upload(etag, sha256)), true);
    }

    /** A queued job nobody has taken yet, at the expected revision. */
    static predicate Free(row: Row, expected: nat) {
      row.revision == expected && row.state == Queued && row.remote.None? && !row.reserved
    }

    /**
     What the upload batch leaves: the source has its upload, unless it had one, and is counted; an uploading job it had
     not been counted for goes up by one revision and is ready when no source is left.
     */
    static predicate Uploaded(before: Db, id: string, etag: string, sha256: string, after: Db)
      requires id in before.sources
    {
      && after.evidence == before.evidence && after.sources.Keys == before.sources.Keys
      && (forall k :: k in before.sources && k != id ==> after.sources[k] == before.sources[k])
      && after.sources[id].applied
      && (before.sources[id].uploaded.None? ==> after.sources[id].uploaded == Some(Upload(etag, sha256)))
      && (before.sources[id].uploaded.Some? ==> after.sources[id].uploaded == before.sources[id].uploaded)
      && (before.row.state != Uploading || before.sources[id].applied ==> after.row == before.row)
      && (before.row.state == Uploading && !before.sources[id].applied ==>
            if forall k :: k in after.sources ==> after.sources[k].uploaded.Some? then
              after.row == before.row.(revision := before.row.revision + 1, state := Queued,
                                       summary := "Ready for secure dispatch.")
            else after.row == before.row.(revision := before.row.revision + 1))
    }

    static lemma UploadedBatch(before: Db, id: string, etag: string, sha256: string)
      requires id in before.sources
      ensures Uploaded(before, id, etag, sha256, UploadBatch(before, id, etag, sha256))
    {
    }

    /** The statements of the upload batch, in order. */
    method FiveStatements(id: string, etag: string, sha256: string) returns (after: Db)
      requires id in db.sources
      ensures after == UploadBatch(db, id, etag, sha256) && Uploaded(db, id, etag, sha256, after)
      ensures Counted(db) ==> Counted(after)
      ensures Counted(db) && db.sources[id].uploaded.Some? ==> after == db
    {
      hide IsDigest, Counted, Uploaded;
      if Counted(db) { UploadCounts(db, id, etag, sha256); }
      UploadedBatch(db, id, etag, sha256);
      after := db;
      if after.sources[id].uploaded.None? {
        after := after.(sources := after.sources[id := after.sources[id].(uploaded := Some(Upload(etag, sha256)))]);
      }
      var counted := after.sources[id].uploaded.Some? && !after.sources[id].applied;
      if after.row.state.Uploading? && counted {
        var ready := !Pending(after.sources);
        after := after.(row := after.row.(revision := after.row.revision + 1));
        if ready { after := after.(row := after.row.(state := Queued, summary := READY)); }
      }
      if counted {
        after := after.(sources := after.sources[id := after.sources[id].(applied := true)]);
      }
    }

    /** transition to cancelled: the row, then the reservation flag, then the guarded update. */
    method CancelJob(expected: nat) returns (ok: bool, ghost read: nat, ghost at: nat)
      requires Valid()
      modifies this
      ensures Continues() && |old(history)| - 1 <= read <= at < |history|
      ensures at + 1 < |history| <==>
        && old(db.row.revision) == expected && old(db.row.state) !in {Completed, Rejected, Cancelled, Failed, TimedOut}
        && !history[read].row.reserved
      ensures ok <==> at + 1 < |history| && history[at].row.revision == expected
      ensures ok ==> history[at + 1] == history[at].(row := history[at].row.(
        state := Cancelled, summary := "Engineering job cancelled.", revision := expected + 1))
      ensures !ok && at + 1 < |history| ==> history[at + 1] == history[at]
      ensures ok ==> exists n :: |old(ops)| <= n < |ops| && ops[n].CancelJob? && ops[n].expected == expected &&
                                 history[n + 1].row.state.Cancelled?
    {
      hide Run, Next;
      var rowRead, row := |history| - 1, db.row;
      read, at := rowRead, rowRead;
      if row.revision != expected { return false, read, at; }
      Others();
      var reservedRead, reserved := |history| - 1, db.row.reserved;
      read, at := reservedRead, reservedRead;
      CancelsExactly(row.state);
      if reserved || !TransitionAllowed(row.state, Cancelled) { return false, read, at; }
      Others();
      at := |history| - 1;
      var op := Op.CancelJob(rowRead, reservedRead, expected);
      var after := db;
      if after.row.revision == expected {
        after := after.(row :=
          after.row.(state := Cancelled, summary := "Engineering job cancelled.", revision := expected + 1));
      }
      ok := db.row.revision == expected;
      ghost var n := |ops|;
      CancelIsNext(history, op);
      Commit(op, after);
      assert ops[n] == op && history[n + 1] == after;
    }

    /** A queued job bound or reserved when it was read, reserved by this call at its moment, or reserved in the end. */
    static predicate Reserves(h: seq<Db>, first: Row, remoteRead: nat, reservedRead: nat, at: nat, expected: nat,
                              last: Row)
      requires remoteRead <= reservedRead <= at < |h|
    {
      && first.state == Queued
      && (|| h[remoteRead].row.remote.Some? || h[reservedRead].row.reserved
          || (at + 1 < |h| && (Free(h[at].row, expected) || last.reserved)))
    }

    /** If the guarded update was made, it reserved a job that was free and changed nothing of any other. */
    static predicate ReservedAt(h: seq<Db>, at: nat, expected: nat) {
      at + 1 < |h| ==> h[at + 1] == if Free(h[at].row, expected) then
        h[at].(row := h[at].row.(reserved := true, summary := "Dispatch reserved for private core reconciliation.",
                                 revision := expected + 1))
      else h[at]
    }

    /** The row, the remote id, the reservation flag, then the guarded update at the moment at. */
    method ReserveDispatch(expected: nat) returns (ok: bool, ghost remoteRead: nat, ghost reservedRead: nat,
                           ghost at: nat)
      requires Valid()
      modifies this
      ensures Continues() && |old(history)| - 1 <= remoteRead <= reservedRead <= at < |history|
      ensures at + 1 < |history| <==>
        && old(db.row.state) == Queued && old(db.row.revision) == expected
        && history[remoteRead].row.remote.None? && !history[reservedRead].row.reserved
      ensures ok <==> Reserves(history, old(db.row), remoteRead, reservedRead, at, expected, db.row)
      ensures ReservedAt(history, at, expected)
      ensures ok && !db.row.reserved ==>
        exists n :: 0 <= n < |history| && (history[n].row.reserved || history[n].row.remote.Some?)
    {
      hide Run, Next;
      var rowRead, row := |history| - 1, db.row;
      remoteRead, reservedRead, at := rowRead, rowRead, rowRead;
      if !row.state.Queued? { return false, remoteRead, reservedRead, at; }
      Others();
      var readRemote, remote := |history| - 1, db.row.remote;
      remoteRead, reservedRead, at := readRemote, readRemote, readRemote;
      if remote.Some? { return true, remoteRead, reservedRead, at; }
      Others();
      var readReserved, reserved := |history| - 1, db.row.reserved;
      reservedRead, at := readReserved, readReserved;
      if reserved { return true, remoteRead, reservedRead, at; }
      if row.revision != expected { return false, remoteRead, reservedRead, at; }
      Others();
      at := |history| - 1;
      ok := ReserveRow(Op.ReserveDispatch(rowRead, readRemote, readReserved, expected));
    }

    /** The guarded update of a reservation, and the read after it when it changed nothing. */
    method ReserveRow(op: Op) returns (ok: bool)
      requires Valid() && op.ReserveDispatch? && Timely(history, |history| - 1, op)
      requires history[op.rowRead].row.state.Queued? && history[op.rowRead].row.revision == op.expected
      requires history[op.remoteRead].row.remote.None? && !history[op.reservedRead].row.reserved
      modifies this
      ensures Continues() && |history| > |old(history)|
      ensures Free(old(db.row), op.expected) ==> history[|old(history)|] == old(db).(row := old(db.row).(
        reserved := true, summary := "Dispatch reserved for private core reconciliation.", revision := op.expected + 1))
      ensures !Free(old(db.row), op.expected) ==> history[|old(history)|] == old(db)
      ensures ok <==> Free(old(db.row), op.expected) || db.row.reserved
    {
      hide Run, Next;
      var after, row := db, db.row;
      ok := row.revision == op.expected && row.state.Queued? && row.remote.None? && !row.reserved;
      if ok { after := after.(row := row.(reserved := true, summary := RESERVED, revision := op.expected + 1)); }
      ReserveIsNext(history, op);
      Commit(op, after);
      if !ok {
        Others();
        ok := db.row.reserved;
      }
    }

    method SetRemoteJob(expected: nat, remote: string, summary: string) returns (ok: bool)
      requires Valid()
      modifies this
      ensures Continues()
      ensures remote != "" && |remote| <= 256 &&
              old(db.row.remote).None? && old(db.row.reserved) && old(db.row.revision) == expected ==>
        ok && exists n :: 0 <= n < |history| && history[n].row.remote == Some(remote) && !history[n].row.reserved
      ensures ok <==> db.row.remote == Some(remote) && remote != "" && |remote| <= 256
      ensures remote == "" || |remote| > 256 ==> db == old(db) && history == old(history)
      ensures remote != "" && |remote| <= 256 ==> |history| > |old(history)|
      ensures remote != "" && |remote| <= 256 ==>
        if old(db.row.revision) == expected && old(db.row.remote).None? && old(db.row.reserved) then
          history[|old(history)|] == old(db).(row := old(db.row).(
            remote := Some(remote), reserved := false, revision := expected + 1,
            summary := if |summary| > 2000 then summary[..2000] else summary))
        else history[|old(history)|] == old(db)
    {
      hide Run;
      if remote == "" || |remote| > 256 { return false; }
      var after := db;
      ok := db.row.revision == expected && db.row.remote.None? && db.row.reserved;
      if ok {
        after := after.(row := after.row.(remote := Some(remote), reserved := false, revision := expected + 1,
                                          summary := Cut(summary)));
      }
      Commit(BindRemote(expected, remote, summary), after);
      if !ok {
        Others();
        ok := db.row.remote == Some(remote);
      }
    }

    method RecordDecisionIntent(expected: nat, decision: Decision, digest: string) returns (ok: bool)
      requires Valid()
      modifies this
      ensures Continues()
      ensures ok <==>
        && IsDigest(digest) && old(db.row.revision) == expected && old(db.row.state) == AwaitingApproval
        && old(db.row.proposalDigest) == Some(digest)
        && (old(db.row.intent).Some? ==> old(db.row.intent).value == Intent(decision, digest))
      ensures db == old(db).(row := old(db.row).(
        intent := if ok then Some(Intent(decision, digest)) else old(db.row.intent)))
    {
      hide Run, IsDigest;
      if !IsDigest(digest) { return false; }
      var intent := Intent(decision, digest);
      var after := db;
      ok := db.row.revision == expected && db.row.state.AwaitingApproval? && db.row.proposalDigest == Some(digest) &&
            (db.row.intent.None? || db.row.intent.value == intent);
      if ok { after := after.(row := after.row.(intent := Some(intent))); }
      Commit(RecordDecision(expected, decision, digest), after);
    }

    /** The append-only check, item by item. */
    method ManifestCheck(stored: map<string, Descriptor>, incoming: seq<Descriptor>, frozen: bool)
      returns (verdict: Option<Verdict>)
      ensures verdict == (if |incoming| > MAX_EVIDENCE || !DistinctEvidence(incoming) then Some(Invalid)
                          else if !ManifestKept(stored, incoming) || (frozen && |stored| != |incoming|) then
                            Some(Conflict)
                          else None)
    {
      if |incoming| > MAX_EVIDENCE || !DistinctEvidence(incoming) { return Some(Invalid); }
      var left := stored.Keys;
      while left != {}
        invariant left <= stored.Keys
        invariant forall id :: id in stored && id !in left ==> stored[id] in incoming
      {
        var id :| id in left;
        if stored[id] !in incoming { return Some(Conflict); }
        left := left - {id};
      }
      verdict := if frozen && |stored| != |incoming| then Some(Conflict) else None;
    }

    /** The guarded update and the guarded evidence inserts, one statement at a time. */
    method SnapshotStatements(read: nat, s: Snapshot, next: Row) returns (after: Db)
      ensures after == SnapshotBatch(db, read, s, next)
    {
      after := db;
      if after.row.revision == read &&
        (after.row.coreRevision.None? || after.row.coreRevision.value <= s.coreRevision) {
        after := after.(row := after.row.(
          state := next.state, summary := next.summary, proposalDigest := next.proposalDigest,
          sourceDigest := next.sourceDigest,
          proposal := next.proposal, consumed := next.consumed, coreRevision := Some(s.coreRevision),
          revision := after.row.revision + 1));
      }
      var inserts := after.row.revision == read + 1 && after.row.coreRevision == Some(s.coreRevision);
      var i := 0;
      while i < |s.evidence|
        invariant 0 <= i <= |s.evidence|
        invariant after.row == SnapshotBatch(db, read, s, next).row && after.sources == db.sources
        invariant after.evidence == if inserts then InsertAll(db.evidence, s.evidence[..i]) else db.evidence
      {
        var d := s.evidence[i];
        assert s.evidence[..i + 1][..i] == s.evidence[..i];
        if inserts && d.id !in after.evidence { after := after.(evidence := after.evidence[d.id := d]); }
        i := i + 1;
      }
      assert s.evidence[..i] == s.evidence;
    }

    /** The checks before the batch. */
    method Check(v: View, s: Snapshot) returns (verdict: Verdict)
      ensures verdict == Decide(v, s)
    {
      hide IsDigest, DistinctEvidence, ManifestKept, Summarise;
      if v.coreRevision.Some? && s.coreRevision < v.coreRevision.value { return Conflict; }
      var manifest := ManifestCheck(v.evidence, s.evidence, Frozen(v.row));
      if manifest.Some? { return manifest.value; }
      var next := Merged(v, s);
      if next.sourceDigest.Some? && !IsDigest(next.sourceDigest.value) { return Invalid; }
      if v.row.sourceDigest.Some? && next.sourceDigest != v.row.sourceDigest { return Conflict; }
      if next.proposal.Some? {
        var p := next.proposal.value;
        if next.proposalDigest != Some(p.proposalDigest) || next.sourceDigest != Some(p.sourceDigest) {
          return Invalid;
        }
      }
      if v.row.proposal.Some? && v.row.proposal != next.proposal { return Conflict; }
      var approved := v.intent.Some? && v.intent.value.decision.Approve? &&
        next.proposalDigest == Some(v.intent.value.proposalDigest);
      if !v.row.consumed && s.consumed && (!approved || !v.row.state.Applying? || !s.state.Completed?) {
        return Conflict;
      }
      if next.proposal.Some? && s.state.Applying? && (!approved || s.consumed) { return Conflict; }
      if next.proposal.Some? && s.state.Completed? && (!approved || !s.consumed) { return Conflict; }
      if AlreadyMirrored(v, s, next) { return Unchanged; }
      if v.coreRevision == Some(s.coreRevision) { return Conflict; }
      if !CoreTransitionAllowed(v.row.state, s.state, Authorised(v.intent, v.row.proposalDigest, s.state)) {
        return Conflict;
      }
      verdict := Update(next);
    }

    /**
     The reads of applyCoreSnapshot: the row before the evidence, the core revision and the decision in any order
     around them; others may commit in between.
     */
    method ReadAll(s: Snapshot) returns (at: View, op: Op)
      requires Valid() && Parsed(s) && db.row.remote.Some?
      modifies this
      ensures Continues() && op.MirrorSnapshot? && op.snapshot == s && op.called >= |old(history)| - 1
      ensures Timely(history, |history| - 1, op) && at == ViewOf(history, op)
    {
      hide Run, Next, Parsed;
      var called := |history| - 1;
      var row, evidence, core, intent := None, None, None, None;
      at := View(db.row, db.evidence, None, None);
      while row.None? || evidence.None? || core.None? || intent.None?
        invariant Continues() && called == |old(history)| - 1 && called < |history|
        invariant evidence.Some? ==> row.Some?
        invariant row.Some? ==> called <= row.value < |history| && at.row == history[row.value].row
        invariant evidence.Some? ==> row.value <= evidence.value < |history|
        invariant evidence.Some? ==> at.evidence == history[evidence.value].evidence
        invariant core.Some? ==> called <= core.value < |history|
        invariant core.Some? ==> at.coreRevision == history[core.value].row.coreRevision
        invariant intent.Some? ==> called <= intent.value < |history| && at.intent == history[intent.value].row.intent
        decreases (if row.None? then 1 else 0) + (if evidence.None? then 1 else 0) + (if core.None? then 1 else 0) +
                  (if intent.None? then 1 else 0)
      {
        Others();
        var now := |history| - 1;
        if
        case row.None? => row, at := Some(now), at.(row := db.row);
        case row.Some? && evidence.None? => evidence, at := Some(now), at.(evidence := db.evidence);
        case core.None? => core, at := Some(now), at.(coreRevision := db.row.coreRevision);
        case intent.None? => intent, at := Some(now), at.(intent := db.row.intent);
      }
      op := MirrorSnapshot(called, row.value, evidence.value, core.value, intent.value, s);
    }

    /** applyCoreSnapshot on a job that has a remote id: the reads, the checks, then the batch. */
    method ApplyCoreSnapshot(s: Snapshot) returns (verdict: Verdict, ghost n: nat)
      requires Valid() && Parsed(s) && db.row.remote.Some?
      modifies this
      ensures Continues()
      ensures |old(ops)| <= n < |ops| && ops[n].MirrorSnapshot? && ops[n].snapshot == s
      ensures ops[n].called >= |old(history)| - 1
      ensures Timely(history, n, ops[n]) && history[n + 1] == Next(history, n, ops[n])
      ensures var decision := Decide(ViewOf(history, ops[n]), s);
        verdict == if decision.Update? && history[n + 1].row == history[n].row then Conflict else decision
    {
      hide Run, Next, Decide, Parsed, SnapshotBatch;
      var at, op := ReadAll(s);
      verdict := Check(at, s);
      Others();
      var after := db;
      if verdict.Update? { after := SnapshotStatements(at.row.revision, s, verdict.row); }
      var changed := after.row != db.row; // meta.changes of the guarded update
      n := |ops|;
      ghost var before := history;
      SnapshotIsNext(history, op, after);
      Commit(op, after);
      assert ops[n] == op && history[n + 1] == after;
      SameNext(before, history, n, op);
      if verdict.Update? && !changed { verdict := Conflict; }
    }
  }

  /** Only the states up to n matter to the step from n. */
  lemma SameNext(h: seq<Db>, longer: seq<Db>, n: nat, op: Op)
    requires Timely(h, n, op) && h <= longer
    ensures Timely(longer, n, op) && Next(longer, n, op) == Next(h, n, op)
  {
    hide Parsed, MarkUploaded, Cancel, Reserve, SetRemote, ApplySnapshot, RecordIntent;
    forall i | 0 <= i < |h|
      ensures longer[i] == h[i]
    {
    }
  }

  lemma Extend(h: seq<Db>, ops: seq<Op>, op: Op)
    requires Run(h, ops) && Timely(h, |h| - 1, op)
    ensures Run(h + [Next(h, |h| - 1, op)], ops + [op])
  {
    hide Timely, Next, Created;
    var h', ops' := h + [Next(h, |h| - 1, op)], ops + [op];
    forall n | 0 <= n < |ops'|
      ensures Timely(h', n, ops'[n]) && h'[n + 1] == Next(h', n, ops'[n])
    {
      SameNext(h, h', n, ops'[n]);
    }
  }

  /** No source appears or disappears. */
  lemma KeysStay(h: seq<Db>, ops: seq<Op>, i: nat, j: nat)
    requires Run(h, ops) && i <= j < |h|
    ensures h[i].sources.Keys == h[j].sources.Keys
  {
    Invariants(h, ops, j);
    assert Reaches(h[i], h[j]);
  }

  lemma UploadIsNext(h: seq<Db>, op: Op)
    requires op.UploadSource? && h != [] && Timely(h, |h| - 1, op)
    requires op.id in h[op.read].sources && op.id in h[|h| - 1].sources && op.etag != "" && IsDigest(op.sha256)
    requires var source := h[op.read].sources[op.id];
      source.uploaded.None? || source.uploaded.value == Upload(op.etag, op.sha256)
    ensures Next(h, |h| - 1, op) == UploadBatch(h[|h| - 1], op.id, op.etag, op.sha256)
  {
    hide IsDigest, UploadBatch;
  }

  lemma CancelIsNext(h: seq<Db>, op: Op)
    requires op.CancelJob? && h != [] && Timely(h, |h| - 1, op)
    ensures Next(h, |h| - 1, op) == Cancel(h[|h| - 1], h[op.rowRead].row, h[op.reservedRead].row.reserved, op.expected)
  {
  }

  lemma ReserveIsNext(h: seq<Db>, op: Op)
    requires op.ReserveDispatch? && h != [] && Timely(h, |h| - 1, op)
    ensures Next(h, |h| - 1, op) ==
            Reserve(h[|h| - 1], h[op.rowRead].row, h[op.remoteRead].row.remote, h[op.reservedRead].row.reserved,
              op.expected)
  {
  }

  lemma SnapshotIsNext(h: seq<Db>, op: Op, after: Db)
    requires op.MirrorSnapshot? && h != [] && Timely(h, |h| - 1, op)
    requires after == match Decide(ViewOf(h, op), op.snapshot)
                      case Update(next) => SnapshotBatch(h[|h| - 1], h[op.rowRead].row.revision, op.snapshot, next)
                      case _ => h[|h| - 1]
    ensures after == Next(h, |h| - 1, op)
  {
    hide Decide, SnapshotBatch, Parsed;
  }
}
