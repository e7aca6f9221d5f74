/**
 Every interleaving of the mirror's operations. A run is a history of database states; an operation names the
 past states its separate reads saw, and commits against the newest one.
 */
module MirrorRuns {
  import opened Common
  import opened Text
  import opened Mirror

  datatype Op =
    | UploadSource(read: nat, id: string, etag: string, sha256: string)
    | CancelJob(rowRead: nat, reservedRead: nat, expected: nat)
    | ReserveDispatch(rowRead: nat, remoteRead: nat, reservedRead: nat, expected: nat)
    | BindRemote(expected: nat, remote: string, summary: string)
    | MirrorSnapshot(called: nat, rowRead: nat, evidenceRead: nat, coreRead: nat, intentRead: nat, snapshot: Snapshot)
    | RecordDecision(expected: nat, decision: Decision, digest: string)

  /** Reads happen in the order of the code and no later than the commit. */
  predicate Timely(h: seq<Db>, n: nat, op: Op) {
    && n < |h|
    && match op
       case UploadSource(read, _, _, _) => read <= n
       case CancelJob(row, reserved, _) => row <= reserved <= n
       case ReserveDispatch(row, remote, reserved, _) => row <= remote <= reserved <= n
       case BindRemote(_, _, _) => true
       case MirrorSnapshot(called, row, evidence, core, intent, s) =>
         called <= row <= evidence <= n && called <= core <= n && called <= intent <= n &&
         h[called].row.remote.Some? && Parsed(s)
       case RecordDecision(_, _, _) => true
  }

  function ViewOf(h: seq<Db>, op: Op): View
    requires op.MirrorSnapshot? && op.rowRead < |h| && op.evidenceRead < |h| && op.coreRead < |h| && op.intentRead < |h|
  {
    View(h[op.rowRead].row, h[op.evidenceRead].evidence, h[op.coreRead].row.coreRevision, h[op.intentRead].row.intent)
  }

  function Next(h: seq<Db>, n: nat, op: Op): Db
    requires Timely(h, n, op)
  {
    var db := h[n];
    match op
    case UploadSource(read, id, etag, sha) =>
      MarkUploaded(db, if id in h[read].sources then Some(h[read].sources[id]) else None, id, etag, sha)
    case CancelJob(row, reserved, expected) => Cancel(db, h[row].row, h[reserved].row.reserved, expected)
    case ReserveDispatch(row, remote, reserved, expected) =>
      Reserve(db, h[row].row, h[remote].row.remote, h[reserved].row.reserved, expected)
    case BindRemote(expected, remote, summary) => SetRemote(db, expected, remote, summary)
    case MirrorSnapshot(_, _, _, _, _, s) => ApplySnapshot(db, ViewOf(h, op), s)
    case RecordDecision(expected, decision, digest) => RecordIntent(db, expected, decision, digest)
  }

  predicate Created(db: Db) {
    && db.row.revision == 0 && db.row.proposalDigest.None? && db.row.sourceDigest.None? && db.row.proposal.None?
    && !db.row.consumed && db.row.remote.None? && !db.row.reserved && db.row.coreRevision.None? && db.row.intent.None?
    && db.row.state == (if db.sources == map[] then Queued else Uploading)
    && db.row.summary == (if db.sources == map[] then READY else "Waiting for source upload.")
    && db.evidence == map[]
    && forall id :: id in db.sources ==> db.sources[id] == Source(None, false)
  }

  ghost predicate Run(h: seq<Db>, ops: seq<Op>) {
    && |h| == |ops| + 1 && Created(h[0])
    && forall n :: 0 <= n < |ops| ==> Timely(h, n, ops[n]) && h[n + 1] == Next(h, n, ops[n])
  }

  /** What every reachable state satisfies. */
  ghost predicate Safe(db: Db) {
    var r := db.row;
    && (r.proposal.Some? ==>
          r.proposalDigest == Some(r.proposal.value.proposalDigest) &&
            r.sourceDigest == Some(r.proposal.value.sourceDigest))
    && (r.state.AwaitingApproval? || r.state.Applying? || r.state.Rejected? || r.consumed || r.intent.Some? ==>
      r.proposal.Some?)
    && (r.intent.Some? ==> r.intent.value.proposalDigest == r.proposal.value.proposalDigest)
    && (r.state.Applying? || (r.state.Completed? && r.proposal.Some?) ==>
      r.intent.Some? && r.intent.value.decision.Approve?)
    && (r.state.Rejected? ==> r.intent.Some? && r.intent.value.decision.Reject?)
    && (r.consumed ==> r.state.Completed?)
    && (r.state.Completed? && r.proposal.Some? ==> r.consumed)
    && (r.reserved ==> r.state.Queued? && r.remote.None?)
    && (r.remote.None? ==> r.coreRevision.None?)
    && (r.remote.Some? ==> !r.state.Uploading?)
    && (r.sourceDigest.Some? ==> IsDigest(r.sourceDigest.value))
    && |r.summary| <= MAX_SUMMARY
    && !r.state.Draft?
  }

  /** A value written once stays. */
  predicate Once<T(==)>(a: Option<T>, b: Option<T>) {
    a.Some? ==> b == a
  }

  /** How two states of one run, the first no later than the second, are related. */
  ghost predicate Reaches(a: Db, b: Db) {
    && a.row.revision <= b.row.revision
    && (a.row.revision == b.row.revision ==> a.row.(intent := None) == b.row.(intent := None))
    && Once(a.row.intent, b.row.intent) && Once(a.row.remote, b.row.remote)
    && Once(a.row.sourceDigest, b.row.sourceDigest) && Once(a.row.proposal, b.row.proposal)
    && (a.row.consumed ==> b.row.consumed)
    && (a.row.coreRevision.Some? ==> b.row.coreRevision.Some? && a.row.coreRevision.value <= b.row.coreRevision.value)
    && (Terminal(a.row.state) ==>
      b.row.state == a.row.state && b.row.proposal == a.row.proposal && b.row.intent == a.row.intent)
    && a.sources.Keys == b.sources.Keys
    && (forall id :: id in a.sources ==> Once(a.sources[id].uploaded, b.sources[id].uploaded))
  }

  lemma ReachesTrans(a: Db, b: Db, c: Db)
    requires Reaches(a, b) && Reaches(b, c)
    ensures Reaches(a, c)
  {
  }

  lemma SnapshotStep(db: Db, v: View, s: Snapshot)
    requires Safe(db) && Parsed(s) && db.row.remote.Some?
    requires v.row.revision == db.row.revision ==> v.row.(intent := None) == db.row.(intent := None)
    requires Once(v.intent, db.row.intent)
    ensures Safe(ApplySnapshot(db, v, s)) && Reaches(db, ApplySnapshot(db, v, s))
  {
    hide DistinctEvidence, IsDigest, ManifestKept, AlreadyMirrored, Summarise, InsertAll;
    SummaryBound(s);
  }

  lemma SummaryBound(s: Snapshot)
    ensures |Summarise(s)| <= MAX_SUMMARY
  {
    hide Trim, StateName;
    WordsLength(StateName(s.state));
  }

  lemma {:induction false} WordsLength(name: string)
    ensures |Words(name)| == |name|
  {
    if name != [] { WordsLength(name[1..]); }
  }

  lemma UploadStep(db: Db, id: string, etag: string, sha256: string)
    requires Safe(db) && id in db.sources
    ensures Safe(UploadBatch(db, id, etag, sha256)) && Reaches(db, UploadBatch(db, id, etag, sha256))
  {
    hide IsDigest, Pending;
  }

  /** The reservation flag was read after the row; if the row is still current, so is the flag. */
  lemma CancelStep(db: Db, early: Db, later: Db, expected: nat)
    requires Safe(db) && Reaches(early, later) && Reaches(later, db)
    ensures Safe(Cancel(db, early.row, later.row.reserved, expected))
    ensures Reaches(db, Cancel(db, early.row, later.row.reserved, expected))
  {
    hide IsDigest;
  }

  lemma DispatchStep(db: Db, expected: nat, row: Row, remote: Option<string>, reserved: bool, name: string,
                     summary: string)
    requires Safe(db)
    ensures Safe(Reserve(db, row, remote, reserved, expected))
    ensures Reaches(db, Reserve(db, row, remote, reserved, expected))
    ensures Safe(SetRemote(db, expected, name, summary)) && Reaches(db, SetRemote(db, expected, name, summary))
  {
    hide IsDigest;
  }

  lemma IntentStep(db: Db, expected: nat, decision: Decision, digest: string)
    requires Safe(db)
    ensures Safe(RecordIntent(db, expected, decision, digest))
    ensures Reaches(db, RecordIntent(db, expected, decision, digest))
  {
    hide IsDigest;
  }

  lemma ReachesSelf(a: Db)
    ensures Reaches(a, a)
  {
  }

  lemma StartsSafe(db: Db)
    requires Created(db)
    ensures Safe(db) && Reaches(db, db)
  {
  }

  lemma {:induction false} Invariants(h: seq<Db>, ops: seq<Op>, n: nat)
    requires Run(h, ops) && n < |h|
    ensures forall j :: 0 <= j <= n ==> Safe(h[j])
    ensures forall i, j :: 0 <= i <= j <= n ==> Reaches(h[i], h[j])
  {
    hide Next, Timely, Reaches, Safe;
    if n == 0 {
      StartsSafe(h[0]);
    } else {
      Invariants(h, ops, n - 1);
      StepInvariants(h, ops, n - 1);
      ReachesSelf(h[n]);
      forall i | 0 <= i < n
        ensures Reaches(h[i], h[n])
      {
        ReachesTrans(h[i], h[n - 1], h[n]);
      }
    }
  }

  lemma StepInvariants(h: seq<Db>, ops: seq<Op>, n: nat)
    requires Run(h, ops) && n < |ops|
    requires Safe(h[n]) && forall i, j :: 0 <= i <= j <= n ==> Reaches(h[i], h[j])
    ensures Safe(h[n + 1]) && Reaches(h[n], h[n + 1])
  {
    hide Safe, Parsed, ApplySnapshot, UploadBatch, Cancel, Reserve, SetRemote, RecordIntent, IsDigest;
    var db := h[n];
    assert Reaches(db, db);
    match ops[n]
    case UploadSource(read, id, etag, sha) =>
      if id in db.sources { UploadStep(db, id, etag, sha); }
    case CancelJob(row, reserved, expected) => CancelStep(db, h[row], h[reserved], expected);
    case ReserveDispatch(row, remote, reserved, expected) =>
      DispatchStep(db, expected, h[row].row, h[remote].row.remote, h[reserved].row.reserved, "", "");
    case BindRemote(expected, remote, summary) => DispatchStep(db, expected, db.row, None, false, remote, summary);
    case MirrorSnapshot(called, row, _, _, intent, s) =>
      assert Reaches(h[row], db) && Reaches(h[called], db) && Reaches(h[intent], db);
      SnapshotStep(db, ViewOf(h, ops[n]), s);
    case RecordDecision(expected, decision, digest) => IntentStep(db, expected, decision, digest);
  }

  /** Approval safety: what the mirror shows as applying, exported or rejected was decided so, durably and exactly. */
  lemma ApprovalSafety(h: seq<Db>, ops: seq<Op>, n: nat)
    requires Run(h, ops) && n < |h|
    ensures var r := h[n].row;
      && (r.consumed ==> r.state.Completed?)
      && (r.state.AwaitingApproval? ==> r.proposal.Some?)
      && (r.state.Applying? || (r.state.Completed? && r.proposal.Some?) ==>
            r.proposal.Some? && r.intent == Some(Intent(Approve, r.proposal.value.proposalDigest)))
      && (r.state.Completed? && r.proposal.Some? ==> r.consumed)
      && (r.state.Rejected? ==> r.proposal.Some? && r.intent == Some(Intent(Reject, r.proposal.value.proposalDigest)))
  {
    Invariants(h, ops, n);
  }

  /** Revisions never go back, five columns are written once, and a terminal state is final. */
  lemma Monotone(h: seq<Db>, ops: seq<Op>, i: nat, j: nat)
    requires Run(h, ops) && i <= j < |h|
    ensures var a, b := h[i].row, h[j].row;
      && a.revision <= b.revision
      && (a.coreRevision.Some? ==> b.coreRevision.Some? && a.coreRevision.value <= b.coreRevision.value)
      && Once(a.sourceDigest, b.sourceDigest) && Once(a.proposal, b.proposal)
      && Once(a.remote, b.remote) && Once(a.intent, b.intent)
      && (a.consumed ==> b.consumed)
      && (Terminal(a.state) ==> b.state == a.state)
  {
    Invariants(h, ops, j);
  }

  /** A job is never both cancelled and reserved, and a bound job is not reserved. */
  lemma DispatchExclusion(h: seq<Db>, ops: seq<Op>, n: nat)
    requires Run(h, ops) && n < |h|
    ensures h[n].row.reserved ==> h[n].row.state.Queued? && h[n].row.remote.None?
    ensures !(h[n].row.state.Cancelled? && h[n].row.reserved)
    ensures h[n].row.coreRevision.Some? ==> h[n].row.remote.Some?
  {
    Invariants(h, ops, n);
  }

  /** When the three reads agree on the core revision, a snapshot at the stored revision cannot change the job. */
  lemma NoEquivocation(h: seq<Db>, ops: seq<Op>, n: nat)
    requires Run(h, ops) && n < |ops| && ops[n].MirrorSnapshot?
    requires h[n].row.coreRevision == Some(ops[n].snapshot.coreRevision)
    ensures h[ops[n].coreRead].row.coreRevision == h[ops[n].rowRead].row.coreRevision ==> h[n + 1].row == h[n].row
    ensures h[n + 1].row != h[n].row ==> ops[n].coreRead < ops[n].rowRead
  {
    hide Safe, Parsed, Decide, InsertAll;
    var op := ops[n];
    Invariants(h, ops, n);
    assert Reaches(h[op.rowRead], h[n]);
    if op.rowRead <= op.coreRead {
      assert Reaches(h[op.rowRead], h[op.coreRead]) && Reaches(h[op.coreRead], h[n]);
    }
    SameRevisionRefused(ViewOf(h, op), op.snapshot);
  }

  lemma SameRevisionRefused(v: View, s: Snapshot)
    ensures v.coreRevision == Some(s.coreRevision) ==> !Decide(v, s).Update?
  {
    hide DistinctEvidence, IsDigest, ManifestKept, Summarise, AlreadyMirrored, CoreTransitionAllowed;
  }

  /** A draft report parses, but in every run it is refused and changes nothing. */
  lemma DraftNeverMirrored(h: seq<Db>, ops: seq<Op>, n: nat)
    requires Run(h, ops) && n < |ops| && ops[n].MirrorSnapshot? && ops[n].snapshot.state.Draft?
    ensures h[n + 1] == h[n]
    ensures var v := Decide(ViewOf(h, ops[n]), ops[n].snapshot); v.Conflict? || v.Invalid?
  {
    hide Reaches, Parsed, Next;
    Invariants(h, ops, n);
    DraftUndecided(ViewOf(h, ops[n]), ops[n].snapshot);
    ConflictKeeps(h, n, ops[n]);
  }

  lemma DraftUndecided(v: View, s: Snapshot)
    requires s.state.Draft? && !v.row.state.Draft?
    ensures Decide(v, s).Conflict? || Decide(v, s).Invalid?
  {
    hide DistinctEvidence, IsDigest, ManifestKept, Summarise;
  }

  lemma ConflictKeeps(h: seq<Db>, n: nat, op: Op)
    requires Timely(h, n, op) && op.MirrorSnapshot? && !Decide(ViewOf(h, op), op.snapshot).Update?
    ensures Next(h, n, op) == h[n]
  {
    hide Decide, Parsed;
  }
}
