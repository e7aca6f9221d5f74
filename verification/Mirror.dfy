/**
 The mirror's copy of one engineering job: what a core snapshot must look like, what the mirror decides about a
 snapshot from the values it has read, and the atomic batches that change the database.
 */
module Mirror {
  import opened Common
  import opened Text

  datatype JobState =
    | Draft | Uploading | Queued | Ingesting | Planning | Executing | Testing | Collecting
    | AwaitingApproval | Applying
    | Completed | Rejected | Cancelled | Failed | TimedOut

  function StateName(s: JobState): (name: string)
    ensures 0 < |name| < 20 && 'a' <= name[0] <= 'z' && 'a' <= name[|name| - 1] <= 'z'
  {
    match s
    case Draft => "draft" case Uploading => "uploading" case Queued => "queued" case Ingesting => "ingesting"
    case Planning => "planning"
    case Executing => "executing" case Testing => "testing" case Collecting => "collecting"
    case AwaitingApproval => "awaiting_approval" case Applying => "applying" case Completed => "completed"
    case Rejected => "rejected" case Cancelled => "cancelled" case Failed => "failed" case TimedOut => "timed_out"
  }

  predicate Terminal(s: JobState) {
    s.Completed? || s.Rejected? || s.Cancelled? || s.Failed? || s.TimedOut?
  }

  /** The owner-side transition table. */
  predicate TransitionAllowed(from: JobState, to: JobState) {
    match from
    case Draft => to in {Uploading, Queued, Cancelled}
    case Uploading => to in {Queued, Cancelled, Failed}
    case Queued => to in {Ingesting, Cancelled, Failed}
    case Ingesting => to in {Planning, Cancelled, Failed, TimedOut}
    case Planning => to in {Executing, Cancelled, Failed, TimedOut}
    case Executing => to in {Testing, Cancelled, Failed, TimedOut}
    case Testing => to in {Collecting, Cancelled, Failed, TimedOut}
    case Collecting => to in {AwaitingApproval, Completed, Cancelled, Failed, TimedOut}
    case AwaitingApproval => to in {Applying, Rejected, Cancelled, Failed}
    case Applying => to in {Completed, Cancelled, Failed, TimedOut}
    case _ => false
  }

  /** Position in the core's progress list, or -1. */
  function Progress(s: JobState): int {
    match s
    case Queued => 0 case Ingesting => 1 case Planning => 2 case Executing => 3
    case Testing => 4 case Collecting => 5 case Completed => 6
    case _ => -1
  }

  predicate Exceptional(s: JobState) {
    s.Cancelled? || s.Failed? || s.TimedOut?
  }

  predicate CoreTransitionAllowed(from: JobState, to: JobState, authorised: bool) {
    if Terminal(from) then false
    else if from == to then true
    else if Progress(from) >= 0 && Progress(to) > Progress(from) then true
    else if 0 <= Progress(from) < 6 && (to.AwaitingApproval? || Exceptional(to)) then true
    else if from.AwaitingApproval? then
      Exceptional(to) || (authorised && (to.Applying? || to.Completed? || to.Rejected?))
    else if from.Applying? then to.Completed? || Exceptional(to)
    else false
  }

  datatype Proposal = Proposal(proposalDigest: string, sourceDigest: string, terms: string)

  datatype Decision = Approve | Reject

  datatype Intent = Intent(decision: Decision, proposalDigest: string)

  datatype Descriptor = Descriptor(
    id: string, category: string, filename: string, mediaType: string, sizeBytes: nat, sha256: string,
      createdAt: string)

  datatype Row = Row(
    state: JobState,
    summary: string,
    revision: nat,
    proposalDigest: Option<string>,
    sourceDigest: Option<string>,
    proposal: Option<Proposal>,
    consumed: bool,
    remote: Option<string>,
    reserved: bool,
    coreRevision: Option<nat>,
    intent: Option<Intent>)

  datatype Upload = Upload(etag: string, sha256: string)

  datatype Source = Source(uploaded: Option<Upload>, applied: bool)

  datatype Db = Db(row: Row, evidence: map<string, Descriptor>, sources: map<string, Source>)

  datatype Snapshot = Snapshot(
    state: JobState,
    summary: string,
    coreRevision: nat,
    proposalDigest: Option<string>,
    sourceDigest: Option<string>,
    proposal: Option<Proposal>,
    consumed: bool,
    evidence: seq<Descriptor>)

  /** A core response before parsing, its fields already read out of the JSON. */
  datatype Raw = Raw(
    state: string,
    summary: string,
    revision: int,
    remoteJobId: Option<string>,
    proposalDigest: Option<string>,
    sourceDigest: Option<string>,
    proposal: Option<Proposal>,
    consumed: bool,
    evidence: seq<Descriptor>)

  const MAX_SUMMARY := 2000
  const MAX_EVIDENCE := 10
  const MAX_SAFE_INTEGER := 0x1F_FFFF_FFFF_FFFF

  predicate DistinctEvidence(e: seq<Descriptor>) {
    forall i, j :: 0 <= i < j < |e| ==> e[i].id != e[j].id && e[i].filename != e[j].filename
  }

  /** The parser also keeps ids and file names apart; core paths follow from the file names. */
  predicate PooledEvidence(e: seq<Descriptor>) {
    DistinctEvidence(e) && forall i, j :: 0 <= i < |e| && 0 <= j < |e| ==> e[i].id != e[j].filename
  }

  function ParseState(name: string): Option<JobState> {
    if exists s: JobState :: StateName(s) == name then
      NamesDiffer();
      Some(var s: JobState :| StateName(s) == name; s)
    else None
  }

  lemma NamesDiffer()
    ensures forall s: JobState, t: JobState :: StateName(s) == StateName(t) ==> s == t
  {
    forall s: JobState, t: JobState | s != t
      ensures StateName(s) != StateName(t)
    {
      assert StateName(s)[0] != StateName(t)[0] || |StateName(s)| != |StateName(t)| ||
        StateName(s)[1] != StateName(t)[1];
    }
  }

  predicate ProposalFits(p: Option<Proposal>, proposalDigest: Option<string>, sourceDigest: Option<string>) {
    p.Some? ==>
      IsDigest(p.value.proposalDigest) && IsDigest(p.value.sourceDigest) &&
      proposalDigest == Some(p.value.proposalDigest) && sourceDigest == Some(p.value.sourceDigest)
  }

  predicate ApprovalRules(state: JobState, proposal: Option<Proposal>, consumed: bool) {
    && !(state.AwaitingApproval? && (proposal.None? || consumed))
    && !(proposal.Some? && state.Applying? && consumed)
    && !(proposal.Some? && state.Completed? && !consumed)
    && !(consumed && !state.Completed?)
  }

  function ParseSnapshot(raw: Raw): Option<Snapshot> {
    var state, summary := ParseState(raw.state), Trim(raw.summary);
    if state.None? || !(0 <= raw.revision <= MAX_SAFE_INTEGER) || |summary| > MAX_SUMMARY then None
    else if (raw.proposalDigest.Some? && !IsDigest(raw.proposalDigest.value)) ||
      (raw.sourceDigest.Some? && !IsDigest(raw.sourceDigest.value)) then None
    else if !ProposalFits(raw.proposal, raw.proposalDigest, raw.sourceDigest) then None
    else if !ApprovalRules(state.value, raw.proposal, raw.consumed) then None
    else if |raw.evidence| > MAX_EVIDENCE || (raw.evidence != [] && raw.remoteJobId.None?) ||
      !PooledEvidence(raw.evidence) then None
    else Some(Snapshot(state.value, summary, raw.revision, raw.proposalDigest, raw.sourceDigest, raw.proposal,
      raw.consumed, raw.evidence))
  }

  /** What every parsed snapshot satisfies. */
  predicate Parsed(s: Snapshot) {
    && Trim(s.summary) == s.summary && |s.summary| <= MAX_SUMMARY
    && (s.proposalDigest.Some? ==> IsDigest(s.proposalDigest.value))
    && (s.sourceDigest.Some? ==> IsDigest(s.sourceDigest.value))
    && ProposalFits(s.proposal, s.proposalDigest, s.sourceDigest)
    && ApprovalRules(s.state, s.proposal, s.consumed)
    && |s.evidence| <= MAX_EVIDENCE && PooledEvidence(s.evidence)
  }

  lemma StateNames(name: string, s: JobState)
    ensures ParseState(name) == Some(s) <==> StateName(s) == name
  {
    hide StateName;
    NamesDiffer();
  }

  /** The parser accepts only what the rules above allow. */
  lemma ParsedObeys(raw: Raw, s: Snapshot)
    requires ParseSnapshot(raw) == Some(s)
    ensures Parsed(s) && s.coreRevision == raw.revision && StateName(s.state) == raw.state
  {
    hide DistinctEvidence, IsDigest, StateName, Trim, ParseState;
    Trimmed(raw.summary);
    StateNames(raw.state, s.state);
  }

  /** And it accepts all of it: a parsed snapshot written out again parses to itself. */
  lemma ParsedRoundTrips(s: Snapshot, core: string)
    requires Parsed(s) && s.coreRevision <= MAX_SAFE_INTEGER
    ensures ParseSnapshot(Raw(StateName(s.state), s.summary, s.coreRevision, Some(core), s.proposalDigest,
      s.sourceDigest,
                              s.proposal, s.consumed, s.evidence)) == Some(s)
  {
    hide DistinctEvidence, IsDigest, StateName, Trim, ParseState;
    StateNames(StateName(s.state), s.state);
  }

  // What the mirror has read when it decides; the four parts may come from different moments.
  datatype View = View(row: Row, evidence: map<string, Descriptor>, coreRevision: Option<nat>, intent: Option<Intent>)

  datatype Verdict = Unchanged | Conflict | Invalid | Update(row: Row)

  function OrElse<T>(a: Option<T>, b: Option<T>): Option<T> {
    if a.Some? then a else b
  }

  function Words(name: string): string {
    if name == [] then [] else [if name[0] == '_' then ' ' else name[0]] + Words(name[1..])
  }

  function Cut(summary: string): string {
    if |summary| > MAX_SUMMARY then summary[..MAX_SUMMARY] else summary
  }

  function Summarise(s: Snapshot): string {
    var t := Trim(s.summary);
    var cut := Cut(t);
    if cut == "" then Words(StateName(s.state)) else cut
  }

  /** Every stored item is reported again unchanged. */
  predicate ManifestKept(stored: map<string, Descriptor>, incoming: seq<Descriptor>) {
    forall id :: id in stored ==> stored[id] in incoming
  }

  predicate Authorised(intent: Option<Intent>, proposalDigest: Option<string>, next: JobState) {
    && intent.Some? && proposalDigest.Some? && intent.value.proposalDigest == proposalDigest.value
    && if intent.value.decision.Approve? then next.Applying? || next.Completed? else next.Rejected?
  }

  /** The row a snapshot asks for, merged over what was read. */
  function Merged(v: View, s: Snapshot): Row {
    v.row.(
      state := s.state,
      summary := Summarise(s),
      proposalDigest := OrElse(s.proposalDigest, v.row.proposalDigest),
      sourceDigest := OrElse(s.sourceDigest, v.row.sourceDigest),
      proposal := OrElse(s.proposal, v.row.proposal),
      consumed := v.row.consumed || s.consumed,
      coreRevision := Some(s.coreRevision),
      revision := v.row.revision + 1)
  }

  predicate AlreadyMirrored(v: View, s: Snapshot, next: Row) {
    && v.coreRevision == Some(s.coreRevision)
    && v.row.state == s.state
    && v.row.summary == Cut(Trim(next.summary))
    && v.row.proposalDigest == next.proposalDigest
    && v.row.sourceDigest == next.sourceDigest
    && v.row.consumed == next.consumed
    && v.row.proposal == OrElse(next.proposal, v.row.proposal)
    && |v.evidence| == |s.evidence|
    && forall d :: d in s.evidence ==> d.id in v.evidence && v.evidence[d.id] == d
  }

  predicate Frozen(row: Row) {
    row.proposal.Some? || row.state.AwaitingApproval? || row.consumed
  }

  /** applyCoreSnapshot up to its batch: the checks in the order they are made. */
  function Decide(v: View, s: Snapshot): Verdict {
    var next := Merged(v, s);
    var approved := v.intent.Some? && v.intent.value.decision.Approve? &&
      next.proposalDigest == Some(v.intent.value.proposalDigest);
    if v.coreRevision.Some? && s.coreRevision < v.coreRevision.value then Conflict
    else if |s.evidence| > MAX_EVIDENCE || !DistinctEvidence(s.evidence) then Invalid
    else if !ManifestKept(v.evidence, s.evidence) then Conflict
    else if Frozen(v.row) && |v.evidence| != |s.evidence| then Conflict
    else if next.sourceDigest.Some? && !IsDigest(next.sourceDigest.value) then Invalid
    else if v.row.sourceDigest.Some? && next.sourceDigest != v.row.sourceDigest then Conflict
    else if next.proposal.Some? &&
            (next.proposalDigest != Some(next.proposal.value.proposalDigest) ||
             next.sourceDigest != Some(next.proposal.value.sourceDigest)) then Invalid
    else if v.row.proposal.Some? && v.row.proposal != next.proposal then Conflict
    else if !v.row.consumed && s.consumed && (!approved || !v.row.state.Applying? || !s.state.Completed?) then Conflict
    else if next.proposal.Some? && s.state.Applying? && (!approved || s.consumed) then Conflict
    else if next.proposal.Some? && s.state.Completed? && (!approved || !s.consumed) then Conflict
    else if AlreadyMirrored(v, s, next) then Unchanged
    else if v.coreRevision == Some(s.coreRevision) then Conflict
    else if !CoreTransitionAllowed(v.row.state, s.state, Authorised(v.intent, v.row.proposalDigest, s.state)) then
      Conflict
    else Update(next)
  }

  /** INSERT OR IGNORE, one row at a time. */
  function InsertAll(stored: map<string, Descriptor>, incoming: seq<Descriptor>): map<string, Descriptor> {
    if incoming == [] then stored else
      var rest, d := InsertAll(stored, incoming[..|incoming| - 1]), incoming[|incoming| - 1];
      if d.id in rest then rest else rest[d.id := d]
  }

  /** The batch of applyCoreSnapshot: a guarded update, then evidence rows guarded by the revision it wrote. */
  function SnapshotBatch(db: Db, read: nat, s: Snapshot, next: Row): Db {
    var won := db.row.revision == read && (db.row.coreRevision.None? || db.row.coreRevision.value <= s.coreRevision);
    var row := if won then
                 db.row.(state := next.state, summary := next.summary, proposalDigest := next.proposalDigest,
                         sourceDigest := next.sourceDigest, proposal := next.proposal, consumed := next.consumed,
                         coreRevision := Some(s.coreRevision), revision := db.row.revision + 1)
               else db.row;
    var inserts := row.revision == read + 1 && row.coreRevision == Some(s.coreRevision);
    Db(row, if inserts then InsertAll(db.evidence, s.evidence) else db.evidence, db.sources)
  }

  function ApplySnapshot(db: Db, v: View, s: Snapshot): Db {
    match Decide(v, s)
    case Update(next) => SnapshotBatch(db, v.row.revision, s, next)
    case _ => db
  }

  /** transition(..., "cancelled", ...), from the row and the reservation flag it read. */
  function Cancel(db: Db, row: Row, reserved: bool, expected: nat): Db {
    if row.revision != expected || reserved || !TransitionAllowed(row.state, Cancelled) then db
    else if db.row.revision != expected then db
    else db.(row := db.row.(state := Cancelled, summary := "Engineering job cancelled.", revision := expected + 1))
  }

  const RESERVED := "Dispatch reserved for private core reconciliation."

  function Reserve(db: Db, row: Row, remote: Option<string>, reserved: bool, expected: nat): Db {
    if !row.state.Queued? || remote.Some? || reserved || row.revision != expected then db
    else if db.row.revision != expected || !db.row.state.Queued? || db.row.remote.Some? || db.row.reserved then db
    else db.(row := db.row.(reserved := true, summary := RESERVED, revision := expected + 1))
  }

  function SetRemote(db: Db, expected: nat, remote: string, summary: string): Db {
    if remote == "" || |remote| > 256 then db
    else if db.row.revision != expected || db.row.remote.Some? || !db.row.reserved then db
    else db.(row := db.row.(remote := Some(remote), reserved := false, revision := expected + 1,
                            summary := Cut(summary)))
  }

  function RecordIntent(db: Db, expected: nat, decision: Decision, digest: string): Db {
    var intent := Intent(decision, digest);
    if !IsDigest(digest) then db
    else if db.row.revision != expected || !db.row.state.AwaitingApproval? || db.row.proposalDigest != Some(digest) then
      db
    else if db.row.intent.Some? && db.row.intent.value != intent then db
    else db.(row := db.row.(intent := Some(intent)))
  }

  predicate Pending(sources: map<string, Source>) {
    exists id :: id in sources && sources[id].uploaded.None?
  }

  const READY := "Ready for secure dispatch."

  /** The five statements of markSourceUploaded, as one atomic step. */
  function UploadBatch(db: Db, id: string, etag: string, sha256: string): Db
    requires id in db.sources
  {
    var first := if db.sources[id].uploaded.None? then
                   db.sources[id := db.sources[id].(uploaded := Some(Upload(etag, sha256)))]
                 else db.sources;
    var counted := first[id].uploaded.Some? && !first[id].applied;
    var row := if db.row.state.Uploading? && counted then
                 var bumped := db.row.(revision := db.row.revision + 1);
                 if Pending(first) then bumped else bumped.(state := Queued, summary := READY)
               else db.row;
    Db(row, db.evidence, if counted then first[id := first[id].(applied := true)] else first)
  }

  /** markSourceUploaded, from the source row it read first. */
  function MarkUploaded(db: Db, read: Option<Source>, id: string, etag: string, sha256: string): Db {
    if read.None? || etag == "" || !IsDigest(sha256) then db
    else if read.value.uploaded.Some? && read.value.uploaded.value != Upload(etag, sha256) then db
    else if id !in db.sources then db
    else UploadBatch(db, id, etag, sha256)
  }
}
