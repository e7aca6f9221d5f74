/**
 The trusted core's state machine run together with the mirror. The core advances on its own, learning decisions
 only from what the mirror recorded and exporting only after the mirror shows applying; the mirror is delivered
 any of its reports, in order, skipping as many as it likes. No such report is ever refused.
 */
module HonestCore {
  import opened Common
  import opened Text
  import opened Mirror
  import opened MirrorRuns
  import opened MirrorEvidence
  import opened MirrorDelivery

  datatype CoreError = InvalidTransition | ApprovalRequired

  /** The core's table of regular moves. */
  predicate Forward(from: JobState, to: JobState) {
    match from
    case Draft => to == Queued
    case Queued => to == Ingesting
    case Ingesting => to == Planning
    case Planning => to == Executing
    case Executing => to == Testing || to == Collecting
    case Testing => to == Collecting
    case Collecting => to == AwaitingApproval || to == Completed
    case AwaitingApproval => to == Applying || to == Rejected
    case Applying => to == Completed
    case _ => false
  }

  function Transition(current: JobState, target: JobState, proposalDigest: Option<string>, evidence: bool,
                      approvedDigest: Option<string>, recorded: bool, consumed: bool): Result<JobState, CoreError> {
    if Terminal(current) then Failure(InvalidTransition)
    else if !Forward(current, target) && !Exceptional(target) then Failure(InvalidTransition)
    else if target == AwaitingApproval && !(proposalDigest.Some? && evidence) then Failure(ApprovalRequired)
    else if target == Applying &&
            !(proposalDigest.Some? && approvedDigest == proposalDigest && recorded && !consumed) then
              Failure(ApprovalRequired)
    else Success(target)
  }

  /** Where a state leads without a condition, its ends apart. */
  function Successors(current: JobState): set<JobState> {
    match current
    case Draft => {Queued}
    case Queued => {Ingesting}
    case Ingesting => {Planning}
    case Planning => {Executing}
    case Executing => {Testing, Collecting}
    case Testing => {Collecting}
    case Collecting => {Completed}
    case AwaitingApproval => {Rejected}
    case Applying => {Completed}
    case _ => {}
  }

  /**
   Where the core may go from each state: one step forward or to an end; to approval only with a proposal and evidence,
   to applying only with a recorded, unused approval of exactly that proposal.
   */
  lemma TransitionExactly(current: JobState, target: JobState, proposalDigest: Option<string>, evidence: bool,
                          approvedDigest: Option<string>, recorded: bool, consumed: bool)
    ensures var r := Transition(current, target, proposalDigest, evidence, approvedDigest, recorded, consumed);
      && (r.Success? ==> r.value == target)
      && (r.Success? <==>
            && current !in {Completed, Rejected, Cancelled, Failed, TimedOut}
            && (|| target in {Cancelled, Failed, TimedOut}
                || target in Successors(current)
                || (current == Collecting && target == AwaitingApproval && proposalDigest.Some? && evidence)
                || (current == AwaitingApproval && target == Applying && proposalDigest.Some? &&
                    approvedDigest == proposalDigest && recorded && !consumed)))
      && (r.Failure? && r.error == ApprovalRequired <==>
            || (current == Collecting && target == AwaitingApproval && !(proposalDigest.Some? && evidence))
            || (current == AwaitingApproval && target == Applying &&
                !(proposalDigest.Some? && approvedDigest == proposalDigest && recorded && !consumed)))
  {
  }

  datatype Core = Core(
    state: JobState,
    revision: nat,
    summary: string,
    proposalDigest: Option<string>,
    sourceDigest: Option<string>,
    proposal: Option<Proposal>,
    consumed: bool,
    evidence: seq<Descriptor>)

  function Report(c: Core): Snapshot {
    Snapshot(c.state, c.summary, c.revision, c.proposalDigest, c.sourceDigest, c.proposal, c.consumed, c.evidence)
  }

  /** The formats the core's own contracts give its fields. */
  predicate Formats(c: Core) {
    && Trim(c.summary) == c.summary && |c.summary| <= MAX_SUMMARY
    && (c.proposalDigest.Some? ==> IsDigest(c.proposalDigest.value))
    && (c.sourceDigest.Some? ==> IsDigest(c.sourceDigest.value))
    && ProposalFits(c.proposal, c.proposalDigest, c.sourceDigest)
    && |c.evidence| <= MAX_EVIDENCE && PooledEvidence(c.evidence)
  }

  function ApprovedDigest(intent: Option<Intent>): Option<string> {
    if intent.Some? && intent.value.decision.Approve? then Some(intent.value.proposalDigest) else None
  }

  /** The core changes something without changing state. */
  predicate Works(c: Core, d: Core) {
    d.state == c.state && !Terminal(c.state) && d.proposal == c.proposal && d.consumed == c.consumed
  }

  /** The core changes state, with what the mirror's row db has to say about it. */
  predicate Moves(c: Core, d: Core, row: Row) {
    && Transition(c.state, d.state, d.proposalDigest, d.evidence != [], ApprovedDigest(row.intent), row.intent.Some?,
      d.consumed) == Success(d.state)
    && d.proposal.Some? == (c.proposal.Some? || d.state == AwaitingApproval)
    && (d.state == Rejected ==> d.proposal.Some? && row.intent == Some(Intent(Reject, d.proposal.value.proposalDigest)))
    && (d.consumed <==> c.state == Applying && d.state == Completed)
    && (d.consumed ==> row.state.Applying?)
  }

  predicate HonestStep(c: Core, d: Core, row: Row) {
    && d.revision > c.revision && Formats(d)
    && Once(c.sourceDigest, d.sourceDigest) && Once(c.proposal, d.proposal)
    && (forall e :: e in c.evidence ==> e in d.evidence)
    && (c.proposal.Some? ==> d.evidence == c.evidence)
    && (Works(c, d) || Moves(c, d, row))
  }

  lemma ReportExactly(c: Core)
    ensures var r := Report(c);
      && r.state == c.state && r.summary == c.summary && r.coreRevision == c.revision
      && r.proposalDigest == c.proposalDigest && r.sourceDigest == c.sourceDigest && r.proposal == c.proposal
      && r.consumed == c.consumed && r.evidence == c.evidence
  {
  }

  /** What the core can always do: report more, or go on as its table says, or end. */
  lemma CoreCanReport(c: Core, row: Row, summary: string)
    requires Formats(c) && c.state !in {Completed, Rejected, Cancelled, Failed, TimedOut}
    requires Trim(summary) == summary && |summary| <= MAX_SUMMARY
    ensures HonestStep(c, c.(summary := summary, revision := c.revision + 1), row)
  {
    hide IsDigest, PooledEvidence, Trim, Transition, ProposalFits;
  }

  lemma CoreCanMove(c: Core, row: Row, target: JobState)
    requires Formats(c) && !c.consumed && c.state !in {Completed, Rejected, Cancelled, Failed, TimedOut}
    requires target in {Cancelled, Failed, TimedOut} ||
             (target in Successors(c.state) && target != Rejected && c.state != Applying)
    ensures HonestStep(c, c.(state := target, revision := c.revision + 1), row)
  {
    hide IsDigest, PooledEvidence, Trim, ProposalFits;
  }

  /**
   What it can do with a proposal: ask for approval of one it has evidence for, apply it once it is approved, complete
   it once the mirror shows that it is being applied, and end it when it is rejected.
   */
  lemma CoreCanPropose(c: Core, row: Row, p: Proposal)
    requires Formats(c) && !c.consumed && IsDigest(p.proposalDigest) && IsDigest(p.sourceDigest)
    ensures c.state == Collecting && c.proposal.None? && c.evidence != [] &&
            (c.sourceDigest.Some? ==> c.sourceDigest.value == p.sourceDigest) ==>
      HonestStep(c, c.(state := AwaitingApproval, revision := c.revision + 1, proposal := Some(p),
                       proposalDigest := Some(p.proposalDigest), sourceDigest := Some(p.sourceDigest)), row)
    ensures c.state == AwaitingApproval && c.proposal == Some(p) ==>
      && (row.intent == Some(Intent(Approve, p.proposalDigest)) ==>
            HonestStep(c, c.(state := Applying, revision := c.revision + 1), row))
      && (row.intent == Some(Intent(Reject, p.proposalDigest)) ==>
            HonestStep(c, c.(state := Rejected, revision := c.revision + 1), row))
    ensures c.state == Applying && c.proposal == Some(p) && row.state == Applying ==>
      HonestStep(c, c.(state := Completed, revision := c.revision + 1, consumed := true), row)
  {
    hide IsDigest, PooledEvidence, Trim;
  }

  datatype Joint = Joint(cores: seq<Core>, delivered: Option<nat>, db: Db)

  datatype Event =
    | CoreMove(next: Core)
    | Deliver(report: nat)
    | OwnerDecides(decision: Decision, digest: string)

  function Fresh(db: Db): View {
    View(db.row, db.evidence, db.row.coreRevision, db.row.intent)
  }

  predicate Possible(j: Joint, e: Event) {
    match e
    case CoreMove(next) => j.cores != [] && HonestStep(j.cores[|j.cores| - 1], next, j.db.row)
    case Deliver(k) => k < |j.cores| && (j.delivered.Some? ==> j.delivered.value <= k)
    case OwnerDecides(_, _) => true
  }

  predicate Accepted(v: Verdict) {
    v.Unchanged? || v.Update?
  }

  function After(j: Joint, e: Event): Joint
    requires Possible(j, e)
  {
    match e
    case CoreMove(next) => j.(cores := j.cores + [next])
    case Deliver(k) =>
      if Accepted(Decide(Fresh(j.db), Report(j.cores[k]))) then
        j.(delivered := Some(k), db := ApplySnapshot(j.db, Fresh(j.db), Report(j.cores[k])))
      else j
    case OwnerDecides(decision, digest) => j.(db := RecordIntent(j.db, j.db.row.revision, decision, digest))
  }

  /** A job just bound to a core job that has produced nothing yet. */
  predicate Started(j: Joint) {
    var r := j.db.row;
    && |j.cores| == 1 && j.delivered.None?
    && (j.cores[0].state.Draft? || j.cores[0].state.Queued?)
    && Formats(j.cores[0]) && j.cores[0].proposal.None? && !j.cores[0].consumed
    && r.state.Queued? && r.remote.Some? && !r.reserved && r.coreRevision.None? && r.intent.None?
    && r.proposalDigest.None? && r.sourceDigest.None? && r.proposal.None? && !r.consumed && |r.summary| <= MAX_SUMMARY
    && j.db.evidence == map[]
  }

  ghost predicate JointRun(js: seq<Joint>, events: seq<Event>) {
    && |js| == |events| + 1 && Started(js[0])
    && forall n :: 0 <= n < |events| ==> Possible(js[n], events[n]) && js[n + 1] == After(js[n], events[n])
  }

  function Level(s: JobState): int {
    match s
    case AwaitingApproval => 6
    case Applying => 7
    case _ => if Terminal(s) then 8 else Progress(s)
  }

  predicate CoreOk(c: Core) {
    && Formats(c) && c.state != Uploading
    && (c.proposal.Some? ==> Level(c.state) >= 6)
    && (c.state == AwaitingApproval || c.state == Applying || c.state == Rejected ==> c.proposal.Some?)
    && (c.consumed ==> c.state == Completed)
    && (c.state == Completed ==> (c.consumed <==> c.proposal.Some?))
  }

  /** How an earlier and a later state of the core are related. */
  predicate Later(c: Core, d: Core) {
    && c.revision < d.revision && Level(c.state) < 8
    && Level(c.state) <= Level(d.state) && (Level(c.state) == Level(d.state) ==> c.state == d.state)
    && Once(c.sourceDigest, d.sourceDigest) && Once(c.proposal, d.proposal)
    && (forall e :: e in c.evidence ==> e in d.evidence)
    && (c.proposal.Some? ==> d.evidence == c.evidence)
  }

  /** What the mirror knows justifies where the core is. */
  predicate Justified(c: Core, row: Row) {
    && (c.state == Applying || c.consumed ==>
          c.proposal.Some? && row.intent == Some(Intent(Approve, c.proposal.value.proposalDigest)))
    && (c.state == Rejected ==> c.proposal.Some? && row.intent == Some(Intent(Reject, c.proposal.value.proposalDigest)))
    && (c.consumed ==> row.state.Applying? || Terminal(row.state))
  }

  /** The mirror shows exactly the core state it was delivered last. */
  ghost predicate Shows(db: Db, c: Core) {
    var r := db.row;
    && c.state == r.state && r.coreRevision == Some(c.revision) && r.summary == Summarise(Report(c))
    && r.proposal == c.proposal && r.sourceDigest == c.sourceDigest && r.consumed == c.consumed
    && (c.proposalDigest.Some? ==> r.proposalDigest == c.proposalDigest)
    && (r.intent.Some? ==> r.proposal.Some?)
    && Holds(db.evidence, c.evidence)
  }

  predicate Untouched(db: Db) {
    var r := db.row;
    && r.state.Queued? && r.coreRevision.None? && r.intent.None? && r.proposalDigest.None? && r.sourceDigest.None?
    && r.proposal.None? && !r.consumed && db.evidence == map[]
  }

  ghost predicate InStep(j: Joint) {
    && j.cores != []
    && (forall i :: 0 <= i < |j.cores| ==> CoreOk(j.cores[i]) && Justified(j.cores[i], j.db.row))
    && (forall i, k :: 0 <= i < k < |j.cores| ==> Later(j.cores[i], j.cores[k]))
    && Safe(j.db) && j.db.row.remote.Some?
    && match j.delivered
       case None => Untouched(j.db)
       case Some(i) => i < |j.cores| && Shows(j.db, j.cores[i])
  }

  /** A later report against the state the mirror shows. */
  lemma LaterAccepted(db: Db, c: Core, d: Core)
    requires CoreOk(c) && CoreOk(d) && Later(c, d)
    requires Justified(d, db.row) && Shows(db, c) && Safe(db)
    ensures Decide(Fresh(db), Report(d)) == Update(Merged(Fresh(db), Report(d)))
  {
    hide IsDigest, DistinctEvidence, Summarise, Trim, Holds;
    HeldAgain(db.evidence, c.evidence);
    ManifestLater(db.evidence, c.evidence, d.evidence);
  }

  /** A report from the draft state, which no job the mirror shows is in. */
  lemma DraftRefused(db: Db, known: Option<Core>, d: Core)
    requires CoreOk(d) && d.state.Draft? && Safe(db)
    requires known.None? ==> Untouched(db)
    requires known.Some? ==> CoreOk(known.value) && Shows(db, known.value)
    ensures known.None? ==> Decide(Fresh(db), Report(d)) == Conflict
    ensures known.Some? ==> known.value != d && !Later(known.value, d)
  {
    hide IsDigest, Summarise, Trim, Holds;
  }

  lemma ManifestLater(stored: map<string, Descriptor>, a: seq<Descriptor>, b: seq<Descriptor>)
    requires ManifestKept(stored, a) && forall e :: e in a ==> e in b
    ensures ManifestKept(stored, b)
  {
  }

  /** The same report again. */
  lemma SameAccepted(db: Db, c: Core)
    requires CoreOk(c) && Justified(c, db.row) && Shows(db, c) && Safe(db)
    ensures Decide(Fresh(db), Report(c)) == Unchanged
  {
    hide IsDigest, Summarise, Trim, Holds, DistinctEvidence, CoreTransitionAllowed;
    HeldAgain(db.evidence, c.evidence);
    ReportParsed(c);
    SummaryTrimmed(Report(c));
  }

  lemma ReportParsed(c: Core)
    requires CoreOk(c)
    ensures Parsed(Report(c))
  {
    hide IsDigest, Trim, DistinctEvidence;
  }

  /** The first report. */
  lemma FirstAccepted(db: Db, d: Core)
    requires CoreOk(d) && !d.state.Draft? && Justified(d, db.row) && Untouched(db) && Safe(db)
    ensures Decide(Fresh(db), Report(d)) == Update(Merged(Fresh(db), Report(d)))
  {
    hide IsDigest, Summarise, Trim, DistinctEvidence;
  }

  lemma MoveKeeps(c: Core, d: Core, row: Row)
    requires CoreOk(c) && Justified(c, row) && HonestStep(c, d, row)
    ensures CoreOk(d) && Justified(d, row) && Later(c, d)
  {
    hide IsDigest, Trim, DistinctEvidence;
  }

  lemma LaterTrans(a: Core, b: Core, c: Core)
    requires Later(a, b) && Later(b, c)
    ensures Later(a, c)
  {
  }

  /** The row a delivered report leaves behind shows exactly that report. */
  lemma DeliveryShows(db: Db, d: Core, known: Option<Core>)
    requires CoreOk(d) && !d.state.Draft? && Justified(d, db.row) && Safe(db) && db.row.remote.Some?
    requires known.None? ==> Untouched(db)
    requires known.Some? ==> CoreOk(known.value) && Shows(db, known.value)
    requires known.Some? ==> (known.value == d || Later(known.value, d))
    ensures var after := ApplySnapshot(db, Fresh(db), Report(d));
      && Shows(after, d) && Safe(after) && after.row.remote.Some? && after.row.intent == db.row.intent
      && (db.row.state.Applying? || Terminal(db.row.state) ==> after.row.state.Applying? || Terminal(after.row.state))
  {
    hide IsDigest, Summarise, Trim, DistinctEvidence, Decide, Holds, InsertAll, Parsed, ManifestKept, Formats;
    ReportParsed(d);
    SnapshotStep(db, Fresh(db), Report(d));
    if known.Some? && known.value == d {
      SameAccepted(db, d);
    } else {
      if known.None? { FirstAccepted(db, d); } else { LaterAccepted(db, known.value, d); }
      Manifest(db, known, d);
      InsertedHolds(db.evidence, d.evidence);
    }
  }

  lemma Manifest(db: Db, known: Option<Core>, d: Core)
    requires CoreOk(d)
    requires known.None? ==> db.evidence == map[]
    requires known.Some? ==> CoreOk(known.value) && Shows(db, known.value) && Later(known.value, d)
    ensures DistinctEvidence(d.evidence) && Keyed(db.evidence) && ManifestKept(db.evidence, d.evidence)
  {
    hide IsDigest, Trim;
    if known.Some? {
      HeldAgain(db.evidence, known.value.evidence);
    }
  }

  lemma StepKeepsInStep(j: Joint, e: Event)
    requires InStep(j) && Possible(j, e)
    ensures InStep(After(j, e))
  {
    match e
    case CoreMove(d) =>
      MoveInStep(j, d);
    case Deliver(k) =>
      DeliveryInStep(j, k);
    case OwnerDecides(decision, digest) =>
      IntentInStep(j, decision, digest);
  }

  lemma IntentInStep(j: Joint, decision: Decision, digest: string)
    requires InStep(j) && Possible(j, OwnerDecides(decision, digest))
    ensures InStep(After(j, OwnerDecides(decision, digest)))
  {
    hide CoreOk, Later, Safe, Shows, HonestStep, ApplySnapshot, RecordIntent, Justified, Untouched;
    IntentStep(j.db, j.db.row.revision, decision, digest);
    IntentKeeps(j.db, decision, digest, j.cores, j.delivered);
  }

  lemma MoveInStep(j: Joint, d: Core)
    requires InStep(j) && Possible(j, CoreMove(d))
    ensures InStep(After(j, CoreMove(d)))
  {
    hide CoreOk, Later, Safe, Shows, HonestStep, Justified, Untouched;
    var last := j.cores[|j.cores| - 1];
    MoveKeeps(last, d, j.db.row);
    forall i | 0 <= i < |j.cores|
      ensures Later(j.cores[i], d)
    {
      if i < |j.cores| - 1 { LaterTrans(j.cores[i], last, d); }
    }
  }

  lemma DeliveryInStep(j: Joint, k: nat)
    requires InStep(j) && Possible(j, Deliver(k))
    ensures InStep(After(j, Deliver(k)))
  {
    hide CoreOk, Later, Safe, Shows, HonestStep, ApplySnapshot, Justified, Untouched, Decide;
    var next := After(j, Deliver(k));
    var known := if j.delivered.Some? then Some(j.cores[j.delivered.value]) else None;
    if j.cores[k].state.Draft? {
      DraftRefused(j.db, known, j.cores[k]);
    } else {
      AcceptedUnlessDraft(j.db, known, j.cores[k]);
      DeliveryShows(j.db, j.cores[k], known);
      forall i | 0 <= i < |j.cores|
        ensures Justified(j.cores[i], next.db.row)
      {
        JustifiedOn(j.cores[i], j.db.row, next.db.row);
      }
    }
  }

  lemma AcceptedUnlessDraft(db: Db, known: Option<Core>, d: Core)
    requires CoreOk(d) && !d.state.Draft? && Justified(d, db.row) && Safe(db)
    requires known.None? ==> Untouched(db)
    requires known.Some? ==> CoreOk(known.value) && Shows(db, known.value)
    requires known.Some? ==> (known.value == d || Later(known.value, d))
    ensures Accepted(Decide(Fresh(db), Report(d)))
    ensures known == Some(d) ==> Decide(Fresh(db), Report(d)).Unchanged?
  {
    hide CoreOk, Justified, Untouched, Safe, Shows, Decide, Later;
    if known.None? {
      FirstAccepted(db, d);
    } else if known.value == d {
      SameAccepted(db, d);
    } else {
      LaterAccepted(db, known.value, d);
    }
  }

  lemma JustifiedOn(c: Core, a: Row, b: Row)
    requires Justified(c, a) && Once(a.intent, b.intent)
    requires a.state.Applying? || Terminal(a.state) ==> b.state.Applying? || Terminal(b.state)
    ensures Justified(c, b)
  {
  }

  lemma IntentKeeps(db: Db, decision: Decision, digest: string, cores: seq<Core>, delivered: Option<nat>)
    requires Safe(db) && Safe(RecordIntent(db, db.row.revision, decision, digest))
    requires forall c :: c in cores ==> Justified(c, db.row)
    ensures var after := RecordIntent(db, db.row.revision, decision, digest);
      && (forall c :: c in cores ==> Justified(c, after.row)) && after.row.remote == db.row.remote
      && (forall c :: c in cores && Shows(db, c) ==> Shows(after, c)) && (Untouched(db) ==> Untouched(after))
  {
    hide IsDigest, Holds, Summarise;
    forall c | c in cores
      ensures Justified(c, RecordIntent(db, db.row.revision, decision, digest).row)
    {
      JustifiedOn(c, db.row, RecordIntent(db, db.row.revision, decision, digest).row);
    }
  }

  lemma {:induction false} AlwaysInStep(js: seq<Joint>, events: seq<Event>, n: nat)
    requires JointRun(js, events) && n < |js|
    ensures InStep(js[n])
  {
    if n == 0 {
      StartInStep(js[0]);
    } else {
      AlwaysInStep(js, events, n - 1);
      StepKeepsInStep(js[n - 1], events[n - 1]);
    }
  }

  lemma StartInStep(j: Joint)
    requires Started(j)
    ensures InStep(j)
  {
    hide IsDigest, Trim, DistinctEvidence;
  }

  /**
   An honest core is refused exactly for reporting a draft. In every joint run, any report not older than the last
   one accepted parses; it is accepted, unchanged if it is that same one and shown exactly afterwards, unless it is
   of the draft state, and that one report is a conflict.
   */
  lemma AcceptedExactly(js: seq<Joint>, events: seq<Event>, n: nat, k: nat)
    requires JointRun(js, events) && n < |js| && Possible(js[n], Deliver(k))
    ensures var j := js[n]; var verdict := Decide(Fresh(j.db), Report(j.cores[k]));
      && Parsed(Report(j.cores[k]))
      && (Accepted(verdict) <==> !j.cores[k].state.Draft?) && (j.cores[k].state.Draft? ==> verdict.Conflict?)
      && (j.delivered == Some(k) ==> verdict.Unchanged?)
      && (Accepted(verdict) ==> Shows(After(j, Deliver(k)).db, j.cores[k]))
  {
    hide CoreOk, Later, Safe, Shows, ApplySnapshot, Justified, Untouched, Decide;
    AlwaysInStep(js, events, n);
    var j := js[n];
    ReportParsed(j.cores[k]);
    var known := if j.delivered.Some? then Some(j.cores[j.delivered.value]) else None;
    if j.cores[k].state.Draft? {
      DraftRefused(j.db, known, j.cores[k]);
    } else {
      AcceptedUnlessDraft(j.db, known, j.cores[k]);
      DeliveryShows(j.db, j.cores[k], known);
    }
  }

  /** A job bound to a core that has not left its draft state. */
  const DRAFT_START := Joint([Core(Draft, 0, "", None, None, None, false, [])], None,
                             Db(Row(Queued, "", 2, None, None, None, false, Some("core"), false, None, None),
                                map[], map[]))

  /** The one refusal happens. */
  lemma DraftReportExists()
    ensures JointRun([DRAFT_START], []) && Possible(DRAFT_START, Deliver(0)) && DRAFT_START.cores[0].state.Draft?
  {
    hide Started, HonestStep, After;
    DraftStarts(DRAFT_START);
  }

  lemma DraftStarts(j: Joint)
    requires |j.cores| == 1 && j.cores[0] == Core(Draft, 0, "", None, None, None, false, []) && j.delivered.None?
    requires j.db == Db(Row(Queued, "", 2, None, None, None, false, Some("core"), false, None, None), map[], map[])
    ensures Started(j)
  {
    hide Trim, IsDigest;
    Trimmed("");
  }
}
