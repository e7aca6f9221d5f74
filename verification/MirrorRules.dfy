/** The mirror's rules written out: every state name, every allowed move, and what each decision depends on. */
module MirrorRules {
  import opened Common
  import opened Text
  import opened Mirror

  /** The names of the states on the wire. */
  lemma WireNames()
    ensures StateName(Draft) == "draft" && StateName(Uploading) == "uploading" && StateName(Queued) == "queued"
    ensures StateName(Ingesting) == "ingesting" && StateName(Planning) == "planning"
    ensures StateName(Executing) == "executing" && StateName(Testing) == "testing"
    ensures StateName(Collecting) == "collecting" && StateName(AwaitingApproval) == "awaiting_approval"
    ensures StateName(Applying) == "applying" && StateName(Completed) == "completed"
    ensures StateName(Rejected) == "rejected" && StateName(Cancelled) == "cancelled"
    ensures StateName(Failed) == "failed" && StateName(TimedOut) == "timed_out"
  {
  }

  const ENDS: set<JobState> := {Cancelled, Failed, TimedOut}

  /** Where a report may take a job: forwards or to an end; out of approval only by the owner's decision. */
  lemma MovesExactly(from: JobState, to: JobState, authorised: bool)
    ensures from in {Completed, Rejected, Cancelled, Failed, TimedOut} ==> !CoreTransitionAllowed(from, to, authorised)
    ensures from in {Draft, Uploading} ==> (CoreTransitionAllowed(from, to, authorised) <==> to == from)
    ensures from == Queued ==> (CoreTransitionAllowed(from, to, authorised) <==>
      to in ENDS + {Queued, Ingesting, Planning, Executing, Testing, Collecting, AwaitingApproval, Completed})
    ensures from == Ingesting ==> (CoreTransitionAllowed(from, to, authorised) <==>
      to in ENDS + {Ingesting, Planning, Executing, Testing, Collecting, AwaitingApproval, Completed})
    ensures from == Planning ==> (CoreTransitionAllowed(from, to, authorised) <==>
      to in ENDS + {Planning, Executing, Testing, Collecting, AwaitingApproval, Completed})
    ensures from == Executing ==> (CoreTransitionAllowed(from, to, authorised) <==>
      to in ENDS + {Executing, Testing, Collecting, AwaitingApproval, Completed})
    ensures from == Testing ==> (CoreTransitionAllowed(from, to, authorised) <==>
      to in ENDS + {Testing, Collecting, AwaitingApproval, Completed})
    ensures from == Collecting ==> (CoreTransitionAllowed(from, to, authorised) <==>
      to in ENDS + {Collecting, AwaitingApproval, Completed})
    ensures from == AwaitingApproval ==> (CoreTransitionAllowed(from, to, authorised) <==>
      to in ENDS + {AwaitingApproval} + (if authorised then {Applying, Completed, Rejected} else {}))
    ensures from == Applying ==> (CoreTransitionAllowed(from, to, authorised) <==>
      to in ENDS + {Applying, Completed})
  {
  }

  /** The owner can cancel a job in every state but a final one. */
  lemma CancelsExactly(from: JobState)
    ensures TransitionAllowed(from, Cancelled) <==>
      from !in {Completed, Rejected, Cancelled, Failed, TimedOut}
  {
  }

  /** An approval covers applying and completing, a rejection rejecting, each for its own proposal only. */
  lemma AuthorisedExactly(intent: Option<Intent>, proposalDigest: Option<string>, next: JobState)
    ensures Authorised(intent, proposalDigest, next) <==>
      && proposalDigest.Some?
      && ((intent == Some(Intent(Approve, proposalDigest.value)) && next in {Applying, Completed}) ||
          (intent == Some(Intent(Reject, proposalDigest.value)) && next == Rejected))
  {
  }

  lemma {:induction false} WordsExactly(name: string)
    ensures |Words(name)| == |name|
    ensures forall i :: 0 <= i < |name| ==> Words(name)[i] == if name[i] == '_' then ' ' else name[i]
  {
    if name != [] { WordsExactly(name[1..]); }
  }

  /** The summary shown: the trimmed text up to 2000 characters, or else the state in words. */
  lemma SummaryExactly(s: Snapshot)
    ensures Trim(s.summary) != "" && |Trim(s.summary)| <= 2000 ==> Summarise(s) == Trim(s.summary)
    ensures |Trim(s.summary)| > 2000 ==> Summarise(s) == Trim(s.summary)[..2000]
    ensures Trim(s.summary) == "" ==> |Summarise(s)| == |StateName(s.state)| && forall i :: 0 <= i < |Summarise(s)| ==>
      Summarise(s)[i] == if StateName(s.state)[i] == '_' then ' ' else StateName(s.state)[i]
  {
    hide Trim, StateName;
    WordsExactly(StateName(s.state));
  }

  /** What was reported, or else what was known. */
  predicate Newest<T(==)>(reported: Option<T>, known: Option<T>, r: Option<T>) {
    (reported.Some? ==> r == reported) && (reported.None? ==> r == known)
  }

  /** The row that follows from a report, field by field. */
  lemma MergedExactly(v: View, s: Snapshot)
    ensures var r := Merged(v, s);
      && r.state == s.state && r.summary == Summarise(s) && r.revision == v.row.revision + 1
      && r.coreRevision == Some(s.coreRevision) && (r.consumed <==> v.row.consumed || s.consumed)
      && Newest(s.proposalDigest, v.row.proposalDigest, r.proposalDigest)
      && Newest(s.sourceDigest, v.row.sourceDigest, r.sourceDigest)
      && Newest(s.proposal, v.row.proposal, r.proposal)
      && r.remote == v.row.remote && r.reserved == v.row.reserved && r.intent == v.row.intent
  {
    hide Summarise;
  }

  predicate Approves(v: View, digest: Option<string>) {
    v.intent.Some? && v.intent.value.decision == Approve && digest == Some(v.intent.value.proposalDigest)
  }

  /** At most ten items, all ids and all file names different. */
  predicate ListAllowed(e: seq<Descriptor>) {
    |e| <= 10 && forall i, j :: 0 <= i < j < |e| ==> e[i].id != e[j].id && e[i].filename != e[j].filename
  }

  /** Stored items are all reported again; after a proposal nothing is added. */
  predicate ListKept(v: View, e: seq<Descriptor>) {
    && (forall id :: id in v.evidence ==> v.evidence[id] in e)
    && (v.row.proposal.Some? || v.row.state == AwaitingApproval || v.row.consumed ==> |e| == |v.evidence|)
  }

  predicate ProposalMatches(next: Row) {
    next.proposal.Some? ==>
      next.proposalDigest == Some(next.proposal.value.proposalDigest) &&
      next.sourceDigest == Some(next.proposal.value.sourceDigest)
  }

  /** Consuming an approval takes one, and the move from applying to completed; so do applying and completing. */
  predicate ApprovalUsed(v: View, s: Snapshot, next: Row) {
    && (s.consumed && !v.row.consumed ==>
          Approves(v, next.proposalDigest) && v.row.state == Applying && s.state == Completed)
    && (next.proposal.Some? && s.state == Applying ==> Approves(v, next.proposalDigest) && !s.consumed)
    && (next.proposal.Some? && s.state == Completed ==> Approves(v, next.proposalDigest) && s.consumed)
  }

  /** What a report must satisfy to be let through at all. */
  ghost predicate Admissible(v: View, s: Snapshot, next: Row) {
    && (v.coreRevision.Some? ==> s.coreRevision >= v.coreRevision.value)
    && ListAllowed(s.evidence) && ListKept(v, s.evidence)
    && (next.sourceDigest.Some? ==> IsDigest(next.sourceDigest.value))
    && (v.row.sourceDigest.Some? ==> next.sourceDigest == v.row.sourceDigest)
    && ProposalMatches(next) && (v.row.proposal.Some? ==> next.proposal == v.row.proposal)
    && ApprovalUsed(v, s, next)
  }

  /** The report says what the row and the stored evidence already say. */
  predicate Repeats(v: View, s: Snapshot, next: Row) {
    && v.row.state == s.state
    && (if |Trim(next.summary)| <= 2000 then v.row.summary == Trim(next.summary)
        else v.row.summary == Trim(next.summary)[..2000])
    && v.row.proposalDigest == next.proposalDigest && v.row.sourceDigest == next.sourceDigest
    && v.row.consumed == next.consumed && Newest(next.proposal, v.row.proposal, v.row.proposal)
    && |v.evidence| == |s.evidence|
    && forall i :: 0 <= i < |s.evidence| ==>
         s.evidence[i].id in v.evidence && v.evidence[s.evidence[i].id] == s.evidence[i]
  }

  /**
   Which reports change the row, which are recognised and which are refused as invalid; all others are conflicts. A
   report at the revision that was read is only ever recognised.
   */
  lemma DecideExactly(v: View, s: Snapshot)
    ensures var next := Merged(v, s);
      Decide(v, s).Unchanged? <==>
        Admissible(v, s, next) && v.coreRevision == Some(s.coreRevision) && Repeats(v, s, next)
    ensures var next := Merged(v, s);
      Decide(v, s).Update? <==>
        Admissible(v, s, next) && v.coreRevision != Some(s.coreRevision) &&
        CoreTransitionAllowed(v.row.state, s.state, Authorised(v.intent, v.row.proposalDigest, s.state))
    ensures Decide(v, s).Update? ==> Decide(v, s) == Update(Merged(v, s))
    ensures var next := Merged(v, s);
      Decide(v, s).Invalid? <==>
        && (v.coreRevision.Some? ==> s.coreRevision >= v.coreRevision.value)
        && (ListAllowed(s.evidence) ==>
              && ListKept(v, s.evidence)
              && ((next.sourceDigest.Some? && !IsDigest(next.sourceDigest.value)) ||
                  ((v.row.sourceDigest.Some? ==> next.sourceDigest == v.row.sourceDigest) && !ProposalMatches(next))))
  {
    hide Merged, CoreTransitionAllowed, Authorised, IsDigest, Trim;
  }

  /** A digest is 64 lower-case hexadecimal digits. */
  lemma DigestExactly(s: string)
    ensures IsDigest(s) <==> |s| == 64 && forall i :: 0 <= i < 64 ==>
      s[i] in ['0', '1', '2', '3', '4', '5', '6', '7', '8', '9', 'a', 'b', 'c', 'd', 'e', 'f']
  {
    if |s| == 64 {
      forall i | 0 <= i < 64
        ensures s[i] in ['0', '1', '2', '3', '4', '5', '6', '7', '8', '9', 'a', 'b', 'c', 'd', 'e', 'f'] <==>
          '0' <= s[i] <= '9' || 'a' <= s[i] <= 'f'
      {
        HexExactly(s[i]);
      }
    }
  }

  lemma HexExactly(c: char)
    ensures c in ['0', '1', '2', '3', '4', '5', '6', '7', '8', '9', 'a', 'b', 'c', 'd', 'e', 'f'] <==>
      '0' <= c <= '9' || 'a' <= c <= 'f'
  {
  }

  /** Which rules tie state, proposal and consumption of the approval together in a report. */
  predicate ReportRules(state: JobState, proposal: Option<Proposal>, consumed: bool) {
    && (state == AwaitingApproval ==> proposal.Some?)
    && (consumed ==> state == Completed)
    && (proposal.Some? && state == Completed ==> consumed)
  }

  /** Which raw reports are parsed, and into what. */
  lemma ParsesExactly(raw: Raw)
    ensures ParseSnapshot(raw).Some? <==>
      && (exists s: JobState :: StateName(s) == raw.state)
      && 0 <= raw.revision <= 9_007_199_254_740_991 && |Trim(raw.summary)| <= 2000
      && (raw.proposalDigest.Some? ==> IsDigest(raw.proposalDigest.value))
      && (raw.sourceDigest.Some? ==> IsDigest(raw.sourceDigest.value))
      && (raw.proposal.Some? ==>
            raw.proposalDigest == Some(raw.proposal.value.proposalDigest) &&
            raw.sourceDigest == Some(raw.proposal.value.sourceDigest))
      && (exists s: JobState :: StateName(s) == raw.state && ReportRules(s, raw.proposal, raw.consumed))
      && ListAllowed(raw.evidence) && (raw.evidence != [] ==> raw.remoteJobId.Some?)
      && (forall i, j :: 0 <= i < |raw.evidence| && 0 <= j < |raw.evidence| ==>
            raw.evidence[i].id != raw.evidence[j].filename)
    ensures ParseSnapshot(raw).Some? ==>
      var s := ParseSnapshot(raw).value;
      && StateName(s.state) == raw.state && s.summary == Trim(raw.summary) && s.coreRevision == raw.revision
      && s.proposalDigest == raw.proposalDigest && s.sourceDigest == raw.sourceDigest && s.proposal == raw.proposal
      && s.consumed == raw.consumed && s.evidence == raw.evidence
  {
    hide StateName, ParseState, IsDigest, Trim;
    forall s: JobState
      ensures ParseState(raw.state) == Some(s) <==> StateName(s) == raw.state
    {
      StateNames(raw.state, s);
    }
  }

  /** What the snapshot batch leaves: the row if its guard holds, and then the items under ids not stored yet. */
  lemma BatchExactly(db: Db, read: nat, s: Snapshot, next: Row)
    requires ListAllowed(s.evidence)
    ensures var after := SnapshotBatch(db, read, s, next);
      var won := db.row.revision == read && (db.row.coreRevision.Some? ==> db.row.coreRevision.value <= s.coreRevision);
      && after.sources == db.sources
      && (won ==> after.row == Row(next.state, next.summary, read + 1, next.proposalDigest, next.sourceDigest,
                                   next.proposal, next.consumed, db.row.remote, db.row.reserved, Some(s.coreRevision),
                                   db.row.intent))
      && (!won ==> after.row == db.row)
      && (after.row.revision == read + 1 && after.row.coreRevision == Some(s.coreRevision) ==>
            Inserted(db.evidence, s.evidence, after.evidence))
      && (!(after.row.revision == read + 1 && after.row.coreRevision == Some(s.coreRevision)) ==>
            after.evidence == db.evidence)
  {
    InsertsExactly(db.evidence, s.evidence);
    hide InsertAll;
  }

  predicate Inserted(stored: map<string, Descriptor>, items: seq<Descriptor>, after: map<string, Descriptor>) {
    && (forall id :: id in stored ==> id in after && after[id] == stored[id])
    && (forall i :: 0 <= i < |items| ==>
          items[i].id in after && (items[i].id !in stored ==> after[items[i].id] == items[i]))
    && (forall id :: id in after && id !in stored ==> exists i :: 0 <= i < |items| && items[i].id == id)
  }

  lemma {:induction false} InsertsExactly(stored: map<string, Descriptor>, items: seq<Descriptor>)
    requires ListAllowed(items)
    ensures Inserted(stored, items, InsertAll(stored, items))
  {
    if items != [] {
      var n := |items| - 1;
      assert forall i :: 0 <= i < n ==> items[..n][i] == items[i];
      InsertsExactly(stored, items[..n]);
      InsertedMore(stored, items[..n], InsertAll(stored, items[..n]), items[n]);
      assert items == items[..n] + [items[n]];
    }
  }

  lemma InsertedMore(stored: map<string, Descriptor>, items: seq<Descriptor>, before: map<string, Descriptor>,
                     d: Descriptor)
    requires Inserted(stored, items, before) && forall i :: 0 <= i < |items| ==> items[i].id != d.id
    ensures Inserted(stored, items + [d], if d.id in before then before else before[d.id := d])
  {
    var more, after := items + [d], if d.id in before then before else before[d.id := d];
    forall id | id in after && id !in stored
      ensures exists i :: 0 <= i < |more| && more[i].id == id
    {
      if id in before {
        var i :| 0 <= i < |items| && items[i].id == id;
        assert more[i].id == id;
      } else {
        assert more[|items|].id == id;
      }
    }
  }
}
