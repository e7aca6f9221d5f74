/** Delivering snapshots again: idempotent always, and non-equivocating exactly when the reads agree. */
module MirrorDelivery {
  import opened Common
  import opened Text
  import opened Mirror
  import opened MirrorRuns
  import opened MirrorEvidence

  lemma SummaryTrimmed(s: Snapshot)
    requires Parsed(s)
    ensures Trim(Summarise(s)) == Summarise(s) && |Summarise(s)| <= MAX_SUMMARY
  {
    hide IsDigest, DistinctEvidence, ProposalFits, ApprovalRules, Trim, StateName;
    Trimmed(s.summary);
    SummaryBound(s);
    var words := Words(StateName(s.state));
    StateWords(s.state);
    Trimmed(words);
  }

  lemma StateWords(s: JobState)
    ensures var w := Words(StateName(s)); w != [] && !Space(w[0]) && !Space(w[|w| - 1])
  {
    hide StateName;
    var name := StateName(s);
    WordsLength(name);
    WordsAt(name, 0);
    WordsAt(name, |name| - 1);
  }

  lemma {:induction false} WordsAt(name: string, i: nat)
    requires i < |name|
    ensures |Words(name)| == |name| && Words(name)[i] == if name[i] == '_' then ' ' else name[i]
  {
    WordsLength(name);
    if i > 0 { WordsAt(name[1..], i - 1); }
  }

  /** A snapshot decided again against the row it produced. */
  lemma DecideAgain(v: View, s: Snapshot, w: View)
    requires Parsed(s) && Decide(v, s).Update?
    requires w.row.(intent := v.row.intent) == Decide(v, s).row && w.coreRevision == Some(s.coreRevision)
    requires Once(v.intent, w.intent) && Holds(w.evidence, s.evidence)
    ensures Decide(w, s) == Unchanged
  {
    hide IsDigest, Holds, Summarise, Trim, DistinctEvidence, CoreTransitionAllowed;
    SummaryTrimmed(s);
    HeldAgain(w.evidence, s.evidence);
  }

  lemma HeldAgain(stored: map<string, Descriptor>, incoming: seq<Descriptor>)
    requires Holds(stored, incoming) && DistinctEvidence(incoming)
    ensures ManifestKept(stored, incoming) && |stored| == |incoming|
    ensures forall d :: d in incoming ==> d.id in stored && stored[d.id] == d
  {
    HoldsCount(stored, incoming);
  }

  /** Whatever happened in between, delivering again the snapshot that produced the current row changes nothing. */
  lemma Redelivery(h: seq<Db>, ops: seq<Op>, n: nat, m: nat, again: Op)
    requires Run(h, ops) && OneListPerRevision(ops) && n < m < |h|
    requires ops[n].MirrorSnapshot? && h[n + 1].row != h[n].row && h[m].row.revision == h[n + 1].row.revision
    requires again.MirrorSnapshot? && again.snapshot == ops[n].snapshot && Timely(h, m, again)
    requires again.rowRead > n && again.coreRead > n && again.intentRead > n
    ensures Decide(ViewOf(h, again), again.snapshot) == Unchanged && Next(h, m, again) == h[m]
  {
    hide Safe, Decide, Holds, Parsed, ApplySnapshot, Reaches, Reported, DistinctEvidence;
    var s := ops[n].snapshot;
    Invariants(h, ops, m);
    EvidenceAppendOnly(h, ops, m);
    WonRow(h, ops, n);
    SameRow(h, n + 1, again.rowRead, m);
    SameRow(h, n + 1, again.coreRead, m);
    SameRow(h, n + 1, again.evidenceRead, m);
    assert EvidenceGrows(h[n + 1], h[again.evidenceRead]);
    IntentKept(h, ops[n].intentRead, again.intentRead, m);
    EvidenceAppendOnly(h, ops, n + 1);
    JustReported(h, ops, n);
    DecideAgain(ViewOf(h, ops[n]), s, ViewOf(h, again));
    assert ApplySnapshot(h[m], ViewOf(h, again), s) == h[m] by { Refused(h[m], ViewOf(h, again), s); }
  }

  lemma Refused(db: Db, v: View, s: Snapshot)
    requires !Decide(v, s).Update?
    ensures ApplySnapshot(db, v, s) == db
  {
    hide Decide;
  }

  lemma IntentKept(h: seq<Db>, a: nat, b: nat, c: nat)
    requires a <= b <= c < |h| && forall i, j :: 0 <= i <= j <= c ==> Reaches(h[i], h[j])
    ensures Once(h[a].row.intent, h[b].row.intent)
  {
    assert Reaches(h[a], h[b]);
  }

  /** What a snapshot that changed the row has written. */
  lemma WonRow(h: seq<Db>, ops: seq<Op>, n: nat)
    requires Run(h, ops) && n < |ops| && ops[n].MirrorSnapshot? && h[n + 1].row != h[n].row
    requires forall i, j :: 0 <= i <= j <= n ==> Reaches(h[i], h[j])
    ensures var v, s := ViewOf(h, ops[n]), ops[n].snapshot;
      && Decide(v, s).Update? && h[n + 1].row.coreRevision == Some(s.coreRevision)
      && h[n + 1].row.(intent := v.row.intent) == Decide(v, s).row
  {
    hide Decide, Parsed, InsertAll, Summarise, Merged;
    var v, s := ViewOf(h, ops[n]), ops[n].snapshot;
    assert Reaches(h[ops[n].rowRead], h[n]);
    assert h[n + 1] == ApplySnapshot(h[n], v, s);
    if Decide(v, s).Update? { UpdateRow(v, s); MergedRow(v, s); }
  }

  lemma SameRow(h: seq<Db>, a: nat, b: nat, c: nat)
    requires a <= b <= c < |h| && forall i, j :: 0 <= i <= j <= c ==> Reaches(h[i], h[j])
    requires h[a].row.revision == h[c].row.revision
    ensures h[b].row.(intent := None) == h[a].row.(intent := None) && h[b].row.revision == h[a].row.revision
  {
    assert Reaches(h[a], h[b]) && Reaches(h[b], h[c]);
  }

  lemma UpdateRow(v: View, s: Snapshot)
    requires Decide(v, s).Update?
    ensures Decide(v, s).row == Merged(v, s)
  {
  }

  lemma MergedRow(v: View, s: Snapshot)
    ensures var m := Merged(v, s);
      m == v.row.(state := m.state, summary := m.summary, proposalDigest := m.proposalDigest,
                  sourceDigest := m.sourceDigest,
                  proposal := m.proposal, consumed := m.consumed, coreRevision := Some(s.coreRevision),
                  revision := v.row.revision + 1)
  {
    hide Summarise;
  }

  lemma JustReported(h: seq<Db>, ops: seq<Op>, n: nat)
    requires Run(h, ops) && OneListPerRevision(ops) && n < |ops| && ops[n].MirrorSnapshot?
    requires h[n + 1].row.coreRevision == Some(ops[n].snapshot.coreRevision) && Traced(h[n + 1], ops, n + 1)
    ensures Holds(h[n + 1].evidence, ops[n].snapshot.evidence)
  {
    hide Holds, DistinctEvidence;
    var a: nat :| a < n + 1 && a < |ops| && Reported(h[n + 1], ops[a]);
  }

  /**
   At the stored core revision some other snapshot is let through exactly when the core revision that was read is
   not the one in the row that was read (and the job is not finished). The batch does not catch it: its guard
   admits an equal core revision.
   */
  lemma EquivocationExactly(v: View, stored: Snapshot)
    requires Parsed(stored) && v.row.coreRevision == Some(stored.coreRevision)
    requires Decide(v.(coreRevision := v.row.coreRevision), stored) == Unchanged
    requires v.coreRevision.Some? ==> v.coreRevision.value <= stored.coreRevision
    ensures (exists s: Snapshot :: Parsed(s) && s.coreRevision == stored.coreRevision && Decide(v, s).Update? &&
                                   Decide(v, s).row.summary != v.row.summary)
            <==> v.coreRevision != v.row.coreRevision && !Terminal(v.row.state)
  {
    hide IsDigest, DistinctEvidence, ManifestKept, Trim, Summarise, ProposalFits, ApprovalRules;
    if v.coreRevision != v.row.coreRevision && !Terminal(v.row.state) {
      var text := if v.row.summary == "a" then "b" else "a";
      var s := stored.(summary := text);
      Trimmed(text);
      Plain(s);
      assert Decide(v, s).Update? && Parsed(s);
    }
  }

  lemma Plain(s: Snapshot)
    requires Trim(s.summary) == s.summary && 0 < |s.summary| <= MAX_SUMMARY
    ensures Summarise(s) == s.summary
  {
    hide Trim, StateName, Words;
  }

  // The states of a run in which the core reports two different summaries at revision 1.
  const QUEUED := Db(Row(Queued, READY, 0, None, None, None, false, None, false, None, None), map[], map[])
  const HELD := QUEUED.(row := QUEUED.row.(reserved := true, summary := RESERVED, revision := 1))
  const BOUND := QUEUED.(row := QUEUED.row.(remote := Some("core"), summary := "", revision := 2))
  const SHOWN := QUEUED.(row :=
    BOUND.row.(state := Planning, summary := "first", coreRevision := Some(1), revision := 3))
  const CHANGED := QUEUED.(row := SHOWN.row.(summary := "second", revision := 4))

  function Report(summary: string): Snapshot {
    Snapshot(Planning, summary, 1, None, None, None, false, [])
  }

  lemma ExampleReports()
    ensures Parsed(Report("first")) && Parsed(Report("second"))
    ensures ApplySnapshot(BOUND, View(BOUND.row, map[], None, None), Report("first")) == SHOWN
    ensures ApplySnapshot(SHOWN, View(SHOWN.row, map[], None, None), Report("second")) == CHANGED
  {
    hide Trim, Parsed, ApplySnapshot;
    Trimmed("first");
    Trimmed("second");
    FirstReport(BOUND, Report("first"));
    FirstReport(SHOWN, Report("second"));
  }

  /** The second snapshot reads the core revision before the first is stored, and the row after. */
  lemma Equivocation()
    ensures exists h: seq<Db>, ops: seq<Op>, n: nat ::
      Run(h, ops) && OneListPerRevision(ops) && n < |ops| && ops[n].MirrorSnapshot? &&
      h[n].row.coreRevision == Some(ops[n].snapshot.coreRevision) &&
      h[n + 1].row.coreRevision == h[n].row.coreRevision &&
      h[n + 1].row.summary != h[n].row.summary
  {
    ExampleRun(HISTORY, OPS);
  }

  lemma ExampleRun(h: seq<Db>, ops: seq<Op>)
    requires h == HISTORY && ops == OPS
    ensures Run(h, ops) && OneListPerRevision(ops) && |ops| == 4 && ops[3].MirrorSnapshot?
    ensures h[3].row.coreRevision == Some(ops[3].snapshot.coreRevision)
    ensures h[4].row.coreRevision == h[3].row.coreRevision
    ensures h[4].row.summary != h[3].row.summary
  {
    hide Next, Timely, Created;
    ExampleSteps();
  }

  const HISTORY := [QUEUED, HELD, BOUND, SHOWN, CHANGED]
  const OPS := [
    ReserveDispatch(0, 0, 0, 0),
    BindRemote(1, "core", ""),
    MirrorSnapshot(2, 2, 2, 2, 2, Report("first")),
    MirrorSnapshot(2, 3, 3, 2, 2, Report("second"))]

  lemma ExampleSteps()
    ensures Created(HISTORY[0])
    ensures Timely(HISTORY, 0, OPS[0]) && HISTORY[1] == Next(HISTORY, 0, OPS[0])
    ensures Timely(HISTORY, 1, OPS[1]) && HISTORY[2] == Next(HISTORY, 1, OPS[1])
    ensures Timely(HISTORY, 2, OPS[2]) && HISTORY[3] == Next(HISTORY, 2, OPS[2])
    ensures Timely(HISTORY, 3, OPS[3]) && HISTORY[4] == Next(HISTORY, 3, OPS[3])
  {
    hide Parsed, ApplySnapshot;
    ExampleReports();
  }

  /** The very first report, accepted by a view that has read no core revision yet. */
  lemma FirstReport(db: Db, s: Snapshot)
    requires db.row == Row(db.row.state, db.row.summary, db.row.revision, None, None, None, false, Some("core"), false,
      db.row.coreRevision, None)
    requires (db.row.state.Queued? || db.row.state.Planning?)
    requires (db.row.coreRevision.None? || db.row.coreRevision == Some(1))
    requires db.evidence == map[] && s == Snapshot(Planning, s.summary, 1, None, None, None, false, [])
    requires Trim(s.summary) == s.summary && 0 < |s.summary| <= MAX_SUMMARY
    ensures Parsed(s)
    ensures ApplySnapshot(db, View(db.row, map[], None, None), s) ==
            db.(row := db.row.(state := Planning, summary := s.summary, coreRevision := Some(1),
                                  revision := db.row.revision + 1))
  {
    hide Summarise, IsDigest, Trim;
    Plain(s);
  }
}
