/** Stored evidence only grows, and stands still once a proposal is stored. */
module MirrorEvidence {
  import opened Common
  import opened Mirror
  import opened MirrorRuns

  /** The stored rows are exactly the reported descriptors. */
  ghost predicate Holds(stored: map<string, Descriptor>, incoming: seq<Descriptor>) {
    && (forall d :: d in incoming ==> d.id in stored && stored[d.id] == d)
    && (forall id :: id in stored ==> stored[id] in incoming && stored[id].id == id)
  }

  ghost predicate Keyed(stored: map<string, Descriptor>) {
    forall id :: id in stored ==> stored[id].id == id
  }

  lemma {:induction false} InsertAllEffect(stored: map<string, Descriptor>, incoming: seq<Descriptor>)
    requires DistinctEvidence(incoming)
    ensures var after := InsertAll(stored, incoming);
      && (forall id :: id in stored ==> id in after && after[id] == stored[id])
      && (forall d :: d in incoming ==> d.id in after && (d.id !in stored ==> after[d.id] == d))
      && (forall id :: id in after && id !in stored ==> after[id] in incoming && after[id].id == id)
  {
    if incoming != [] {
      var n := |incoming| - 1;
      assert incoming == incoming[..n] + [incoming[n]];
      InsertAllEffect(stored, incoming[..n]);
    }
  }

  lemma InsertedHolds(stored: map<string, Descriptor>, incoming: seq<Descriptor>)
    requires DistinctEvidence(incoming) && Keyed(stored) && ManifestKept(stored, incoming)
    ensures Holds(InsertAll(stored, incoming), incoming)
  {
    InsertAllEffect(stored, incoming);
    forall d | d in incoming && d.id in stored
      ensures stored[d.id] == d
    {
      var i :| 0 <= i < |incoming| && incoming[i] == d;
      var j :| 0 <= j < |incoming| && incoming[j] == stored[d.id];
    }
  }

  lemma HeldIsFixed(stored: map<string, Descriptor>, incoming: seq<Descriptor>)
    requires Holds(stored, incoming) && DistinctEvidence(incoming)
    ensures InsertAll(stored, incoming) == stored
  {
    InsertAllEffect(stored, incoming);
  }

  function Ids(e: seq<Descriptor>): set<string> {
    set d | d in e :: d.id
  }

  lemma {:induction false} IdsCount(e: seq<Descriptor>)
    requires DistinctEvidence(e)
    ensures |Ids(e)| == |e|
  {
    if e != [] {
      var n := |e| - 1;
      IdsCount(e[..n]);
      assert e == e[..n] + [e[n]];
      assert Ids(e) == Ids(e[..n]) + {e[n].id};
    }
  }

  lemma SameCountHolds(stored: map<string, Descriptor>, incoming: seq<Descriptor>)
    requires DistinctEvidence(incoming) && Keyed(stored) && ManifestKept(stored, incoming) && |stored| == |incoming|
    ensures Holds(stored, incoming)
  {
    IdsCount(incoming);
    assert stored.Keys <= Ids(incoming);
    SubsetOfSameSize(stored.Keys, Ids(incoming));
    forall d | d in incoming
      ensures d.id in stored && stored[d.id] == d
    {
      assert d.id in Ids(incoming);
      var i :| 0 <= i < |incoming| && incoming[i] == d;
      var j :| 0 <= j < |incoming| && incoming[j] == stored[d.id];
    }
  }

  lemma SubsetOfSameSize<T>(a: set<T>, b: set<T>)
    requires a <= b && |a| == |b|
    ensures a == b
  {
    assert |b - a| == |b| - |a|;
  }

  lemma HoldsCount(stored: map<string, Descriptor>, incoming: seq<Descriptor>)
    requires Holds(stored, incoming) && DistinctEvidence(incoming)
    ensures |stored| == |incoming|
  {
    IdsCount(incoming);
    assert stored.Keys == Ids(incoming);
  }

  /** The core reports one evidence list per revision. */
  ghost predicate OneListPerRevision(ops: seq<Op>) {
    forall a, b :: 0 <= a < |ops| && 0 <= b < |ops| && ops[a].MirrorSnapshot? && ops[b].MirrorSnapshot? &&
                   ops[a].snapshot.coreRevision == ops[b].snapshot.coreRevision ==>
                     ops[a].snapshot.evidence == ops[b].snapshot.evidence
  }

  ghost predicate Reported(db: Db, op: Op) {
    && op.MirrorSnapshot? && db.row.coreRevision == Some(op.snapshot.coreRevision)
    && DistinctEvidence(op.snapshot.evidence) && Holds(db.evidence, op.snapshot.evidence)
  }

  /** The stored evidence is the list reported with the stored core revision. */
  ghost predicate Traced(db: Db, ops: seq<Op>, n: nat) {
    && (db.row.coreRevision.None? ==> db.evidence == map[])
    && (db.row.coreRevision.Some? ==> exists a: nat :: a < n && a < |ops| && Reported(db, ops[a]))
  }

  ghost predicate EvidenceGrows(a: Db, b: Db) {
    && (a.row.revision == b.row.revision ==> a.evidence == b.evidence)
    && (forall id :: id in a.evidence ==> id in b.evidence && b.evidence[id] == a.evidence[id])
    && (a.row.proposal.Some? ==> a.evidence == b.evidence)
  }

  lemma EvidenceGrowsTrans(a: Db, b: Db, c: Db)
    requires Reaches(a, b) && Reaches(b, c) && EvidenceGrows(a, b) && EvidenceGrows(b, c)
    ensures EvidenceGrows(a, c)
  {
  }

  /** A snapshot that wins its batch. */
  lemma WinnerEvidence(db: Db, v: View, s: Snapshot)
    requires Safe(db) && Parsed(s) && Keyed(db.evidence)
    requires Decide(v, s).Update? && db.row.revision == v.row.revision
    requires v.row.(intent := None) == db.row.(intent := None) && v.evidence == db.evidence
    requires db.row.coreRevision.Some? ==> db.row.coreRevision.value <= s.coreRevision
    ensures var after := ApplySnapshot(db, v, s);
      Holds(after.evidence, s.evidence) && EvidenceGrows(db, after) && after.row.coreRevision == Some(s.coreRevision)
  {
    hide Safe, IsDigest, AlreadyMirrored, CoreTransitionAllowed, Summarise, InsertAll, Holds, DistinctEvidence,
         ManifestKept;
    InsertedHolds(db.evidence, s.evidence);
    InsertAllEffect(db.evidence, s.evidence);
    if db.row.proposal.Some? {
      SameCountHolds(db.evidence, s.evidence);
      HeldIsFixed(db.evidence, s.evidence);
    }
  }

  /** A snapshot that loses to one with the same core revision inserts nothing new. */
  lemma LoserEvidence(db: Db, v: View, s: Snapshot, op: Op)
    requires Reported(db, op) && op.snapshot.evidence == s.evidence
    requires !(db.row.revision == v.row.revision &&
      (db.row.coreRevision.None? || db.row.coreRevision.value <= s.coreRevision))
    ensures ApplySnapshot(db, v, s) == db
  {
    hide Decide, Holds, DistinctEvidence;
    HeldIsFixed(db.evidence, s.evidence);
  }

  lemma TracedKeyed(db: Db, ops: seq<Op>, n: nat)
    requires Traced(db, ops, n)
    ensures Keyed(db.evidence)
  {
  }

  lemma EvidenceStep(h: seq<Db>, ops: seq<Op>, n: nat)
    requires Run(h, ops) && OneListPerRevision(ops) && n < |ops|
    requires forall j :: 0 <= j <= n ==> Safe(h[j])
    requires forall i, j :: 0 <= i <= j <= n ==> Reaches(h[i], h[j]) && EvidenceGrows(h[i], h[j])
    requires Traced(h[n], ops, n)
    ensures Traced(h[n + 1], ops, n + 1) && EvidenceGrows(h[n], h[n + 1])
  {
    var db, op := h[n], ops[n];
    if op.MirrorSnapshot? {
      hide Safe, ApplySnapshot, Holds, Decide, Parsed, DistinctEvidence;
      var v, s := ViewOf(h, op), op.snapshot;
      assert Reaches(h[op.rowRead], h[op.evidenceRead]) && Reaches(h[op.evidenceRead], db);
      assert EvidenceGrows(h[op.evidenceRead], db);
      TracedKeyed(db, ops, n);
      SnapshotEvidence(db, ops, n, v, s);
    } else {
      hide Safe, Holds, DistinctEvidence, IsDigest, Pending;
      OtherEvidence(h, n, op);
      if db.row.coreRevision.Some? {
        var a: nat :| a < n && a < |ops| && Reported(db, ops[a]);
        assert Reported(h[n + 1], ops[a]);
      }
    }
  }

  lemma OtherEvidence(h: seq<Db>, n: nat, op: Op)
    requires Timely(h, n, op) && !op.MirrorSnapshot?
    ensures Next(h, n, op).evidence == h[n].evidence && Next(h, n, op).row.coreRevision == h[n].row.coreRevision
  {
    hide IsDigest, Pending;
  }

  lemma SnapshotEvidence(db: Db, ops: seq<Op>, n: nat, v: View, s: Snapshot)
    requires n < |ops| && ops[n].MirrorSnapshot? && ops[n].snapshot == s && Parsed(s)
    requires Safe(db) && Keyed(db.evidence) && Traced(db, ops, n) && OneListPerRevision(ops)
    requires v.row.revision == db.row.revision ==> v.row.(intent := None) == db.row.(intent := None)
    requires v.row.revision == db.row.revision ==> v.evidence == db.evidence
    ensures Traced(ApplySnapshot(db, v, s), ops, n + 1) && EvidenceGrows(db, ApplySnapshot(db, v, s))
  {
    hide Safe, Holds, Decide, DistinctEvidence, Keyed;
    var won := db.row.revision == v.row.revision &&
      (db.row.coreRevision.None? || db.row.coreRevision.value <= s.coreRevision);
    var after := ApplySnapshot(db, v, s);
    if Decide(v, s).Update? && won {
      WinnerEvidence(db, v, s);
      assert Reported(after, ops[n]);
    } else {
      if db.row.coreRevision.Some? {
        var a: nat :| a < n && Reported(db, ops[a]);
        if db.row.coreRevision.value == s.coreRevision && !won {
          LoserEvidence(db, v, s, ops[a]);
        }
        assert after == db;
        assert Reported(after, ops[a]);
      }
    }
  }

  /** Evidence over every run, given one list per core revision. */
  lemma {:induction false} EvidenceAppendOnly(h: seq<Db>, ops: seq<Op>, n: nat)
    requires Run(h, ops) && OneListPerRevision(ops) && n < |h|
    ensures Traced(h[n], ops, n)
    ensures forall i, j :: 0 <= i <= j <= n ==> EvidenceGrows(h[i], h[j])
  {
    hide Next, Timely, Safe, Reaches, OneListPerRevision, EvidenceGrows, Created, Traced;
    if n == 0 {
      NoEvidenceYet(h[0], ops);
    } else {
      EvidenceAppendOnly(h, ops, n - 1);
      Invariants(h, ops, n);
      EvidenceStep(h, ops, n - 1);
      EvidenceGrowsSelf(h[n]);
      forall i | 0 <= i < n
        ensures EvidenceGrows(h[i], h[n])
      {
        EvidenceGrowsTrans(h[i], h[n - 1], h[n]);
      }
    }
  }

  lemma EvidenceGrowsSelf(a: Db)
    ensures EvidenceGrows(a, a)
  {
  }

  lemma NoEvidenceYet(a: Db, ops: seq<Op>)
    requires Created(a)
    ensures Traced(a, ops, 0) && EvidenceGrows(a, a)
  {
  }
}
