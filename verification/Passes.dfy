/**
 The three ordered passes of a restore and its final verification. Whatever the host did since the capture,
 the passes complete (barring failing primitives and over-budget copies) exactly when nothing blocks a managed
 path, and then every managed path has its captured descriptor.
 */
module Passes {
  import opened Common
  import opened FileSystem
  import opened Quarantine
  import opened CrossDevice
  import opened Receipt
  import opened Restore
  import opened Sorting

  predicate PresentDirectory(baseline: FS, q: Path) {
    q in baseline && baseline[q].Directory?
  }

  /**
   What makes a restore from the host state start abort at the managed path m: above m lies something that is
   not a directory and is not itself a recorded managed directory, or m is a file that cannot be read safely.
   */
  ghost predicate Blocked(baseline: FS, start: FS, m: Path, q: Path) {
    && q in start
    && ((Above(q, m) && !start[q].Directory? && !PresentDirectory(baseline, q))
        || (q == m && !Readable(start[q])))
  }

  ghost predicate Restorable(managed: seq<Managed>, baseline: FS, start: FS) {
    forall m, q :: m in managed ==> !Blocked(baseline, start, m.path, q)
  }

  ghost predicate IsManaged(managed: seq<Managed>, p: Path) {
    exists m :: m in managed && m.path == p
  }

  ghost predicate AllRestored(managed: seq<Managed>, baseline: FS, sha: Bytes -> Digest, now: FS, done: set<Path>) {
    forall p :: p in done ==> IsManaged(managed, p) && Restored(sha, baseline, now, p)
  }

  /** Whatever is not a directory was there at the start or is a restored file. */
  ghost predicate Origins(managed: seq<Managed>, start: FS, now: FS) {
    forall q :: q in now && !now[q].Directory? ==>
      (q in start && now[q] == start[q]) || (Managed(q, RegularKind) in managed && Readable(now[q]))
  }

  /** What blocks an unfinished path still stands. */
  ghost predicate BlockersStand(managed: seq<Managed>, baseline: FS, start: FS, now: FS, done: set<Path>) {
    forall m, q :: m in managed && m.path !in done && Blocked(baseline, start, m.path, q) ==>
      q in now && now[q] == start[q]
  }

  ghost predicate DoneUnblocked(managed: seq<Managed>, baseline: FS, start: FS, done: set<Path>) {
    forall m, q :: m in managed && m.path in done ==> !Blocked(baseline, start, m.path, q)
  }

  /** The state of a restore that began at start and has finished the paths in done. */
  ghost predicate Progress(managed: seq<Managed>, baseline: FS, sha: Bytes -> Digest, start: FS, now: FS,
                           done: set<Path>) {
    && AllRestored(managed, baseline, sha, now, done)
    && Origins(managed, start, now)
    && BlockersStand(managed, baseline, start, now, done)
    && DoneUnblocked(managed, baseline, start, done)
    && Untouched(managed, start, now)
    && Shrunk(managed, start, now, done)
  }

  /** At an unfinished path nothing has been added: what lies there is part of what lay there at the start. */
  ghost predicate Shrunk(managed: seq<Managed>, start: FS, now: FS, done: set<Path>) {
    forall m, q :: m in managed && m.path !in done && q in now && Within(q, m.path) ==> q in start && now[q] == start[q]
  }

  /** Every managed path on another device holds a tree that fits the copy budgets. */
  ghost predicate Movable(managed: seq<Managed>, crosses: Path -> bool, start: FS) {
    forall m :: m in managed && crosses(m.path) && m.path in start ==> Fits(start, m.path, 0, 0, 0)
  }

  /** Outside the managed trees nothing changes; nothing unmanaged appears but private ancestor directories. */
  ghost predicate Untouched(managed: seq<Managed>, start: FS, now: FS) {
    && (forall q :: q in start && (forall m :: m in managed ==> !Within(q, m.path)) ==> q in now && now[q] == start[q])
    && (forall q :: q in now && !IsManaged(managed, q) ==>
      (q in start && now[q] == start[q]) || now[q] == PRIVATE_DIRECTORY)
  }

  lemma UntouchedStep(managed: seq<Managed>, baseline: FS, start: FS, before: FS, after: FS, p: Path)
    requires Untouched(managed, start, before) && IsManaged(managed, p) && Stepped(baseline, before, after, p)
    ensures Untouched(managed, start, after)
  {
    var mp :| mp in managed && mp.path == p;
  }

  /** p may be restored next: recorded directories above it are done, and so is everything below an absent one. */
  ghost predicate MayBeNext(managed: seq<Managed>, baseline: FS, done: set<Path>, p: Path) {
    && IsManaged(managed, p)
    && (forall k :: k in managed && Above(k.path, p) && PresentDirectory(baseline, k.path) ==> k.path in done)
    && (p !in baseline ==> forall k :: k in managed && Above(p, k.path) ==> k.path in done)
  }

  lemma ProgressStart(managed: seq<Managed>, baseline: FS, sha: Bytes -> Digest, start: FS)
    ensures Progress(managed, baseline, sha, start, start, {})
  {
  }

  /** Restoring one entry leaves every finished entry restored. */
  lemma OthersStay(managed: seq<Managed>, captured: FS, baseline: FS, sha: Bytes -> Digest, before: FS, after: FS,
                   p: Path, k: Path)
    requires WellFormed(managed) && Captured(managed, captured, baseline)
    requires IsManaged(managed, p) && IsManaged(managed, k) && k != p
    requires Stepped(baseline, before, after, p) && Restored(sha, baseline, before, k)
    ensures Restored(sha, baseline, after, k)
  {
    var mp :| mp in managed && mp.path == p;
    var mk :| mk in managed && mk.path == k;
    if k in baseline {
      assert Describe(sha, before, k) == Describe(sha, baseline, k);
      assert k in before;
      if Within(k, p) {
        assert Above(p, k);
        assert mp.kind.DirectoryKind? && p in captured;
        assert baseline[p].Directory?;
      }
    } else {
      assert k !in before;
      assert Above(k, p) && p in baseline ==> k in captured;
    }
  }

  /** A blocking node of an unfinished path survives the restoration of another one. */
  lemma BlockersStay(managed: seq<Managed>, captured: FS, baseline: FS, start: FS, before: FS, after: FS,
                     done: set<Path>, p: Path, m: Managed, q: Path)
    requires WellFormed(managed) && Captured(managed, captured, baseline)
    requires MayBeNext(managed, baseline, done, p) && Stepped(baseline, before, after, p)
    requires m in managed && m.path !in done && m.path != p
    requires Blocked(baseline, start, m.path, q) && q in before && before[q] == start[q]
    ensures q in after && after[q] == start[q]
  {
    var mp :| mp in managed && mp.path == p;
    if Within(q, p) {
      assert m.path[..|p|] == q[..|p|];
      assert Above(p, m.path);
      assert mp.kind.DirectoryKind?;
      assert p in baseline;
      assert baseline[p].Directory?;
    }
  }

  lemma OriginsStay(managed: seq<Managed>, captured: FS, baseline: FS, sha: Bytes -> Digest, start: FS, before: FS,
                    after: FS,
                    p: Path, q: Path)
    requires Captured(managed, captured, baseline) && IsManaged(managed, p)
    requires EntryDone(sha, baseline, before, after, p)
    requires Origins(managed, start, before)
    requires q in after && !after[q].Directory?
    ensures (q in start && after[q] == start[q]) || (Managed(q, RegularKind) in managed && Readable(after[q]))
  {
    if q == p {
      assert Describe(sha, after, p) == Describe(sha, baseline, p);
      var m :| m in managed && m.path == p;
      assert p in baseline && OfKind(baseline[p], m.kind);
      assert m == Managed(p, RegularKind);
    }
  }

  lemma ProgressStep(managed: seq<Managed>, captured: FS, baseline: FS, sha: Bytes -> Digest, start: FS,
                     before: FS, after: FS, done: set<Path>, p: Path)
    requires WellFormed(managed) && Captured(managed, captured, baseline)
    requires Progress(managed, baseline, sha, start, before, done) && MayBeNext(managed, baseline, done, p)
    requires EntryDone(sha, baseline, before, after, p)
    ensures Progress(managed, baseline, sha, start, after, done + {p})
  {
    hide Restored, Stepped, Captured, WellFormed, Untouched, ParentsClear, AllRestored, Origins, BlockersStand,
         DoneUnblocked, Blocked, Shrunk;
    UntouchedStep(managed, baseline, start, before, after, p);
    RestoredStep(managed, captured, baseline, sha, before, after, done, p);
    OriginsStep(managed, captured, baseline, sha, start, before, after, p);
    BlockersStep(managed, captured, baseline, start, before, after, done, p);
    UnblockedStep(managed, baseline, sha, start, before, done, p);
    ShrunkStep(managed, captured, baseline, sha, start, before, after, done, p);
  }

  lemma ShrunkStep(managed: seq<Managed>, captured: FS, baseline: FS, sha: Bytes -> Digest, start: FS, before: FS,
                   after: FS,
                   done: set<Path>, p: Path)
    requires WellFormed(managed) && Captured(managed, captured, baseline)
    requires MayBeNext(managed, baseline, done, p) && EntryDone(sha, baseline, before, after, p)
    requires Shrunk(managed, start, before, done)
    ensures Shrunk(managed, start, after, done + {p})
  {
    hide EntryDone, Captured, WellFormed, MayBeNext;
    forall m, q | m in managed && m.path !in done && m.path != p && q in after && Within(q, m.path)
      ensures q in before && after[q] == before[q]
    {
      NothingMade(managed, captured, baseline, sha, before, after, done, p, m, q);
    }
  }

  /** Restoring p makes nothing inside an unfinished path. */
  lemma NothingMade(managed: seq<Managed>, captured: FS, baseline: FS, sha: Bytes -> Digest, before: FS, after: FS,
                    done: set<Path>, p: Path, m: Managed, q: Path)
    requires WellFormed(managed) && Captured(managed, captured, baseline)
    requires MayBeNext(managed, baseline, done, p) && EntryDone(sha, baseline, before, after, p)
    requires m in managed && m.path !in done && m.path != p && q in after && Within(q, m.path)
    ensures q in before && after[q] == before[q]
  {
    var mp :| mp in managed && mp.path == p;
    if q == p || Above(q, p) {
      assert q[..|m.path|] == p[..|m.path|];
      assert Above(m.path, p);
      AboveUnfinished(managed, captured, baseline, done, m, mp);
      if p !in baseline { assert Describe(sha, after, p) == Describe(sha, baseline, p); }
    }
  }

  /** An unfinished managed path above the next one is a directory absent at capture, and so is the next one. */
  lemma AboveUnfinished(managed: seq<Managed>, captured: FS, baseline: FS, done: set<Path>, m: Managed, k: Managed)
    requires WellFormed(managed) && Captured(managed, captured, baseline) && MayBeNext(managed, baseline, done, k.path)
    requires m in managed && k in managed && Above(m.path, k.path) && m.path !in done
    ensures m.path !in baseline && k.path !in baseline
  {
    if k.path in baseline { CaptureClosed(managed, captured, baseline, k, m); }
    RecordedAbove(managed, captured, baseline, m, k);
  }

  lemma RecordedAbove(managed: seq<Managed>, captured: FS, baseline: FS, m: Managed, k: Managed)
    requires WellFormed(managed) && Captured(managed, captured, baseline)
    requires m in managed && k in managed && Above(m.path, k.path)
    ensures m.path in baseline ==> PresentDirectory(baseline, m.path)
  {
    assert m.kind.DirectoryKind?;
  }

  lemma RestoredStep(managed: seq<Managed>, captured: FS, baseline: FS, sha: Bytes -> Digest, before: FS, after: FS,
                     done: set<Path>, p: Path)
    requires WellFormed(managed) && Captured(managed, captured, baseline) && IsManaged(managed, p)
    requires AllRestored(managed, baseline, sha, before, done)
    requires Stepped(baseline, before, after, p) && Restored(sha, baseline, after, p)
    ensures AllRestored(managed, baseline, sha, after, done + {p})
  {
    hide Restored, Stepped, Captured, WellFormed;
    forall k | k in done + {p}
      ensures IsManaged(managed, k) && Restored(sha, baseline, after, k)
    {
      if k != p { OthersStay(managed, captured, baseline, sha, before, after, p, k); }
    }
  }

  lemma OriginsStep(managed: seq<Managed>, captured: FS, baseline: FS, sha: Bytes -> Digest, start: FS, before: FS,
                    after: FS, p: Path)
    requires Captured(managed, captured, baseline) && IsManaged(managed, p)
    requires EntryDone(sha, baseline, before, after, p) && Origins(managed, start, before)
    ensures Origins(managed, start, after)
  {
    hide Captured, EntryDone;
    forall q | q in after && !after[q].Directory?
      ensures (q in start && after[q] == start[q]) || (Managed(q, RegularKind) in managed && Readable(after[q]))
    {
      OriginsStay(managed, captured, baseline, sha, start, before, after, p, q);
    }
  }

  lemma BlockersStep(managed: seq<Managed>, captured: FS, baseline: FS, start: FS, before: FS, after: FS,
                     done: set<Path>, p: Path)
    requires WellFormed(managed) && Captured(managed, captured, baseline)
    requires MayBeNext(managed, baseline, done, p) && Stepped(baseline, before, after, p)
    requires BlockersStand(managed, baseline, start, before, done)
    ensures BlockersStand(managed, baseline, start, after, done + {p})
  {
    hide Stepped, Captured, WellFormed, MayBeNext;
    forall m, q | m in managed && m.path !in done && m.path != p && Blocked(baseline, start, m.path, q)
      ensures q in after && after[q] == start[q]
    {
      BlockersStay(managed, captured, baseline, start, before, after, done, p, m, q);
    }
  }

  lemma UnblockedStep(managed: seq<Managed>, baseline: FS, sha: Bytes -> Digest, start: FS, before: FS, done: set<Path>,
                      p: Path)
    requires Progress(managed, baseline, sha, start, before, done)
    requires ParentsClear(before, p) && (p in before ==> Readable(before[p]))
    ensures DoneUnblocked(managed, baseline, start, done + {p})
  {
    hide ParentsClear, AllRestored, Origins, BlockersStand, Untouched, Blocked, Shrunk;
    forall m, q | m in managed && m.path in done + {p}
      ensures !Blocked(baseline, start, m.path, q)
    {
      if m.path !in done { NotBlocked(managed, baseline, sha, start, before, done, m, q); }
    }
  }

  lemma NotBlocked(managed: seq<Managed>, baseline: FS, sha: Bytes -> Digest, start: FS, before: FS, done: set<Path>,
                   m: Managed, q: Path)
    requires Progress(managed, baseline, sha, start, before, done) && m in managed && m.path !in done
    requires ParentsClear(before, m.path) && (m.path in before ==> Readable(before[m.path]))
    ensures !Blocked(baseline, start, m.path, q)
  {
  }

  lemma RecordedStands(managed: seq<Managed>, captured: FS, baseline: FS, sha: Bytes -> Digest, start: FS, now: FS,
                       done: set<Path>, q: Path)
    requires Captured(managed, captured, baseline) && Progress(managed, baseline, sha, start, now, done)
    ensures PresentDirectory(baseline, q) && q in done ==> q in now && now[q].Directory?
  {
    if PresentDirectory(baseline, q) && q in done {
      assert Describe(sha, now, q) == Describe(sha, baseline, q);
    }
  }

  /** An abort at p is the fault of the state the restore started from. */
  lemma UnsafeIsBlocked(managed: seq<Managed>, captured: FS, baseline: FS, sha: Bytes -> Digest, start: FS,
                        before: FS, done: set<Path>, p: Path)
    requires WellFormed(managed) && Captured(managed, captured, baseline)
    requires Progress(managed, baseline, sha, start, before, done) && MayBeNext(managed, baseline, done, p)
    requires EntryUnsafe(before, p)
    ensures !Restorable(managed, baseline, start)
  {
    var m :| m in managed && m.path == p;
    if !ParentsClear(before, p) {
      var q :| Above(q, p) && q in before && !before[q].Directory?;
      RecordedStands(managed, captured, baseline, sha, start, before, done, q);
      assert PresentDirectory(baseline, q) ==> IsManaged(managed, q);
      assert Managed(q, RegularKind) !in managed;
      assert Blocked(baseline, start, m.path, q);
    } else {
      assert Blocked(baseline, start, m.path, p);
    }
  }

  /** Once every managed path is finished, all match their baseline and can be re-opened for verification. */
  lemma ProgressEnd(managed: seq<Managed>, captured: FS, baseline: FS, sha: Bytes -> Digest, start: FS, now: FS,
                    done: set<Path>)
    requires WellFormed(managed) && Captured(managed, captured, baseline)
    requires Progress(managed, baseline, sha, start, now, done)
    requires forall m :: m in managed ==> m.path in done
    ensures Restorable(managed, baseline, start)
    ensures forall m :: m in managed ==> Restored(sha, baseline, now, m.path) && ParentsClear(now, m.path)
    ensures Untouched(managed, start, now)
  {
    forall m | m in managed
      ensures ParentsClear(now, m.path)
    {
      forall q | Above(q, m.path) && q in now
        ensures now[q].Directory?
      {
        assert !Blocked(baseline, start, m.path, q);
        assert Managed(q, RegularKind) !in managed;
        assert PresentDirectory(baseline, q) ==> IsManaged(managed, q);
        RecordedStands(managed, captured, baseline, sha, start, now, done, q);
      }
    }
  }

  function Select(managed: seq<Managed>, wanted: Managed -> bool): (r: seq<Path>)
    ensures forall p :: p in r <==> exists m :: m in managed && wanted(m) && m.path == p
  {
    if managed == [] then [] else
      var rest := Select(managed[1..], wanted);
      assert managed == [managed[0]] + managed[1..];
      if wanted(managed[0]) then [managed[0].path] + rest else rest
  }

  predicate Shallower(a: Path, b: Path) {
    |a| <= |b|
  }

  predicate Deeper(a: Path, b: Path) {
    |a| >= |b|
  }

  /** Sorting by depth lists the same paths in order. */
  lemma Depths(s: seq<Path>)
    ensures Sorted(Sort(s, Shallower), Shallower) && forall q :: q in Sort(s, Shallower) <==> q in s
    ensures Sorted(Sort(s, Deeper), Deeper) && forall q :: q in Sort(s, Deeper) <==> q in s
  {
    assert TotalPreorder(Shallower) && TotalPreorder(Deeper);
    SortEffect(s, Shallower);
    SortMembers(s, Shallower);
    SortEffect(s, Deeper);
    SortMembers(s, Deeper);
  }

  lemma EarlierInOrder(s: seq<Path>, le: (Path, Path) -> bool, i: nat, k: Path)
    requires Sorted(s, le) && i < |s| && k in s && !le(s[i], k) && k != s[i]
    ensures k in s[..i]
  {
    var j :| 0 <= j < |s| && s[j] == k;
    assert s[..i][j] == k;
  }

  /** The contract of a pass: it ends with its own paths finished too, or aborts for a stated reason. */
  twostate predicate PassContract(r: Restorer, s: Status, start: FS, vault0: FS, done: set<Path>)
    reads r, r.live, r.vault, r.live.io
  {
    && r.live != r.vault && r.live.io == r.vault.io && Tree(r.live.nodes) && Tree(r.vault.nodes)
    && r.Honest()
    && Kept(r.sha, r.grants, start, vault0, r.live.nodes, r.vault.nodes)
    && r.live.io.faults >= old(r.live.io.faults)
    && (s.Fault? <==> r.live.io.faults > old(r.live.io.faults))
    && (s.OverBudget? ==> !Movable(r.managed, r.crosses, start))
    && (s.PathUnsafe? ==> !Restorable(r.managed, r.baseline, start))
    && (s.Done? ==> r.Ready() && r.Settled() && Progress(r.managed, r.baseline, r.sha, start, r.live.nodes, done))
  }

  ghost predicate PassReady(r: Restorer, captured: FS, start: FS, vault0: FS, done: set<Path>)
    reads r, r.live, r.vault
  {
    && r.Ready() && r.Settled()
    && WellFormed(r.managed) && Captured(r.managed, captured, r.baseline)
    && Kept(r.sha, r.grants, start, vault0, r.live.nodes, r.vault.nodes)
    && Progress(r.managed, r.baseline, r.sha, start, r.live.nodes, done)
  }

  ghost function Paths(s: seq<Path>): set<Path> {
    set p | p in s
  }

  lemma PathsStep(s: seq<Path>, i: nat)
    requires i <= |s|
    ensures i == 0 ==> Paths(s[..i]) == {}
    ensures i < |s| ==> Paths(s[..i + 1]) == Paths(s[..i]) + {s[i]}
    ensures i == |s| ==> Paths(s[..i]) == Paths(s)
  {
    if i == |s| { assert s[..i] == s; }
    if i < |s| { assert s[..i + 1] == s[..i] + [s[i]]; }
  }

  function PresentDirectories(managed: seq<Managed>, baseline: FS): (r: seq<Path>)
    ensures Sorted(r, Shallower)
    ensures forall p :: p in r <==>
      exists m :: m in managed && m.kind.DirectoryKind? && m.path in baseline && m.path == p
  {
    var s := Select(managed, (m: Managed) => m.kind.DirectoryKind? && m.path in baseline);
    Depths(s);
    Sort(s, Shallower)
  }

  /** One step of any pass, folded into the running progress. */
  lemma StepTaken(r: Restorer, s: Status, captured: FS, start: FS, vault0: FS, done: set<Path>, p: Path,
                  before: FS, vault: FS, faults: nat)
    requires WellFormed(r.managed) && Captured(r.managed, captured, r.baseline)
    requires Kept(r.sha, r.grants, start, vault0, before, vault)
    requires Progress(r.managed, r.baseline, r.sha, start, before, done)
    requires MayBeNext(r.managed, r.baseline, done, p)
    requires r.StepContract(s, before, vault, p, faults)
    ensures Kept(r.sha, r.grants, start, vault0, r.live.nodes, r.vault.nodes)
    ensures s.Done? ==> Progress(r.managed, r.baseline, r.sha, start, r.live.nodes, done + {p}) && r.Ready()
    ensures s.Done? ==> r.Settled()
    ensures s.PathUnsafe? ==> !Restorable(r.managed, r.baseline, start)
    ensures s.OverBudget? ==> !Movable(r.managed, r.crosses, start)
    ensures r.live.io.faults >= faults && (s.Fault? <==> r.live.io.faults > faults)
  {
    hide Kept, Progress, EntryDone, EntryUnsafe, Restorable, WellFormed, Captured, Movable;
    KeptTrans(r.sha, r.grants, start, vault0, before, vault, r.live.nodes, r.vault.nodes);
    if s.Done? {
      ProgressStep(r.managed, captured, r.baseline, r.sha, start, before, r.live.nodes, done, p);
    }
    if s.PathUnsafe? {
      UnsafeIsBlocked(r.managed, captured, r.baseline, r.sha, start, before, done, p);
    }
    if s.OverBudget? {
      TooBigAtStart(r, start, before, done, p);
    }
  }

  /** A move refused by its budgets would have been refused at the start as well. */
  lemma TooBigAtStart(r: Restorer, start: FS, before: FS, done: set<Path>, p: Path)
    requires Progress(r.managed, r.baseline, r.sha, start, before, done) && IsManaged(r.managed, p)
    requires r.TooBigToMove(before, p) && !Restored(r.sha, r.baseline, before, p)
    ensures !Movable(r.managed, r.crosses, start)
  {
    hide Restored, Fits, Origins, BlockersStand, DoneUnblocked, Untouched;
    var m :| m in r.managed && m.path == p;
    assert p in before && Within(p, p);
    if Fits(start, p, 0, 0, 0) { PartFits(before, start, p); }
  }

  /** First pass: recorded directories, shallowest first. */
  method RestoreDirectories(r: Restorer, ghost captured: FS, ghost start: FS, ghost vault0: FS) returns (s: Status)
    requires PassReady(r, captured, start, vault0, {})
    modifies r, r.live`nodes, r.vault`nodes, r.live.io
    ensures PassContract(r, s, start, vault0, Paths(PresentDirectories(r.managed, r.baseline)))
  {
    hide Kept, Progress, WellFormed, Captured, Restorable, MayBeNext, PresentDirectories, Paths, Movable;
    var order := PresentDirectories(r.managed, r.baseline);
    var i := 0;
    PathsStep(order, 0);
    while i < |order|
      invariant 0 <= i <= |order|
      invariant PassReady(r, captured, start, vault0, Paths(order[..i]))
      invariant r.live.io.faults == old(r.live.io.faults)
    {
      ghost var before, vault := r.live.nodes, r.vault.nodes;
      DirectoryNext(r.managed, captured, r.baseline, i);
      s := r.RestoreDirectory(order[i]);
      StepTaken(r, s, captured, start, vault0, Paths(order[..i]), order[i], before, vault, old(r.live.io.faults));
      if !s.Done? { return; }
      PathsStep(order, i);
      i := i + 1;
    }
    PathsStep(order, i);
    s := Done;
  }

  lemma DirectoryNext(managed: seq<Managed>, captured: FS, baseline: FS, i: nat)
    requires WellFormed(managed) && Captured(managed, captured, baseline)
    requires i < |PresentDirectories(managed, baseline)|
    ensures var order := PresentDirectories(managed, baseline);
            && order[i] != [] && PresentDirectory(baseline, order[i])
            && MayBeNext(managed, baseline, Paths(order[..i]), order[i])
  {
    var order := PresentDirectories(managed, baseline);
    var p := order[i];
    assert p in order;
    var m :| m in managed && m.kind.DirectoryKind? && m.path in baseline && m.path == p;
    forall k | k in managed && Above(k.path, p) && PresentDirectory(baseline, k.path)
      ensures k.path in Paths(order[..i])
    {
      assert k.path in order;
      EarlierInOrder(order, Shallower, i, k.path);
    }
  }

  function RegularFiles(managed: seq<Managed>): seq<Path> {
    Select(managed, (m: Managed) => m.kind.RegularKind?)
  }

  function AbsentDirectories(managed: seq<Managed>, baseline: FS): (r: seq<Path>)
    ensures Sorted(r, Deeper)
    ensures forall p :: p in r <==>
      exists m :: m in managed && m.kind.DirectoryKind? && m.path !in baseline && m.path == p
  {
    var s := Select(managed, (m: Managed) => m.kind.DirectoryKind? && m.path !in baseline);
    Depths(s);
    Sort(s, Deeper)
  }

  /** Second pass: managed files in list order. */
  method RestoreFiles(r: Restorer, ghost captured: FS, ghost start: FS, ghost vault0: FS, ghost directories: set<Path>)
    returns (s: Status)
    requires directories == Paths(PresentDirectories(r.managed, r.baseline))
    requires PassReady(r, captured, start, vault0, directories)
    modifies r, r.live`nodes, r.vault`nodes, r.live.io
    ensures PassContract(r, s, start, vault0, directories + Paths(RegularFiles(r.managed)))
  {
    hide Kept, Progress, WellFormed, Captured, Restorable, MayBeNext, PresentDirectories, RegularFiles, Paths, Movable;
    var order := RegularFiles(r.managed);
    var i := 0;
    PathsStep(order, 0);
    assert directories + {} == directories;
    while i < |order|
      invariant 0 <= i <= |order|
      invariant PassReady(r, captured, start, vault0, directories + Paths(order[..i]))
      invariant r.live.io.faults == old(r.live.io.faults)
    {
      ghost var before, vault, done := r.live.nodes, r.vault.nodes, directories + Paths(order[..i]);
      FileNext(r.managed, captured, r.baseline, i);
      s := r.RestoreFile(order[i]);
      StepTaken(r, s, captured, start, vault0, done, order[i], before, vault, old(r.live.io.faults));
      if !s.Done? { return; }
      PathsStep(order, i);
      assert done + {order[i]} == directories + Paths(order[..i + 1]);
      i := i + 1;
    }
    PathsStep(order, i);
    s := Done;
  }

  lemma FileNext(managed: seq<Managed>, captured: FS, baseline: FS, i: nat)
    requires WellFormed(managed) && Captured(managed, captured, baseline)
    requires i < |RegularFiles(managed)|
    ensures var order := RegularFiles(managed);
            && order[i] != [] && (order[i] in baseline ==> baseline[order[i]].File? && Readable(baseline[order[i]]))
            && MayBeNext(managed, baseline, Paths(PresentDirectories(managed, baseline)) + Paths(order[..i]), order[i])
  {
    var order := RegularFiles(managed);
    var p := order[i];
    assert p in order;
    var m :| m in managed && m.kind.RegularKind? && m.path == p;
    RecordedListed(managed, captured, baseline);
  }

  lemma RecordedListed(managed: seq<Managed>, captured: FS, baseline: FS)
    requires Captured(managed, captured, baseline)
    ensures forall k :: k in managed && PresentDirectory(baseline, k.path) ==>
      k.path in Paths(PresentDirectories(managed, baseline))
  {
    forall k | k in managed && PresentDirectory(baseline, k.path)
      ensures k.path in Paths(PresentDirectories(managed, baseline))
    {
      assert OfKind(captured[k.path], k.kind);
      assert k.kind.DirectoryKind? && k.path in baseline;
      assert k.path in PresentDirectories(managed, baseline);
    }
  }

  /** Third pass: directories absent at capture, deepest first. */
  method RemoveDirectories(r: Restorer, ghost captured: FS, ghost start: FS, ghost vault0: FS, ghost earlier: set<Path>)
    returns (s: Status)
    requires earlier == Paths(PresentDirectories(r.managed, r.baseline)) + Paths(RegularFiles(r.managed))
    requires PassReady(r, captured, start, vault0, earlier)
    modifies r, r.live`nodes, r.vault`nodes, r.live.io
    ensures PassContract(r, s, start, vault0, earlier + Paths(AbsentDirectories(r.managed, r.baseline)))
  {
    hide Kept, Progress, WellFormed, Captured, Restorable, MayBeNext, PresentDirectories, RegularFiles,
         AbsentDirectories, Paths, Movable;
    var order := AbsentDirectories(r.managed, r.baseline);
    var i := 0;
    PathsStep(order, 0);
    assert earlier + {} == earlier;
    while i < |order|
      invariant 0 <= i <= |order|
      invariant PassReady(r, captured, start, vault0, earlier + Paths(order[..i]))
      invariant r.live.io.faults == old(r.live.io.faults)
    {
      ghost var before, vault, done := r.live.nodes, r.vault.nodes, earlier + Paths(order[..i]);
      AbsentNext(r.managed, captured, r.baseline, i);
      s := r.RemoveDirectory(order[i]);
      StepTaken(r, s, captured, start, vault0, done, order[i], before, vault, old(r.live.io.faults));
      if !s.Done? { return; }
      PathsStep(order, i);
      assert done + {order[i]} == earlier + Paths(order[..i + 1]);
      i := i + 1;
    }
    PathsStep(order, i);
    s := Done;
  }

  lemma AbsentNext(managed: seq<Managed>, captured: FS, baseline: FS, i: nat)
    requires WellFormed(managed) && Captured(managed, captured, baseline)
    requires i < |AbsentDirectories(managed, baseline)|
    ensures var order := AbsentDirectories(managed, baseline);
            && order[i] != [] && order[i] !in baseline
            && MayBeNext(managed, baseline,
              Paths(PresentDirectories(managed, baseline)) + Paths(RegularFiles(managed)) +
                         Paths(order[..i]), order[i])
  {
    var order := AbsentDirectories(managed, baseline);
    var p := order[i];
    assert p in order;
    var m :| m in managed && m.kind.DirectoryKind? && m.path !in baseline && m.path == p;
    RecordedListed(managed, captured, baseline);
    forall k | k in managed && Above(p, k.path)
      ensures k.path in Paths(RegularFiles(managed)) + Paths(order[..i])
    {
      if k.kind.RegularKind? {
        assert k.path in RegularFiles(managed);
      } else {
        assert k.path !in captured;
        assert k.path in order;
        EarlierInOrder(order, Deeper, i, k.path);
      }
    }
  }

  lemma AllListed(managed: seq<Managed>, baseline: FS)
    ensures forall m :: m in managed ==>
      m.path in Paths(PresentDirectories(managed, baseline)) + Paths(RegularFiles(managed)) +
                Paths(AbsentDirectories(managed, baseline))
  {
    forall m | m in managed
      ensures m.path in PresentDirectories(managed, baseline) || m.path in RegularFiles(managed) ||
              m.path in AbsentDirectories(managed, baseline)
    {
      if m.kind.DirectoryKind? {
        if m.path in baseline {
          assert m.path in PresentDirectories(managed, baseline);
        } else {
          assert m.path in AbsentDirectories(managed, baseline);
        }
      } else {
        assert m.path in RegularFiles(managed);
      }
    }
  }

  /** The closing comparison of every managed path with its baseline. */
  method Verify(r: Restorer) returns (s: Status, unresolved: bool)
    requires r.Ready() && forall m :: m in r.managed ==> m.path != []
    modifies r.live`nodes, r.live.io
    ensures r.live.nodes == old(r.live.nodes)
    ensures r.live.io.faults >= old(r.live.io.faults) && (s.Fault? <==> r.live.io.faults > old(r.live.io.faults))
    ensures !s.OverBudget?
    ensures (forall m :: m in r.managed ==>
      Restored(r.sha, r.baseline, r.live.nodes, m.path) && ParentsClear(r.live.nodes, m.path)) ==>
      !s.PathUnsafe? && !unresolved
    ensures s.Done? ==> (unresolved <==>
      exists m :: m in r.managed && !Restored(r.sha, r.baseline, r.live.nodes, m.path))
  {
    unresolved := false;
    var i := 0;
    while i < |r.managed|
      invariant 0 <= i <= |r.managed| && r.live.nodes == old(r.live.nodes)
      invariant r.live.io.faults == old(r.live.io.faults)
      invariant unresolved <==> exists m :: m in r.managed[..i] && !Restored(r.sha, r.baseline, r.live.nodes, m.path)
    {
      var p := r.managed[i].path;
      assert r.managed[..i + 1] == r.managed[..i] + [r.managed[i]];
      var found: bool;
      s, found := r.OpenParent(p, false);
      assert r.live.nodes == old(r.live.nodes);
      if !s.Done? { return; }
      if Describe(r.sha, r.live.nodes, p) != Describe(r.sha, r.baseline, p) { unresolved := true; }
      i := i + 1;
    }
    assert r.managed[..i] == r.managed;
    s := Done;
  }

  /**
   Capture, then anything at all, then restore. When no primitive fails and every managed tree on another device
   fits the copy budgets, the restore of the managed paths completes exactly when the host is restorable; it then
   leaves every managed path with its captured descriptor, so the verification never finds drift. However it ends,
   no file, link or device is lost except a file equal to its own ledger entry.
   */
  method RestorePaths(r: Restorer, ghost captured: FS) returns (s: Status, unresolved: bool)
    requires r.Ready() && r.Settled() && WellFormed(r.managed) && Captured(r.managed, captured, r.baseline)
    modifies r, r.live`nodes, r.vault`nodes, r.live.io
    ensures Kept(r.sha, r.grants, old(r.live.nodes), old(r.vault.nodes), r.live.nodes, r.vault.nodes)
    ensures r.Honest()
    ensures s.Done? ==> !unresolved && forall m :: m in r.managed ==> Restored(r.sha, r.baseline, r.live.nodes, m.path)
    ensures s.Done? ==> Untouched(r.managed, old(r.live.nodes), r.live.nodes)
    ensures s.Done? ==> r.Ready() && r.Settled()
    ensures s.Done? || s.PathUnsafe? ==> (s.Done? <==> Restorable(r.managed, r.baseline, old(r.live.nodes)))
    ensures r.live.io.faults >= old(r.live.io.faults) && (s.Fault? <==> r.live.io.faults > old(r.live.io.faults))
    ensures s.OverBudget? ==> !Movable(r.managed, r.crosses, old(r.live.nodes))
  {
    hide Kept, Progress, Captured, Restorable, MayBeNext, PresentDirectories, RegularFiles, AbsentDirectories, Paths,
         Restored, Movable;
    ghost var start, vault0 := r.live.nodes, r.vault.nodes;
    unresolved := false;
    KeptSame(r.sha, r.grants, start, vault0);
    ProgressStart(r.managed, r.baseline, r.sha, start);
    s := RestoreDirectories(r, captured, start, vault0);
    if !s.Done? { return; }
    ghost var done := Paths(PresentDirectories(r.managed, r.baseline));
    s := RestoreFiles(r, captured, start, vault0, done);
    if !s.Done? { return; }
    done := done + Paths(RegularFiles(r.managed));
    s := RemoveDirectories(r, captured, start, vault0, done);
    if !s.Done? { return; }
    done := done + Paths(AbsentDirectories(r.managed, r.baseline));
    AllListed(r.managed, r.baseline);
    ProgressEnd(r.managed, captured, r.baseline, r.sha, start, r.live.nodes, done);
    s, unresolved := Verify(r);
  }
}
