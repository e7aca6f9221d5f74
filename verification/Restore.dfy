/**
 Restoring a receipt: managed paths are brought back to their captured descriptors in three passes, with
 everything the installer was not authorised to write kept in quarantine.
 */
module Restore {
  import opened Common
  import opened FileSystem
  import opened Quarantine
  import opened CrossDevice
  import opened Receipt

  datatype Status =
    | Done
    | PathUnsafe  // an ancestor that is not a directory, or a file that cannot be read safely
    | OverBudget  // a cross-device move refused by its budgets
    | Fault       // a primitive operation failed

  datatype Eviction = Eviction(path: Path, authorised: bool, durable: RollbackOutcome)

  predicate Matches(sha: Bytes -> Digest, n: Node, grant: Option<Grant>) {
    && grant.Some?
    && n.File?
    && grant.value == Grant(n.meta, |n.data|, sha(n.data))
  }

  function GrantFor(grants: map<Path, Grant>, p: Path): Option<Grant> {
    if p in grants then Some(grants[p]) else None
  }

  /** A file is the installer's own exactly when owner, mode, size and digest are those of its ledger entry. */
  lemma MatchesExactly(sha: Bytes -> Digest, n: Node, grants: map<Path, Grant>, p: Path)
    ensures Matches(sha, n, GrantFor(grants, p)) <==>
      && p in grants && n.File?
      && n.meta == grants[p].meta && |n.data| == grants[p].size && sha(n.data) == grants[p].digest
  {
  }

  /** A restored path: absent if it was, else of the recorded kind, owner and mode and, a file, size and digest. */
  lemma RestoredExactly(sha: Bytes -> Digest, baseline: FS, now: FS, p: Path)
    requires p in baseline ==> baseline[p].File? || baseline[p].Directory?
    ensures Restored(sha, baseline, now, p) <==>
      && (p in baseline <==> p in now)
      && (p in baseline && baseline[p].Directory? ==> now[p].Directory? && now[p].meta == baseline[p].meta)
      && (p in baseline && baseline[p].File? ==>
            && now[p].File? && now[p].meta == baseline[p].meta && |now[p].data| == |baseline[p].data|
            && sha(now[p].data) == sha(baseline[p].data))
  {
  }

  /** What the script makes on its way is private to root. */
  lemma PrivateModes(data: Bytes)
    ensures PRIVATE_DIRECTORY == Directory(Meta(7 * 64, 0, 0)) && PrivateFile(data) == File(Meta(6 * 64, 0, 0), data, 1)
  {
  }

  /** Somewhere in the vault lies node n of a tree that was evicted from at or above q. */
  ghost predicate InVault(vault: FS, q: Path, n: Node) {
    exists name: string, p: Path :: Within(q, p) && At(vault, [name], q[|p|..]) == Some(n)
  }

  /** Nothing but directories and granted files is lost between two states. */
  ghost predicate Kept(sha: Bytes -> Digest, grants: map<Path, Grant>, live0: FS, vault0: FS, live: FS, vault: FS) {
    && Extends(vault0, vault)
    && forall q :: q in live0 && !live0[q].Directory? ==>
         || (q in live && live[q] == live0[q])
         || InVault(vault, q, live0[q])
         || Matches(sha, live0[q], GrantFor(grants, q))
  }

  lemma InVaultExtends(vault: FS, more: FS, q: Path, n: Node)
    requires InVault(vault, q, n) && Extends(vault, more)
    ensures InVault(more, q, n)
  {
    var name, p :| Within(q, p) && At(vault, [name], q[|p|..]) == Some(n);
    assert Within(q, p) && At(more, [name], q[|p|..]) == Some(n);
  }

  lemma KeptTrans(sha: Bytes -> Digest, grants: map<Path, Grant>, a: FS, va: FS, b: FS, vb: FS, c: FS, vc: FS)
    requires Kept(sha, grants, a, va, b, vb) && Kept(sha, grants, b, vb, c, vc)
    ensures Kept(sha, grants, a, va, c, vc)
  {
    forall q | q in a && !a[q].Directory? && InVault(vb, q, a[q])
      ensures InVault(vc, q, a[q])
    {
      InVaultExtends(vb, vc, q, a[q]);
    }
  }

  /** A whole tree now lying in the vault keeps all its nodes. */
  lemma KeptMoved(sha: Bytes -> Digest, grants: map<Path, Grant>, live0: FS, vault0: FS, live: FS, vault: FS,
                  p: Path, name: string)
    requires p != [] && OutsideKept(live0, live, p) && Extends(vault0, vault)
    requires SameTree(vault, [name], live0, p)
    ensures Kept(sha, grants, live0, vault0, live, vault)
  {
    forall q | q in live0 && Within(q, p)
      ensures InVault(vault, q, live0[q])
    {
      WithinSuffix(q, p);
      assert At(vault, [name], q[|p|..]) == At(live0, p, q[|p|..]);
    }
  }

  lemma KeptCut(sha: Bytes -> Digest, grants: map<Path, Grant>, live0: FS, vault: FS, p: Path)
    requires Tree(live0) && p in live0 && Matches(sha, live0[p], GrantFor(grants, p))
    ensures Kept(sha, grants, live0, vault, Cut(live0, p), vault)
  {
    LeafAlone(live0, p);
  }

  lemma CutOutside(live: FS, p: Path)
    requires p != []
    ensures OutsideKept(live, Cut(live, p), p)
  {
  }

  /** Taking a granted file out of the vault again leaves the vault as it was before the move. */
  lemma VaultBack(vault0: FS, vault: FS, name: string, live0: FS, p: Path)
    requires Tree(vault) && Gone(vault0, [name]) && Grown(vault0, vault, [name])
    requires Tree(live0) && p in live0 && !live0[p].Directory? && SameTree(vault, [name], live0, p)
    ensures [name] in vault && vault[[name]] == live0[p]
    ensures vault - {[name]} == vault0
    ensures Tree(vault - {[name]})
  {
    CopyThere(vault, [name], live0, p);
    LeafAlone(vault, [name]);
    assert Cut(vault, [name]) == vault - {[name]};
    CutIsPruned(vault, [name]);
    PrunedBack(vault0, vault, vault - {[name]}, [name]);
  }

  class Restorer {
    const live: Volume
    const vault: Volume
    const sha: Bytes -> Digest
    const managed: seq<Managed>
    const baseline: FS
    const grants: map<Path, Grant>
    const crosses: Path -> bool // whether a path lies on another device than the receipt

    var outcome: RollbackOutcome // rollback_outcome in memory
    var durable: RollbackOutcome // rollback_outcome in forward-state.json
    var drift: bool              // quarantined_drift
    const started: RollbackOutcome // rollback_outcome on disk when the passes began
    ghost var evictions: seq<Eviction>

    /** What even an aborted restore guarantees about its record. */
    ghost predicate Honest()
      reads this
    {
      && Announced(evictions)
      && (durable == started || durable.Quarantined?)
    }

    ghost predicate Ready()
      reads this, live, vault
    {
      && live != vault && live.io == vault.io
      && Tree(live.nodes) && Tree(vault.nodes)
      && (outcome.Quarantined? ==> durable.Quarantined?)
      && Honest()
      && (drift <==> Unauthorised(evictions))
      && (drift ==> durable.Quarantined?)
    }

    /** Between entries the outcome on disk says quarantined only for a reason. */
    ghost predicate Settled()
      reads this
    {
      durable.Quarantined? ==> drift || started.Quarantined?
    }

    constructor (live: Volume, vault: Volume, sha: Bytes -> Digest, managed: seq<Managed>, baseline: FS,
                 grants: map<Path, Grant>, crosses: Path -> bool, outcome: RollbackOutcome)
      requires live != vault && live.io == vault.io && Tree(live.nodes) && Tree(vault.nodes)
      ensures Ready() && Settled() && evictions == [] && !drift && this.outcome == durable == started == outcome
      ensures this.live == live && this.vault == vault && this.managed == managed && this.baseline == baseline
      ensures this.grants == grants && this.sha == sha && this.crosses == crosses
    {
      this.live, this.vault, this.sha, this.managed, this.baseline := live, vault, sha, managed, baseline;
      this.grants, this.crosses, this.outcome, durable, started := grants, crosses, outcome, outcome, outcome;
      drift, evictions := false, [];
    }

    /** Makes the quarantined outcome durable before any unauthorised content moves. */
    method MarkQuarantined() returns (s: Status)
      requires Ready()
      modifies this`outcome, this`durable, live.io
      ensures s.Done? ==> Ready() && durable.Quarantined? && live.io.faults == old(live.io.faults)
      ensures !s.Done? ==> s.Fault? && live.io.faults > old(live.io.faults)
      ensures durable == old(durable) || durable.Quarantined?
    {
      if outcome.Quarantined? { return Done; }
      outcome := Quarantined;
      var ok := live.io.Attempt();
      if !ok { return Fault; }
      durable := Quarantined;
      s := Done;
    }

    /** Moves the tree at p into the vault under a fresh name, by rename or across devices. */
    method MoveToVault(p: Path) returns (s: Status, name: string)
      requires live != vault && live.io == vault.io && Tree(live.nodes) && Tree(vault.nodes)
      requires p in live.nodes && p != []
      modifies live`nodes, vault`nodes, live.io
      ensures Tree(live.nodes) && Tree(vault.nodes)
      ensures Kept(sha, grants, old(live.nodes), old(vault.nodes), live.nodes, vault.nodes)
      ensures s.Done? ==> live.nodes == Cut(old(live.nodes), p) && live.io.faults == old(live.io.faults)
      ensures s.Done? ==> Gone(old(vault.nodes), [name]) && Grown(old(vault.nodes), vault.nodes, [name])
      ensures s.Done? ==> SameTree(vault.nodes, [name], old(live.nodes), p)
      ensures s.Fault? <==> live.io.faults > old(live.io.faults)
      ensures s.OverBudget? ==> crosses(p) && !Fits(old(live.nodes), p, 0, 0, 0)
      ensures !s.PathUnsafe? && live.io.faults >= old(live.io.faults)
    {
      hide Fits, Gone, Tree, SameTree, ParentsPresent, Grown, Extends, Kept, OutsideKept;
      var faults := live.io.faults;
      ghost var live0, vault0 := live.nodes, vault.nodes;
      KeptSame(sha, grants, live0, vault0);
      var ok := live.io.Attempt();
      if ok { ok, name := FreshName(vault, []); }
      if !ok { return Fault, ""; }
      TopLevel(vault0, name);
      if crosses(p) {
        ok := MoveAcross(live, p, vault, name);
        if !ok {
          if live.nodes == live0 {
            KeptVault(sha, grants, live0, vault0, vault.nodes);
          } else {
            KeptMoved(sha, grants, live0, vault0, live.nodes, vault.nodes, p, name);
          }
          return if live.io.faults > faults then Fault else OverBudget, name;
        }
      } else {
        ok := live.io.Attempt();
        if !ok { return Fault, name; }
        PlacedTree(live0, p, vault0, [name]);
        CutIsPruned(live0, p);
        CutOutside(live0, p);
        vault.nodes := vault.nodes + Placed(live.nodes, p, [name]);
        live.nodes := Cut(live.nodes, p);
        GrownExtends(vault0, vault.nodes, [name]);
      }
      KeptMoved(sha, grants, live0, vault0, live.nodes, vault.nodes, p, name);
      ok := live.io.Attempt();
      s := if ok then Done else Fault;
    }

    /** The bookkeeping of an eviction; the content stays in the vault unless it is exactly what was granted. */
    method Evict(p: Path, grant: Option<Grant>) returns (s: Status)
      requires Ready() && p in live.nodes && p != []
      requires grant.None? || grant == GrantFor(grants, p)
      requires Matches(sha, live.nodes[p], grant) || durable.Quarantined?
      modifies this`drift, this`evictions, live`nodes, vault`nodes, live.io
      ensures live != vault && live.io == vault.io && Tree(live.nodes) && Tree(vault.nodes) && Honest()
      ensures s.Done? ==> Ready() && (drift <==> old(drift) || !Matches(sha, old(live.nodes[p]), grant))
      ensures Kept(sha, grants, old(live.nodes), old(vault.nodes), live.nodes, vault.nodes)
      ensures s.Done? ==> live.nodes == Cut(old(live.nodes), p) && live.io.faults == old(live.io.faults)
      ensures s.Done? && Matches(sha, old(live.nodes[p]), grant) ==> vault.nodes == old(vault.nodes)
      ensures s.Fault? <==> live.io.faults > old(live.io.faults)
      ensures s.OverBudget? ==> crosses(p) && !Fits(old(live.nodes), p, 0, 0, 0)
      ensures !s.PathUnsafe? && live.io.faults >= old(live.io.faults)
    {
      hide Gone, Tree, SameTree, ParentsPresent, Grown, Extends, Kept;
      ghost var live0, vault0 := live.nodes, vault.nodes;
      evictions := evictions + [Eviction(p, Matches(sha, live.nodes[p], grant), durable)];
      var name: string;
      s, name := MoveToVault(p);
      if !s.Done? { return; }
      CopyThere(vault.nodes, [name], live0, p);
      if !Matches(sha, vault.nodes[[name]], grant) {
        drift := true;
        return;
      }
      VaultBack(vault0, vault.nodes, name, live0, p);
      var ok := live.io.Attempt();
      if !ok { return Fault; }
      vault.nodes := vault.nodes - {[name]};
      KeptCut(sha, grants, live0, vault0, p);
      ok := live.io.Attempt();
      s := if ok then Done else Fault;
    }
  
    /** Opens the parent of p without following links; with create, missing ancestors become directories. */
    method OpenParent(p: Path, create: bool) returns (s: Status, found: bool)
      requires Tree(live.nodes) && p != []
      modifies live`nodes, live.io
      ensures Tree(live.nodes)
      ensures forall q :: q in old(live.nodes) ==> q in live.nodes && live.nodes[q] == old(live.nodes[q])
      ensures forall q :: q in live.nodes && q !in old(live.nodes) ==>
        create && Above(q, p) && live.nodes[q] == PRIVATE_DIRECTORY
      ensures s.Done? ==> ParentsClear(old(live.nodes), p) && (found <==> ParentsPresent(live.nodes, p))
      ensures s.Done? && create ==> found
      ensures s.PathUnsafe? ==> !ParentsClear(old(live.nodes), p)
      ensures s.Fault? <==> live.io.faults > old(live.io.faults)
      ensures !s.OverBudget? && live.io.faults >= old(live.io.faults)
    {
      var k := 1;
      while k < |p|
        invariant 1 <= k <= |p| && Tree(live.nodes)
        invariant forall q :: q in old(live.nodes) ==> q in live.nodes && live.nodes[q] == old(live.nodes[q])
        invariant forall q :: q in live.nodes && q !in old(live.nodes) ==>
          create && Above(q, p) && live.nodes[q] == PRIVATE_DIRECTORY
        invariant forall q :: Above(q, p) && |q| < k ==> q in live.nodes && live.nodes[q].Directory?
        invariant forall q :: Above(q, p) && |q| >= k && q in live.nodes ==> q in old(live.nodes)
        invariant live.io.faults == old(live.io.faults)
      {
        var q := p[..k];
        assert Above(q, p) && forall a :: Above(a, p) && |a| == k ==> a == q;
        var ok := live.io.Attempt();
        if !ok { return Fault, false; }
        if q !in live.nodes {
          MissingBelow(live.nodes, p, k);
          if !create {
            return Done, false;
          }
          ok := live.io.Attempt();
          if !ok { return Fault, false; }
          assert forall a :: Above(a, q) ==> Above(a, p) by { AboveChain(q, p); }
          PutTree(live.nodes, q, PRIVATE_DIRECTORY);
          live.nodes := live.nodes[q := PRIVATE_DIRECTORY];
        } else if !live.nodes[q].Directory? {
          return PathUnsafe, false;
        }
        k := k + 1;
      }
      return Done, true;
    }
  
    /** What lies at p is on another device and does not fit the copy budgets. */
    ghost predicate TooBigToMove(nodes: FS, p: Path) {
      crosses(p) && p in nodes && !Fits(nodes, p, 0, 0, 0)
    }

    /** What every pass promises for one entry, whether it completes or aborts. */
    ghost predicate StepContract(s: Status, live0: FS, vault0: FS, p: Path, faults0: nat)
      reads this, live, vault, live.io
    {
      && live != vault && live.io == vault.io && Tree(live.nodes) && Tree(vault.nodes) && Honest()
      && Kept(sha, grants, live0, vault0, live.nodes, vault.nodes)
      && live.io.faults >= faults0 && (s.Fault? <==> live.io.faults > faults0)
      && (s.OverBudget? ==> TooBigToMove(live0, p) && !Restored(sha, baseline, live0, p))
      && (s.PathUnsafe? ==> EntryUnsafe(live0, p))
      && (s.Done? ==> EntryDone(sha, baseline, live0, live.nodes, p) && Ready() && Settled())
    }

    /** Makes the directory if it is missing, then sets its owner and mode through an open descriptor. */
    method PutDirectory(p: Path, ghost live0: FS, ghost vault0: FS) returns (s: Status)
      requires Ready() && Settled() && p != [] && p in baseline && baseline[p].Directory?
      requires ParentsPresent(live.nodes, p) && ParentsClear(live0, p) && (p in live0 ==> Readable(live0[p]))
      requires p in live.nodes ==> live.nodes[p].Directory?
      requires Kept(sha, grants, live0, vault0, live.nodes, vault.nodes)
      requires forall q :: q in live0 && q != p ==> q in live.nodes && live.nodes[q] == live0[q]
      requires p in live.nodes ==> p in live0 && live0[p].Directory?
      requires forall q :: q in live.nodes && q !in live0 ==> Above(q, p) && live.nodes[q] == PRIVATE_DIRECTORY
      requires forall q :: q in live.nodes && q != p && q in live0 ==> live.nodes[q] == live0[q]
      modifies live`nodes, live.io
      ensures StepContract(s, live0, vault0, p, old(live.io.faults))
    {
      hide Kept, Announced, Unauthorised, EntryDone, EntryUnsafe;
      if p !in live.nodes {
        var ok := live.io.Attempt();
        if !ok { return Fault; }
        var made := Directory(Meta(baseline[p].meta.mode, 0, 0));
        PutTree(live.nodes, p, made);
        KeptPut(sha, grants, live0, vault0, live.nodes, vault.nodes, p, made);
        live.nodes := live.nodes[p := made];
      }
      var ok := live.io.Attempt();
      if !ok { return Fault; }
      PutTree(live.nodes, p, baseline[p]);
      KeptPut(sha, grants, live0, vault0, live.nodes, vault.nodes, p, baseline[p]);
      DirectoryStepped(sha, baseline, live0, live.nodes[p := baseline[p]], p);
      live.nodes := live.nodes[p := baseline[p]];
      ok := live.io.Attempt();
      s := if ok then Done else Fault;
    }

    /** First pass, one recorded directory: a real directory with the recorded owner and mode. */
    method RestoreDirectory(p: Path) returns (s: Status)
      requires Ready() && Settled() && p != [] && p in baseline && baseline[p].Directory?
      modifies this, live`nodes, vault`nodes, live.io
      ensures StepContract(s, old(live.nodes), old(vault.nodes), p, old(live.io.faults))
    {
      hide Kept, Fits, Announced, Unauthorised, Restored;
      ghost var live0, vault0 := live.nodes, vault.nodes;
      var found: bool;
      s, found := OpenParent(p, true);
      KeptGrown(sha, grants, live0, live.nodes, vault0);
      if !s.Done? { return; }
      ghost var live1 := live.nodes;
      ParentPresentFirst(live0, live1, p);
      if p in live.nodes {
        if !Readable(live.nodes[p]) { return PathUnsafe; }
        if !live.nodes[p].Directory? {
          LeafAlone(live1, p);
          OtherKind(sha, baseline, live0, p);
          TooBigFirst(live0, live1, p);
          s := MarkQuarantined();
          if !s.Done? { return; }
          s := Evict(p, None);
          KeptTrans(sha, grants, live0, vault0, live1, vault0, live.nodes, vault.nodes);
          if !s.Done? { return; }
        }
      }
      s := PutDirectory(p, live0, vault0);
    }

    /** Evicts what lies at p, announcing it first unless it is exactly what was granted. */
    method EvictUnlessKept(p: Path, grant: Option<Grant>) returns (s: Status)
      requires Ready() && Settled() && p in live.nodes && p != []
      requires grant.None? || grant == GrantFor(grants, p)
      modifies this, live`nodes, vault`nodes, live.io
      ensures live != vault && live.io == vault.io && Tree(live.nodes) && Tree(vault.nodes) && Honest()
      ensures Kept(sha, grants, old(live.nodes), old(vault.nodes), live.nodes, vault.nodes)
      ensures s.Done? ==> Ready() && Settled() && live.nodes == Cut(old(live.nodes), p)
      ensures s.Fault? <==> live.io.faults > old(live.io.faults)
      ensures s.OverBudget? ==> crosses(p) && !Fits(old(live.nodes), p, 0, 0, 0)
      ensures !s.PathUnsafe? && live.io.faults >= old(live.io.faults)
    {
      hide Kept;
      KeptSame(sha, grants, live.nodes, vault.nodes);
      if !Matches(sha, live.nodes[p], grant) {
        s := MarkQuarantined();
        if !s.Done? { return; }
      }
      s := Evict(p, grant);
    }

    /** Second pass, one managed file: the captured file again, or nothing if it was absent at capture. */
    method RestoreFile(p: Path) returns (s: Status)
      requires Ready() && Settled() && p != []
      requires p in baseline ==> baseline[p].File? && Readable(baseline[p])
      modifies this, live`nodes, vault`nodes, live.io
      ensures StepContract(s, old(live.nodes), old(vault.nodes), p, old(live.io.faults))
    {
      hide Kept, Unauthorised, Announced, Tree, Fits;
      ghost var live0, vault0 := live.nodes, vault.nodes;
      var found: bool;
      s, found := OpenParent(p, p in baseline);
      KeptGrown(sha, grants, live0, live.nodes, vault0);
      if !s.Done? { return; }
      ghost var live1 := live.nodes;
      ParentPresentFirst(live0, live1, p);
      if p in live.nodes {
        if !Readable(live.nodes[p]) { return PathUnsafe; }
        if p in baseline && Describe(sha, live.nodes, p) == Describe(sha, baseline, p) { return Done; }
        TooBigFirst(live0, live1, p);
        s := EvictUnlessKept(p, GrantFor(grants, p));
        KeptTrans(sha, grants, live0, vault0, live1, vault0, live.nodes, vault.nodes);
        if !s.Done? { return; }
        assert p !in Cut(live1, p);
      }
      EvictedStep(live0, live1, live.nodes, p);
      if p in baseline {
        s := PutFile(p, live0, vault0);
      }
    }

    /** Writes the payload to a temporary file and renames it into place. */
    method PutFile(p: Path, ghost live0: FS, ghost vault0: FS) returns (s: Status)
      requires Ready() && Settled() && p != [] && p in baseline && baseline[p].File? && Readable(baseline[p])
      requires p !in live.nodes && ParentsPresent(live.nodes, p)
      requires ParentsClear(live0, p) && (p in live0 ==> Readable(live0[p]))
      requires Kept(sha, grants, live0, vault0, live.nodes, vault.nodes)
      requires Stepped(baseline, live0, live.nodes, p)
      modifies live`nodes, live.io
      ensures StepContract(s, live0, vault0, p, old(live.io.faults))
    {
      var ok := live.io.Attempt();
      if !ok { return Fault; }
      PutTree(live.nodes, p, baseline[p]);
      live.nodes := live.nodes[p := baseline[p]];
      ok := live.io.Attempt();
      s := if ok then Done else Fault;
    }

    /** Third pass, one directory absent at capture: removed if empty, otherwise evicted whole. */
    method RemoveDirectory(p: Path) returns (s: Status)
      requires Ready() && Settled() && p != [] && p !in baseline
      modifies this, live`nodes, vault`nodes, live.io
      ensures StepContract(s, old(live.nodes), old(vault.nodes), p, old(live.io.faults))
    {
      hide Kept, Unauthorised, Announced, Tree, Fits;
      ghost var live0, vault0 := live.nodes, vault.nodes;
      var found: bool;
      s, found := OpenParent(p, false);
      KeptGrown(sha, grants, live0, live.nodes, vault0);
      if !s.Done? { return; }
      assert live.nodes == live0;
      if p !in live.nodes { return; }
      if !Readable(live.nodes[p]) { return PathUnsafe; }
      if live.nodes[p].Directory? && Names(live.nodes, p) == {} {
        var ok := live.io.Attempt();
        if !ok { return Fault; }
        EmptyDirectory(sha, grants, live0, vault0, p);
        live.nodes := live.nodes - {p};
        ok := live.io.Attempt();
        return if ok then Done else Fault;
      }
      s := EvictUnlessKept(p, None);
      assert p !in Cut(live0, p);
    }
  }

  lemma OtherKind(sha: Bytes -> Digest, baseline: FS, live: FS, p: Path)
    requires p in baseline && baseline[p].Directory? && (p in live ==> !live[p].Directory?)
    ensures !Restored(sha, baseline, live, p)
  {
  }

  /** New ancestors do not change what lies at p. */
  lemma TooBigFirst(live0: FS, live1: FS, p: Path)
    requires p in live0 && p in live1
    requires forall q :: q in live0 ==> q in live1 && live1[q] == live0[q]
    requires forall q :: q in live1 && q !in live0 ==> Above(q, p)
    ensures Fits(live0, p, 0, 0, 0) ==> Fits(live1, p, 0, 0, 0)
  {
    hide Fits;
    if Fits(live0, p, 0, 0, 0) { PartFits(live1, live0, p); }
  }

  lemma KeptPut(sha: Bytes -> Digest, grants: map<Path, Grant>, live0: FS, vault0: FS, live: FS, vault: FS, p: Path,
                n: Node)
    requires Kept(sha, grants, live0, vault0, live, vault) && (p in live ==> live[p].Directory?)
    ensures Kept(sha, grants, live0, vault0, live[p := n], vault)
  {
    hide InVault, Matches, Extends;
  }

  lemma DirectoryStepped(sha: Bytes -> Digest, baseline: FS, live0: FS, now: FS, p: Path)
    requires p in baseline && baseline[p].Directory? && p in now && now[p] == baseline[p]
    requires ParentsClear(live0, p) && (p in live0 ==> Readable(live0[p]))
    requires forall q :: q in live0 && q != p ==> q in now && now[q] == live0[q]
    requires forall q :: q in now && q != p && q !in live0 ==> Above(q, p) && now[q] == PRIVATE_DIRECTORY
    ensures EntryDone(sha, baseline, live0, now, p)
  {
    hide ParentsClear;
  }

  lemma EvictedStep(live0: FS, live1: FS, now: FS, p: Path)
    requires Tree(live1)
    requires now == Cut(live1, p) || (now == live1 && p !in live1)
    ensures ParentsPresent(live1, p) ==> ParentsPresent(now, p)
    ensures forall q :: q in now && Within(q, p) ==> q in live1 && p !in now
    ensures p !in now
  {
    forall a | Above(a, p)
      ensures !Within(a, p)
    {
    }
  }

  lemma EmptyDirectory(sha: Bytes -> Digest, grants: map<Path, Grant>, live: FS, vault: FS, p: Path)
    requires Tree(live) && p in live && live[p].Directory? && Names(live, p) == {}
    ensures live - {p} == Cut(live, p) && Tree(live - {p})
    ensures Kept(sha, grants, live, vault, live - {p}, vault)
  {
    forall q | q in live && Within(q, p)
      ensures q == p
    {
      if |q| > |p| { NameOf(live, p, q); }
    }
    CutTree(live, p);
  }

  /** What one restored entry may change: the tree at p, plus private ancestors of a recorded p. */
  ghost predicate Stepped(baseline: FS, before: FS, after: FS, p: Path) {
    && (forall q :: q in before && !Within(q, p) ==> q in after && after[q] == before[q])
    && (forall q :: q in after && q != p ==>
          (q in before && after[q] == before[q]) || (p in baseline && Above(q, p) && after[q] == PRIVATE_DIRECTORY))
    && (p in baseline && baseline[p].Directory? ==>
          forall q :: q in before && q != p ==> q in after && after[q] == before[q])
  }

  /** The entry at p has its captured descriptor, or is absent as it was at capture. */
  ghost predicate Restored(sha: Bytes -> Digest, baseline: FS, now: FS, p: Path) {
    Describe(sha, now, p) == Describe(sha, baseline, p)
  }

  ghost predicate EntryDone(sha: Bytes -> Digest, baseline: FS, before: FS, after: FS, p: Path) {
    && Stepped(baseline, before, after, p)
    && ParentsClear(before, p)
    && (p in before ==> Readable(before[p]))
    && Restored(sha, baseline, after, p)
    && (p in after && after[p].File? ==> Readable(after[p]))
  }

  ghost predicate EntryUnsafe(before: FS, p: Path) {
    !ParentsClear(before, p) || (p in before && !Readable(before[p]))
  }

  lemma AboveChain(q: Path, p: Path)
    requires Above(q, p)
    ensures forall a :: Above(a, q) ==> Above(a, p)
  {
    forall a | Above(a, q)
      ensures Above(a, p)
    {
      assert p[..|a|] == p[..|q|][..|a|];
    }
  }

  lemma KeptGrown(sha: Bytes -> Digest, grants: map<Path, Grant>, live0: FS, live: FS, vault: FS)
    requires forall q :: q in live0 ==> q in live && live[q] == live0[q]
    ensures Kept(sha, grants, live0, vault, live, vault)
  {
  }

  lemma ParentPresentFirst(live0: FS, live1: FS, p: Path)
    requires Tree(live0)
    requires forall q :: q in live1 && q !in live0 ==> Above(q, p)
    ensures p in live1 ==> p in live0
  {
  }

  lemma KeptSame(sha: Bytes -> Digest, grants: map<Path, Grant>, live: FS, vault: FS)
    ensures Kept(sha, grants, live, vault, live, vault)
  {
  }

  lemma KeptVault(sha: Bytes -> Digest, grants: map<Path, Grant>, live: FS, vault0: FS, vault: FS)
    requires Extends(vault0, vault)
    ensures Kept(sha, grants, live, vault0, live, vault)
  {
  }

  ghost predicate Unauthorised(evictions: seq<Eviction>) {
    exists e :: e in evictions && !e.authorised
  }

  /** Every unauthorised eviction happened with the quarantined outcome already on disk. */
  ghost predicate Announced(evictions: seq<Eviction>) {
    forall e :: e in evictions && !e.authorised ==> e.durable.Quarantined?
  }
}
