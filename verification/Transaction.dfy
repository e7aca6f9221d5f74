/** The rollback script's operations as they run: the ledger and the host are updated in place. */
module Transaction {
  import opened Common
  import opened FileSystem
  import opened Receipt
  import opened Ledger
  import opened LedgerRuns
  import opened Quarantine
  import opened CrossDevice
  import opened Restore
  import opened Passes

  datatype Verdict =
    | Reconciled
    | DriftQuarantined   // unauthorised content is in quarantine
    | Incomplete         // drift that must be resolved first, or data volumes that were kept
    | InspectionFailed   // podman could not say what is there; nothing was touched
    | Aborted            // a failing primitive, an unsafe path or an over-budget copy

  class Rollback {
    const policy: Policy
    const io: Io
    var forward: Forward
    var host: Host

    constructor (policy: Policy, io: Io, forward: Forward, host: Host)
      ensures this.policy == policy && this.io == io && this.forward == forward && this.host == host
    {
      this.policy, this.io, this.forward, this.host := policy, io, forward, host;
    }

    method AuthorizeObject(key: Key, identity: string) returns (ok: bool)
      requires Consistent(policy)
      modifies this`forward
      ensures forward == Or(old(forward), Ledger.AuthorizeObject(policy, host, old(forward), key, identity))
      ensures ok <==> Ledger.AuthorizeObject(policy, host, old(forward), key, identity).Success?
      ensures ok <==>
        && key in policy.names && key.kind in {Container, Network, Secret}
        && (if key.kind == Container then policy.isReference(identity) else identity == key.name)
        && old(forward.transaction) == Open && old(forward.outcome) == Clean
        && key in host.objects && host.objects[key] == policy.baseline[key] && Nameable(policy, key, host.objects[key])
        && (key in old(forward.objects) ==> old(forward.objects)[key] == Intent(identity))
      ensures ok ==> forward == old(forward).(objects := old(forward.objects)[key := Intent(identity)])
      ensures !ok ==> forward == old(forward)
      ensures EntryAdvances(old(forward), forward)
    {
      if key !in policy.names || key.kind.Volume? || !WellFormedIdentity(policy, key, identity) { return false; }
      if !OpenTransaction(forward) { return false; }
      if key !in host.objects || !ValidObject(policy, key, host.objects[key]) { return false; }
      if host.objects[key] != policy.baseline[key] { return false; }
      var intent := Intent(identity);
      if key in forward.objects { return forward.objects[key] == intent; }
      forward := forward.(objects := forward.objects[key := intent]);
      ok := true;
    }

    method FinalizeObject(key: Key, identity: string) returns (ok: bool)
      requires Consistent(policy)
      modifies this`forward
      ensures forward == Or(old(forward), Ledger.FinalizeObject(policy, host, old(forward), key, identity))
      ensures ok <==> Ledger.FinalizeObject(policy, host, old(forward), key, identity).Success?
      ensures ok <==>
        && key in policy.names && key.kind in {Container, Network, Secret}
        && (if key.kind == Container then policy.isReference(identity) else identity == key.name)
        && old(forward.transaction) == Open && old(forward.outcome) == Clean
        && key in host.objects && host.objects[key].Present? && host.objects[key].identity == identity
        && 1 <= |host.objects[key].id| <= 512
        && key in old(forward.objects)
        && old(forward.objects)[key] in [Intent(identity), Finalized(host.objects[key].id, identity)]
      ensures ok ==>
        forward == old(forward).(objects := old(forward.objects)[key := Finalized(host.objects[key].id, identity)])
      ensures !ok ==> forward == old(forward)
      ensures EntryAdvances(old(forward), forward)
    {
      if key !in policy.names || key.kind.Volume? || !WellFormedIdentity(policy, key, identity) { return false; }
      if !OpenTransaction(forward) { return false; }
      if key !in forward.objects || forward.objects[key].identity != identity { return false; }
      if key !in host.objects || !ValidObject(policy, key, host.objects[key]) { return false; }
      var current := host.objects[key];
      if current.Missing? || current.identity != identity { return false; }
      if forward.objects[key].Finalized? { return forward.objects[key].id == current.id; }
      forward := forward.(objects := forward.objects[key := Finalized(current.id, identity)]);
      ok := true;
    }

    method AuthorizeFile(path: Path, descriptor: Grant) returns (ok: bool)
      modifies this`forward
      ensures forward == Or(old(forward), Ledger.AuthorizeFile(policy, old(forward), path, descriptor))
      ensures ok <==> Ledger.AuthorizeFile(policy, old(forward), path, descriptor).Success?
      ensures ok <==> path in policy.files && old(forward.transaction) == Open && old(forward.outcome) == Clean
      ensures ok ==> forward == old(forward).(files := old(forward.files)[path := descriptor])
    {
      if path !in policy.files || !OpenTransaction(forward) { return false; }
      forward := forward.(files := forward.files[path := descriptor]);
      ok := true;
    }

    method AuthorizeImages(references: map<ImageRole, string>) returns (ok: bool)
      modifies this`forward
      ensures forward == Or(old(forward), Ledger.AuthorizeImages(policy, host, old(forward), references))
      ensures ok <==> Ledger.AuthorizeImages(policy, host, old(forward), references).Success?
      ensures ok <==>
        && (forall role: ImageRole :: role in references && policy.isReference(references[role]))
        && old(forward.transaction) == Open && old(forward.outcome) == Clean
        && (old(forward.images) == map[] ==> forall role: ImageRole ::
              references[role] in host.images &&
              (host.images[references[role]].Present? ==> host.images[references[role]].identity == references[role]))
        && (old(forward.images) != map[] ==> forall role: ImageRole ::
              role in old(forward.images) && old(forward.images)[role].reference == references[role])
      ensures ok && old(forward.images) == map[] ==> forall role: ImageRole ::
        role in forward.images && forward.images[role] == ImageEntry(references[role], host.images[references[role]])
      ensures !ok || old(forward.images) != map[] ==> forward == old(forward)
      ensures forward == old(forward).(images := forward.images)
    {
      AllRoles();
      if exists role :: role in ROLES && !(role in references && policy.isReference(references[role])) { return false; }
      if !OpenTransaction(forward) { return false; }
      if forward.images != map[] {
        return forall role :: role in ROLES ==>
          role in forward.images && forward.images[role].reference == references[role];
      }
      var ledger: map<ImageRole, ImageEntry> := map[];
      var i := 0;
      while i < |ROLES|
        invariant 0 <= i <= |ROLES|
        invariant forall role :: role in ledger <==> role in ROLES[..i]
        invariant forall role :: role in ledger ==>
          references[role] in host.images && ValidImage(references[role], host.images[references[role]]) &&
          ledger[role] == ImageEntry(references[role], host.images[references[role]])
      {
        var role := ROLES[i];
        assert ROLES[..i + 1] == ROLES[..i] + [role];
        var reference := references[role];
        if reference !in host.images || !ValidImage(reference, host.images[reference]) { return false; }
        ledger := ledger[role := ImageEntry(reference, host.images[reference])];
        i := i + 1;
      }
      assert ROLES[..i] == ROLES;
      assert ledger == map role: ImageRole | role in references ::
        ImageEntry(references[role], host.images[references[role]]);
      forward := forward.(images := ledger);
      ok := true;
    }

    method MarkCompleted() returns (ok: bool)
      modifies this`forward
      ensures forward == Or(old(forward), Ledger.MarkCompleted(policy, old(forward)))
      ensures ok <==> Ledger.MarkCompleted(policy, old(forward)).Success?
      ensures forward == old(forward).(transaction := if ok then Completed else old(forward.transaction))
      ensures ok <==> old(forward.transaction) == Completed ||
                      (old(forward.outcome) == Clean && AllRecorded(policy, old(forward)))
    {
      if forward.transaction.Completed? { return true; }
      if !OpenTransaction(forward) { return false; }
      AllRoles();
      if forward.files.Keys != policy.files ||
         (exists role :: role in ROLES && role !in forward.images) ||
         forward.objects.Keys != (set k | k in policy.names && !k.kind.Volume?) ||
         (exists k :: k in forward.objects && !forward.objects[k].Finalized?)
      {
        return false;
      }
      forward := forward.(transaction := Completed);
      ok := true;
    }

    method AcknowledgeQuarantine() returns (ok: bool)
      modifies this`forward
      ensures forward == Or(old(forward), Ledger.AcknowledgeQuarantine(old(forward)))
      ensures ok <==> Ledger.AcknowledgeQuarantine(old(forward)).Success?
      ensures ok <==> old(forward.outcome) in {RollbackOutcome.Quarantined, Acknowledged}
      ensures forward == old(forward).(outcome := if ok then Acknowledged else old(forward.outcome))
    {
      match forward.outcome
      case Clean => ok := false;
      case RetainedData => ok := false;
      case Acknowledged => ok := true;
      case Quarantined =>
        forward := forward.(outcome := Acknowledged);
        ok := true;
    }

    /** What the preflight makes of one managed object. */
    method Classify(k: Key) returns (drift: bool, remove: bool, retain: bool)
      requires Consistent(policy) && k in policy.names && k in host.objects
      ensures drift <==> ObjectDrift(policy, host, forward, k)
      ensures remove <==> Removable(policy, host, forward, k)
      ensures drift <==> !Standing(policy.baseline[k], host.objects[k], k, EntryOf(forward, k))
      ensures !drift ==> (remove <==> Made(policy, host, k) && k.kind != ObjectKind.Volume)
      ensures !drift ==> (retain <==> Made(policy, host, k) && k.kind == ObjectKind.Volume)
      ensures drift ==> !remove
    {
      drift, remove, retain := false, false, false;
      var baseline := policy.baseline[k];
      if baseline.Present? {
        drift := host.objects[k] != baseline;
      } else if host.objects[k].Missing? {
      } else if k.kind.Volume? {
        var v := host.objects[k];
        if v.identity != k.name || v.id == "" || |v.id| > 512 { drift := true; } else { retain := true; }
      } else if k !in forward.objects || forward.objects[k] != Finalized(host.objects[k].id, host.objects[k].identity) {
        drift := true;
      } else {
        remove := true;
      }
    }

    /** The preflight over the fixed object list. */
    method PreflightObjects() returns (failed: bool, drift: bool, targets: seq<Target>, retained: bool)
      requires Consistent(policy)
      ensures failed <==> exists k :: k in policy.names && k !in host.objects
      ensures !failed ==> (drift <==> Drifted(policy, host, forward, policy.names))
      ensures !failed ==> targets == ObjectTargets(policy, host, forward, policy.names)
      ensures !failed && !drift ==> forall k ::
        ObjectTarget(k) in targets <==> k in policy.names && Made(policy, host, k) && k.kind != ObjectKind.Volume
      ensures !failed && !drift ==> (retained <==> AnyRetained(policy, host, policy.names))
    {
      hide ObjectDrift, Removable, Retained, Drifted, AnyRetained;
      failed, drift, targets, retained := false, false, [], false;
      NothingDrifted(policy, host, forward);
      var i := 0;
      while i < |policy.names|
        invariant 0 <= i <= |policy.names|
        invariant forall k :: k in policy.names[..i] ==> k in host.objects
        invariant drift <==> Drifted(policy, host, forward, policy.names[..i])
        invariant targets == ObjectTargets(policy, host, forward, policy.names[..i])
        invariant !drift ==> (retained <==> AnyRetained(policy, host, policy.names[..i]))
      {
        var k := policy.names[i];
        assert policy.names[..i + 1] == policy.names[..i] + [k];
        assert policy.names[..i + 1][..i] == policy.names[..i];
        if k !in host.objects { return true, drift, targets, retained; }
        DriftAppend(policy, host, forward, policy.names[..i], k);
        var drifts, remove, retain := Classify(k);
        drift, retained := drift || drifts, retained || retain;
        if remove { targets := targets + [ObjectTarget(k)]; }
        i := i + 1;
      }
      assert policy.names[..i] == policy.names;
      TargetsMade(policy, host, forward);
    }

    /** The preflight over the image roles; a reference two roles share is looked at once. */
    method PreflightImages() returns (failed: bool, drift: bool, targets: seq<Target>)
      requires OneEntryPerReference(forward)
      ensures failed <==> exists role :: role in forward.images && forward.images[role].reference !in host.images
      ensures !failed ==> (drift <==> exists role :: role in forward.images && !ImageStands(host, forward.images[role]))
      ensures !failed && !drift ==> targets == ImageTargets(host, forward, ROLES)
    {
      hide ImageTargets, ImageStands, ImageRemovable, ValidImage, Scanned;
      failed, drift, targets := false, false, [];
      var seen: set<string> := {};
      var i := 0;
      ScanStart(host, forward);
      while i < |ROLES|
        invariant 0 <= i <= |ROLES|
        invariant Scanned(host, forward, ROLES[..i], seen, drift, targets)
      {
        var role := ROLES[i];
        assert ROLES[..i + 1] == ROLES[..i] + [role];
        ScanStep(host, forward, ROLES[..i], role, seen, drift, targets);
        if role in forward.images {
          var e := forward.images[role];
          if e.reference !in seen {
            seen := seen + {e.reference};
            if e.reference !in host.images { return true, drift, targets; }
            ImageCases(host, e);
            if !ValidImage(e.reference, host.images[e.reference]) {
              drift := true;
            } else if e.was.Present? {
              if host.images[e.reference] != e.was { drift := true; }
            } else if host.images[e.reference].Present? {
              targets := targets + [ImageTarget(e.reference)];
            }
          }
        }
        i := i + 1;
      }
      assert ROLES[..i] == ROLES;
      AllRoles();
      ScanEnd(host, forward, ROLES, seen, drift, targets);
    }

    /** Removes the targets in order; a failing removal leaves the remaining ones in place. */
    method RemoveTargets(targets: seq<Target>) returns (done: nat)
      modifies this`host, io
      ensures done <= |targets| && host == RemoveAll(old(host), targets[..done])
      ensures io.faults >= old(io.faults) && (done == |targets| <==> io.faults == old(io.faults))
    {
      done := 0;
      while done < |targets|
        invariant done <= |targets| && host == RemoveAll(old(host), targets[..done]) && io.faults == old(io.faults)
      {
        var ok := io.Attempt();
        if !ok { return; }
        assert targets[..done + 1][..done] == targets[..done];
        host := Remove(host, targets[done]);
        done := done + 1;
      }
    }

    /** The closing comparison of every authorised image with its recorded state. */
    method VerifyImages() returns (same: bool)
      ensures same <==> ImagesBack(host, forward)
    {
      var i := 0;
      while i < |ROLES|
        invariant 0 <= i <= |ROLES|
        invariant forall role :: role in ROLES[..i] && role in forward.images ==> ImageBack(host, forward.images[role])
      {
        var role := ROLES[i];
        assert ROLES[..i + 1] == ROLES[..i] + [role];
        if role in forward.images {
          var e := forward.images[role];
          if e.reference !in host.images || !ValidImage(e.reference, host.images[e.reference]) { return false; }
          if host.images[e.reference] != e.was { return false; }
        }
        i := i + 1;
      }
      assert ROLES[..i] == ROLES;
      AllRoles();
      same := true;
    }

    /**
     The podman part of a restore, up to the managed paths. It goes ahead exactly when the preflight is clean;
     otherwise nothing at all has changed.
     */
    method RestoreObjects() returns (v: Option<Verdict>, retained: bool, removals: nat)
      requires Consistent(policy) && OneEntryPerReference(forward)
      modifies this`forward, this`host, io
      ensures io.faults >= old(io.faults)
      ensures !Ready(policy, old(host), old(forward)) ==>
        v == Some(Refusal(policy, old(host), old(forward))) &&
        host == old(host) && forward == old(forward) && io.faults == old(io.faults)
      ensures Ready(policy, old(host), old(forward)) ==>
        (v == None || v == Some(Aborted)) && (v.None? <==> io.faults == old(io.faults)) &&
        forward.images == old(forward.images)
      ensures v.None? ==>
        World(host, forward) == RestoreDone(policy, World(old(host), old(forward))) &&
        (retained <==> AnyRetained(policy, old(host), policy.names)) && (retained ==> forward.outcome.RetainedData?)
      ensures v.Some? ==>
        (host == old(host) && forward == old(forward)) ||
        World(host, forward) == RestoreStep(policy, World(old(host), old(forward)), removals, false, false)
    {
      hide ObjectTargets, ImageTargets, RemoveAll, ImageDrift, ObjectDrift, Retained;
      removals := 0;
      UnreadUnclean(policy, host, forward);
      RetainedMade(policy, host);
      if forward.outcome.Quarantined? { return Some(DriftQuarantined), false, 0; }
      var failed, drift, targets, imageDrift, images;
      failed, drift, targets, retained := PreflightObjects();
      if failed { return Some(InspectionFailed), false, 0; }
      failed, imageDrift, images := PreflightImages();
      if failed { return Some(InspectionFailed), false, 0; }
      assert Ready(policy, host, forward) <==> !drift && !imageDrift;
      ReadyExactly(policy, host, forward);
      if drift || imageDrift { return Some(Incomplete), retained, 0; }
      var ok := io.Attempt(); // stop_for_restore
      if !ok { return Some(Aborted), retained, 0; }
      ghost var w := World(host, forward);
      if retained && !forward.outcome.RetainedData? {
        ok := io.Attempt();
        if !ok { return Some(Aborted), retained, 0; }
        forward := forward.(outcome := RetainedData);
      }
      assert forward == if retained then w.forward.(outcome := RetainedData) else w.forward;
      removals := RemoveTargets(targets + images);
      assert targets + images == Targets(policy, w);
      assert (targets + images)[..|targets + images|] == targets + images;
      v := if removals < |targets + images| then Some(Aborted) else None;
    }

    /** The managed paths, then the comparisons that close a restore. */
    method RestoreHost(r: Restorer, ghost captured: FS, retained: bool) returns (v: Verdict)
      requires r.Ready() && r.Settled() && r.evictions == [] && r.live.io == io
      requires WellFormed(r.managed) && Captured(r.managed, captured, r.baseline)
      requires r.started == forward.outcome && !forward.outcome.Quarantined?
      requires (retained ==> forward.outcome.RetainedData?)
      requires ImagesBack(host, forward)
      modifies this`forward, r, r.live`nodes, r.vault`nodes, io
      ensures Kept(r.sha, r.grants, old(r.live.nodes), old(r.vault.nodes), r.live.nodes, r.vault.nodes)
      ensures Announced(r.evictions)
      ensures forward == old(forward).(outcome := forward.outcome)
      ensures forward.outcome == old(forward.outcome) || forward.outcome.Quarantined? ||
              (forward.outcome.Clean? && old(forward.outcome).RetainedData? && v.Reconciled? && !retained)
      ensures !v.Aborted? ==>
        v == (if Unauthorised(r.evictions) then DriftQuarantined else if retained then Incomplete else Reconciled) &&
        (forward.outcome.Quarantined? <==> Unauthorised(r.evictions)) &&
        (v.Reconciled? ==> !forward.outcome.RetainedData?) &&
        PathsBack(r.managed, r.sha, r.baseline, old(r.live.nodes), r.live.nodes)
      ensures io.faults >= old(io.faults)
      ensures v.Aborted? && io.faults == old(io.faults) ==>
        !Movable(r.managed, r.crosses, old(r.live.nodes)) || !Restorable(r.managed, r.baseline, old(r.live.nodes))
      ensures !v.Aborted? ==> io.faults == old(io.faults) && Restorable(r.managed, r.baseline, old(r.live.nodes))
    {
      hide Kept, Captured, Restorable, Movable, Restored, Untouched, WellFormed, Announced, Unauthorised;
      var s, unresolved := RestorePaths(r, captured);
      forward := forward.(outcome := r.durable);
      if !s.Done? { return Aborted; }
      if unresolved { return Incomplete; }
      var ok := io.Attempt(); // restore_units
      if !ok { return Aborted; }
      ok := VerifyImages();
      if !ok { return Aborted; }
      ok := io.Attempt(); // verify_restored
      if !ok { return Aborted; }
      if r.drift { return DriftQuarantined; }
      if retained { return Incomplete; }
      if forward.outcome.RetainedData? {
        ok := io.Attempt();
        if !ok { return Aborted; }
        forward := forward.(outcome := Clean);
      }
      v := Reconciled;
    }

    /**
     A whole restore. Its podman and ledger part is one of the restore steps that the run theorems cover; it
     changes nothing unless the preflight is clean; content is conserved however it ends; and when no primitive
     fails and every managed tree on another device fits the copy budgets, it completes exactly when the host is
     restorable, with every managed path, object and image back. It reports success exactly when nothing was
     quarantined or retained.
     */
    method RestoreReceipt(live: Volume, vault: Volume, sha: Bytes -> Digest, managed: seq<Managed>, baseline: FS,
                          crosses: Path -> bool, ghost captured: FS)
      returns (v: Verdict, ghost evictions: seq<Eviction>)
      requires Consistent(policy) && OneEntryPerReference(forward)
      requires live != vault && live.io == vault.io == io && Tree(live.nodes) && Tree(vault.nodes)
      requires WellFormed(managed) && Captured(managed, captured, baseline)
      modifies this`forward, this`host, live`nodes, vault`nodes, io
      ensures Stepwise(policy, World(old(host), old(forward)), World(host, forward))
      ensures Kept(sha, old(forward.files), old(live.nodes), old(vault.nodes), live.nodes, vault.nodes)
      ensures Announced(evictions)
      ensures !Ready(policy, old(host), old(forward)) ==>
        v == Refusal(policy, old(host), old(forward)) &&
        host == old(host) && forward == old(forward) && live.nodes == old(live.nodes) && vault.nodes == old(vault.nodes)
      ensures Ready(policy, old(host), old(forward)) && !v.Aborted? ==>
        PathsBack(managed, sha, baseline, old(live.nodes), live.nodes) &&
        PodmanBack(policy, old(host), host, old(forward)) &&
        Restorable(managed, baseline, old(live.nodes)) && io.faults == old(io.faults) &&
        v == (if Unauthorised(evictions) then DriftQuarantined
              else if AnyRetained(policy, old(host), policy.names) then Incomplete else Reconciled) &&
        (forward.outcome.Quarantined? <==> Unauthorised(evictions)) &&
        (v.Reconciled? ==> !forward.outcome.RetainedData?)
      ensures v.Aborted? ==>
        io.faults > old(io.faults) || !Movable(managed, crosses, old(live.nodes)) ||
          !Restorable(managed, baseline, old(live.nodes))
    {
      hide Kept, Captured, Restorable, Movable, PathsBack, WellFormed, ImagesBack, Announced, Unauthorised,
           RestoreStep, AnyRetained,
           Consistent, OneEntryPerReference, Ledger.PreflightClean, Targets, Tree;
      ghost var w := World(host, forward);
      KeptSame(sha, forward.files, live.nodes, vault.nodes);
      evictions := [];
      NothingEvicted();
      var stop, retained, removals := RestoreObjects();
      ghost var mid := World(host, forward);
      if stop.Some? {
        NotFurther(policy, w, mid, removals);
        return stop.value, [];
      }
      PodmanDone(policy, w, mid);
      var r := new Restorer(live, vault, sha, managed, baseline, forward.files, crosses, forward.outcome);
      v := RestoreHost(r, captured, retained);
      evictions := r.evictions;
      OutcomeSettled(policy, w, mid, World(host, forward));
    }
  }

  /** An id and an identity podman may report for this object. */
  predicate Nameable(policy: Policy, key: Key, p: Presence) {
    p.Present? ==>
      1 <= |p.id| <= 512 && if key.kind == Container then policy.isReference(p.identity) else p.identity == key.name
  }

  /** The object was absent at capture and is there now. */
  predicate Made(policy: Policy, host: Host, k: Key) {
    k in policy.baseline && policy.baseline[k] == Missing && k in host.objects && host.objects[k].Present?
  }

  /** x is the reference of one of the roles. */
  ghost predicate SeenIn(f: Forward, roles: seq<ImageRole>, x: string) {
    exists role :: role in roles && role in f.images && f.images[role].reference == x
  }

  /** What the preflight knows after some roles. */
  ghost predicate Scanned(host: Host, f: Forward, roles: seq<ImageRole>, seen: set<string>, drift: bool,
                          targets: seq<Target>) {
    && (forall role :: role in roles && role in f.images ==>
          f.images[role].reference in host.images && f.images[role].reference in seen)
    && (forall x :: x in seen ==> SeenIn(f, roles, x))
    && (drift <==> exists role :: role in roles && role in f.images && !ImageStands(host, f.images[role]))
    && (!drift ==> targets == ImageTargets(host, f, roles))
  }

  lemma ScanStart(host: Host, f: Forward)
    ensures Scanned(host, f, [], {}, false, [])
  {
  }

  /** One more role: nothing new if it has no image or one already seen, or else one more test. */
  lemma ScanStep(host: Host, f: Forward, roles: seq<ImageRole>, role: ImageRole, seen: set<string>, drift: bool,
                 targets: seq<Target>)
    requires OneEntryPerReference(f) && Scanned(host, f, roles, seen, drift, targets)
    ensures role !in f.images || f.images[role].reference in seen ==>
      Scanned(host, f, roles + [role], seen, drift, targets)
    ensures role in f.images && f.images[role].reference !in seen && f.images[role].reference in host.images ==>
      Scanned(host, f, roles + [role], seen + {f.images[role].reference}, drift || !ImageStands(host, f.images[role]),
              if ImageRemovable(host, f.images[role]) then targets + [ImageTarget(f.images[role].reference)]
              else targets)
  {
    hide ImageTargets, ValidImage;
    TargetsStep(host, f, roles, role);
    var all := roles + [role];
    assert forall r :: r in all <==> r in roles || r == role;
    if role in f.images {
      var e := f.images[role];
      if e.reference in host.images { ImageCases(host, e); }
      hide ImageStands, ImageRemovable;
      forall x | x in seen
        ensures SeenIn(f, all, x)
      {
        var r :| r in roles && r in f.images && f.images[r].reference == x;
        assert r in all;
      }
      assert role in all && SeenIn(f, all, e.reference);
    }
  }

  lemma ScanEnd(host: Host, f: Forward, roles: seq<ImageRole>, seen: set<string>, drift: bool, targets: seq<Target>)
    requires Scanned(host, f, roles, seen, drift, targets) && forall role: ImageRole :: role in roles
    ensures forall role :: role in f.images ==> f.images[role].reference in host.images
    ensures drift <==> exists role :: role in f.images && !ImageStands(host, f.images[role])
    ensures !drift ==> targets == ImageTargets(host, f, roles)
  {
    hide ImageStands, ImageTargets;
  }

  lemma TargetsStep(host: Host, f: Forward, roles: seq<ImageRole>, role: ImageRole)
    ensures ImageTargets(host, f, roles + [role]) ==
      var t := ImageTargets(host, f, roles);
      if role in f.images && ImageRemovable(host, f.images[role]) && ImageTarget(f.images[role].reference) !in t then
        t + [ImageTarget(f.images[role].reference)]
      else t
  {
    assert (roles + [role])[..|roles|] == roles;
  }

  /** The tests the preflight makes of one image. */
  lemma ImageCases(host: Host, e: ImageEntry)
    requires e.reference in host.images
    ensures var found := host.images[e.reference]; var good := ValidImage(e.reference, found);
      && (ImageStands(host, e) <==> good && (e.was.Present? ==> found == e.was))
      && (ImageRemovable(host, e) <==> good && e.was.Missing? && found.Present?)
  {
  }

  predicate ImageStands(host: Host, e: ImageEntry) {
    e.reference in host.images && StandingImage(e, host.images[e.reference])
  }

  ghost predicate Drifted(policy: Policy, host: Host, f: Forward, names: seq<Key>)
    requires forall k :: k in names ==> k in policy.baseline
  {
    exists k :: k in names && k in host.objects && !Standing(policy.baseline[k], host.objects[k], k, EntryOf(f, k))
  }

  ghost predicate AnyRetained(policy: Policy, host: Host, names: seq<Key>) {
    exists k :: k in names && Made(policy, host, k) && k.kind == ObjectKind.Volume
  }

  lemma RetainedMade(policy: Policy, host: Host)
    ensures AnyRetained(policy, host, policy.names) <==> exists k :: k in policy.names && Retained(policy, host, k)
  {
  }

  lemma TargetsMade(policy: Policy, host: Host, f: Forward)
    requires Consistent(policy) && forall k :: k in policy.names ==> k in host.objects
    ensures !Drifted(policy, host, f, policy.names) ==> forall k ::
      ObjectTarget(k) in ObjectTargets(policy, host, f, policy.names) <==>
        k in policy.names && Made(policy, host, k) && k.kind != ObjectKind.Volume
  {
    forall k | k in policy.names
      ensures ObjectDrift(policy, host, f, k) <==> !Standing(policy.baseline[k], host.objects[k], k, EntryOf(f, k))
    {
      DriftExactly(policy, host, f, k);
    }
    hide ObjectDrift, Standing, ObjectTargets;
  }

  lemma NothingDrifted(policy: Policy, host: Host, f: Forward)
    ensures !Drifted(policy, host, f, []) && !AnyRetained(policy, host, [])
  {
  }

  lemma DriftAppend(policy: Policy, host: Host, f: Forward, names: seq<Key>, k: Key)
    requires forall n :: n in names + [k] ==> n in policy.baseline
    ensures Drifted(policy, host, f, names + [k]) <==>
      Drifted(policy, host, f, names) ||
      (k in host.objects && !Standing(policy.baseline[k], host.objects[k], k, EntryOf(f, k)))
    ensures AnyRetained(policy, host, names + [k]) <==>
      AnyRetained(policy, host, names) || (Made(policy, host, k) && k.kind == ObjectKind.Volume)
  {
    hide Standing, Made;
  }

  /** How a restore that is not ready refuses. */
  function Refusal(policy: Policy, host: Host, f: Forward): Verdict {
    if f.outcome.Quarantined? then DriftQuarantined
    else if Unread(policy, host, f) then InspectionFailed
    else Incomplete
  }

  lemma UnreadUnclean(policy: Policy, host: Host, f: Forward)
    requires Consistent(policy)
    ensures Unread(policy, host, f) ==> !PreflightClean(policy, host, f)
  {
  }

  ghost predicate ImageBack(host: Host, e: ImageEntry) {
    e.reference in host.images && ValidImage(e.reference, host.images[e.reference]) && host.images[e.reference] == e.was
  }

  ghost predicate ImagesBack(host: Host, f: Forward) {
    forall role :: role in f.images ==> ImageBack(host, f.images[role])
  }

  /** Every managed path has its captured descriptor, and nothing unmanaged was touched. */
  ghost predicate PathsBack(managed: seq<Managed>, sha: Bytes -> Digest, baseline: FS, before: FS, after: FS) {
    && (forall m :: m in managed ==> Restored(sha, baseline, after, m.path))
    && Untouched(managed, before, after)
  }

  /** One restore as the run theorems see it, or nothing at all. */
  ghost predicate Stepwise(policy: Policy, w: World, after: World)
    requires Consistent(policy)
  {
    after == w || exists n: nat, quarantined: bool, finished: bool ::
      after == RestoreStep(policy, w, n, quarantined, finished)
  }

  /** Objects are back at their baseline except the volumes kept as found, and images at their recorded state. */
  ghost predicate PodmanBack(policy: Policy, before: Host, after: Host, f: Forward)
    requires Consistent(policy)
  {
    && (forall k :: k in policy.names ==> Converged(policy, before, after, k))
    && (forall k :: k in before.objects && k !in policy.names ==>
      k in after.objects && after.objects[k] == before.objects[k])
    && ImagesBack(after, f)
  }

  lemma NothingEvicted()
    ensures Announced([])
  {
  }

  /** A restore of podman and the ledger that removes everything it should. */
  ghost function RestoreDone(policy: Policy, w: World): World
    requires Consistent(policy)
  {
    RestoreStep(policy, w, |Targets(policy, w)|, false, false)
  }

  lemma NotFurther(policy: Policy, w: World, after: World, n: nat)
    requires Consistent(policy)
    requires after == w || after == RestoreStep(policy, w, n, false, false)
    ensures Stepwise(policy, w, after)
  {
  }

  lemma PodmanDone(policy: Policy, w: World, mid: World)
    requires Consistent(policy) && OneEntryPerReference(w.forward) && Ready(policy, w.host, w.forward)
    requires mid == RestoreDone(policy, w)
    ensures PodmanBack(policy, w.host, mid.host, w.forward) && ImagesBack(mid.host, mid.forward)
    ensures mid.forward.files == w.forward.files && !mid.forward.outcome.Quarantined?
  {
    RestoreConverges(policy, w, |Targets(policy, w)|, false, false);
    hide Targets, RemoveAll, Converged;
    forall role | role in w.forward.images
      ensures ImageBack(mid.host, w.forward.images[role])
    {
      assert !ImageDrift(w.host, w.forward.images[role]);
    }
  }

  lemma OutcomeSettled(policy: Policy, w: World, mid: World, after: World)
    requires Consistent(policy) && Ready(policy, w.host, w.forward)
    requires mid == RestoreDone(policy, w)
    requires after.host == mid.host && after.forward == mid.forward.(outcome := after.forward.outcome)
    requires after.forward.outcome == mid.forward.outcome || after.forward.outcome.Quarantined? ||
      (after.forward.outcome.Clean? && mid.forward.outcome.RetainedData? && !AnyRetained(policy, w.host, policy.names))
    ensures Stepwise(policy, w, after)
  {
    ReadyExactly(policy, w.host, w.forward);
    RetainedMade(policy, w.host);
    hide Targets, RemoveAll, Ledger.PreflightClean, Retained, Ready;
    var n := |Targets(policy, w)|;
    if after.forward.outcome == mid.forward.outcome {
      assert after == RestoreStep(policy, w, n, false, false);
    } else if after.forward.outcome.Quarantined? {
      assert after == RestoreStep(policy, w, n, true, false);
    } else {
      assert after == RestoreStep(policy, w, n, false, true);
    }
  }
}
