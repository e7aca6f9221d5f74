/** Every run of ledger operations, restores and host changes: who may be removed, and what a restore achieves. */
module LedgerRuns {
  import opened Common
  import opened FileSystem
  import opened Receipt
  import opened Ledger

  datatype World = World(host: Host, forward: Forward)

  datatype Event =
    | HostChange(host: Host)
    | GrantFile(path: Path, descriptor: Grant)
    | GrantObject(key: Key, identity: string)
    | ConfirmObject(key: Key, identity: string)
    | GrantImages(references: map<ImageRole, string>)
    | Complete
    | Acknowledge
    | RestoreRun(removals: nat, quarantined: bool, finished: bool) // how far it got before a failing step, if any

  datatype Target = ObjectTarget(key: Key) | ImageTarget(reference: string)

  function Or(f: Forward, r: Result<Forward, Code>): Forward {
    if r.Success? then r.value else f
  }

  function ObjectTargets(policy: Policy, host: Host, f: Forward, names: seq<Key>): (t: seq<Target>)
    requires forall k :: k in names ==> k in policy.baseline
    ensures forall x :: x in t <==> x.ObjectTarget? && x.key in names && Removable(policy, host, f, x.key)
  {
    if names == [] then [] else
      var rest, last := names[..|names| - 1], names[|names| - 1];
      assert names == rest + [last];
      ObjectTargets(policy, host, f, rest) + (if Removable(policy, host, f, last) then [ObjectTarget(last)] else [])
  }

  const ROLES: seq<ImageRole> := [CoreImage, PostgresImage, RunnerImage]

  /** A reference that several roles share is listed once. */
  function ImageTargets(host: Host, f: Forward, roles: seq<ImageRole>): (t: seq<Target>)
    ensures forall x :: x in t <==>
      x.ImageTarget? && exists role :: role in roles && role in f.images && f.images[role].reference == x.reference &&
                                  ImageRemovable(host, f.images[role])
  {
    if roles == [] then [] else
      var rest, last := roles[..|roles| - 1], roles[|roles| - 1];
      assert roles == rest + [last];
      var t := ImageTargets(host, f, rest);
      if last in f.images && ImageRemovable(host, f.images[last]) && ImageTarget(f.images[last].reference) !in t then
        t + [ImageTarget(f.images[last].reference)]
      else t
  }

  function Targets(policy: Policy, w: World): seq<Target>
    requires forall k :: k in policy.names ==> k in policy.baseline
  {
    ObjectTargets(policy, w.host, w.forward, policy.names) + ImageTargets(w.host, w.forward, ROLES)
  }

  function Remove(host: Host, t: Target): Host {
    match t
    case ObjectTarget(key) => host.(objects := host.objects[key := Missing])
    case ImageTarget(reference) => host.(images := host.images[reference := Missing])
  }

  function RemoveAll(host: Host, targets: seq<Target>): Host {
    if targets == [] then host else Remove(RemoveAll(host, targets[..|targets| - 1]), targets[|targets| - 1])
  }

  predicate Retained(policy: Policy, host: Host, key: Key) {
    key in policy.baseline && policy.baseline[key].Missing? && key.kind.Volume? && key in host.objects &&
      host.objects[key].Present?
  }

  /** restore_receipt as far as podman and the ledger are concerned. */
  function RestoreStep(policy: Policy, w: World, removals: nat, quarantined: bool, finished: bool): World
    requires Consistent(policy)
  {
    if w.forward.outcome.Quarantined? || !PreflightClean(policy, w.host, w.forward) then w
    else
      var targets := Targets(policy, w);
      var retained := exists k :: k in policy.names && Retained(policy, w.host, k);
      var f := if retained then w.forward.(outcome := RetainedData) else w.forward;
      if removals < |targets| then World(RemoveAll(w.host, targets[..removals]), f)
      else
        var host := RemoveAll(w.host, targets);
        if quarantined then World(host, f.(outcome := Quarantined))
        else if finished && !retained && f.outcome.RetainedData? then World(host, f.(outcome := Clean))
        else World(host, f)
  }

  function Next(policy: Policy, w: World, e: Event): World
    requires Consistent(policy)
  {
    match e
    case HostChange(host) => w.(host := host)
    case GrantFile(p, d) => w.(forward := Or(w.forward, AuthorizeFile(policy, w.forward, p, d)))
    case GrantObject(k, i) => w.(forward := Or(w.forward, AuthorizeObject(policy, w.host, w.forward, k, i)))
    case ConfirmObject(k, i) => w.(forward := Or(w.forward, FinalizeObject(policy, w.host, w.forward, k, i)))
    case GrantImages(r) => w.(forward := Or(w.forward, AuthorizeImages(policy, w.host, w.forward, r)))
    case Complete => w.(forward := Or(w.forward, MarkCompleted(policy, w.forward)))
    case Acknowledge => w.(forward := Or(w.forward, AcknowledgeQuarantine(w.forward)))
    case RestoreRun(n, q, d) => RestoreStep(policy, w, n, q, d)
  }

  function Replay(policy: Policy, start: World, events: seq<Event>): (h: seq<World>)
    requires Consistent(policy)
    ensures |h| == |events| + 1
  {
    if events == [] then [start] else
      var h := Replay(policy, start, events[..|events| - 1]);
      h + [Next(policy, h[|h| - 1], events[|events| - 1])]
  }

  predicate Fresh(w: World) {
    w.forward == Forward(Open, Clean, map[], map[], map[])
  }

  lemma {:induction false} ReplayStep(policy: Policy, start: World, events: seq<Event>, i: nat)
    requires Consistent(policy) && i <= |events|
    ensures Replay(policy, start, events[..i]) == Replay(policy, start, events)[..i + 1]
    ensures i < |events| ==>
      Replay(policy, start, events)[i + 1] == Next(policy, Replay(policy, start, events)[i], events[i])
  {
    if i == |events| {
      assert events[..i] == events;
    } else {
      var shorter := events[..|events| - 1];
      ReplayStep(policy, start, shorter, i);
      assert shorter[..i] == events[..i];
      if i < |shorter| { assert shorter[i] == events[i]; }
    }
  }

  /** At time t of the run the object was authorised under this identity, and podman reported its baseline. */
  ghost predicate GrantedAt(policy: Policy, h: seq<World>, events: seq<Event>, t: nat, key: Key, identity: string) {
    && t < |events| && t < |h| && events[t] == GrantObject(key, identity)
    && AuthorizeObject(policy, h[t].host, h[t].forward, key, identity).Success?
    && key in h[t].host.objects && key in policy.baseline && h[t].host.objects[key] == policy.baseline[key]
  }

  /** At time t of the run the object was finalised while podman reported it under exactly this id. */
  ghost predicate ConfirmedAt(policy: Policy, h: seq<World>, events: seq<Event>, t: nat, key: Key, id: string,
                              identity: string) {
    && t < |events| && t < |h| && events[t] == ConfirmObject(key, identity)
    && FinalizeObject(policy, h[t].host, h[t].forward, key, identity).Success?
    && key in h[t].host.objects && h[t].host.objects[key] == Present(id, identity)
  }

  /** Every ledger entry in f was earned before time n of the run. */
  ghost predicate Earned(policy: Policy, h: seq<World>, events: seq<Event>, n: nat, f: Forward) {
    && (forall k :: k in f.objects ==> Manageable(policy, k, f.objects[k].identity))
    && (forall k :: k in f.objects ==>
      exists a: nat :: a < n && GrantedAt(policy, h, events, a, k, f.objects[k].identity))
    && (forall k :: k in f.objects && f.objects[k].Finalized? ==>
          exists a: nat, c: nat :: a < c < n && GrantedAt(policy, h, events, a, k, f.objects[k].identity) &&
                         ConfirmedAt(policy, h, events, c, k, f.objects[k].id, f.objects[k].identity))
    && (forall role :: role in f.images ==>
      exists a: nat :: a < n && ImageGrantedAt(policy, h, events, a, role, f.images[role]))
  }

  /** At time t images were authorised for the first time, with this reference in this role, and e was recorded. */
  ghost predicate ImageGrantedAt(policy: Policy, h: seq<World>, events: seq<Event>, t: nat, role: ImageRole,
                                 e: ImageEntry) {
    && t < |events| && t < |h| && events[t].GrantImages? && h[t].forward.images == map[]
    && role in events[t].references && events[t].references[role] == e.reference
    && AuthorizeImages(policy, h[t].host, h[t].forward, events[t].references).Success?
    && role in AuthorizeImages(policy, h[t].host, h[t].forward, events[t].references).value.images
    && AuthorizeImages(policy, h[t].host, h[t].forward, events[t].references).value.images[role] == e
    && e.reference in h[t].host.images && h[t].host.images[e.reference] == e.was
  }

  /** How one event may change an object entry or the image entries. */
  lemma ForwardStep(policy: Policy, w: World, e: Event)
    requires Consistent(policy)
    ensures var f, g := w.forward, Next(policy, w, e).forward;
      && (forall k :: k in f.objects ==> k in g.objects)
      && (forall k :: k in g.objects && !(k in f.objects && g.objects[k] == f.objects[k]) ==>
            && Manageable(policy, k, g.objects[k].identity)
            && if k in f.objects then
                 && e == ConfirmObject(k, g.objects[k].identity) && f.objects[k] == Intent(g.objects[k].identity)
                 && FinalizeObject(policy, w.host, f, k, g.objects[k].identity).Success?
                 && g.objects[k].Finalized? && k in w.host.objects
                 && w.host.objects[k] == Present(g.objects[k].id, g.objects[k].identity)
               else
                 && e == GrantObject(k, g.objects[k].identity) && g.objects[k].Intent?
                 && AuthorizeObject(policy, w.host, f, k, g.objects[k].identity).Success?)
      && (g.images == f.images ||
            (f.images == map[] && e.GrantImages? && AuthorizeImages(policy, w.host, f, e.references) == Success(g) &&
             forall role :: role in g.images ==>
               role in e.references && e.references[role] == g.images[role].reference &&
               g.images[role].reference in w.host.images &&
                 w.host.images[g.images[role].reference] == g.images[role].was))
  {
    hide Manageable, RemoveAll, Targets, PreflightClean, ValidObject, OpenTransaction;
  }

  lemma EarnedStep(policy: Policy, h: seq<World>, events: seq<Event>, n: nat)
    requires Consistent(policy) && n < |events| && n + 1 < |h|
    requires h[n + 1] == Next(policy, h[n], events[n])
    requires Earned(policy, h, events, n, h[n].forward)
    ensures Earned(policy, h, events, n + 1, h[n + 1].forward)
  {
    hide Next, FinalizeObject, AuthorizeObject, Manageable, Consistent;
    var f, g := h[n].forward, h[n + 1].forward;
    ForwardStep(policy, h[n], events[n]);
    forall k | k in g.objects
      ensures Manageable(policy, k, g.objects[k].identity)
      ensures exists a: nat :: a < n + 1 && GrantedAt(policy, h, events, a, k, g.objects[k].identity)
    {
      if k in f.objects {
        var a: nat :| a < n && GrantedAt(policy, h, events, a, k, f.objects[k].identity);
        assert a < n + 1 && GrantedAt(policy, h, events, a, k, g.objects[k].identity);
      } else {
        GrantNow(policy, h, events, n, k, g.objects[k].identity);
      }
    }
    forall k | k in g.objects && g.objects[k].Finalized?
      ensures exists a: nat, c: nat :: a < c < n + 1 && GrantedAt(policy, h, events, a, k, g.objects[k].identity) &&
                             ConfirmedAt(policy, h, events, c, k, g.objects[k].id, g.objects[k].identity)
    {
      if k in f.objects && f.objects[k] == g.objects[k] {
        var a: nat, c: nat :| a < c < n && GrantedAt(policy, h, events, a, k, f.objects[k].identity) &&
                    ConfirmedAt(policy, h, events, c, k, f.objects[k].id, f.objects[k].identity);
        assert a < c < n + 1;
      } else {
        var a: nat :| a < n && GrantedAt(policy, h, events, a, k, f.objects[k].identity);
        assert a < n < n + 1 && ConfirmedAt(policy, h, events, n, k, g.objects[k].id, g.objects[k].identity);
      }
    }
    forall role | role in g.images
      ensures exists a: nat :: a < n + 1 && ImageGrantedAt(policy, h, events, a, role, g.images[role])
    {
      if g.images == f.images {
        var a: nat :| a < n && ImageGrantedAt(policy, h, events, a, role, f.images[role]);
        assert a < n + 1;
      } else {
        assert ImageGrantedAt(policy, h, events, n, role, g.images[role]);
      }
    }
  }

  lemma GrantNow(policy: Policy, h: seq<World>, events: seq<Event>, n: nat, k: Key, identity: string)
    requires n < |events| && n < |h| && events[n] == GrantObject(k, identity)
    requires AuthorizeObject(policy, h[n].host, h[n].forward, k, identity).Success?
    ensures GrantedAt(policy, h, events, n, k, identity)
  {
  }

  lemma {:induction false} EarnedAlways(policy: Policy, start: World, events: seq<Event>, n: nat)
    requires Consistent(policy) && Fresh(start) && n <= |events|
    ensures var h := Replay(policy, start, events); Earned(policy, h, events, n, h[n].forward)
  {
    var h := Replay(policy, start, events);
    if n == 0 {
      ReplayStep(policy, start, events, 0);
    } else {
      EarnedAlways(policy, start, events, n - 1);
      ReplayStep(policy, start, events, n - 1);
      EarnedStep(policy, h, events, n - 1);
    }
  }

  ghost predicate Removed(host: Host, targets: seq<Target>, after: Host) {
    && (forall k :: k in after.objects <==> k in host.objects || ObjectTarget(k) in targets)
    && (forall r :: r in after.images <==> r in host.images || ImageTarget(r) in targets)
    && (forall k :: k in after.objects ==>
          if ObjectTarget(k) in targets then after.objects[k].Missing? else after.objects[k] == host.objects[k])
    && (forall r :: r in after.images ==>
          if ImageTarget(r) in targets then after.images[r].Missing? else after.images[r] == host.images[r])
  }

  /** A removal loop, stopped anywhere, leaves exactly its targets missing and everything else alone. */
  lemma {:induction false} RemoveAllEffect(host: Host, targets: seq<Target>)
    ensures Removed(host, targets, RemoveAll(host, targets))
  {
    if targets != [] {
      var n := |targets| - 1;
      RemoveAllEffect(host, targets[..n]);
      var mid := RemoveAll(host, targets[..n]);
      forall t: Target
        ensures t in targets <==> t in targets[..n] || t == targets[n]
      {
        assert targets == targets[..n] + [targets[n]];
      }
      assert RemoveAll(host, targets) == Remove(mid, targets[n]);
    }
  }

  /** What a restore, complete or not, can have removed. */
  lemma RestoreRemoves(policy: Policy, w: World, n: nat, quarantined: bool, finished: bool)
    requires Consistent(policy)
    ensures var after := RestoreStep(policy, w, n, quarantined, finished).host;
      && w.host.objects.Keys <= after.objects.Keys
      && w.host.images.Keys <= after.images.Keys
      && (forall k :: k in w.host.objects ==>
            after.objects[k] == w.host.objects[k] ||
              (after.objects[k].Missing? && ObjectTarget(k) in Targets(policy, w)))
      && (forall r :: r in w.host.images ==>
            after.images[r] == w.host.images[r] || (after.images[r].Missing? && ImageTarget(r) in Targets(policy, w)))
  {
    var targets := Targets(policy, w);
    hide Targets;
    RemoveAllEffect(w.host, targets);
    if n < |targets| {
      RemoveAllEffect(w.host, targets[..n]);
      assert forall t :: t in targets[..n] ==> t in targets;
    }
  }

  lemma AllRoles()
    ensures forall role: ImageRole :: role in ROLES
  {
    forall role: ImageRole
      ensures role in ROLES
    {
      RoleListed(role);
    }
  }

  lemma RoleListed(role: ImageRole)
    ensures role in ROLES
  {
    match role
    case CoreImage => assert ROLES[0] == role;
    case PostgresImage => assert ROLES[1] == role;
    case RunnerImage => assert ROLES[2] == role;
  }

  lemma TargetsExact(policy: Policy, w: World)
    requires Consistent(policy)
    ensures forall k :: ObjectTarget(k) in Targets(policy, w) <==>
      k in policy.names && Removable(policy, w.host, w.forward, k)
    ensures forall r :: ImageTarget(r) in Targets(policy, w) <==>
      exists role :: role in w.forward.images && w.forward.images[role].reference == r &&
        ImageRemovable(w.host, w.forward.images[role])
  {
    forall r, role | role in w.forward.images && w.forward.images[role].reference == r &&
      ImageRemovable(w.host, w.forward.images[role])
      ensures ImageTarget(r) in Targets(policy, w)
    {
      RoleListed(role);
      assert ImageTarget(r) in ImageTargets(w.host, w.forward, ROLES);
    }
  }

  /**
   Ownership: in every run, whatever a restore removes was absent at capture, was authorised while it was still
   absent, was finalised later under exactly the id it is removed by, and is not a volume.
   */
  lemma RemovalsAreOwned(policy: Policy, start: World, events: seq<Event>, i: nat, key: Key)
    requires Consistent(policy) && Fresh(start) && i < |events| && events[i].RestoreRun?
    requires var h := Replay(policy, start, events);
             key in h[i].host.objects &&
               (key in h[i + 1].host.objects ==> h[i + 1].host.objects[key] != h[i].host.objects[key])
    ensures var h := Replay(policy, start, events);
      && !key.kind.Volume? && key in policy.baseline && policy.baseline[key].Missing?
      && h[i].host.objects[key].Present? && key in h[i + 1].host.objects && h[i + 1].host.objects[key].Missing?
      && exists a: nat, c: nat ::
           && a < c < i
           && GrantedAt(policy, h, events, a, key, h[i].host.objects[key].identity)
           && h[a].host.objects[key].Missing?
           && ConfirmedAt(policy, h, events, c, key, h[i].host.objects[key].id, h[i].host.objects[key].identity)
  {
    var h := Replay(policy, start, events);
    var w := h[i];
    ReplayStep(policy, start, events, i);
    EarnedAlways(policy, start, events, i);
    RestoreRemoves(policy, w, events[i].removals, events[i].quarantined, events[i].finished);
    hide RestoreStep, Earned;
    TargetsExact(policy, w);
    assert ObjectTarget(key) in Targets(policy, w);
    var a: nat, c: nat :| a < c < i && GrantedAt(policy, h, events, a, key, w.forward.objects[key].identity) &&
      ConfirmedAt(policy, h, events, c, key, w.forward.objects[key].id, w.forward.objects[key].identity);
    assert h[a].host.objects[key].Missing?;
  }

  /**
   The same for images: a removed image stands in the ledger under some role, and that entry was recorded by a
   successful authorisation which named this reference in this role while the image was missing.
   */
  lemma RemovedImagesWereAbsent(policy: Policy, start: World, events: seq<Event>, i: nat, reference: string)
    requires Consistent(policy) && Fresh(start) && i < |events| && events[i].RestoreRun?
    requires var h := Replay(policy, start, events);
      reference in h[i].host.images &&
      (reference in h[i + 1].host.images ==> h[i + 1].host.images[reference] != h[i].host.images[reference])
    ensures var h := Replay(policy, start, events);
      exists role: ImageRole, a: nat :: a < i && role in h[i].forward.images &&
        h[i].forward.images[role] == ImageEntry(reference, Missing) &&
        ImageGrantedAt(policy, h, events, a, role, h[i].forward.images[role])
  {
    var h := Replay(policy, start, events);
    var w := h[i];
    ReplayStep(policy, start, events, i);
    EarnedAlways(policy, start, events, i);
    RestoreRemoves(policy, w, events[i].removals, events[i].quarantined, events[i].finished);
    hide RestoreStep, Earned;
    TargetsExact(policy, w);
    assert ImageTarget(reference) in Targets(policy, w);
    var role :| role in w.forward.images && w.forward.images[role].reference == reference &&
      ImageRemovable(w.host, w.forward.images[role]);
    var a: nat :| a < i && ImageGrantedAt(policy, h, events, a, role, w.forward.images[role]);
  }

  /** An entry moves only from nothing to an intent to a finalised id, and then stays. */
  ghost predicate EntryAdvances(f: Forward, g: Forward) {
    forall k :: k in f.objects ==>
      k in g.objects && g.objects[k].identity == f.objects[k].identity &&
      (f.objects[k].Finalized? ==> g.objects[k] == f.objects[k])
  }

  lemma {:induction false} EntriesAdvance(policy: Policy, start: World, events: seq<Event>, i: nat, j: nat)
    requires Consistent(policy) && i <= j <= |events|
    ensures var h := Replay(policy, start, events); EntryAdvances(h[i].forward, h[j].forward)
    ensures var h := Replay(policy, start, events);
      h[i].forward.images != map[] ==> h[j].forward.images == h[i].forward.images
    decreases j
  {
    hide Next;
    if i < j {
      EntriesAdvance(policy, start, events, i, j - 1);
      ReplayStep(policy, start, events, j - 1);
      ForwardStep(policy, Replay(policy, start, events)[j - 1], events[j - 1]);
    }
  }

  /** A restore that changes anything has passed its preflight. */
  lemma ChangedAfterPreflight(policy: Policy, w: World, n: nat, quarantined: bool, finished: bool)
    requires Consistent(policy) && RestoreStep(policy, w, n, quarantined, finished) != w
    ensures !w.forward.outcome.Quarantined?
    ensures forall k :: k in policy.names ==> k in w.host.objects && AsExpected(policy, w.host.objects[k], w.forward, k)
    ensures forall role :: role in w.forward.images ==> !ImageDrift(w.host, w.forward.images[role])
  {
    hide Targets, RemoveAll, Retained;
    assert forall k :: k in policy.names ==> !ObjectDrift(policy, w.host, w.forward, k);
  }

  /**
   Over every run: if a restore changed anything at all, no quarantine was pending, every object recorded at capture
   stood exactly as captured, every other one was absent, a volume, or one that had been authorised while absent and
   later finalised under the very id it had, and no image had drifted.
   */
  lemma DriftTouchesNothing(policy: Policy, start: World, events: seq<Event>, i: nat)
    requires Consistent(policy) && Fresh(start) && i < |events| && events[i].RestoreRun?
    requires Replay(policy, start, events)[i + 1] != Replay(policy, start, events)[i]
    ensures var h := Replay(policy, start, events);
      && !h[i].forward.outcome.Quarantined?
      && (forall k :: k in policy.names ==> k in h[i].host.objects && Accounted(policy, h, events, i, k))
      && (forall role :: role in h[i].forward.images ==> !ImageDrift(h[i].host, h[i].forward.images[role]))
  {
    var h := Replay(policy, start, events);
    ReplayStep(policy, start, events, i);
    EarnedAlways(policy, start, events, i);
    ChangedAfterPreflight(policy, h[i], events[i].removals, events[i].quarantined, events[i].finished);
    hide RestoreStep, Earned;
    forall k | k in policy.names
      ensures Accounted(policy, h, events, i, k)
    {
      AccountedNow(policy, h, events, i, k);
    }
  }

  ghost predicate Accounted(policy: Policy, h: seq<World>, events: seq<Event>, i: nat, k: Key)
    requires i < |h| && k in h[i].host.objects
  {
    var found := h[i].host.objects[k];
    && k in policy.baseline
    && (policy.baseline[k].Present? ==> found == policy.baseline[k])
    && (policy.baseline[k].Missing? && found.Present? && !k.kind.Volume? ==>
          exists a: nat, c: nat :: a < c < i && GrantedAt(policy, h, events, a, k, found.identity) &&
                                   ConfirmedAt(policy, h, events, c, k, found.id, found.identity))
  }

  lemma AccountedNow(policy: Policy, h: seq<World>, events: seq<Event>, i: nat, k: Key)
    requires i < |h| && Earned(policy, h, events, i, h[i].forward) && k in h[i].host.objects
    requires AsExpected(policy, h[i].host.objects[k], h[i].forward, k)
    ensures Accounted(policy, h, events, i, k)
  {
    hide GrantedAt, ConfirmedAt, ImageGrantedAt, Manageable;
  }

  predicate AsExpected(policy: Policy, found: Presence, f: Forward, k: Key) {
    && k in policy.baseline
    && (policy.baseline[k].Present? ==> found == policy.baseline[k])
    && (policy.baseline[k].Missing? && found.Present? && !k.kind.Volume? ==>
          k in f.objects && f.objects[k] == Finalized(found.id, found.identity))
  }

  /** What completion certifies. */
  ghost predicate AllRecorded(policy: Policy, f: Forward) {
    && f.files.Keys == policy.files
    && (forall role: ImageRole :: role in f.images)
    && (forall k :: k in f.objects <==> k in policy.names && !k.kind.Volume?)
    && (forall k :: k in f.objects ==> f.objects[k].Finalized?)
  }

  lemma CompletedStep(policy: Policy, w: World, e: Event)
    requires Consistent(policy) && (w.forward.transaction.Completed? ==> AllRecorded(policy, w.forward))
    ensures var g := Next(policy, w, e).forward;
      && (g.transaction.Completed? ==> AllRecorded(policy, g))
      && (w.forward.transaction.Completed? ==>
            g.transaction.Completed? && g.files == w.forward.files && g.objects == w.forward.objects &&
              g.images == w.forward.images)
  {
    hide AuthorizeFile, AuthorizeObject, FinalizeObject, AuthorizeImages, RestoreStep, AllRecorded, MarkCompleted;
    match e
    case HostChange(_) =>
    case GrantFile(path, d) => OnlyWhileOpen(policy, w, path, d, Key(Secret, ""), "", map[]);
    case GrantObject(k, i) => OnlyWhileOpen(policy, w, [], Grant(Meta(0, 0, 0), 0, []), k, i, map[]);
    case ConfirmObject(k, i) => OnlyWhileOpen(policy, w, [], Grant(Meta(0, 0, 0), 0, []), k, i, map[]);
    case GrantImages(r) => OnlyWhileOpen(policy, w, [], Grant(Meta(0, 0, 0), 0, []), Key(Secret, ""), "", r);
    case Complete => CompletingCompletes(policy, w.forward);
    case Acknowledge => CompleteOutcome(policy, w.forward, Acknowledged);
    case RestoreRun(n, q, d) =>
      RestoreOutcome(policy, w, n, q, d);
      CompleteOutcome(policy, w.forward, RestoreStep(policy, w, n, q, d).forward.outcome);
  }

  lemma OnlyWhileOpen(policy: Policy, w: World, path: Path, d: Grant, k: Key, i: string, r: map<ImageRole, string>)
    ensures AuthorizeFile(policy, w.forward, path, d).Success? ==>
      OpenTransaction(AuthorizeFile(policy, w.forward, path, d).value)
    ensures AuthorizeObject(policy, w.host, w.forward, k, i).Success? ==>
      OpenTransaction(AuthorizeObject(policy, w.host, w.forward, k, i).value)
    ensures FinalizeObject(policy, w.host, w.forward, k, i).Success? ==>
      OpenTransaction(FinalizeObject(policy, w.host, w.forward, k, i).value)
    ensures AuthorizeImages(policy, w.host, w.forward, r).Success? ==>
      OpenTransaction(AuthorizeImages(policy, w.host, w.forward, r).value)
    ensures w.forward.transaction.Completed? ==>
      AuthorizeFile(policy, w.forward, path, d).Failure? && AuthorizeObject(policy, w.host, w.forward, k, i).Failure? &&
      FinalizeObject(policy, w.host, w.forward, k, i).Failure? && AuthorizeImages(policy, w.host, w.forward, r).Failure?
  {
    hide Manageable, ValidObject, ValidImage;
  }

  lemma CompletingCompletes(policy: Policy, f: Forward)
    ensures MarkCompleted(policy, f).Success? ==>
      (f.transaction.Completed? || AllRecorded(policy, MarkCompleted(policy, f).value)) &&
      MarkCompleted(policy, f).value == f.(transaction := Completed)
  {
  }

  lemma CompleteOutcome(policy: Policy, f: Forward, outcome: RollbackOutcome)
    ensures AllRecorded(policy, f.(outcome := outcome)) == AllRecorded(policy, f)
  {
  }

  lemma RestoreOutcome(policy: Policy, w: World, n: nat, quarantined: bool, finished: bool)
    requires Consistent(policy)
    ensures var g := RestoreStep(policy, w, n, quarantined, finished).forward; g == w.forward.(outcome := g.outcome)
  {
    hide RemoveAll, Targets, PreflightClean, Retained;
  }

  /** A completed transaction certifies every file, image and object, and is closed: no later event changes an entry. */
  lemma {:induction false} CompletedIsClosed(policy: Policy, start: World, events: seq<Event>, i: nat, j: nat)
    requires Consistent(policy) && Fresh(start) && i <= j <= |events|
    ensures var f, g := Replay(policy, start, events)[i].forward, Replay(policy, start, events)[j].forward;
      && (g.transaction.Completed? ==> AllRecorded(policy, g))
      && (f.transaction.Completed? ==>
            g.transaction.Completed? && g.files == f.files && g.objects == f.objects && g.images == f.images)
    decreases j
  {
    hide Next, AllRecorded;
    if j == 0 {
      ReplayStep(policy, start, events, 0);
    } else {
      CompletedIsClosed(policy, start, events, if i < j then i else j - 1, j - 1);
      ReplayStep(policy, start, events, j - 1);
      CompletedStep(policy, Replay(policy, start, events)[j - 1], events[j - 1]);
    }
  }

  /** _load_forward refuses a ledger in which two roles record one reference differently. */
  ghost predicate OneEntryPerReference(f: Forward) {
    forall a, b :: a in f.images && b in f.images && f.images[a].reference == f.images[b].reference ==>
                     f.images[a] == f.images[b]
  }

  ghost predicate Converged(policy: Policy, before: Host, after: Host, k: Key)
    requires k in policy.baseline
  {
    && k in before.objects && k in after.objects
    && if k.kind == ObjectKind.Volume && policy.baseline[k] == Missing then after.objects[k] == before.objects[k]
       else after.objects[k] == policy.baseline[k]
  }

  /**
   Convergence: when the preflight is clean and every removal is carried out, every object is back at its
   baseline except volumes, which are kept as found, and every authorised image is back at its recorded state.
   */
  lemma RestoreConverges(policy: Policy, w: World, n: nat, quarantined: bool, finished: bool)
    requires Consistent(policy) && !w.forward.outcome.Quarantined? && PreflightClean(policy, w.host, w.forward)
    requires n >= |Targets(policy, w)|
    requires OneEntryPerReference(w.forward)
    ensures var after := RestoreStep(policy, w, n, quarantined, finished).host;
      && (forall k :: k in policy.names ==> Converged(policy, w.host, after, k))
      && (forall k :: k in w.host.objects && k !in policy.names ==>
        k in after.objects && after.objects[k] == w.host.objects[k])
      && (forall role :: role in w.forward.images ==>
            w.forward.images[role].reference in after.images &&
            after.images[w.forward.images[role].reference] == w.forward.images[role].was)
  {
    var targets := Targets(policy, w);
    RemoveAllEffect(w.host, targets);
    TargetsExact(policy, w);
    forall role | role in w.forward.images
      ensures w.forward.images[role].reference in w.host.images
      ensures ImageTarget(w.forward.images[role].reference) in targets <==>
        ImageRemovable(w.host, w.forward.images[role])
    {
      assert !ImageDrift(w.host, w.forward.images[role]);
    }
  }

  function EntryOf(f: Forward, k: Key): Option<Entry> {
    if k in f.objects then Some(f.objects[k]) else None
  }

  /**
   An object a restore may go ahead with: it is as it was at capture, or it was absent then and is a volume of its own
   name, or exactly what the ledger says the installer made.
   */
  predicate Standing(baseline: Presence, found: Presence, k: Key, entry: Option<Entry>) {
    || found == baseline
    || (baseline == Missing && k.kind == ObjectKind.Volume && found.Present? && found.identity == k.name &&
        1 <= |found.id| <= 512)
    || (baseline == Missing && k.kind != ObjectKind.Volume && found.Present? &&
        entry == Some(Finalized(found.id, found.identity)))
  }

  /** An image a restore may go ahead with: it is as recorded, or it was absent then. */
  predicate StandingImage(e: ImageEntry, found: Presence) {
    && (found == e.was || e.was == Missing)
    && (found.Present? ==> found.identity == e.reference)
  }

  /** What a restore demands before it touches anything. */
  ghost predicate Ready(policy: Policy, host: Host, f: Forward)
    requires Consistent(policy)
  {
    && f.outcome != RollbackOutcome.Quarantined
    && (forall k :: k in policy.names ==>
          k in host.objects && Standing(policy.baseline[k], host.objects[k], k, EntryOf(f, k)))
    && (forall role :: role in f.images ==>
          f.images[role].reference in host.images &&
            StandingImage(f.images[role], host.images[f.images[role].reference]))
  }

  lemma DriftExactly(policy: Policy, host: Host, f: Forward, k: Key)
    requires k in policy.baseline && k in host.objects
    ensures ObjectDrift(policy, host, f, k) <==> !Standing(policy.baseline[k], host.objects[k], k, EntryOf(f, k))
  {
  }

  lemma ImageDriftExactly(host: Host, e: ImageEntry)
    requires e.reference in host.images
    ensures ImageDrift(host, e) <==> !StandingImage(e, host.images[e.reference])
  {
  }

  /** The preflight is clean exactly when everything stands as it may. */
  lemma ReadyExactly(policy: Policy, host: Host, f: Forward)
    requires Consistent(policy)
    ensures Ready(policy, host, f) <==> !f.outcome.Quarantined? && PreflightClean(policy, host, f)
  {
    forall k | k in policy.names && k in host.objects
      ensures ObjectDrift(policy, host, f, k) <==> !Standing(policy.baseline[k], host.objects[k], k, EntryOf(f, k))
    {
      DriftExactly(policy, host, f, k);
    }
    forall role | role in f.images && f.images[role].reference in host.images
      ensures ImageDrift(host, f.images[role]) <==>
        !StandingImage(f.images[role], host.images[f.images[role].reference])
    {
      ImageDriftExactly(host, f.images[role]);
    }
    assert forall k :: k in policy.names && k !in host.objects ==> ObjectDrift(policy, host, f, k);
    assert forall role :: role in f.images && f.images[role].reference !in host.images ==>
      ImageDrift(host, f.images[role]);
    hide ObjectDrift, ImageDrift, Standing, StandingImage;
  }

  lemma {:induction false} TargetsCount(policy: Policy, host: Host, f: Forward, names: seq<Key>)
    requires forall k :: k in names ==> k in policy.baseline
    ensures |ObjectTargets(policy, host, f, names)| <= |names|
  {
    hide Removable;
    if names != [] {
      assert names == names[..|names| - 1] + [names[|names| - 1]];
      TargetsCount(policy, host, f, names[..|names| - 1]);
    }
  }

  lemma {:induction false} ImageCount(host: Host, f: Forward, roles: seq<ImageRole>)
    ensures |ImageTargets(host, f, roles)| <= |roles|
  {
    if roles != [] { ImageCount(host, f, roles[..|roles| - 1]); }
  }

  /** Whatever was finalised for k before time i of the run is still there. */
  ghost predicate Unchanged(policy: Policy, h: seq<World>, events: seq<Event>, i: nat, k: Key)
    requires i < |h|
  {
    forall c: nat, id, identity :: c < i && ConfirmedAt(policy, h, events, c, k, id, identity) ==>
      k in h[i].host.objects && h[i].host.objects[k] == Present(id, identity)
  }

  /**
   At time i of the run the objects that were there at capture are as they were, the others as they were finalised,
   volumes are absent or carry their own name, and images are as recorded or new.
   */
  ghost predicate Undisturbed(policy: Policy, h: seq<World>, events: seq<Event>, i: nat)
    requires Consistent(policy) && i < |h|
  {
    var host, f := h[i].host, h[i].forward;
    && (forall k :: k in policy.names && policy.baseline[k].Present? ==>
          k in host.objects && host.objects[k] == policy.baseline[k])
    && (forall k :: k in policy.names && policy.baseline[k] == Missing && k.kind != ObjectKind.Volume ==>
          Unchanged(policy, h, events, i, k))
    && (forall k :: k in policy.names && policy.baseline[k] == Missing && k.kind == ObjectKind.Volume ==>
          k in host.objects && Standing(Missing, host.objects[k], k, None))
    && (forall role :: role in f.images ==>
          f.images[role].reference in host.images &&
            StandingImage(f.images[role], host.images[f.images[role].reference]))
  }

  /**
   A completed install is rolled back: in any run with a completed transaction, no quarantine pending and nothing
   disturbed since, a restore goes ahead, and with nothing failing every object that was absent at capture, volumes
   excepted, is absent again, every image is as recorded, and nothing else changes.
   */
  lemma CompletedRollsBack(policy: Policy, start: World, events: seq<Event>, i: nat)
    requires Consistent(policy) && Fresh(start) && i < |events|
    requires events[i].RestoreRun? && events[i].removals >= |policy.names| + 3
    requires var w := Replay(policy, start, events)[i];
      && w.forward.transaction == Completed && w.forward.outcome != RollbackOutcome.Quarantined
      && OneEntryPerReference(w.forward)
    requires Undisturbed(policy, Replay(policy, start, events), events, i)
    ensures var h := Replay(policy, start, events);
      && Ready(policy, h[i].host, h[i].forward)
      && (forall k :: k in policy.names && k.kind != ObjectKind.Volume && policy.baseline[k] == Missing ==>
            h[i].host.objects[k].Present?)
      && RolledBack(policy, h[i].host, h[i + 1].host, h[i].forward)
  {
    hide Undisturbed, Earned, AllRecorded, OneEntryPerReference, RestoreStep, Standing, RolledBack;
    var h := Replay(policy, start, events);
    ReplayStep(policy, start, events, i);
    CompletedIsClosed(policy, start, events, i, i);
    EarnedAlways(policy, start, events, i);
    UndisturbedReady(policy, h, events, i);
    var e := events[i];
    ReadyRollsBack(policy, h[i], e.removals, e.quarantined, e.finished);
    assert h[i + 1] == RestoreStep(policy, h[i], e.removals, e.quarantined, e.finished);
  }

  lemma UndisturbedReady(policy: Policy, h: seq<World>, events: seq<Event>, i: nat)
    requires Consistent(policy) && i < |h| && h[i].forward.outcome != RollbackOutcome.Quarantined
    requires AllRecorded(policy, h[i].forward) && Earned(policy, h, events, i, h[i].forward)
    requires Undisturbed(policy, h, events, i)
    ensures Ready(policy, h[i].host, h[i].forward)
    ensures forall k :: k in policy.names && k.kind != ObjectKind.Volume && policy.baseline[k] == Missing ==>
      h[i].host.objects[k].Present?
  {
    hide Standing, StandingImage, Earned, Unchanged, AllRecorded;
    forall k | k in policy.names
      ensures k in h[i].host.objects && Standing(policy.baseline[k], h[i].host.objects[k], k, EntryOf(h[i].forward, k))
      ensures policy.baseline[k] == Missing && k.kind != ObjectKind.Volume ==> h[i].host.objects[k].Present?
    {
      CompletedStands(policy, h, events, i, k);
    }
  }

  /** Objects absent at capture are absent again, volumes excepted; images are as recorded; nothing else changed. */
  ghost predicate RolledBack(policy: Policy, before: Host, after: Host, f: Forward)
    requires Consistent(policy)
  {
    && (forall k :: k in policy.names && k.kind != ObjectKind.Volume && policy.baseline[k] == Missing ==>
          k in after.objects && after.objects[k] == Missing)
    && (forall k :: k in before.objects &&
                    !(k in policy.names && k.kind != ObjectKind.Volume && policy.baseline[k] == Missing) ==>
          k in after.objects && after.objects[k] == before.objects[k])
    && (forall role :: role in f.images ==>
          f.images[role].reference in after.images && after.images[f.images[role].reference] == f.images[role].was)
  }

  lemma ReadyRollsBack(policy: Policy, w: World, n: nat, quarantined: bool, finished: bool)
    requires Consistent(policy) && OneEntryPerReference(w.forward) && Ready(policy, w.host, w.forward)
    requires n >= |policy.names| + 3
    ensures RolledBack(policy, w.host, RestoreStep(policy, w, n, quarantined, finished).host, w.forward)
  {
    ReadyExactly(policy, w.host, w.forward);
    TargetsCount(policy, w.host, w.forward, policy.names);
    ImageCount(w.host, w.forward, ROLES);
    hide PreflightClean, RestoreStep, OneEntryPerReference, ObjectTargets, ImageTargets, StandingImage;
    RestoreConverges(policy, w, n, quarantined, finished);
  }

  /** A non-volume that was absent at capture has the id and identity of its ledger entry. */
  lemma CompletedStands(policy: Policy, h: seq<World>, events: seq<Event>, i: nat, k: Key)
    requires Consistent(policy) && i < |h| && k in policy.names
    requires AllRecorded(policy, h[i].forward) && Earned(policy, h, events, i, h[i].forward)
    requires policy.baseline[k].Present? ==> k in h[i].host.objects && h[i].host.objects[k] == policy.baseline[k]
    requires policy.baseline[k] == Missing && k.kind != ObjectKind.Volume ==> Unchanged(policy, h, events, i, k)
    requires policy.baseline[k] == Missing && k.kind == ObjectKind.Volume ==>
      k in h[i].host.objects && Standing(Missing, h[i].host.objects[k], k, None)
    ensures k in h[i].host.objects && Standing(policy.baseline[k], h[i].host.objects[k], k, EntryOf(h[i].forward, k))
    ensures policy.baseline[k] == Missing && k.kind != ObjectKind.Volume ==> h[i].host.objects[k].Present?
  {
    hide Manageable, ImageGrantedAt, GrantedAt, ConfirmedAt;
    if policy.baseline[k].Missing? && !k.kind.Volume? {
      var f := h[i].forward;
      var a: nat, c: nat :| a < c < i && GrantedAt(policy, h, events, a, k, f.objects[k].identity) &&
        ConfirmedAt(policy, h, events, c, k, f.objects[k].id, f.objects[k].identity);
    }
  }
}
