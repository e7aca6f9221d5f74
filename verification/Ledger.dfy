/**
 The forward ledger: what the installer may change on the host, and the part of a restore that removes podman
 objects and images. Runs interleave ledger operations, restores (aborted after any number of removals) and
 arbitrary host changes.
 */
module Ledger {
  import opened Common
  import opened FileSystem
  import opened Receipt

  datatype ObjectKind = Container | Network | Volume | Secret

  datatype Key = Key(kind: ObjectKind, name: string)

  datatype Presence = Missing | Present(id: string, identity: string)

  datatype Entry = Intent(identity: string) | Finalized(id: string, identity: string)

  datatype ImageRole = CoreImage | PostgresImage | RunnerImage

  datatype ImageEntry = ImageEntry(reference: string, was: Presence)

  datatype TransactionState = Open | Completed

  datatype Forward = Forward(
    transaction: TransactionState,
    outcome: RollbackOutcome,
    files: map<Path, Grant>,
    objects: map<Key, Entry>,
    images: map<ImageRole, ImageEntry>)

  /** What podman reports; a key or reference it has no entry for is one whose inspection fails. */
  datatype Host = Host(objects: map<Key, Presence>, images: map<string, Presence>)

  /** The fixed lists of the script and the baseline its receipt recorded. */
  datatype Policy = Policy(
    names: seq<Key>,
    files: set<Path>,
    baseline: map<Key, Presence>,
    isReference: string -> bool)

  predicate WellFormedIdentity(policy: Policy, key: Key, identity: string) {
    if key.kind.Container? then policy.isReference(identity) else identity == key.name
  }

  predicate ValidObject(policy: Policy, key: Key, p: Presence) {
    p.Present? ==> p.id != "" && |p.id| <= 512 && WellFormedIdentity(policy, key, p.identity)
  }

  predicate ValidImage(reference: string, p: Presence) {
    p.Present? ==> p.identity == reference
  }

  predicate OpenTransaction(f: Forward) {
    f.transaction.Open? && f.outcome.Clean?
  }

  predicate Manageable(policy: Policy, key: Key, identity: string) {
    key in policy.names && !key.kind.Volume? && WellFormedIdentity(policy, key, identity)
  }

  datatype Code =
    | ForwardStateInvalid | TransactionClosed | TransactionIncomplete | QuarantineNotPending
    | HostCommandFailed // an inspection failed
    | HostStateInvalid

  function AuthorizeFile(policy: Policy, f: Forward, path: Path, descriptor: Grant): Result<Forward, Code> {
    if path !in policy.files then Failure(ForwardStateInvalid)
    else if !OpenTransaction(f) then Failure(TransactionClosed)
    else Success(f.(files := f.files[path := descriptor]))
  }

  function AuthorizeObject(policy: Policy, host: Host, f: Forward, key: Key, identity: string): Result<Forward, Code> {
    if !Manageable(policy, key, identity) || key !in policy.baseline then Failure(ForwardStateInvalid)
    else if !OpenTransaction(f) then Failure(TransactionClosed)
    else if key !in host.objects then Failure(HostCommandFailed)
    else if !ValidObject(policy, key, host.objects[key]) || host.objects[key] != policy.baseline[key] then
      Failure(HostStateInvalid)
    else if key in f.objects then
      if f.objects[key] == Intent(identity) then Success(f) else Failure(ForwardStateInvalid)
    else Success(f.(objects := f.objects[key := Intent(identity)]))
  }

  function FinalizeObject(policy: Policy, host: Host, f: Forward, key: Key, identity: string): Result<Forward, Code> {
    if !Manageable(policy, key, identity) then Failure(ForwardStateInvalid)
    else if !OpenTransaction(f) then Failure(TransactionClosed)
    else if key !in f.objects || f.objects[key].identity != identity then Failure(ForwardStateInvalid)
    else if key !in host.objects then Failure(HostCommandFailed)
    else if !ValidObject(policy, key, host.objects[key]) || host.objects[key].Missing? ||
      host.objects[key].identity != identity then
      Failure(HostStateInvalid)
    else if f.objects[key].Finalized? then
      if f.objects[key].id == host.objects[key].id then Success(f) else Failure(HostStateInvalid)
    else Success(f.(objects := f.objects[key := Finalized(host.objects[key].id, identity)]))
  }

  /** Why an image cannot be recorded. */
  function ImageFault(host: Host, reference: string): Option<Code> {
    if reference !in host.images then Some(HostCommandFailed)
    else if !ValidImage(reference, host.images[reference]) then Some(HostStateInvalid)
    else None
  }

  lemma EveryRole(references: map<ImageRole, string>)
    requires forall role: ImageRole :: role in references
    ensures forall role: ImageRole ::
      references[role] in [references[CoreImage], references[PostgresImage], references[RunnerImage]]
  {
    forall role: ImageRole
      ensures references[role] in [references[CoreImage], references[PostgresImage], references[RunnerImage]]
    {
      if !role.CoreImage? && !role.PostgresImage? { assert role.RunnerImage?; }
    }
  }

  /** The roles are looked at in their fixed order. */
  function FirstFault(host: Host, references: map<ImageRole, string>): (r: Option<Code>)
    requires forall role: ImageRole :: role in references
    ensures r.None? <==> forall role: ImageRole :: ImageFault(host, references[role]).None?
  {
    EveryRole(references);
    if ImageFault(host, references[CoreImage]).Some? then ImageFault(host, references[CoreImage])
    else if ImageFault(host, references[PostgresImage]).Some? then ImageFault(host, references[PostgresImage])
    else ImageFault(host, references[RunnerImage])
  }

  function AuthorizeImages(policy: Policy, host: Host, f: Forward,
                           references: map<ImageRole, string>): Result<Forward, Code> {
    if !(forall role: ImageRole :: role in references && policy.isReference(references[role])) then
      Failure(ForwardStateInvalid)
    else if !OpenTransaction(f) then Failure(TransactionClosed)
    else if f.images != map[] then
      if forall role: ImageRole :: role in f.images && f.images[role].reference == references[role] then Success(f)
      else Failure(ForwardStateInvalid)
    else if FirstFault(host, references).Some? then Failure(FirstFault(host, references).value)
    else
      Success(f.(images := map role: ImageRole | role in references ::
        ImageEntry(references[role], host.images[references[role]])))
  }

  function MarkCompleted(policy: Policy, f: Forward): Result<Forward, Code> {
    if f.transaction.Completed? then Success(f)
    else if !OpenTransaction(f) then Failure(TransactionClosed)
    else if f.files.Keys != policy.files ||
            !(forall role: ImageRole :: role in f.images) ||
            f.objects.Keys != (set k | k in policy.names && !k.kind.Volume?) ||
            exists k :: k in f.objects && !f.objects[k].Finalized? then
      Failure(TransactionIncomplete)
    else Success(f.(transaction := Completed))
  }

  function AcknowledgeQuarantine(f: Forward): Result<Forward, Code> {
    if f.outcome.Clean? || f.outcome.RetainedData? then Failure(QuarantineNotPending)
    else Success(f.(outcome := Acknowledged))
  }

  /** An inspection that a restore makes before it touches anything fails. */
  predicate Unread(policy: Policy, host: Host, f: Forward) {
    || (exists k :: k in policy.names && k !in host.objects)
    || (exists role :: role in f.images && f.images[role].reference !in host.images)
  }

  /** Whether the object under key keeps a restore from starting: it cannot be inspected, or it has drifted. */
  predicate ObjectDrift(policy: Policy, host: Host, f: Forward, key: Key)
    requires key in policy.baseline
  {
    if key !in host.objects then true
    else if policy.baseline[key].Present? then host.objects[key] != policy.baseline[key]
    else if host.objects[key].Missing? then false
    else if key.kind.Volume? then
      !(host.objects[key].identity == key.name && host.objects[key].id != "" && |host.objects[key].id| <= 512)
    else
      !(key in f.objects && f.objects[key] == Finalized(host.objects[key].id, host.objects[key].identity))
  }

  predicate Removable(policy: Policy, host: Host, f: Forward, key: Key)
    requires key in policy.baseline
  {
    && !ObjectDrift(policy, host, f, key)
    && policy.baseline[key].Missing?
    && host.objects[key].Present?
    && !key.kind.Volume?
  }

  predicate ImageDrift(host: Host, e: ImageEntry) {
    if e.reference !in host.images || !ValidImage(e.reference, host.images[e.reference]) then true
    else e.was.Present? && host.images[e.reference] != e.was
  }

  predicate ImageRemovable(host: Host, e: ImageEntry) {
    !ImageDrift(host, e) && e.was.Missing? && host.images[e.reference].Present?
  }

  ghost predicate Consistent(policy: Policy) {
    && (forall k :: k in policy.names <==> k in policy.baseline)
    && (forall i, j :: 0 <= i < j < |policy.names| ==> policy.names[i] != policy.names[j])
  }

  predicate PreflightClean(policy: Policy, host: Host, f: Forward)
    requires forall k :: k in policy.names ==> k in policy.baseline
  {
    && (forall k :: k in policy.names ==> !ObjectDrift(policy, host, f, k))
    && (forall role :: role in f.images ==> !ImageDrift(host, f.images[role]))
  }
}
