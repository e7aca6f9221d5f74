# Verification of the approval, rollback and workspace cores

A Dafny model of five parts of the repository and the properties they are built to have.

1. **The rollback transaction** (`scripts/lil-tweak-rollback.py`). `FileSystem`, `Quarantine`, `CrossDevice`,
   `Receipt`, `Restore`, `Passes`, `Ledger`, `LedgerRuns`, `Transaction`. The file system is a map from path to node;
   every primitive operation may fail at any call, and what a failure leaves behind is part of each contract. `Volume`
   and `Restorer` are updated in place by the copy, verify, delete, evict and restore loops. The ledger is a value
   whose whole runs are replayed, and `Transaction.Rollback` updates it in place.
2. **The approval mirror** (`lib/engineering-d1.ts`, `lib/engineering.ts`, `lib/core-protocol.ts`,
   `core/lil_tweak/state.py`, `lib/engineering-store.ts`). `Text`, `Mirror`, `MirrorRuns`, `MirrorEvidence`,
   `MirrorDelivery`, `Uploads`, `HonestCore`, `D1Store`, `MirrorRules`. An operation names the past database states
   its separate reads saw and commits against the newest one, so stale reads are all possible. `D1Store` has the same
   operations as methods that let other requests commit between any two statements; each of its executions is such a
   run.
3. **The workspace store** (`lib/workspace.ts`). `Project`, `ProjectRules`, `Workspace`, `Base64`, `Json`, `Bundles`,
   `Portable`, `PortableRules`. Other requests run between the statements of each method; they use the same primitives
   under the same preconditions, which every method here is shown to meet, and were not given its fresh identifiers. A
   database write may be applied and still report failure.
4. **Request signing** (`core/lil_tweak/signing.py`, `lib/core-signing.ts`). `Sorting`, `Strings`, `Percent`,
   `Signing`, `SigningRules`, `Agreement`. Whether Python puts an empty authority back before a path of two slashes
   (it does from 3.12.4 on) is the parameter `keeps`.
5. **Inventories and encodings** (`core/lil_tweak/archive.py`, `core/lil_tweak/evidence.py`,
   `lib/engineering-input.ts`, `lib/create-request.ts`). `Archive`, `SourceDigest`, `Context`, `ContextRules`.

`Common` holds small shared types. The `…Rules` modules write the rules of a part out once more, as names, tables,
limits and positions, and show that its operations follow them exactly; they say both what is accepted and that
nothing else is.

## Assumptions

- Managed paths are any list of distinct paths none of which lies below a managed regular file.
- SHA-256 is a function parameter (`sha`, or the hash of a `Seal`); equal digests are never taken to mean equal bytes.
- The order of JSON keys is any total preorder: the order in which the entries of an object come out of
  `stableValue` (array indices first, as JavaScript keeps them, then by `localeCompare`). Where an export is read back,
  it ranks no two of the names an export uses equal (`Bundles.TellsApart`).
- A text is a sequence of UTF-16 code units. `Context`, which cuts texts, has a type for them; elsewhere Dafny strings
  stand for them, so no unit is a surrogate.
- Failing calls of a request are counted in a ghost field `faults`; what a contract says of a request without failing
  calls is said of those that leave it as it was.
- The owner-side `transition` is called only with `cancelled`. `applyCoreSnapshot` is called only with parsed snapshots
  and only once a remote job id is set.
- Evidence theorems assume the core reports one evidence list per core revision: the insert guard at
  `lib/engineering-d1.ts:625` also passes for a request that lost to another with the same core revision.
- An honest core keeps the formats of its own contracts, raises its revision with every change, sets source digest and
  proposal once, only adds evidence and none after the proposal, learns decisions only as the mirror recorded them and
  exports only after the mirror shows `applying`.
- A database write whose answer is lost was applied, if at all, before the failure was reported. An import's failing
  insert stored nothing.
- Case folding of a ZIP path works component by component. A UTF-8 decoder is any function that inverts UTF-8 encoding
  and neither drops nor makes up ASCII bytes, whatever it does with malformed input. Dates are normalised by
  any idempotent function.

## What turned out not to hold

- **Same core revision, two contents.** `applyCoreSnapshot` reads the core revision separately from the row, and its
  batch admits an equal core revision. When the revision read is older than the row read, a different snapshot at the
  stored revision replaces it. `MirrorDelivery.Equivocation` is such a run; `EquivocationExactly` says when.
- **A draft report is parsed and refused.** The parser accepts the core state `draft`, and no state of the mirror lets
  it in: it is the one report of an honest core that ends in a conflict (`HonestCore.AcceptedExactly`,
  `MirrorRuns.DraftNeverMirrored`).
- **A partial copy can stay behind.** In a cross-device copy, a failure to identify a node right after creating it, or
  a failure while a partial copy is taken away again, can leave part of a copy. `CrossDevice.Outcome` says that nothing
  else does and that the first always does; `CrossDevice.OrphanStays` is a run.
- **Whitespace ETags.** The database store accepts an ETag of spaces only, the in-memory store refuses it: the one input
  on which they differ (`Uploads.UploadRefines`; `Uploads.BlankEtagTaken` is a run).
- **Duplicate attachment ids.** An accepted import stores distinct attachment ids exactly when it has no undeclared
  content entry (`Portable.DistinctExactly`). One that names an attachment twice and carries such an entry is accepted,
  and what it stores cannot be imported from its own export (`Portable.DuplicateImport`, at a concrete file
  `Portable.DuplicateSample`).
- **The digest and keys that compare equal.** `localeCompare` ranks some different strings equal, and then the canonical
  form depends on their order: all reorderings of a value have one form exactly when no object in it has two such keys
  (`Json.NoTiesExactly`; `Json.TiedKeys` is a pair of spellings).
- **Import clean-up.** If the insert were applied with its answer lost, the clean-up at `lib/workspace.ts:725-727` would
  leave references dangling whenever the project has attachments (`Portable.CleanupAfterLostInsert`).
- **An update may be reported as a conflict although it landed**: its answer was lost and another write followed
  before the reconciling read. `Workspace.Store.WriteProject` says that this is the only such case and that
  the conflict then shows a later revision, `Workspace.OvertakenUpdate` that it happens.
- **Base64 need not be canonical**, whatever the importer's message says: an accepted text is the encoding of its bytes
  exactly when it has no white space, is padded to whole groups and has no spare bit set (`Base64.CanonicalExactly`).
  `Base64.NotCanonical` has a text failing each of the three.
- **One canonical form for two targets.** Python drops an empty authority, so `///x` is signed as `/x`
  (`Signing.EmptyAuthority`); and before Python 3.12.4 a canonical form that begins with two slashes is not its own
  (`Signing.PyIdempotent`, an equivalence).
- **The two canonical targets differ** when there is a raw tab (Python drops it), when the query begins with a second
  question mark (`URLSearchParams` drops it), when the target begins with two slashes (unless it begins with four and
  Python puts two back), and when two parameters are ordered differently by code point and by UTF-16 unit, and in no
  other case (`Agreement.TargetsAgree`; `Agreement.DifferentForms` and `Agreement.OrdersDiffer` are targets).
- **ZIP members that name the root.** `PurePosixPath` drops single dots, so inspection accepts `./`; extraction then
  refuses the archive (`Archive.RootEntryAccepted`, `Archive.ExtractZip`).
- **An oversized context header is returned as it is**, because the size is looked at only after an item is added: the
  result is over the limit exactly when the header alone is (`Context.BoundedProjectContext`; `Context.Oversized` is
  such a header).
- **A bounded context need not be a fixed point**: it is one exactly when no field was cut directly after a space
  (`Context.FixedPoint`; `Context.NoFixedPoint` is an input).

## Model

| member | source | states |
|---|---|---|
| Quarantine.Volume.VerifyTree | scripts/lil-tweak-rollback.py:2867-2942 | comparing a tree with a record of one says "same" exactly when the two are node for node the same tree, unless a primitive fails |
| Quarantine.Volume.RemoveTree | scripts/lil-tweak-rollback.py:2527-2557 | deletes a recorded tree bottom-up and nothing else, and with exact matching only if it is the recorded one; without a failing primitive it succeeds exactly then |
| Quarantine.BranchesBelow | scripts/lil-tweak-rollback.py:2569-2588 | the children already copied never count for more entries or bytes than the whole directory, so budgets are spent once |
| Quarantine.FitsExactly | scripts/lil-tweak-rollback.py:2569-2612 | a tree fits a fresh budget exactly when it has at most 4096 nodes, 64 MiB and 32 levels, of files with one link, symbolic links of at most 4 KiB and directories |
| CrossDevice.CopyLeaf | scripts/lil-tweak-rollback.py:2583-2771 | a file or link is copied with contents, owner and mode, or the destination is as it was, except for the two unclean cases; after a failed identification the copy is still there |
| CrossDevice.OrphanStays | scripts/lil-tweak-rollback.py:2583-2771 | a run in which an empty copy stays behind |
| CrossDevice.CopyDirectory | scripts/lil-tweak-rollback.py:2773-2864 | a directory is copied whole within the budgets or taken away again |
| CrossDevice.CopyTree | scripts/lil-tweak-rollback.py:2560-2864 | all or nothing over any tree: with no failing primitive it copies exactly when kinds, depth, entries and bytes fit, and the counters grow by exactly the tree; otherwise the destination is unchanged except in the stated cases |
| CrossDevice.Rename | scripts/lil-tweak-rollback.py:3006-3023 | a whole tree moves, with nothing else touched, or nothing changes |
| CrossDevice.PublishCopy | scripts/lil-tweak-rollback.py:2993-3012 | a quarantine name appears only holding a complete copy of what was there when the copy began, verified against that |
| CrossDevice.MoveAcross | scripts/lil-tweak-rollback.py:2978-3033 | at every exit either the source is intact or a complete published copy exists; with no failing primitive it succeeds exactly when the tree fits the budgets |
| Receipt.FindParent | scripts/lil-tweak-rollback.py:254-305 | walking to a parent tells present, missing and unsafe ancestors apart exactly |
| Receipt.Capture | scripts/lil-tweak-rollback.py:586-656 | a receipt records precisely the managed paths as they stand, and fails only on an unsafe ancestor or a path of the wrong kind |
| Receipt.CaptureClosed | scripts/lil-tweak-rollback.py:586-656 | above a recorded path every managed directory is recorded too |
| Restore.Restorer.MarkQuarantined | scripts/lil-tweak-rollback.py:2503-2507 | the quarantined outcome is on disk when it returns, or a write failed |
| Restore.Restorer.MoveToVault | scripts/lil-tweak-rollback.py:3045-3098 | whatever lies at a path moves whole under a fresh quarantine name; on failure nothing is lost |
| Restore.Restorer.Evict | scripts/lil-tweak-rollback.py:3036-3114 | only a file equal to its ledger entry is deleted, and then the quarantine is as before; everything else stays in quarantine unchanged and is reported as drift |
| Restore.Restorer.EvictUnlessKept | scripts/lil-tweak-rollback.py:3328-3356 | unauthorised content moves only after the quarantined outcome is durable |
| Restore.Restorer.OpenParent | scripts/lil-tweak-rollback.py:254-305 | creates nothing but private ancestor directories, changes nothing else, and refuses exactly when an ancestor is not a directory |
| Restore.Restorer.RestoreDirectory | scripts/lil-tweak-rollback.py:3272-3314 | a recorded directory ends with its captured descriptor, its contents untouched and what was in the way conserved |
| Restore.Restorer.RestoreFile | scripts/lil-tweak-rollback.py:3316-3356 | a managed file ends as captured, or absent, with anything else found there conserved |
| Restore.Restorer.PutFile | scripts/lil-tweak-rollback.py:3117-3166 | writes the captured file into a free place and changes nothing else |
| Restore.Restorer.RemoveDirectory | scripts/lil-tweak-rollback.py:3358-3396 | a directory absent at capture is gone afterwards: removed if empty, otherwise moved whole to quarantine |
| Restore.RestoredExactly | scripts/lil-tweak-rollback.py:3398-3409 | what counts as restored: absent if it was, or the recorded kind, owner and mode and, for a file, size and digest |
| Passes.ProgressStep | scripts/lil-tweak-rollback.py:3272-3396 | the invariant of the three ordered passes over one entry |
| Passes.UnsafeIsBlocked | scripts/lil-tweak-rollback.py:285-300 | an abort on an unsafe path is always the fault of the state the restore began from |
| Passes.RestoreDirectories | scripts/lil-tweak-rollback.py:3272-3314 | top-down pass: all recorded directories restored, or a justified abort that loses nothing |
| Passes.RestoreFiles | scripts/lil-tweak-rollback.py:3316-3356 | file pass: the same for managed files, with the directories kept |
| Passes.RemoveDirectories | scripts/lil-tweak-rollback.py:3358-3396 | bottom-up pass: the same for directories absent at capture |
| Passes.Verify | scripts/lil-tweak-rollback.py:3398-3409 | the closing comparison reports drift exactly when some managed path differs from its baseline |
| Passes.RestorePaths | scripts/lil-tweak-rollback.py:3272-3409 | after capture and arbitrary host changes, with no failing primitive: it completes exactly when the host is restorable, provided every managed tree on another device fits the copy budgets; it runs over budget only if one does not. On completion every managed path is as captured, no drift is found and nothing unmanaged has changed; on every exit nothing but authorised files is lost |
| LedgerRuns.ForwardStep | scripts/lil-tweak-rollback.py:2186-2330 | one event records at most one new object intent, of a manageable object authorised in this state, or turns one intent into the id found on the host, or records all images at once as they stand, and changes no other entry |
| LedgerRuns.EntriesAdvance | scripts/lil-tweak-rollback.py:2186-2330 | over every run an object entry only goes from nothing to intent to finalized with its identity and id fixed, and image entries are written once |
| LedgerRuns.RemovalsAreOwned | scripts/lil-tweak-rollback.py:3190-3265 | over every run an object a restore removes was absent at capture, was authorised while absent, was later finalized under exactly the id it is removed by, and is not a volume |
| LedgerRuns.RemovedImagesWereAbsent | scripts/lil-tweak-rollback.py:2291-2330 | over every run a removed image stands in the ledger under a role whose entry was recorded by a successful authorisation that named this reference in this role while the image was missing |
| LedgerRuns.DriftTouchesNothing | scripts/lil-tweak-rollback.py:3187-3256 | over every run, a restore that changed anything found no pending quarantine, every object present at capture exactly as captured, every other one absent, a volume, or authorised while absent and finalised later under exactly the id it had, and no image drifted |
| LedgerRuns.CompletedIsClosed | scripts/lil-tweak-rollback.py:2333-2362 | over every run a completed transaction has every file and image recorded and every managed object finalized, and no later operation changes an entry |
| LedgerRuns.RestoreConverges | scripts/lil-tweak-rollback.py:3190-3265 | after a clean preflight every object is at its baseline except volumes absent at capture, which stay as found, and every authorised image at its recorded state |
| LedgerRuns.ReadyExactly | scripts/lil-tweak-rollback.py:3187-3256 | the preflight is clean exactly when every object under a listed name can be inspected and is as at capture, or was absent then and is a well-formed volume or exactly what the ledger says was made, and every recorded image is as it was or, if it was missing, anything of its own reference |
| LedgerRuns.CompletedRollsBack | scripts/lil-tweak-rollback.py:3169-3265 | over every run: once a transaction is completed and the host stands as its operations left it, a restore goes ahead, and with every removal done it removes exactly the objects and images that were absent at capture, volumes excepted, and changes nothing else |
| Transaction.Rollback.AuthorizeImages | scripts/lil-tweak-rollback.py:2291-2330 | the role loop records every role as the image stands, or refuses and records none |
| Transaction.Rollback.AuthorizeObject | scripts/lil-tweak-rollback.py:2186-2233 | records an intent exactly for a listed object that is no volume, under a well-formed identity, in an open transaction, while it stands as at capture; again only for the same identity |
| Transaction.Rollback.FinalizeObject | scripts/lil-tweak-rollback.py:2236-2288 | records the id found on the host exactly for an object with an intent of the identity found there, or the same id again |
| Transaction.Rollback.AuthorizeFile | scripts/lil-tweak-rollback.py:2157-2183 | records the given descriptor exactly for a managed file in an open transaction |
| Transaction.Rollback.MarkCompleted | scripts/lil-tweak-rollback.py:2333-2362 | completes exactly when every file and image is recorded and every managed object finalized |
| Transaction.Rollback.AcknowledgeQuarantine | scripts/lil-tweak-rollback.py:2467-2480 | the outcome becomes acknowledged exactly from quarantined or acknowledged |
| Transaction.Rollback.PreflightObjects | scripts/lil-tweak-rollback.py:3196-3233 | fails exactly when some inspection does; otherwise finds drift exactly when some object is neither as at capture nor, absent then, a well-formed volume or the object finalised under the same id, and without drift lists precisely the objects made since, volumes apart, and says whether one of those is there |
| Transaction.Rollback.PreflightImages | scripts/lil-tweak-rollback.py:3235-3253 | the same for images, each shared reference once |
| Transaction.Rollback.RestoreObjects | scripts/lil-tweak-rollback.py:3184-3265 | goes ahead exactly when no quarantine is pending and every object and image stands as it may, stated over host and ledger, and otherwise refuses untouched, telling pending quarantine, a failing inspection and drift apart; a failing removal leaves a prefix of the removals done |
| Transaction.Rollback.RestoreReceipt | scripts/lil-tweak-rollback.py:3169-3429 | a whole restore is one restore step of the ledger runs, touches nothing unless every object and image stands as it may and conserves content on every exit; with no failing primitive and every managed tree on another device within the copy budgets it completes exactly when the host is restorable; it reports success exactly when nothing was quarantined or retained |
| Text.Trimmed | lib/core-protocol.ts:105-105 | trimming is idempotent and changes nothing exactly when there is no outer space |
| Mirror.ParsedObeys | lib/core-protocol.ts:98-150 | a parsed snapshot satisfies every cross-field rule, among them that awaiting_approval carries a proposal |
| Mirror.ParsedRoundTrips | lib/core-protocol.ts:98-150 | a parsed snapshot, of whatever state, written out again parses to itself |
| MirrorRules.ParsesExactly | lib/core-protocol.ts:98-150 | which raw responses parse, and into which snapshot: state by its wire name, trimmed summary of at most 2000 units, safe revision, digests of 64 hexadecimal digits, a proposal that carries both stored digests, the approval rules by state, and at most ten evidence entries with all ids and file names different |
| MirrorRules.MovesExactly | lib/engineering.ts:306-347 | where a report may take a job, state by state: forwards or to an end, out of approval only with authority, out of a final state nowhere |
| MirrorRules.DecideExactly | lib/engineering-d1.ts:494-599 | a snapshot is let through as an update, or recognised as a repetition, exactly under the listed conditions on the row, evidence, revision and decision that were read; all else is refused |
| MirrorRules.BatchExactly | lib/engineering-d1.ts:592-633 | the guarded batch writes that row and inserts the missing evidence exactly when the row has the revision read and no later core revision |
| MirrorRuns.Invariants | lib/engineering-d1.ts:382-688 | over every interleaving each state is safe and each later state is reachable from each earlier one only forwards |
| MirrorRuns.ApprovalSafety | lib/engineering-d1.ts:494-688 | in every reachable state a consumed approval means completed, and applying, completed with a proposal, and rejected rest on a durable owner decision of that kind for exactly the stored proposal |
| MirrorRuns.Monotone | lib/engineering-d1.ts:421-688 | revisions never decrease; source digest, proposal, remote id and decision are written once; terminal states are final |
| MirrorRuns.DispatchExclusion | lib/engineering-d1.ts:421-492 | no reachable job is both cancelled and reserved, or both bound and reserved |
| MirrorRuns.NoEquivocation | lib/engineering-d1.ts:514-570 | a snapshot at the stored core revision changes nothing when the reads agree on that revision; if it changes something, the revision was read before the row |
| MirrorRuns.DraftNeverMirrored | lib/engineering.ts:306-347 | over every interleaving a report of the draft state, which parses, is refused and changes nothing |
| MirrorDelivery.EquivocationExactly | lib/engineering-d1.ts:514-599 | some different snapshot at the stored core revision is let through exactly when the revision read is not the row's and the job is not finished |
| MirrorDelivery.Equivocation | lib/engineering-d1.ts:514-633 | a concrete run in which it happens |
| MirrorDelivery.Redelivery | lib/engineering.ts:366-397 | delivering again the snapshot that produced the current row is always recognised and changes nothing |
| MirrorEvidence.EvidenceAppendOnly | lib/engineering-d1.ts:246-268 | over every run stored evidence is the list reported with the stored core revision, only grows, and stands still once a proposal is stored |
| MirrorEvidence.InsertedHolds | lib/engineering-d1.ts:611-630 | after an accepted manifest the guarded inserts leave exactly the reported descriptors |
| HonestCore.AcceptedExactly | lib/engineering.ts:306-347 | in every joint run of core and mirror a report not older than the last one delivered parses; it is accepted, recognised if it is that one and then shown exactly, exactly unless it is of the draft state, which is a conflict |
| HonestCore.DraftReportExists | core/lil_tweak/state.py:46-95 | such a report exists in a joint run |
| HonestCore.MoveKeeps | core/lil_tweak/state.py:46-95 | the core's transition rules keep a report well formed and every state justified by what the mirror recorded |
| HonestCore.TransitionExactly | core/lil_tweak/state.py:64-95 | the core's transition, state by state: one step forward or to an end; to approval only with a proposal and evidence, to applying only with a recorded unused approval of that proposal; which refusal is which |
| HonestCore.CoreCanMove | core/lil_tweak/state.py:46-95 | every unconditional move of that table is one the joint runs include |
| HonestCore.CoreCanPropose | core/lil_tweak/state.py:80-94 | so are asking for approval, applying, rejecting and completing under their conditions |
| Uploads.UploadLedger | lib/engineering-d1.ts:382-419 | over every interleaving uploaded and applied agree at batch boundaries, revision counts the uploaded sources while uploading, and that state ends exactly when nothing is pending |
| Uploads.UploadRefines | lib/engineering-store.ts:183-214 | while uploading, the five-statement batch is the in-memory step whatever was read before, exactly unless the ETag is blank; a mismatched retry changes nothing |
| Uploads.MemoryExactly | lib/engineering-store.ts:183-214 | the in-memory step: which call is a mismatch, which is invalid, and what every other one leaves |
| Uploads.BlankEtagTaken | lib/engineering-d1.ts:387-411 | a run in which an ETag of one space is taken that the in-memory store refuses |
| D1Store.D1EngineeringStore.MarkSourceUploaded | lib/engineering-d1.ts:382-419 | with others at work between its statements, the batch runs exactly for a known source, a non-empty ETag and a well-formed digest that do not contradict a recorded upload, and leaves the stated sources and row; success means its own batch is in the run and this upload is recorded |
| D1Store.D1EngineeringStore.CancelJob | lib/engineering-d1.ts:421-442 | its update is made exactly for a job read at the expected revision, in no final state and not reserved when the flag was read, and takes effect exactly if the revision is still the same; success means this step cancelled the job |
| D1Store.D1EngineeringStore.ReserveDispatch | lib/engineering-d1.ts:444-470 | its update is made exactly for a queued job at the expected revision read unbound and unreserved, and reserves it exactly if that still holds; success means reserved by it, or seen reserved or bound, and nothing else is refused |
| D1Store.D1EngineeringStore.SetRemoteJob | lib/engineering-d1.ts:472-492 | binds exactly a reserved, unbound job at the expected revision to a usable id; success means this id is the bound one |
| D1Store.D1EngineeringStore.ManifestCheck | lib/engineering-d1.ts:246-268 | the item-by-item check refuses exactly a list that is too long or ambiguous, drops or alters a stored item, or changes frozen evidence in number |
| D1Store.D1EngineeringStore.ApplyCoreSnapshot | lib/engineering-d1.ts:494-637 | every execution, with reads in any order and others committing in between, is one step of a run with exactly the reads it made; a batch that changed no row answers with a conflict |
| D1Store.D1EngineeringStore.RecordDecisionIntent | lib/engineering-d1.ts:639-688 | records the decision, approval or rejection, exactly if the digest is well formed and the job, at the expected revision, awaits approval of that digest and holds no other decision; every other field stays, and otherwise nothing changes |
| Project.SanitizeIdempotent | lib/workspace.ts:180-294 | sanitising the export of a sanitised project gives the same content, whenever and with whatever fresh ids |
| ProjectRules.SanitizeExactly | lib/workspace.ts:121-294 | an input is accepted with this content exactly when every field follows: trimmed name and description within their limits, each status or column the given one if it is among the allowed words and the default otherwise, every entry from its own input in order with its own or a fresh id, and all ids different |
| ProjectRules.FileNameExactly | lib/workspace.ts:155-170 | which file names are portable: 1 to 255 characters after trimming, no separators or control characters, no dots alone |
| ProjectRules.MediaTypeExactly | lib/workspace.ts:543-544 | the trimmed media type of at most 128 characters, or the one for arbitrary bytes when it is missing or empty |
| Workspace.Store.CompareAndSet | lib/workspace.ts:342-388 | a write lands whole on the expected record or not at all, though its answer may be lost |
| Workspace.Store.WriteProject | lib/workspace.ts:342-411 | reconciliation of a lost answer: success is only reported for a stored record; an error other than an indeterminate one or a conflict showing a later revision means the write did not land; with no failing call it lands exactly on the loaded record and otherwise answers with the stored one |
| Workspace.Store.UpdateProject | lib/workspace.ts:460-477 | stores exactly what the input says (as in ProjectRules.SanitizeExactly) as the next revision of the record that was loaded, everything else in it kept; refuses exactly a missing record, another revision, an unusable input, a write that was overtaken, or one that failed |
| Workspace.OvertakenUpdate | lib/workspace.ts:388-402 | a write that landed is answered with a conflict when another one followed before the reconciling read |
| Workspace.Store.AttachFile | lib/workspace.ts:518-589 | however others interleave and whichever answer is lost, no reference dangles at any moment, the reference is stored exactly when this write landed, success means it landed and any error but an indeterminate one means it did not; the stored reference has the id, file name, media type, size and digest the input gives; refuses exactly a missing record, another revision, an unusable file, an overtaken write, or a failing call |
| Base64.RoundTrip | lib/workspace.ts:479-494 | decoding undoes encoding, and a million bytes stay below the importer's length limit |
| Base64.EncodeExactly | lib/workspace.ts:608-612 | three bytes are four symbols of six bits each, most significant first; one or two bytes end in padding |
| Base64.AlphabetExactly | lib/workspace.ts:608-612 | the 64 symbols in order, and that no other character is one |
| Base64.GroupExactly | lib/workspace.ts:483-488 | which bytes up to four symbols decode to, surplus bits dropped, and that a group fails exactly on a foreign character |
| Base64.PaddingOptional | lib/workspace.ts:483-488 | the decoder also accepts every encoding without its padding, a different text exactly when the bytes do not come in threes |
| Base64.CanonicalExactly | lib/workspace.ts:479-494 | an accepted text is the encoding of what it decodes to exactly when it has no white space, is padded to whole groups and leaves the spare bits of its last symbol at zero |
| Base64.NotCanonical | lib/workspace.ts:483-488 | three accepted texts that are not: one with a space, one with spare bits, one without padding |
| Json.StableExactly | lib/workspace.ts:591-606 | two JSON values, in one of which no object has two keys the order ranks equal, have the same canonical form exactly when they differ only in the order of object keys, at any depth |
| Json.StableForm | lib/workspace.ts:591-601 | the canonical form keeps the items of a list in order, puts the entries of an object in ascending key order with tied keys in their old order, does so at every depth, and leaves all else alone |
| Json.NoTiesExactly | lib/workspace.ts:591-606 | all reorderings of a value have its canonical form exactly when the key order ranks no two keys of any object in it equal |
| Json.TiedKeys | lib/workspace.ts:591-606 | the reordering at two spellings of one letter: under an order that ranks them equal, two objects that differ only in key order have different forms |
| Bundles.ReadSame | lib/workspace.ts:642-664 | reading an import, digest check included, does not depend on the order of keys at any depth |
| Bundles.ProjectReadBack | lib/workspace.ts:180-294 | a project record written out is read back field by field |
| PortableRules.ExportWritten | lib/workspace.ts:608-640 | an export key by key: schema, the project with every field under its name, each attachment's Base64 text once under its id, and the digest of exactly these three in canonical form |
| Bundles.Tampered | lib/workspace.ts:608-662 | two accepted imports with one digest have payloads that differ only in key order, or two different canonical forms with one hash |
| Portable.ExportProject | lib/workspace.ts:614-640 | the answer is the sealed export of the project as it was loaded, and no object is ever missing or wrong, whatever runs in between; it fails exactly on an unknown project or a failing read |
| Portable.ImportProject | lib/workspace.ts:642-729 | for any JSON value: stores exactly the document it describes or nothing, refuses exactly unacceptable ones or after a failing call, and never deletes a referenced object |
| PortableRules.ImportExactly | lib/workspace.ts:642-723 | which JSON values are accepted and as what: the two schemas, the digest over the payload, content that follows the project's fields, every attachment with its own id, name, type, size and digest of the bytes filed under it, as many entries as attachments, at most 100 of them and two million bytes |
| Portable.ExportImport | lib/workspace.ts:614-729 | an export, its keys written in any order, imports as the same content, attachments and bytes under a fresh id and revision 0, exactly when the attachment ids are distinct |
| Portable.DistinctExactly | lib/workspace.ts:664-721 | an accepted import stores distinct attachment ids exactly when every key of its contents is one of them |
| Portable.DuplicateImport | lib/workspace.ts:664-721 | a file that repeats an attachment and adds an undeclared entry is accepted, stores duplicate ids, and what it stores cannot be imported from its own export |
| Portable.DuplicateSample | lib/workspace.ts:664-721 | a concrete file of this kind |
| Portable.CleanupAfterLostInsert | lib/workspace.ts:725-727 | after the clean-up no reference dangles exactly when the insert did not land or there are no attachments |
| Sorting.SortCanonical | core/lil_tweak/signing.py:38-39 | sorting sees only which parameters there are and leaves sorted ones alone |
| Sorting.SortStable | lib/workspace.ts:595-597 | sorting is stable: an element ranked at or below a later one stays before it |
| Signing.QueryRoundTrip | lib/core-signing.ts:43-54 | parsing an encoded query gives the parameters back, and it contains no delimiter of a target |
| SigningRules.QuoteExactly | lib/core-signing.ts:29-33 | letters, digits and -._~ stand for themselves, every other byte is a percent sign and two upper-case hexadecimal digits |
| SigningRules.UnquoteExactly | core/lil_tweak/signing.py:37-37 | outside an escape a plus sign is a space and every other character, a stray percent sign too, is itself |
| SigningRules.EscapeExactly | core/lil_tweak/signing.py:37-37 | an escape in digits of either case is one byte |
| SigningRules.QueryExactly | core/lil_tweak/signing.py:37-37 | a query is cut at every ampersand and empty parts are dropped |
| SigningRules.ParameterExactly | core/lil_tweak/signing.py:37-37 | a part is cut at its first equals sign, and without one its value is empty |
| SigningRules.OrderExactly | lib/core-signing.ts:43-50 | parameters ascend by name and then by value, by code point in the core and by UTF-16 unit in the worker, a prefix first and the first difference deciding |
| Signing.PyIdempotent | core/lil_tweak/signing.py:32-43 | the parser reads back path and sorted parameters of a canonical target and canonicalising again changes nothing, exactly unless the path begins with two slashes and Python does not guard it |
| Signing.TsIdempotent | lib/core-signing.ts:35-55 | the same for the TypeScript side |
| Signing.PyCanonical | core/lil_tweak/signing.py:32-43 | two targets share a canonical form exactly when they have the same path, after an empty authority, and the same parameters in any order |
| Signing.EmptyAuthority | core/lil_tweak/signing.py:32-43 | two slashes before a target that begins with one change nothing, so ///x and /x share a form; two slashes before a host are refused |
| Signing.TsCanonical | lib/core-signing.ts:35-55 | the same for the TypeScript side |
| SigningRules.CoreReadsExactly | core/lil_tweak/signing.py:32-36 | the targets the core accepts, and their path and query: one line beginning with a slash that, without tabs, names no host and has no hash sign but a last one |
| SigningRules.WorkerReadsExactly | lib/core-signing.ts:35-42 | the same for the worker: no hash sign at all, and one more question mark dropped |
| SigningRules.FormExactly | core/lil_tweak/signing.py:32-43 | on either side c is the canonical form of a target exactly when it is its path followed by its parameters, all of them and in ascending order |
| Signing.MessageInjective | core/lil_tweak/signing.py:60-97 | two signing messages are equal exactly when all fields are, up to the case of method and digest, the order of parameters and what parsing a target drops |
| SigningRules.MessageLines | core/lil_tweak/signing.py:60-97 | each side signs exactly requests with usable fields and an accepted target, and splitting its message at line breaks gives v2, key id, upper-case method, canonical target, timestamp, nonce, lower-case digest, request id, idempotency key and owner, in this order |
| Agreement.TargetsAgree | lib/core-signing.ts:35-55 | for every target the worker accepts the core's form is the same exactly when it has no raw tab, its query does not begin with a question mark, two slashes at its start are four that Python keeps, and no two parameters are ordered differently |
| Agreement.DifferentForms | core/lil_tweak/signing.py:32-43 | three targets on which the forms differ: a second question mark, a raw tab, two slashes |
| Agreement.OrdersDiffer | lib/core-signing.ts:43-50 | an ASCII target both sides take apart alike and order differently |
| Agreement.MessagesAgree | lib/core-signing.ts:73-89 | the worker's message, whose lines it lists for itself, is the core's exactly under the agreement condition on its target |
| Archive.InspectZip | core/lil_tweak/archive.py:154-201 | accepts exactly the inventories all of whose members have a printable name that is not rooted, whose path has at most the allowed number of components, none of them empty, a dot, two dots, secret or too wide, that are regular files or empty directories, not encrypted, within the size and ratio limits, free of conflicts under case folding in whatever order, and within the totals; the first member that is not decides the error |
| Archive.MemberExactly | core/lil_tweak/archive.py:86-151 | the checks of one member accept exactly those names, types and sizes, as exactly that entry |
| Archive.CodeExactly | core/lil_tweak/archive.py:86-151 | which refusal a member gets: name, depth, encryption, type, sign, size, ratio, in this order |
| Archive.CompatibleExactly | core/lil_tweak/archive.py:172-190 | two members conflict exactly when they have one path up to case or one is a file above the other |
| Archive.ExtractZip | core/lil_tweak/archive.py:204-261 | after inspection, extraction into an empty root never meets an existing target or a file used as a directory; it builds exactly the listed tree unless a member names the root or does not expand to its declared size, and the first such member decides the error |
| Archive.NothingInTheWay | core/lil_tweak/archive.py:239-247 | an entry compatible with all earlier ones finds its target free and only directories above it |
| Archive.RootEntryAccepted | core/lil_tweak/archive.py:86-116 | inspection accepts a member called "./" |
| SourceDigest.EncodeSnapshot | core/lil_tweak/evidence.py:269-281 | the digest loop emits the tagged stream of the files in path order |
| SourceDigest.PathsAscend | core/lil_tweak/evidence.py:270-270 | every path is taken once, in ascending order of code points |
| SourceDigest.ChunkExactly | core/lil_tweak/evidence.py:277-280 | a path or content is preceded by its length in eight bytes, most significant first |
| SourceDigest.StreamRoundTrip | core/lil_tweak/evidence.py:277-281 | a decoder recovers every path and content from the length-prefixed stream |
| SourceDigest.StreamDeterminesSnapshot | core/lil_tweak/evidence.py:269-281 | two snapshots have equal streams exactly when they are equal |
| Context.BoundedProjectContext | lib/engineering-input.ts:82-123 | keeps the longest prefix of the candidates, in the fixed list order, that fits 8 KiB whenever the header does; otherwise the header alone, and only then is the result over the limit; texts are cut by UTF-16 unit and measured as escaped JSON in UTF-8 |
| ContextRules.BoundedExactly | lib/engineering-input.ts:82-123 | a bounded context keeps the header and of each list, in their order, a beginning with every field from its own entry, trimmed and cut at its limit; it fits or has no entry at all, and if it fits it is complete or one more entry would not fit |
| ContextRules.ContextBytes | lib/engineering-input.ts:78-80 | the size is that of the JSON text with exactly these keys |
| ContextRules.WidthExactly | lib/engineering-input.ts:78-80 | a text is measured by its JSON escapes and the UTF-8 bytes of its characters, pairs of units as one |
| Context.FixedPoint | lib/create-request.ts:88-104 | bounding a bounded context again returns it unchanged exactly when no field was cut directly after a space |
| Context.NoFixedPoint | lib/create-request.ts:88-104 | a status of which this is false |
| Context.Oversized | lib/engineering-input.ts:78-91 | a description of 2000 control characters gives a header over the limit |

## Left out

- User interface, routes, schema configuration and clients.
- Real file system races, inode and time signatures, device ids, `flock`, `/proc` scanning and signals: a restore has the host to itself, and a path's device is a predicate.
- systemd units, linger and podman commands: one step that may fail; a failing object or image removal leaves the object in place.
- Temporary files, chmod and fsync around a restored file, and the order in which a directory's names are visited.
- Collisions of random quarantine names are counted as failing primitives.
- Receipt JSON, manifests, host identity checks, leases, and the text form of the ledger; `_load_forward` is present only as the rule that one image reference has one recorded state.
- `deleteUndispatchedJob`, job creation and its idempotency key, audit rows, and evidence ids shared between jobs.
- Normalisation of evidence descriptors by the parser (media type, file name, date): taken as done.
- HMAC, key lookup, clock skew and nonce consumption in `verify_request`.
- Signing.PyIdempotent: targets are ASCII, and upper and lower case act on ASCII letters only.
- Workspace.Store.UpdateProject: two requests that write byte-identical records are not told apart.
- `createProject` and `listProjects`.
- The text of JSON: an import is a value whose objects have no key twice, and the hash is taken of the canonical value.
- Archive.ExtractZip: streams, links in the destination and what an unfinished extraction leaves behind are not modelled.
- Unified diffs, changed-path lists and staging directories of evidence capture.
- Lease fencing and scheduling of the orchestrator, release manifests and readiness probes.
