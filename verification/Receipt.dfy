/** What a rollback receipt records: the managed paths as they stood at capture. */
module Receipt {
  import opened Common
  import opened FileSystem

  const MAX_MANAGED_FILE_BYTES := 16 * 1024 * 1024

  datatype Kind = DirectoryKind | RegularKind

  datatype Managed = Managed(path: Path, kind: Kind)

  /** Distinct paths, none of them below a managed regular file. */
  ghost predicate WellFormed(managed: seq<Managed>) {
    && (forall i, j :: 0 <= i < j < |managed| ==> managed[i].path != managed[j].path)
    && (forall m :: m in managed ==> m.path != [])
    && (forall m, k :: m in managed && k in managed && m.kind.RegularKind? ==> !Above(m.path, k.path))
  }

  /** A file the script will read: one link and within the size limit. */
  predicate Readable(n: Node) {
    n.File? ==> n.links == 1 && |n.data| <= MAX_MANAGED_FILE_BYTES
  }

  predicate OfKind(n: Node, kind: Kind) {
    match kind
    case DirectoryKind => n.Directory?
    case RegularKind => n.File? && Readable(n)
  }

  /** baseline is what a capture of fs records: present entries with their node, absent ones left out. */
  ghost predicate Captured(managed: seq<Managed>, fs: FS, baseline: FS) {
    && Tree(fs)
    && (forall p :: p in baseline ==> exists m :: m in managed && m.path == p)
    && forall m :: m in managed ==>
         && ParentsClear(fs, m.path)
         && (m.path in baseline <==> m.path in fs)
         && (m.path in baseline ==> baseline[m.path] == fs[m.path] && OfKind(fs[m.path], m.kind))
  }

  datatype Opened = Found | NoParent | Unsafe

  /** Walks to the parent of p without following links and without creating anything. */
  method FindParent(fs: FS, p: Path) returns (r: Opened)
    requires Tree(fs) && p != []
    ensures r.Found? <==> ParentsPresent(fs, p)
    ensures r.NoParent? <==> ParentsClear(fs, p) && !ParentsPresent(fs, p)
    ensures r.Unsafe? <==> !ParentsClear(fs, p)
    ensures p in fs ==> r.Found?
  {
    var k := 1;
    while k < |p|
      invariant 1 <= k <= |p|
      invariant forall q :: Above(q, p) && |q| < k ==> q in fs && fs[q].Directory?
    {
      var q := p[..k];
      assert Above(q, p);
      if q !in fs {
        MissingBelow(fs, p, k);
        return NoParent;
      }
      if !fs[q].Directory? { return Unsafe; }
      assert forall a :: Above(a, p) && |a| == k ==> a == q;
      k := k + 1;
    }
    r := Found;
  }

  lemma MissingBelow(fs: FS, p: Path, k: nat)
    requires Tree(fs) && 0 < k < |p| && p[..k] !in fs
    ensures forall q :: Above(q, p) && |q| >= k ==> q !in fs
    ensures p !in fs
  {
    forall q | (Above(q, p) || q == p) && |q| >= k
      ensures q !in fs
    {
      assert q[..k] == p[..k];
      assert q == p[..k] || Above(p[..k], q);
    }
  }

  /** A directory where one is expected, or a file of at most 16 MiB with one link. */
  predicate Recordable(n: Node, kind: Kind) {
    if kind == DirectoryKind then n.Directory? else n.File? && n.links == 1 && |n.data| <= 16_777_216
  }

  lemma KindsExactly(n: Node, kind: Kind)
    ensures OfKind(n, kind) <==> Recordable(n, kind)
    ensures Readable(n) <==> !n.File? || Recordable(n, RegularKind)
  {
  }

  ghost predicate Uncapturable(fs: FS, m: Managed) {
    !ParentsClear(fs, m.path) || (m.path in fs && !OfKind(fs[m.path], m.kind))
  }

  /** The capture loop; it fails exactly when some managed path is not what the list says it must be. */
  method Capture(managed: seq<Managed>, fs: FS) returns (ok: bool, baseline: FS)
    requires WellFormed(managed) && Tree(fs)
    ensures ok ==> Captured(managed, fs, baseline)
    ensures ok <==> forall m :: m in managed ==>
      ParentsClear(fs, m.path) && (m.path in fs ==> Recordable(fs[m.path], m.kind))
  {
    baseline := map[];
    var i := 0;
    while i < |managed|
      invariant 0 <= i <= |managed|
      invariant forall p :: p in baseline ==> exists m :: m in managed[..i] && m.path == p
      invariant forall m :: m in managed[..i] ==>
        && ParentsClear(fs, m.path)
        && (m.path in baseline <==> m.path in fs)
        && (m.path in baseline ==> baseline[m.path] == fs[m.path] && OfKind(fs[m.path], m.kind))
    {
      var m := managed[i];
      assert managed[..i + 1] == managed[..i] + [m];
      var parent := FindParent(fs, m.path);
      assert Uncapturable(fs, m) <==> parent.Unsafe? || (m.path in fs && !OfKind(fs[m.path], m.kind));
      if parent.Unsafe? { return false, baseline; }
      if m.path in fs { KindsExactly(fs[m.path], m.kind); }
      if parent.Found? && m.path in fs {
        if !OfKind(fs[m.path], m.kind) { return false, baseline; }
        baseline := baseline[m.path := fs[m.path]];
      }
      i := i + 1;
    }
    assert managed[..i] == managed;
    ok := true;
  }

  /** A receipt is closed upwards: above a recorded path every managed directory is recorded too. */
  lemma CaptureClosed(managed: seq<Managed>, fs: FS, baseline: FS, m: Managed, k: Managed)
    requires Captured(managed, fs, baseline) && m in managed && k in managed
    requires Above(k.path, m.path) && m.path in baseline
    ensures k.path in baseline
  {
  }

  type Digest = Bytes

  /** The ledger entry of a file the installer may write. */
  datatype Grant = Grant(meta: Meta, size: nat, digest: Digest)

  datatype RollbackOutcome = Clean | Quarantined | Acknowledged | RetainedData

  datatype Descriptor =
    | Absent
    | RegularEntry(meta: Meta, size: nat, digest: Digest)
    | DirectoryEntry(meta: Meta)
    | UnsafeEntry

  /** What an lstat and a bounded read report; sha is the content digest. */
  function Describe(sha: Bytes -> Digest, fs: FS, p: Path): Descriptor {
    if p !in fs then Absent else
      match fs[p]
      case File(meta, data, _) => RegularEntry(meta, |data|, sha(data))
      case Directory(meta) => DirectoryEntry(meta)
      case _ => UnsafeEntry
  }
}
