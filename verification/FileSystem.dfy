/** A file system as a map from absolute path to node. Paths are component lists; the root itself is implicit. */
module FileSystem {
  import opened Common

  type Path = seq<string>

  datatype Meta = Meta(mode: nat, uid: nat, gid: nat)

  datatype Node =
    | File(meta: Meta, data: Bytes, links: nat)
    | Directory(meta: Meta)
    | Symlink(uid: nat, gid: nat, target: Bytes)
    | Device(meta: Meta)

  type FS = map<Path, Node>

  /** q is a proper, non-root ancestor of p. */
  predicate Above(q: Path, p: Path) {
    0 < |q| < |p| && p[..|q|] == q
  }

  /** p is root or lies below it. */
  predicate Within(p: Path, root: Path) {
    |root| <= |p| && p[..|root|] == root
  }

  ghost predicate ParentsPresent(fs: FS, p: Path) {
    forall q :: Above(q, p) ==> q in fs && fs[q].Directory?
  }

  ghost predicate ParentsClear(fs: FS, p: Path) {
    forall q :: Above(q, p) && q in fs ==> fs[q].Directory?
  }

  /** Every node hangs from directories. */
  ghost predicate Tree(fs: FS) {
    forall p :: p in fs ==> p != [] && ParentsPresent(fs, p)
  }

  function Subtree(fs: FS, p: Path): FS {
    map q | q in fs && Within(q, p) :: fs[q]
  }

  function Cut(fs: FS, p: Path): FS {
    map q | q in fs && !Within(q, p) :: fs[q]
  }

  /** The part of the tree below p whose first component under p is in names. */
  function Branches(fs: FS, p: Path, names: set<string>): FS {
    map q | q in fs && Within(q, p) && |q| > |p| && q[|p|] in names :: fs[q]
  }

  function Names(fs: FS, p: Path): set<string> {
    set q | q in fs && |q| == |p| + 1 && Within(q, p) :: q[|p|]
  }

  /** What lies at the relative path s under root. */
  function At(fs: FS, root: Path, s: Path): Option<Node> {
    if root + s in fs then Some(fs[root + s]) else None
  }

  /** The tree at p in a equals the tree at r in b: same relative paths, same nodes. */
  ghost predicate SameTree(a: FS, p: Path, b: FS, r: Path) {
    forall s: Path :: At(a, p, s) == At(b, r, s)
  }

  lemma AtChild(fs: FS, root: Path, n: string, s: Path)
    ensures At(fs, root + [n], s) == At(fs, root, [n] + s)
  {
    assert root + [n] + s == root + ([n] + s);
  }

  lemma AtSelf(fs: FS, root: Path)
    ensures At(fs, root, []) == if root in fs then Some(fs[root]) else None
  {
    assert root + [] == root;
  }

  lemma WithinSuffix(q: Path, p: Path)
    ensures Within(q, p) <==> exists s: Path :: q == p + s
    ensures Within(q, p) ==> q == p + q[|p|..]
  {
    if s: Path :| q == p + s { assert q[..|p|] == p; }
    if Within(q, p) { assert q == p + q[|p|..]; }
  }

  const PRIVATE_DIRECTORY := Directory(Meta(0x1C0, 0, 0)) // mode 0700, owned by root

  lemma WithinBelow(a: Path, q: Path, p: Path)
    requires Above(a, q)
    ensures Within(a, p) ==> Within(q, p)
  {
    if Within(a, p) { assert q[..|p|] == q[..|a|][..|p|]; }
  }

  lemma CutTree(fs: FS, p: Path)
    requires Tree(fs)
    ensures Tree(Cut(fs, p))
  {
    forall q, a | q in Cut(fs, p) && Above(a, q)
      ensures a in Cut(fs, p) && Cut(fs, p)[a].Directory?
    {
      WithinBelow(a, q, p);
    }
  }

  lemma PutTree(fs: FS, p: Path, n: Node)
    requires Tree(fs) && p != [] && ParentsPresent(fs, p)
    requires n.Directory? || forall q :: q in fs ==> !Above(p, q)
    ensures Tree(fs[p := n])
  {
    forall q, a | q in fs[p := n] && Above(a, q)
      ensures a in fs[p := n] && fs[p := n][a].Directory?
    {
    }
  }

  /** Below a leaf there is nothing. */
  lemma LeafAlone(fs: FS, p: Path)
    requires Tree(fs) && p in fs && !fs[p].Directory?
    ensures Subtree(fs, p) == map[p := fs[p]]
    ensures Cut(fs, p) == fs - {p}
  {
    forall q | q in fs && Within(q, p)
      ensures q == p
    {
      assert Above(p, q) || q == p;
    }
  }

  /** A directory is its own entry plus the branches under its child names. */
  lemma BranchesOfAll(fs: FS, p: Path)
    requires Tree(fs) && p in fs
    ensures Subtree(fs, p) == map[p := fs[p]] + Branches(fs, p, Names(fs, p))
  {
    var whole := Subtree(fs, p);
    var parts := map[p := fs[p]] + Branches(fs, p, Names(fs, p));
    forall q | q in whole
      ensures q in parts && parts[q] == whole[q]
    {
      if |q| > |p| { NameOf(fs, p, q); } else { assert q == p; }
    }
    assert whole.Keys == parts.Keys;
  }

  lemma NameOf(fs: FS, p: Path, q: Path)
    requires Tree(fs) && q in fs && Within(q, p) && |q| > |p|
    ensures q[|p|] in Names(fs, p) && p + [q[|p|]] in fs && Within(q, p + [q[|p|]])
  {
    var c := q[..|p| + 1];
    assert c == p + [q[|p|]];
    assert c in fs by {
      if |q| > |p| + 1 { assert Above(c, q); } else { assert q == c; }
    }
    assert Within(c, p) && c[|p|] == q[|p|];
  }

  lemma ChildInTree(fs: FS, p: Path, n: string)
    requires n in Names(fs, p)
    ensures p + [n] in fs
  {
    var q :| q in fs && |q| == |p| + 1 && Within(q, p) && q[|p|] == n;
    assert q == p + [n];
  }

  lemma WithinChild(q: Path, p: Path, n: string)
    ensures Within(q, p + [n]) <==> Within(q, p) && |q| > |p| && q[|p|] == n
  {
    if |q| > |p| { assert q[..|p| + 1] == q[..|p|] + [q[|p|]]; }
  }

  lemma NamesAt(fs: FS, p: Path, n: string)
    ensures n in Names(fs, p) <==> At(fs, p, [n]).Some?
  {
    if n in Names(fs, p) { ChildInTree(fs, p, n); }
    if p + [n] in fs { assert Within(p + [n], p) && (p + [n])[|p|] == n; }
  }

  /** Below a leaf there is nothing, and a child's name is listed. */
  lemma AtBelow(fs: FS, p: Path, s: Path)
    requires Tree(fs) && s != [] && At(fs, p, s).Some?
    requires p != []
    ensures p in fs && fs[p].Directory? && s[0] in Names(fs, p) && p + [s[0]] in fs
  {
    var q := p + s;
    assert Above(p, q);
    assert Within(q, p) && q[|p|] == s[0];
    NameOf(fs, p, q);
  }

  lemma BranchesStep(fs: FS, p: Path, names: set<string>, n: string)
    requires n !in names
    ensures Branches(fs, p, names + {n}) == Branches(fs, p, names) + Subtree(fs, p + [n])
    ensures Branches(fs, p, names).Keys !! Subtree(fs, p + [n]).Keys
  {
    hide Within;
    var whole, part, child := Branches(fs, p, names + {n}), Branches(fs, p, names), Subtree(fs, p + [n]);
    forall q
      ensures q in whole <==> q in part || q in child
      ensures q in part ==> q !in child
    {
      WithinChild(q, p, n);
    }
    assert whole.Keys == (part + child).Keys;
  }

  /** The tree at from, re-rooted at to. */
  function Placed(t: FS, from: Path, to: Path): FS {
    var keys := set q | q in t && Within(q, from) :: to + q[|from|..];
    map r | r in keys && Within(r, to) && from + r[|to|..] in t :: t[from + r[|to|..]]
  }

  lemma PlacedAt(t: FS, from: Path, to: Path, s: Path)
    ensures At(Placed(t, from, to), to, s) == At(t, from, s)
  {
    assert (to + s)[|to|..] == s;
    if from + s in t {
      var q := from + s;
      assert Within(q, from) && to + q[|from|..] == to + s;
    }
  }
}
