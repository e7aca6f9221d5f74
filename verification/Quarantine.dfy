/**
 The quarantine: whole subtrees are moved out of the live file system and kept. When the move crosses
 devices it is replaced by a budgeted recursive copy, a verification, a publishing rename and a deletion.

 Primitive operations (open, mkdir, rename, unlink, fsync, ...) may fail at any point: each such point
 is a nondeterministic choice, so every contract below also speaks about every early abort.
 */
module Quarantine {
  import opened Common
  import opened FileSystem

  const MAX_QUARANTINE_BYTES := 64 * 1024 * 1024
  const MAX_QUARANTINE_DEPTH := 32
  const MAX_QUARANTINE_ENTRIES := 4096
  const MAX_QUARANTINE_SYMLINK_BYTES := 4096

  function NodeWeight(n: Node): nat {
    match n
    case File(_, data, _) => |data|
    case Symlink(_, _, target) => |target|
    case _ => 0
  }

  ghost function Weight(m: FS): nat {
    if m == map[] then 0 else
      var p :| p in m;
      NodeWeight(m[p]) + Weight(m - {p})
  }

  lemma {:induction false} WeightRemove(m: FS, p: Path)
    requires p in m
    ensures Weight(m) == NodeWeight(m[p]) + Weight(m - {p})
    decreases |m|
  {
    var q :| q in m && Weight(m) == NodeWeight(m[q]) + Weight(m - {q});
    if q != p {
      WeightRemove(m - {q}, p);
      WeightRemove(m - {p}, q);
      assert m - {q} - {p} == m - {p} - {q};
    }
  }

  lemma {:induction false} WeightOfUnion(a: FS, b: FS)
    requires a.Keys !! b.Keys
    ensures Weight(a + b) == Weight(a) + Weight(b)
    decreases |b|
  {
    if b == map[] {
      assert a + b == a;
    } else {
      var p :| p in b;
      WeightRemove(b, p);
      WeightRemove(a + b, p);
      UnionMinus(a, b, p);
      WeightOfUnion(a, b - {p});
    }
  }

  lemma UnionMinus<K, V>(a: map<K, V>, b: map<K, V>, k: K)
    requires a.Keys !! b.Keys && k in b
    ensures a + b - {k} == a + (b - {k})
    ensures |b - {k}| < |b|
  {
    assert b.Keys == (b - {k}).Keys + {k};
    assert |b| == |b.Keys| && |b - {k}| == |(b - {k}).Keys|;
  }

  lemma PlusOne<K, V>(m: map<K, V>, k: K, v: V, rest: map<K, V>)
    requires m == map[k := v] + rest && k !in rest
    ensures m - {k} == rest && |m| == 1 + |rest|
  {
    assert m.Keys == {k} + rest.Keys;
    assert |m| == |m.Keys| && |rest| == |rest.Keys|;
  }

  /** A node the recursive copy takes: plain single-link files, short symbolic links and directories. */
  predicate Copyable(n: Node) {
    match n
    case File(_, _, links) => links == 1
    case Symlink(_, _, target) => |target| <= MAX_QUARANTINE_SYMLINK_BYTES
    case Directory(_) => true
    case Device(_) => false
  }

  /** Whether the tree at p, met at the given depth, fits what is left of the copy budget. */
  ghost predicate Fits(nodes: FS, p: Path, depth: nat, entries: nat, bytes: nat) {
    var t := Subtree(nodes, p);
    && entries + |t| <= MAX_QUARANTINE_ENTRIES
    && bytes + Weight(t) <= MAX_QUARANTINE_BYTES
    && forall q :: q in t ==> Copyable(t[q]) && depth + (|q| - |p|) <= MAX_QUARANTINE_DEPTH
  }

  /**
   Which trees fit an untouched budget: at most 4096 nodes, 64 MiB and 32 levels of files with one link, symbolic links
   of at most 4 KiB and directories.
   */
  lemma FitsExactly(nodes: FS, p: Path)
    ensures Fits(nodes, p, 0, 0, 0) <==>
      && |Subtree(nodes, p)| <= 4096 && Weight(Subtree(nodes, p)) <= 67_108_864
      && forall q :: q in nodes && Within(q, p) ==>
           && |q| <= |p| + 32
           && ((nodes[q].File? && nodes[q].links == 1) || (nodes[q].Symlink? && |nodes[q].target| <= 4096) ||
               nodes[q].Directory?)
  {
    hide Weight;
    var t := Subtree(nodes, p);
    assert forall q :: q in t <==> q in nodes && Within(q, p);
  }

  /** The weight of a tree counts the bytes of files and of the targets of symbolic links. */
  lemma WeightAdds(m: FS, p: Path, n: Node)
    requires p !in m
    ensures Weight(map[]) == 0
    ensures n.File? ==> Weight(m[p := n]) == Weight(m) + |n.data|
    ensures n.Symlink? ==> Weight(m[p := n]) == Weight(m) + |n.target|
    ensures n.Directory? || n.Device? ==> Weight(m[p := n]) == Weight(m)
  {
    WeightRemove(m[p := n], p);
    assert m[p := n] - {p} == m;
  }

  /** Part of a tree that fits, with the same root, fits too. */
  lemma PartFits(some: FS, all: FS, p: Path)
    requires p in some && Fits(all, p, 0, 0, 0)
    requires forall q :: q in some && Within(q, p) ==> q in all && some[q] == all[q]
    ensures Fits(some, p, 0, 0, 0)
  {
    var small, big := Subtree(some, p), Subtree(all, p);
    SmallerPart(small, big);
  }

  lemma SmallerPart(small: FS, big: FS)
    requires forall q :: q in small ==> q in big && small[q] == big[q]
    ensures |small| <= |big| && Weight(small) <= Weight(big)
  {
    hide Weight, NodeWeight;
    var rest := RestOf(small, big);
    DisjointMapSize(small, rest);
    WeightOfUnion(small, rest);
  }

  ghost function RestOf<K, V>(small: map<K, V>, big: map<K, V>): (rest: map<K, V>)
    requires forall k :: k in small ==> k in big && small[k] == big[k]
    ensures small + rest == big && small.Keys !! rest.Keys
  {
    map k | k in big && k !in small :: big[k]
  }

  ghost predicate FitsBelow(nodes: FS, p: Path, n: string, depth: nat, entries: nat, bytes: nat) {
    Fits(nodes, p + [n], depth + 1, entries, bytes)
  }

  lemma SubtreeParts(nodes: FS, p: Path)
    requires Tree(nodes) && p in nodes
    ensures |Subtree(nodes, p)| == 1 + |Branches(nodes, p, Names(nodes, p))|
    ensures Weight(Subtree(nodes, p)) == NodeWeight(nodes[p]) + Weight(Branches(nodes, p, Names(nodes, p)))
  {
    BranchesOfAll(nodes, p);
    PlusOne(Subtree(nodes, p), p, nodes[p], Branches(nodes, p, Names(nodes, p)));
    WeightRemove(Subtree(nodes, p), p);
  }

  lemma BranchesGrow(nodes: FS, p: Path, done: set<string>, n: string)
    requires n !in done
    ensures |Branches(nodes, p, done + {n})| == |Branches(nodes, p, done)| + |Subtree(nodes, p + [n])|
    ensures Weight(Branches(nodes, p, done + {n})) == Weight(Branches(nodes, p, done)) + Weight(Subtree(nodes, p + [n]))
  {
    BranchesStep(nodes, p, done, n);
    DisjointMapSize(Branches(nodes, p, done), Subtree(nodes, p + [n]));
    WeightOfUnion(Branches(nodes, p, done), Subtree(nodes, p + [n]));
  }

  /** Fewer branches cost no more. */
  lemma BranchesBelow(nodes: FS, p: Path, some: set<string>)
    requires Tree(nodes) && p in nodes && some <= Names(nodes, p)
    ensures 1 + |Branches(nodes, p, some)| <= |Subtree(nodes, p)|
    ensures NodeWeight(nodes[p]) + Weight(Branches(nodes, p, some)) <= Weight(Subtree(nodes, p))
  {
    SubtreeParts(nodes, p);
    hide Weight, NodeWeight, Subtree, Tree;
    var rest := Names(nodes, p) - some;
    var a, b := Branches(nodes, p, some), Branches(nodes, p, rest);
    assert Branches(nodes, p, Names(nodes, p)) == a + b;
    DisjointMapSize(a, b);
    WeightOfUnion(a, b);
  }

  /** A child that does not fit after its earlier siblings makes the directory not fit. */
  lemma ChildFits(nodes: FS, p: Path, done: set<string>, n: string, depth: nat, entries: nat, bytes: nat)
    requires Tree(nodes) && p in nodes && nodes[p].Directory?
    requires n in Names(nodes, p) && n !in done && done <= Names(nodes, p)
    requires Fits(nodes, p, depth, entries, bytes)
    ensures Fits(nodes, p + [n], depth + 1,
                 entries + 1 + |Branches(nodes, p, done)|, bytes + Weight(Branches(nodes, p, done)))
  {
    BranchesGrow(nodes, p, done, n);
    BranchesBelow(nodes, p, done + {n});
    var small, big := Subtree(nodes, p + [n]), Subtree(nodes, p);
    forall q | q in small
      ensures q in big && small[q] == big[q]
    {
      WithinChild(q, p, n);
    }
  }

  lemma WholeFits(nodes: FS, p: Path, depth: nat, entries: nat, bytes: nat)
    requires Tree(nodes) && p in nodes && nodes[p].Directory? && depth <= MAX_QUARANTINE_DEPTH
    requires entries + |Subtree(nodes, p)| <= MAX_QUARANTINE_ENTRIES
    requires bytes + Weight(Subtree(nodes, p)) <= MAX_QUARANTINE_BYTES
    requires forall n :: n in Names(nodes, p) ==> exists e, b :: FitsBelow(nodes, p, n, depth, e, b)
    ensures Fits(nodes, p, depth, entries, bytes)
  {
    var t := Subtree(nodes, p);
    forall q | q in t
      ensures Copyable(t[q]) && depth + (|q| - |p|) <= MAX_QUARANTINE_DEPTH
    {
      if |q| > |p| {
        NameOf(nodes, p, q);
        var e, b :| FitsBelow(nodes, p, q[|p|], depth, e, b);
        assert q in Subtree(nodes, p + [q[|p|]]);
      } else {
        assert q == p;
      }
    }
  }

  datatype CopyResult =
    | Copied
    | Refused                 // over budget or a kind that is never copied
    | Faulted(clean: bool)    // a primitive failed; clean unless a partial copy had to be left behind

  class Budget {
    var entries: nat
    var bytes: nat

    constructor ()
      ensures entries == 0 && bytes == 0
    {
      entries, bytes := 0, 0;
    }
  }

  /** The operating system: any call may fail, and every failure is counted. */
  class Io {
    var faults: nat
    var orphans: nat // failures to identify a node right after creating it
    var plan: seq<bool> // the answers of the next calls, as far as they are settled

    constructor (plan: seq<bool>)
      ensures faults == orphans == 0 && this.plan == plan
    {
      faults, orphans, this.plan := 0, 0, plan;
    }

    /** The answer of the next call: the planned one, or any. */
    method Answer() returns (ok: bool)
      modifies this`plan
      ensures old(plan) != [] ==> ok == old(plan)[0] && plan == old(plan)[1..]
      ensures old(plan) == [] ==> plan == []
    {
      ok := *;
      if plan != [] { ok, plan := plan[0], plan[1..]; }
    }

    method Attempt() returns (ok: bool)
      modifies this
      ensures orphans == old(orphans)
      ensures faults == old(faults) + if ok then 0 else 1
      ensures old(plan) != [] ==> ok == old(plan)[0] && plan == old(plan)[1..]
    {
      ok := Answer();
      if !ok { faults := faults + 1; }
    }

    method Identify() returns (ok: bool)
      modifies this
      ensures faults == old(faults) + if ok then 0 else 1
      ensures orphans == old(orphans) + if ok then 0 else 1
      ensures old(plan) != [] ==> ok == old(plan)[0] && plan == old(plan)[1..]
    {
      ok := Answer();
      if !ok { faults, orphans := faults + 1, orphans + 1; }
    }
  }

  class Volume {
    var nodes: FS
    const io: Io

    constructor (initial: FS, io: Io)
      ensures nodes == initial && this.io == io
    {
      nodes, this.io := initial, io;
    }

    /** Compares the tree at p with a recorded tree, node by node and name list by name list. */
    method VerifyTree(p: Path, snapshot: FS, from: Path) returns (same: bool)
      requires Tree(nodes) && p in nodes && Tree(snapshot) && from in snapshot
      modifies io
      ensures same ==> SameTree(nodes, p, snapshot, from) && io.faults == old(io.faults)
      ensures SameTree(nodes, p, snapshot, from) && io.faults == old(io.faults) ==> same
      ensures io.faults >= old(io.faults) && io.orphans == old(io.orphans)
      decreases Subtree(nodes, p).Keys
    {
      var ok := io.Attempt();
      if !ok { return false; }
      AtSelf(nodes, p);
      AtSelf(snapshot, from);
      if nodes[p] != snapshot[from] { return false; }
      if !nodes[p].Directory? {
        SameLeaf(nodes, p, snapshot, from);
        return true;
      }
      SameNames(nodes, p, snapshot, from);
      if Names(nodes, p) != Names(snapshot, from) { return false; }
      var todo := Names(nodes, p);
      while todo != {}
        invariant todo <= Names(nodes, p)
        invariant forall n :: n in Names(nodes, p) && n !in todo ==> SameTree(nodes, p + [n], snapshot, from + [n])
        invariant io.faults == old(io.faults) && io.orphans == old(io.orphans)
      {
        var n :| n in todo;
        ChildInTree(nodes, p, n);
        ChildInTree(snapshot, from, n);
        SubtreeShrinks(nodes, p, n);
        same := VerifyTree(p + [n], snapshot, from + [n]);
        SameChild(nodes, p, snapshot, from, n);
        if !same { return; }
        todo := todo - {n};
      }
      SameChildren(nodes, p, snapshot, from);
      return true;
    }

    /**
     Removes the tree at p, children first. Every directory must list exactly the recorded names and, when
     exact, every node must still equal its record immediately before it is unlinked.
     */
    method RemoveTree(p: Path, snapshot: FS, from: Path, exact: bool) returns (ok: bool)
      requires Tree(nodes) && p in nodes && Tree(snapshot) && from in snapshot
      modifies this`nodes, io
      ensures Tree(nodes) && Pruned(old(nodes), nodes, p)
      ensures ok ==> Gone(nodes, p)
      ensures SameTree(old(nodes), p, snapshot, from) && io.faults == old(io.faults) ==> ok
      ensures ok ==> io.faults == old(io.faults)
      ensures io.faults >= old(io.faults) && io.orphans == old(io.orphans)
      ensures exact ==> RemovedOnRecord(old(nodes), nodes, p, snapshot, from)
      ensures ok && exact ==> SameTree(old(nodes), p, snapshot, from)
      ensures old(nodes[p]).Directory? && Names(old(nodes), p) != Names(snapshot, from) ==> nodes == old(nodes)
      decreases Subtree(nodes, p).Keys
    {
      ghost var before := nodes;
      AtSelf(nodes, p);
      AtSelf(snapshot, from);
      ok := io.Attempt();
      if !ok || (exact && nodes[p] != snapshot[from]) { return false; }
      if !nodes[p].Directory? {
        UnlinkLeaf(nodes, p, snapshot, from, exact);
        if exact { SameLeaf(nodes, p, snapshot, from); }
        nodes := nodes - {p};
        ok := io.Attempt();
        return;
      }
      SameNames(nodes, p, snapshot, from);
      if Names(nodes, p) != Names(snapshot, from) { return false; }
      var todo := Names(nodes, p);
      while todo != {}
        invariant Tree(nodes) && todo <= Names(before, p) && Removing(before, nodes, p, todo)
        invariant io.faults == old(io.faults) && io.orphans == old(io.orphans)
        invariant exact ==> RemovedOnRecord(before, nodes, p, snapshot, from)
        invariant exact ==> SameExcept(before, p, snapshot, from, todo)
      {
        var n :| n in todo;
        ChildInTree(snapshot, from, n);
        RemovingNext(before, nodes, p, todo, n);
        ghost var mid := nodes;
        ok := RemoveTree(p + [n], snapshot, from + [n], exact);
        PrunedBranch(before, mid, nodes, p, n);
        if exact { RecordBranch(before, mid, nodes, p, n, snapshot, from); }
        if !ok {
          SameChild(before, p, snapshot, from, n);
          SameTrans(mid, before, p, snapshot, from, n);
          return;
        }
        if exact { SameExceptStep(before, mid, p, snapshot, from, todo, n); }
        RemovingStep(before, mid, nodes, p, todo, n);
        todo := todo - {n};
      }
      ok := io.Attempt();
      if !ok { return; }
      NothingBelow(before, nodes, p);
      if exact { SameAfterAll(before, p, snapshot, from); }
      UnlinkEmpty(before, nodes, p, snapshot, from, exact);
      nodes := nodes - {p};
      ok := io.Attempt();
    }
  }

  /** Removal of the tree at p in progress: the children in todo are untouched, the others are gone. */
  ghost predicate Removing(before: FS, now: FS, p: Path, todo: set<string>) {
    && Pruned(before, now, p)
    && p in now
    && (forall n :: n in todo ==> SameTree(now, p + [n], before, p + [n]))
    && (forall n :: n in Names(before, p) && n !in todo ==> Gone(now, p + [n]))
  }

  /** The children outside todo are as recorded. */
  ghost predicate SameExcept(before: FS, p: Path, snapshot: FS, from: Path, todo: set<string>) {
    forall n :: n in Names(before, p) && n !in todo ==> SameTree(before, p + [n], snapshot, from + [n])
  }

  lemma SameExceptStep(before: FS, mid: FS, p: Path, snapshot: FS, from: Path, todo: set<string>, n: string)
    requires SameExcept(before, p, snapshot, from, todo)
    requires SameTree(mid, p + [n], before, p + [n]) && SameTree(mid, p + [n], snapshot, from + [n])
    ensures SameExcept(before, p, snapshot, from, todo - {n})
  {
    hide At;
    forall s: Path
      ensures At(before, p + [n], s) == At(snapshot, from + [n], s)
    {
      assert At(mid, p + [n], s) == At(before, p + [n], s);
    }
  }

  lemma SameAfterAll(before: FS, p: Path, snapshot: FS, from: Path)
    requires Tree(before) && Tree(snapshot) && p in before && from in snapshot && before[p] == snapshot[from]
    requires before[p].Directory? && Names(before, p) == Names(snapshot, from)
    requires SameExcept(before, p, snapshot, from, {})
    ensures SameTree(before, p, snapshot, from)
  {
    hide SameTree;
    SameChildren(before, p, snapshot, from);
  }

  lemma SameTrans(mid: FS, before: FS, p: Path, snapshot: FS, from: Path, n: string)
    requires SameTree(mid, p + [n], before, p + [n])
    ensures SameTree(before, p + [n], snapshot, from + [n]) ==> SameTree(mid, p + [n], snapshot, from + [n])
  {
  }

  ghost predicate Gone(nodes: FS, p: Path) {
    forall s: Path :: At(nodes, p, s).None?
  }

  lemma RemovingNext(before: FS, now: FS, p: Path, todo: set<string>, n: string)
    requires Removing(before, now, p, todo) && n in todo && todo <= Names(before, p)
    ensures p + [n] in now
    ensures Subtree(now, p + [n]).Keys < Subtree(before, p).Keys
  {
    ChildInTree(before, p, n);
    AtSelf(before, p + [n]);
    AtSelf(now, p + [n]);
    assert At(now, p + [n], []) == At(before, p + [n], []);
    PrunedShrinks(before, now, p, n);
  }

  lemma RemovingStep(before: FS, mid: FS, after: FS, p: Path, todo: set<string>, n: string)
    requires Removing(before, mid, p, todo) && n in todo && todo <= Names(before, p)
    requires Pruned(mid, after, p + [n]) && Gone(after, p + [n])
    ensures Removing(before, after, p, todo - {n})
  {
    PrunedBranch(before, mid, after, p, n);
    forall m | m in todo && m != n
      ensures SameTree(after, p + [m], before, p + [m])
    {
      forall s: Path
        ensures At(after, p + [m], s) == At(before, p + [m], s)
      {
        PrunedSibling(mid, after, p, n, m, s);
        assert At(mid, p + [m], s) == At(before, p + [m], s);
      }
    }
    forall m | m in Names(before, p) && m !in todo
      ensures Gone(after, p + [m])
    {
      forall s: Path
        ensures At(after, p + [m], s).None?
      {
        PrunedSibling(mid, after, p, n, m, s);
        assert At(mid, p + [m], s).None?;
      }
    }
  }

  /** after keeps everything outside the tree at p and adds or alters nothing. */
  ghost predicate Pruned(before: FS, after: FS, p: Path) {
    forall q :: (q in after ==> q in before && after[q] == before[q])
             && (q in before && !Within(q, p) ==> q in after)
  }

  /** Whatever vanished below p equals its record. */
  ghost predicate RemovedOnRecord(before: FS, after: FS, p: Path, snapshot: FS, from: Path) {
    forall s: Path :: At(before, p, s).Some? && At(after, p, s).None? ==> At(snapshot, from, s) == At(before, p, s)
  }

  lemma PrunedShrinks(before: FS, mid: FS, p: Path, n: string)
    requires Pruned(before, mid, p) && p in before
    ensures Subtree(mid, p + [n]).Keys < Subtree(before, p).Keys
  {
    SubtreeShrinks(before, p, n);
    var small, big := Subtree(mid, p + [n]).Keys, Subtree(before, p + [n]).Keys;
    assert small <= big;
  }

  lemma PrunedBranch(before: FS, mid: FS, after: FS, p: Path, n: string)
    requires Pruned(before, mid, p) && Pruned(mid, after, p + [n]) && p in mid
    ensures Pruned(before, after, p) && p in after && after[p] == mid[p]
  {
    forall q | q in before && !Within(q, p)
      ensures q in after
    {
      WithinChild(q, p, n);
    }
    assert !Within(p, p + [n]);
  }

  lemma PrunedSibling(mid: FS, after: FS, p: Path, n: string, m: string, s: Path)
    requires Pruned(mid, after, p + [n]) && m != n
    ensures At(after, p + [m], s) == At(mid, p + [m], s)
  {
    var q := p + [m] + s;
    WithinChild(q, p, n);
    assert q[|p|] == m;
  }

  lemma RecordBranch(before: FS, mid: FS, after: FS, p: Path, n: string, snapshot: FS, from: Path)
    requires Pruned(before, mid, p) && Pruned(mid, after, p + [n])
    requires RemovedOnRecord(before, mid, p, snapshot, from)
    requires RemovedOnRecord(mid, after, p + [n], snapshot, from + [n])
    ensures RemovedOnRecord(before, after, p, snapshot, from)
  {
    forall s: Path | At(before, p, s).Some? && At(after, p, s).None?
      ensures At(snapshot, from, s) == At(before, p, s)
    {
      if At(mid, p, s).Some? {
        var q := p + s;
        WithinChild(q, p, n);
        assert Within(q, p + [n]);
        assert s == [n] + s[1..];
        AtChild(mid, p, n, s[1..]);
        AtChild(after, p, n, s[1..]);
        AtChild(snapshot, from, n, s[1..]);
        assert At(mid, p + [n], s[1..]).Some?;
      }
    }
  }

  lemma NothingBelow(before: FS, after: FS, p: Path)
    requires Tree(before) && Tree(after) && Removing(before, after, p, {})
    ensures forall s: Path :: s != [] ==> At(after, p, s).None?
  {
    forall s: Path | s != []
      ensures At(after, p, s).None?
    {
      assert [s[0]] + s[1..] == s;
      AtChild(after, p, s[0], s[1..]);
      if s[0] in Names(before, p) {
        assert Gone(after, p + [s[0]]);
        assert At(after, p + [s[0]], s[1..]).None?;
      } else if At(before, p, s).Some? {
        AtBelow(before, p, s);
      }
    }
  }

  lemma UnlinkEmpty(before: FS, after: FS, p: Path, snapshot: FS, from: Path, exact: bool)
    requires Tree(after) && p in after && Pruned(before, after, p)
    requires forall s: Path :: s != [] ==> At(after, p, s).None?
    requires exact ==> RemovedOnRecord(before, after, p, snapshot, from) && At(snapshot, from, []) == At(before, p, [])
    ensures Tree(after - {p}) && Pruned(before, after - {p}, p)
    ensures Gone(after - {p}, p)
    ensures exact ==> RemovedOnRecord(before, after - {p}, p, snapshot, from)
  {
    var done := after - {p};
    forall q, a | q in done && Above(a, q)
      ensures a in done && done[a].Directory?
    {
      assert a == p ==> q == p + q[|p|..] && At(after, p, q[|p|..]).None?;
    }
    forall s: Path
      ensures At(done, p, s).None?
      ensures exact && At(before, p, s).Some? ==> At(snapshot, from, s) == At(before, p, s)
    {
      AtSelf(done, p);
      if s != [] { assert At(after, p, s).None?; }
    }
  }

  lemma UnlinkLeaf(nodes: FS, p: Path, snapshot: FS, from: Path, exact: bool)
    requires Tree(nodes) && p in nodes && !nodes[p].Directory?
    requires exact ==> from in snapshot && nodes[p] == snapshot[from]
    ensures Tree(nodes - {p}) && Pruned(nodes, nodes - {p}, p)
    ensures Gone(nodes - {p}, p)
    ensures exact ==> RemovedOnRecord(nodes, nodes - {p}, p, snapshot, from)
  {
    forall s: Path | s != []
      ensures At(nodes, p, s).None?
    {
      if At(nodes, p, s).Some? { AtBelow(nodes, p, s); }
    }
    AtSelf(nodes, p);
    AtSelf(snapshot, from);
    UnlinkEmpty(nodes, nodes, p, snapshot, from, exact);
  }

  lemma SubtreeShrinks(nodes: FS, p: Path, n: string)
    requires p in nodes
    ensures Subtree(nodes, p + [n]).Keys < Subtree(nodes, p).Keys
  {
    forall q | q in Subtree(nodes, p + [n])
      ensures q in Subtree(nodes, p) && q != p
    {
      WithinChild(q, p, n);
    }
    assert p in Subtree(nodes, p);
    assert p !in Subtree(nodes, p + [n]);
  }

  lemma SameLeaf(a: FS, p: Path, b: FS, r: Path)
    requires Tree(a) && Tree(b) && p in a && r in b && a[p] == b[r] && !a[p].Directory?
    ensures SameTree(a, p, b, r)
  {
    forall s: Path
      ensures At(a, p, s) == At(b, r, s)
    {
      if s == [] {
        AtSelf(a, p);
        AtSelf(b, r);
      } else {
        if At(a, p, s).Some? { AtBelow(a, p, s); }
        if At(b, r, s).Some? { AtBelow(b, r, s); }
      }
    }
  }

  lemma SameNames(a: FS, p: Path, b: FS, r: Path)
    ensures SameTree(a, p, b, r) ==> Names(a, p) == Names(b, r)
  {
    if SameTree(a, p, b, r) {
      forall n: string
        ensures n in Names(a, p) <==> n in Names(b, r)
      {
        NamesAt(a, p, n);
        NamesAt(b, r, n);
      }
    }
  }

  lemma SameChild(a: FS, p: Path, b: FS, r: Path, n: string)
    ensures SameTree(a, p, b, r) ==> SameTree(a, p + [n], b, r + [n])
  {
    forall s: Path
      ensures SameTree(a, p, b, r) ==> At(a, p + [n], s) == At(b, r + [n], s)
    {
      AtChild(a, p, n, s);
      AtChild(b, r, n, s);
    }
  }

  lemma SameSuffix(a: FS, p: Path, b: FS, r: Path, s: Path)
    requires s != [] && SameTree(a, p + [s[0]], b, r + [s[0]])
    ensures At(a, p, s) == At(b, r, s)
  {
    assert [s[0]] + s[1..] == s;
    AtChild(a, p, s[0], s[1..]);
    AtChild(b, r, s[0], s[1..]);
    assert At(a, p + [s[0]], s[1..]) == At(b, r + [s[0]], s[1..]);
  }

  lemma SameChildren(a: FS, p: Path, b: FS, r: Path)
    requires Tree(a) && Tree(b) && p in a && r in b && a[p] == b[r] && Names(a, p) == Names(b, r)
    requires forall n :: n in Names(a, p) ==> SameTree(a, p + [n], b, r + [n])
    ensures SameTree(a, p, b, r)
  {
    hide At, Names;
    forall s: Path
      ensures At(a, p, s) == At(b, r, s)
    {
      if s == [] {
        AtSelf(a, p);
        AtSelf(b, r);
      } else {
        if At(a, p, s).Some? { AtBelow(a, p, s); }
        if At(b, r, s).Some? { AtBelow(b, r, s); }
        if s[0] in Names(a, p) { SameSuffix(a, p, b, r, s); }
      }
    }
  }
}
