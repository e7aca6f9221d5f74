/**
 Quarantine across devices: copy the tree into the vault under a temporary name within fixed budgets,
 verify the source against the copy, publish the copy, then delete the source.
 */
module CrossDevice {
  import opened Common
  import opened FileSystem
  import opened Quarantine

  function PrivateFile(data: Bytes): Node {
    File(Meta(0x180, 0, 0), data, 1) // mode 0600
  }

  /** now extends base below p only. */
  ghost predicate Grown(base: FS, now: FS, p: Path) {
    forall q :: (q in base ==> q in now && now[q] == base[q])
             && (q in now && !Within(q, p) ==> q in base)
  }

  /** The directory copy at dp in progress: the children in done are exact copies, nothing else is there. */
  ghost predicate Copying(src: FS, sp: Path, base: FS, now: FS, dp: Path, done: set<string>) {
    && Grown(base, now, dp)
    && dp in now && now[dp] == PRIVATE_DIRECTORY
    && (forall n :: n in done ==> SameTree(now, dp + [n], src, sp + [n]))
    && (forall n: string :: n !in done ==> Gone(now, dp + [n]))
  }

  lemma PrunedBack(base: FS, mid: FS, now: FS, p: Path)
    requires Grown(base, mid, p) && Pruned(mid, now, p) && Gone(now, p) && Gone(base, p)
    ensures now == base
  {
    forall q | Within(q, p)
      ensures q !in now && q !in base
    {
      WithinSuffix(q, p);
      assert At(now, p, q[|p|..]).None? && At(base, p, q[|p|..]).None?;
    }
  }

  lemma CopyingStart(src: FS, sp: Path, base: FS, dp: Path)
    requires Tree(base) && Gone(base, dp) && dp != [] && ParentsPresent(base, dp)
    ensures var now := base[dp := PRIVATE_DIRECTORY];
            Tree(now) && Copying(src, sp, base, now, dp, {})
  {
    var now := base[dp := PRIVATE_DIRECTORY];
    AtSelf(base, dp);
    assert At(base, dp, []).None?;
    PutTree(base, dp, PRIVATE_DIRECTORY);
    forall n: string, s: Path
      ensures At(now, dp + [n], s).None?
    {
      AtChild(now, dp, n, s);
      assert At(base, dp, [n] + s).None?;
    }
  }

  lemma CopyingStep(src: FS, sp: Path, base: FS, mid: FS, now: FS, dp: Path, done: set<string>, n: string)
    requires Copying(src, sp, base, mid, dp, done) && n !in done
    requires Grown(mid, now, dp + [n]) && SameTree(now, dp + [n], src, sp + [n])
    ensures Copying(src, sp, base, now, dp, done + {n})
  {
    forall q | q in now && !Within(q, dp)
      ensures q in base
    {
      WithinChild(q, dp, n);
    }
    forall m: string, s: Path | m != n
      ensures At(now, dp + [m], s) == At(mid, dp + [m], s)
    {
      var q := dp + [m] + s;
      WithinChild(q, dp, n);
      assert q[|dp|] == m;
    }
    forall m | m in done
      ensures SameTree(now, dp + [m], src, sp + [m])
    {
      forall s: Path
        ensures At(now, dp + [m], s) == At(src, sp + [m], s)
      {
        assert At(mid, dp + [m], s) == At(src, sp + [m], s);
      }
    }
    forall m: string | m !in done && m != n
      ensures Gone(now, dp + [m])
    {
      forall s: Path
        ensures At(now, dp + [m], s).None?
      {
        assert At(mid, dp + [m], s).None?;
      }
    }
  }

  lemma CopyingDone(src: FS, sp: Path, base: FS, now: FS, dp: Path)
    requires Tree(src) && sp in src && src[sp].Directory?
    requires Copying(src, sp, base, now, dp, Names(src, sp)) && Tree(now) && Gone(base, dp) && dp != []
    ensures var final := now[dp := src[sp]];
            Tree(final) && Grown(base, final, dp) && SameTree(final, dp, src, sp)
  {
    var final := now[dp := src[sp]];
    forall s: Path
      ensures At(final, dp, s) == At(src, sp, s)
    {
      if s == [] {
        AtSelf(final, dp);
        AtSelf(src, sp);
      } else {
        assert [s[0]] + s[1..] == s;
        assert dp + s != dp;
        AtChild(now, dp, s[0], s[1..]);
        AtChild(src, sp, s[0], s[1..]);
        if At(src, sp, s).Some? { AtBelow(src, sp, s); }
        if s[0] in Names(src, sp) {
          assert SameTree(now, dp + [s[0]], src, sp + [s[0]]);
          assert At(now, dp + [s[0]], s[1..]) == At(src, sp + [s[0]], s[1..]);
        } else {
          assert Gone(now, dp + [s[0]]);
          assert At(now, dp + [s[0]], s[1..]).None?;
        }
      }
    }
    AtSelf(base, dp);
    assert At(base, dp, []).None?;
    PutTree(now, dp, src[sp]);
  }

  lemma ChildRoom(base: FS, now: FS, src: FS, sp: Path, dp: Path, done: set<string>, n: string)
    requires Tree(now) && Copying(src, sp, base, now, dp, done) && n !in done && dp != []
    ensures Gone(now, dp + [n]) && ParentsPresent(now, dp + [n])
  {
    forall a | Above(a, dp + [n])
      ensures a in now && now[a].Directory?
    {
      assert a == dp || Above(a, dp);
    }
  }

  lemma LeafCopied(src: FS, sp: Path, base: FS, dp: Path)
    requires Tree(src) && sp in src && !src[sp].Directory?
    requires Tree(base) && Gone(base, dp) && dp != [] && ParentsPresent(base, dp)
    ensures var now := base[dp := src[sp]];
            Tree(now) && Grown(base, now, dp) && SameTree(now, dp, src, sp)
  {
    LeafRoom(base, dp, src[sp]);
    SameLeaf(base[dp := src[sp]], dp, src, sp);
  }

  lemma LeafRoom(base: FS, dp: Path, n: Node)
    requires Tree(base) && Gone(base, dp) && dp != [] && ParentsPresent(base, dp)
    ensures Tree(base[dp := n]) && Grown(base, base[dp := n], dp) && dp !in base
    ensures base[dp := n] - {dp} == base
  {
    AtSelf(base, dp);
    assert At(base, dp, []).None?;
    forall q | q in base
      ensures !Above(dp, q)
    {
      WithinSuffix(q, dp);
      assert Within(q, dp) ==> At(base, dp, q[|dp|..]).None?;
    }
    PutTree(base, dp, n);
  }

  lemma LeafFits(nodes: FS, p: Path, depth: nat, entries: nat, bytes: nat)
    requires Tree(nodes) && p in nodes && !nodes[p].Directory?
    ensures |Subtree(nodes, p)| == 1 && Weight(Subtree(nodes, p)) == NodeWeight(nodes[p])
    ensures Fits(nodes, p, depth, entries, bytes) <==>
      entries + 1 <= MAX_QUARANTINE_ENTRIES && bytes + NodeWeight(nodes[p]) <= MAX_QUARANTINE_BYTES &&
      Copyable(nodes[p]) && depth <= MAX_QUARANTINE_DEPTH
  {
    LeafAlone(nodes, p);
    WeightRemove(Subtree(nodes, p), p);
    assert Subtree(nodes, p) - {p} == map[];
  }

  lemma TooBig(nodes: FS, p: Path, depth: nat, entries: nat, bytes: nat)
    requires Tree(nodes) && p in nodes
    ensures depth > MAX_QUARANTINE_DEPTH || entries + 1 > MAX_QUARANTINE_ENTRIES || !Copyable(nodes[p])
      ==> !Fits(nodes, p, depth, entries, bytes)
  {
    assert p in Subtree(nodes, p);
    SubtreeParts(nodes, p);
  }

  lemma GrownChild(base: FS, mid: FS, now: FS, dp: Path, n: string)
    requires Grown(base, mid, dp) && Grown(mid, now, dp + [n]) && dp in mid
    ensures Grown(base, now, dp) && dp in now
  {
    forall q | q in now && !Within(q, dp)
      ensures q in base
    {
      WithinChild(q, dp, n);
    }
  }

  lemma {:induction false} NamesFit(nodes: FS, p: Path, names: set<string>)
    requires names <= Names(nodes, p)
    ensures |names| <= |Branches(nodes, p, names)|
    decreases |names|
  {
    if names != {} {
      var n :| n in names;
      var rest := names - {n};
      NamesFit(nodes, p, rest);
      BranchesGrow(nodes, p, rest, n);
      assert rest + {n} == names;
      ChildInTree(nodes, p, n);
      var child := Subtree(nodes, p + [n]);
      assert p + [n] in child;
      assert child != map[];
    }
  }

  /** The counters once the children in done have been copied, each within the budget. */
  ghost predicate Counted(src: FS, sp: Path, done: set<string>, depth: nat, e: nat, b: nat, entries: nat, bytes: nat) {
    && entries == e + 1 + |Branches(src, sp, done)| <= MAX_QUARANTINE_ENTRIES
    && bytes == b + Weight(Branches(src, sp, done)) <= MAX_QUARANTINE_BYTES
    && forall n :: n in done ==> exists e', b' :: FitsBelow(src, sp, n, depth, e', b')
  }

  lemma CountedStart(src: FS, sp: Path, depth: nat, e: nat, b: nat)
    requires e + 1 <= MAX_QUARANTINE_ENTRIES && b <= MAX_QUARANTINE_BYTES
    ensures Counted(src, sp, {}, depth, e, b, e + 1, b)
  {
    assert Branches(src, sp, {}) == map[];
  }

  lemma CountedStep(src: FS, sp: Path, done: set<string>, n: string, depth: nat, e: nat, b: nat, entries: nat,
                    bytes: nat,
                    entries': nat, bytes': nat)
    requires Counted(src, sp, done, depth, e, b, entries, bytes) && n !in done
    requires Fits(src, sp + [n], depth + 1, entries, bytes)
    requires entries' == entries + |Subtree(src, sp + [n])| && bytes' == bytes + Weight(Subtree(src, sp + [n]))
    ensures Counted(src, sp, done + {n}, depth, e, b, entries', bytes')
  {
    BranchesGrow(src, sp, done, n);
    assert FitsBelow(src, sp, n, depth, entries, bytes);
  }

  lemma CountedDone(src: FS, sp: Path, depth: nat, e: nat, b: nat, entries: nat, bytes: nat)
    requires Tree(src) && sp in src && src[sp].Directory? && depth <= MAX_QUARANTINE_DEPTH
    requires Counted(src, sp, Names(src, sp), depth, e, b, entries, bytes)
    ensures Fits(src, sp, depth, e, b)
    ensures entries == e + |Subtree(src, sp)| && bytes == b + Weight(Subtree(src, sp))
  {
    SubtreeParts(src, sp);
    WholeFits(src, sp, depth, e, b);
  }

  lemma RefusedChild(src: FS, sp: Path, done: set<string>, n: string, depth: nat, e: nat, b: nat, entries: nat,
                     bytes: nat)
    requires Tree(src) && sp in src && src[sp].Directory?
    requires n in Names(src, sp) && n !in done && done <= Names(src, sp)
    requires Counted(src, sp, done, depth, e, b, entries, bytes)
    ensures bytes <= MAX_QUARANTINE_BYTES
    ensures Fits(src, sp, depth, e, b) ==> Fits(src, sp + [n], depth + 1, entries, bytes)
  {
    if Fits(src, sp, depth, e, b) { ChildFits(src, sp, done, n, depth, e, b); }
  }

  /** Undoes a partial copy. */
  method Discard(dst: Volume, dp: Path, record: FS, ghost base: FS) returns (clean: bool)
    requires Tree(dst.nodes) && Grown(base, dst.nodes, dp) && Gone(base, dp)
    requires Tree(record) && dp in dst.nodes && dp in record
    modifies dst`nodes, dst.io
    ensures Tree(dst.nodes) && Grown(base, dst.nodes, dp)
    ensures clean ==> dst.nodes == base
    ensures old(dst.nodes) == record && dst.io.faults == old(dst.io.faults) ==> clean
    ensures old(dst.nodes[dp]).Directory? && Names(old(dst.nodes), dp) != Names(record, dp) ==>
      dst.nodes == old(dst.nodes)
    ensures dst.io.faults >= old(dst.io.faults) && dst.io.orphans == old(dst.io.orphans)
    ensures clean ==> dst.io.faults == old(dst.io.faults)
  {
    ghost var mid := dst.nodes;
    clean := dst.RemoveTree(dp, record, dp, false);
    forall q | q in base
      ensures q in dst.nodes
    {
      WithinSuffix(q, dp);
      assert Within(q, dp) ==> At(base, dp, q[|dp|..]).None?;
    }
    if clean { PrunedBack(base, mid, dst.nodes, dp); }
  }

  /** What one call of the recursive copy may leave behind. */
  ghost predicate Outcome(r: CopyResult, src: FS, sp: Path, base: FS, now: FS, dp: Path, fits: bool,
                          faults: int, orphans: int) {
    && Grown(base, now, dp)
    && 0 <= orphans <= faults
    && (r.Faulted? <==> faults > 0)
    && (r.Copied? ==> fits && SameTree(now, dp, src, sp))
    && (r.Refused? ==> !fits && now == base)
    && (r.Faulted? && r.clean ==> now == base)
    && (r.Faulted? && !r.clean ==> orphans > 0 || faults > 1 || !fits)
    && (orphans > 0 ==> dp in now)
  }

  /** What the destination holds between the creation of a leaf and its first write. */
  function Created(source: Node): Node {
    if source.Symlink? then source.(uid := 0, gid := 0) else PrivateFile([])
  }

  /** Copies one file or symbolic link; a failure after its identity is known removes it again. */
  method CopyLeaf(src: Volume, sp: Path, dst: Volume, dp: Path) returns (r: CopyResult)
    requires src != dst && Tree(src.nodes) && sp in src.nodes && !src.nodes[sp].Directory?
    requires Tree(dst.nodes) && Gone(dst.nodes, dp) && dp != [] && ParentsPresent(dst.nodes, dp)
    modifies dst`nodes, dst.io
    ensures Tree(dst.nodes)
    ensures Outcome(r, src.nodes, sp, old(dst.nodes), dst.nodes, dp, true,
                    dst.io.faults - old(dst.io.faults), dst.io.orphans - old(dst.io.orphans))
    ensures !r.Refused?
    ensures |old(dst.io.plan)| >= 2 && old(dst.io.plan)[0] && !old(dst.io.plan)[1] ==>
      r == Faulted(false) && dst.nodes == old(dst.nodes)[dp := Created(src.nodes[sp])]
  {
    ghost var base := dst.nodes;
    LeafRoom(base, dp, src.nodes[sp]);
    LeafCopied(src.nodes, sp, base, dp);
    var ok := dst.io.Attempt(); // open the source, create the destination
    if !ok { return Faulted(true); }
    var empty := Created(src.nodes[sp]);
    LeafRoom(base, dp, empty);
    dst.nodes := dst.nodes[dp := empty];
    ok := dst.io.Identify();
    if !ok { return Faulted(false); }
    ok := dst.io.Attempt(); // contents, owner, mode, times, flush
    if ok {
      dst.nodes := dst.nodes[dp := src.nodes[sp]];
      assert dst.nodes == base[dp := src.nodes[sp]];
      return Copied;
    }
    var partial: Node := *;
    LeafRoom(base, dp, partial);
    dst.nodes := dst.nodes[dp := partial];
    assert dst.nodes == base[dp := partial];
    ok := dst.io.Attempt();
    if !ok { return Faulted(false); }
    dst.nodes := dst.nodes - {dp};
    return Faulted(true);
  }

  /** A failing instance: one file, and the call that identifies the new copy fails. The empty copy stays behind. */
  method OrphanStays() returns (dst: Volume)
    ensures dst.nodes == map[["copy"] := PrivateFile([])]
  {
    var io := new Io([true, false]);
    var src := new Volume(map[["file"] := File(Meta(0x1A4, 0, 0), [65], 1)], io);
    dst := new Volume(map[], io);
    var r := CopyLeaf(src, ["file"], dst, ["copy"]);
    assert r == Faulted(false);
  }

  /**
   The recursive copy. With no failing primitive it copies exactly when the tree fits the budgets; otherwise
   the destination is as it was, unless a just-created node could not be identified or a second primitive
   failed during clean-up.
   */
  method CopyTree(src: Volume, sp: Path, dst: Volume, dp: Path, depth: nat, budget: Budget)
    returns (r: CopyResult)
    requires src != dst && Tree(src.nodes) && sp in src.nodes
    requires Tree(dst.nodes) && Gone(dst.nodes, dp) && dp != [] && ParentsPresent(dst.nodes, dp)
    requires depth <= MAX_QUARANTINE_DEPTH + 1 && budget.bytes <= MAX_QUARANTINE_BYTES
    modifies dst`nodes, dst.io, budget
    ensures Tree(dst.nodes)
    ensures Outcome(r, src.nodes, sp, old(dst.nodes), dst.nodes, dp,
                    Fits(src.nodes, sp, depth, old(budget.entries), old(budget.bytes)),
                    dst.io.faults - old(dst.io.faults), dst.io.orphans - old(dst.io.orphans))
    ensures r.Copied? ==>
      budget.entries == old(budget.entries) + |Subtree(src.nodes, sp)| &&
      budget.bytes == old(budget.bytes) + Weight(Subtree(src.nodes, sp))
    decreases MAX_QUARANTINE_DEPTH + 1 - depth
  {
    ghost var base, e, b := dst.nodes, budget.entries, budget.bytes;
    TooBig(src.nodes, sp, depth, e, b);
    if depth > MAX_QUARANTINE_DEPTH { return Refused; }
    budget.entries := budget.entries + 1;
    if budget.entries > MAX_QUARANTINE_ENTRIES { return Refused; }
    var ok := dst.io.Attempt();
    if !ok { return Faulted(true); }
    if src.nodes[sp].Device? { return Refused; }
    if !src.nodes[sp].Directory? {
      LeafFits(src.nodes, sp, depth, e, b);
      if !Copyable(src.nodes[sp]) { return Refused; }
      budget.bytes := budget.bytes + NodeWeight(src.nodes[sp]);
      if budget.bytes > MAX_QUARANTINE_BYTES { return Refused; }
      r := CopyLeaf(src, sp, dst, dp);
      return;
    }
    r := CopyDirectory(src, sp, dst, dp, depth, budget, e, b);
  }

  /** Owner and mode of a fully copied directory. */
  method FinishDirectory(src: Volume, sp: Path, dst: Volume, dp: Path, ghost base: FS) returns (r: CopyResult)
    requires src != dst && Tree(src.nodes) && sp in src.nodes && src.nodes[sp].Directory?
    requires Copying(src.nodes, sp, base, dst.nodes, dp, Names(src.nodes, sp))
    requires Tree(dst.nodes) && Gone(base, dp) && dp != []
    modifies dst`nodes, dst.io
    ensures Tree(dst.nodes)
    ensures dst.io.orphans == old(dst.io.orphans)
    ensures Outcome(r, src.nodes, sp, base, dst.nodes, dp, true,
                    dst.io.faults - old(dst.io.faults), dst.io.orphans - old(dst.io.orphans))
    ensures !r.Refused?
  {
    var ok := dst.io.Attempt();
    if !ok {
      var clean := Discard(dst, dp, dst.nodes, base);
      return Faulted(clean);
    }
    CopyingDone(src.nodes, sp, base, dst.nodes, dp);
    dst.nodes := dst.nodes[dp := src.nodes[sp]];
    return Copied;
  }

  method CopyDirectory(src: Volume, sp: Path, dst: Volume, dp: Path, depth: nat, budget: Budget,
                       ghost e: nat, ghost b: nat)
    returns (r: CopyResult)
    requires src != dst && Tree(src.nodes) && sp in src.nodes && src.nodes[sp].Directory?
    requires Tree(dst.nodes) && Gone(dst.nodes, dp) && dp != [] && ParentsPresent(dst.nodes, dp)
    requires depth <= MAX_QUARANTINE_DEPTH
    requires budget.entries == e + 1 <= MAX_QUARANTINE_ENTRIES && budget.bytes == b <= MAX_QUARANTINE_BYTES
    modifies dst`nodes, dst.io, budget
    ensures Tree(dst.nodes)
    ensures Outcome(r, src.nodes, sp, old(dst.nodes), dst.nodes, dp, Fits(src.nodes, sp, depth, e, b),
                    dst.io.faults - old(dst.io.faults), dst.io.orphans - old(dst.io.orphans))
    ensures r.Copied? ==>
      budget.entries == e + |Subtree(src.nodes, sp)| && budget.bytes == b + Weight(Subtree(src.nodes, sp))
    decreases MAX_QUARANTINE_DEPTH + 1 - depth, 2
  {
    ghost var base := dst.nodes;
    var ok := dst.io.Attempt(); // open the source directory, make the destination directory
    if !ok { return Faulted(true); }
    CopyingStart(src.nodes, sp, base, dp);
    dst.nodes := dst.nodes[dp := PRIVATE_DIRECTORY];
    ok := dst.io.Identify();
    if !ok { return Faulted(false); }
    ok := dst.io.Attempt(); // list the source directory
    if !ok || |Names(src.nodes, sp)| + budget.entries > MAX_QUARANTINE_ENTRIES {
      NamesFit(src.nodes, sp, Names(src.nodes, sp));
      SubtreeParts(src.nodes, sp);
      var clean := Discard(dst, dp, dst.nodes, base);
      return if ok && clean then Refused else Faulted(clean);
    }
    CountedStart(src.nodes, sp, depth, e, b);
    r := CopyChildren(src, sp, dst, dp, depth, budget, base, e, b);
    if r.Copied? {
      CountedDone(src.nodes, sp, depth, e, b, budget.entries, budget.bytes);
      r := FinishDirectory(src, sp, dst, dp, base);
    }
  }

  lemma ListedName(nodes: FS, p: Path, n: string)
    ensures n in Names(nodes, p) <==> p + [n] in nodes
  {
    if p + [n] in nodes { assert (p + [n])[|p|] == n; }
    if q :| q in nodes && |q| == |p| + 1 && Within(q, p) && q[|p|] == n { assert q == p + [n]; }
  }

  /** Undoes a directory copy after the copy of its child n ended without success. */
  method Abandon(dst: Volume, dp: Path, n: string, record: FS, child: CopyResult, ghost base: FS)
    returns (r: CopyResult)
    requires Tree(record) && Tree(dst.nodes) && Gone(base, dp) && dp in record
    requires Grown(base, record, dp) && Grown(record, dst.nodes, dp + [n]) && dp + [n] !in record
    requires record[dp].Directory?
    requires child.Refused? || (child.Faulted? && child.clean) ==> dst.nodes == record
    requires !child.Copied?
    modifies dst`nodes, dst.io
    ensures Tree(dst.nodes) && Grown(base, dst.nodes, dp) && !r.Copied?
    ensures dst.io.faults >= old(dst.io.faults) && dst.io.orphans == old(dst.io.orphans)
    ensures r.Refused? <==> child.Refused? && dst.io.faults == old(dst.io.faults)
    ensures r.Refused? || (r.Faulted? && r.clean) ==> dst.nodes == base
    ensures r.Faulted? && !r.clean ==> dst.io.faults > old(dst.io.faults) || child == Faulted(false)
    ensures dp + [n] in old(dst.nodes) ==> dp in dst.nodes
  {
    GrownChild(base, record, dst.nodes, dp, n);
    ListedName(dst.nodes, dp, n);
    ListedName(record, dp, n);
    var clean := Discard(dst, dp, record, base);
    r := if child.Refused? && clean then Refused else Faulted(clean);
  }

  /** One child; unless it is copied, the whole partial directory is undone. */
  method CopyChild(src: Volume, sp: Path, dst: Volume, dp: Path, n: string, depth: nat, budget: Budget,
                   ghost base: FS, ghost done: set<string>, ghost e: nat, ghost b: nat)
    returns (r: CopyResult)
    requires src != dst && Tree(src.nodes) && sp in src.nodes && src.nodes[sp].Directory?
    requires Tree(dst.nodes) && Copying(src.nodes, sp, base, dst.nodes, dp, done) && Gone(base, dp) && dp != []
    requires n in Names(src.nodes, sp) && n !in done && done <= Names(src.nodes, sp)
    requires depth <= MAX_QUARANTINE_DEPTH
    requires Counted(src.nodes, sp, done, depth, e, b, budget.entries, budget.bytes)
    modifies dst`nodes, dst.io, budget
    ensures Tree(dst.nodes)
    ensures r.Copied? ==> Copying(src.nodes, sp, base, dst.nodes, dp, done + {n})
    ensures r.Copied? ==> Counted(src.nodes, sp, done + {n}, depth, e, b, budget.entries, budget.bytes)
    ensures r.Copied? ==> dst.io.faults == old(dst.io.faults) && dst.io.orphans == old(dst.io.orphans)
    ensures !r.Copied? ==>
      Outcome(r, src.nodes, sp, base, dst.nodes, dp, Fits(src.nodes, sp, depth, e, b),
              dst.io.faults - old(dst.io.faults), dst.io.orphans - old(dst.io.orphans))
    decreases MAX_QUARANTINE_DEPTH + 1 - depth, 0
  {
    hide Counted, Fits, Names, SameTree;
    ChildInTree(src.nodes, sp, n);
    ChildRoom(base, dst.nodes, src.nodes, sp, dp, done, n);
    RefusedChild(src.nodes, sp, done, n, depth, e, b, budget.entries, budget.bytes);
    ghost var e', b' := budget.entries, budget.bytes;
    var record := dst.nodes;
    r := CopyTree(src, sp + [n], dst, dp + [n], depth + 1, budget);
    if r.Copied? {
      CountedStep(src.nodes, sp, done, n, depth, e, b, e', b', budget.entries, budget.bytes);
      CopyingStep(src.nodes, sp, base, record, dst.nodes, dp, done, n);
    } else {
      AtSelf(record, dp + [n]);
      r := Abandon(dst, dp, n, record, r, base);
    }
  }

  method CopyChildren(src: Volume, sp: Path, dst: Volume, dp: Path, depth: nat, budget: Budget,
                      ghost base: FS, ghost e: nat, ghost b: nat)
    returns (r: CopyResult)
    requires src != dst && Tree(src.nodes) && sp in src.nodes && src.nodes[sp].Directory?
    requires Tree(dst.nodes) && Copying(src.nodes, sp, base, dst.nodes, dp, {}) && Gone(base, dp) && dp != []
    requires depth <= MAX_QUARANTINE_DEPTH
    requires Counted(src.nodes, sp, {}, depth, e, b, budget.entries, budget.bytes)
    modifies dst`nodes, dst.io, budget
    ensures Tree(dst.nodes)
    ensures r.Copied? ==> Copying(src.nodes, sp, base, dst.nodes, dp, Names(src.nodes, sp))
    ensures r.Copied? ==> Counted(src.nodes, sp, Names(src.nodes, sp), depth, e, b, budget.entries, budget.bytes)
    ensures r.Copied? ==> dst.io.faults == old(dst.io.faults) && dst.io.orphans == old(dst.io.orphans)
    ensures !r.Copied? ==>
      Outcome(r, src.nodes, sp, base, dst.nodes, dp, Fits(src.nodes, sp, depth, e, b),
              dst.io.faults - old(dst.io.faults), dst.io.orphans - old(dst.io.orphans))
    decreases MAX_QUARANTINE_DEPTH + 1 - depth, 1
  {
    hide Copying, Counted, Outcome, Fits, Names;
    var todo := Names(src.nodes, sp);
    ghost var done: set<string> := {};
    while todo != {}
      invariant Tree(dst.nodes) && Copying(src.nodes, sp, base, dst.nodes, dp, done)
      invariant done + todo == Names(src.nodes, sp) && done !! todo
      invariant dst.io.faults == old(dst.io.faults) && dst.io.orphans == old(dst.io.orphans)
      invariant Counted(src.nodes, sp, done, depth, e, b, budget.entries, budget.bytes)
    {
      var n :| n in todo;
      r := CopyChild(src, sp, dst, dp, n, depth, budget, base, done, e, b);
      if !r.Copied? { return; }
      todo, done := todo - {n}, done + {n};
    }
    assert done == Names(src.nodes, sp);
    r := Copied;
  }

  lemma CutIsPruned(nodes: FS, p: Path)
    requires Tree(nodes)
    ensures Tree(Cut(nodes, p)) && Pruned(nodes, Cut(nodes, p), p) && Gone(Cut(nodes, p), p)
  {
    CutTree(nodes, p);
    forall s: Path
      ensures At(Cut(nodes, p), p, s).None?
    {
      WithinSuffix(p + s, p);
    }
  }

  /** Placing a tree where nothing lies extends the target by an exact copy. */
  lemma PlacedTree(src: FS, from: Path, dst: FS, to: Path)
    requires Tree(src) && from in src && Tree(dst) && Gone(dst, to) && to != [] && ParentsPresent(dst, to)
    ensures var now := dst + Placed(src, from, to);
            Tree(now) && Grown(dst, now, to) && SameTree(now, to, src, from)
  {
    var now := dst + Placed(src, from, to);
    forall s: Path
      ensures At(now, to, s) == At(src, from, s)
    {
      PlacedAt(src, from, to, s);
      assert At(dst, to, s).None?;
    }
    forall q | q in Placed(src, from, to)
      ensures q !in dst
    {
      WithinSuffix(q, to);
      assert At(dst, to, q[|to|..]).None?;
    }
    forall q, a | q in now && Above(a, q)
      ensures a in now && now[a].Directory?
    {
      if q !in dst { PlacedParents(src, from, dst, to, q, a); }
    }
  }

  lemma PlacedParents(src: FS, from: Path, dst: FS, to: Path, q: Path, a: Path)
    requires Tree(src) && from in src && ParentsPresent(dst, to)
    requires q in Placed(src, from, to) && Above(a, q)
    ensures |a| >= |to| ==> a in Placed(src, from, to) && Placed(src, from, to)[a].Directory?
    ensures |a| < |to| ==> a in dst && dst[a].Directory?
  {
    WithinSuffix(q, to);
    var s := q[|to|..];
    if |a| >= |to| {
      assert a == to + s[..|a| - |to|];
      PlacedAt(src, from, to, s[..|a| - |to|]);
      assert from + s[..|a| - |to|] == (from + s)[..|from| + |a| - |to|];
      assert Above(from + s[..|a| - |to|], from + s);
    } else {
      assert a == to[..|a|];
      assert Above(a, to);
    }
  }

  /** A name nothing bears yet in the directory dir; a collision of the random token counts as a failure. */
  method FreshName(vol: Volume, dir: Path) returns (ok: bool, name: string)
    requires Tree(vol.nodes)
    modifies vol.io
    ensures ok ==> Gone(vol.nodes, dir + [name])
    ensures vol.io.orphans == old(vol.io.orphans)
    ensures vol.io.faults == old(vol.io.faults) + if ok then 0 else 1
  {
    name := *;
    if dir + [name] in vol.nodes {
      vol.io.faults := vol.io.faults + 1;
      return false, name;
    }
    forall s: Path
      ensures At(vol.nodes, dir + [name], s).None?
    {
      if s == [] {
        AtSelf(vol.nodes, dir + [name]);
      } else if At(vol.nodes, dir + [name], s).Some? {
        AtBelow(vol.nodes, dir + [name], s);
      }
    }
    ok := true;
  }

  /** Renames the tree at from to the unused path to. */
  method Rename(vol: Volume, from: Path, to: Path) returns (ok: bool)
    requires Tree(vol.nodes) && from in vol.nodes && Gone(vol.nodes, to) && to != []
    requires ParentsPresent(vol.nodes, to) && !Within(to, from)
    modifies vol`nodes, vol.io
    ensures Tree(vol.nodes)
    ensures vol.io.orphans == old(vol.io.orphans)
    ensures vol.io.faults == old(vol.io.faults) + if ok then 0 else 1
    ensures !ok ==> vol.nodes == old(vol.nodes)
    ensures ok ==> Grown(Cut(old(vol.nodes), from), vol.nodes, to) && SameTree(vol.nodes, to, old(vol.nodes), from)
  {
    ok := vol.io.Attempt();
    if !ok { return; }
    CutIsPruned(vol.nodes, from);
    ghost var cut := Cut(vol.nodes, from);
    forall a | Above(a, to)
      ensures a in cut && cut[a].Directory?
    {
      WithinBelow(a, to, from);
    }
    forall s: Path
      ensures At(cut, to, s).None?
    {
      assert At(vol.nodes, to, s).None?;
    }
    PlacedTree(vol.nodes, from, cut, to);
    vol.nodes := Cut(vol.nodes, from) + Placed(vol.nodes, from, to);
  }

  /** Nothing the vault held before is touched. */
  ghost predicate Extends(before: FS, after: FS) {
    forall q :: q in before ==> q in after && after[q] == before[q]
  }

  lemma TopLevel(nodes: FS, name: string)
    ensures ParentsPresent(nodes, [name]) && [] + [name] == [name]
  {
  }

  lemma CopyThere(now: FS, to: Path, src: FS, p: Path)
    requires SameTree(now, to, src, p) && p in src
    ensures to in now && now[to] == src[p] && SameTree(src, p, src, p)
  {
    AtSelf(now, to);
    AtSelf(src, p);
    assert At(now, to, []) == At(src, p, []);
  }

  lemma GrownExtends(base: FS, now: FS, p: Path)
    requires Grown(base, now, p)
    ensures Extends(base, now)
  {
  }

  /** The copy, its verification and its publication under name. */
  method PublishCopy(live: Volume, p: Path, vault: Volume, name: string) returns (ok: bool)
    requires live != vault && live.io == vault.io && Tree(live.nodes) && p in live.nodes
    requires Tree(vault.nodes) && Gone(vault.nodes, [name])
    modifies vault`nodes, vault.io
    ensures Tree(vault.nodes) && Extends(old(vault.nodes), vault.nodes)
    ensures ok ==> Grown(old(vault.nodes), vault.nodes, [name]) && SameTree(vault.nodes, [name], live.nodes, p)
    ensures ok ==> vault.io.faults == old(vault.io.faults) && Fits(live.nodes, p, 0, 0, 0)
    ensures !ok && vault.io.faults == old(vault.io.faults) ==>
      vault.nodes == old(vault.nodes) && !Fits(live.nodes, p, 0, 0, 0)
    ensures vault.io.faults >= old(vault.io.faults)
  {
    hide Fits, Gone, Tree, SameTree, ParentsPresent, Grown, Extends;
    ghost var base := vault.nodes;
    var temporary: string;
    GrownRefl(base, [name]);
    GrownExtends(base, base, [name]);
    ok, temporary := FreshName(vault, []);
    if !ok { return; }
    if temporary == name { vault.io.faults := vault.io.faults + 1; return false; }
    TopLevel(base, temporary);
    var budget := new Budget();
    var r := CopyTree(live, p, vault, [temporary], 0, budget);
    GrownExtends(base, vault.nodes, [temporary]);
    if !r.Copied? { return false; }
    var record := vault.nodes;
    CopyThere(record, [temporary], live.nodes, p);
    SameTreeSymmetric(record, [temporary], live.nodes, p);
    ok := live.VerifyTree(p, record, [temporary]);
    if ok {
      GoneApart(base, record, [temporary], name);
      TopLevel(record, name);
      ok := Rename(vault, [temporary], [name]);
    }
    if ok {
      RenamedOut(base, record, vault.nodes, [temporary], [name], live.nodes, p);
      GrownExtends(base, vault.nodes, [name]);
    } else {
      var clean := Discard(vault, [temporary], record, base);
      GrownExtends(base, vault.nodes, [temporary]);
    }
  }

  lemma SameTreeSymmetric(a: FS, p: Path, b: FS, r: Path)
    requires SameTree(a, p, b, r)
    ensures SameTree(b, r, a, p)
  {
  }

  lemma GrownRefl(base: FS, p: Path)
    ensures Grown(base, base, p)
  {
  }

  lemma GoneApart(base: FS, now: FS, p: Path, name: string)
    requires Grown(base, now, p) && Gone(base, [name]) && |p| == 1 && p != [name]
    ensures Gone(now, [name]) && !Within([name], p)
  {
    forall s: Path
      ensures At(now, [name], s).None?
    {
      var q := [name] + s;
      assert q[..1] == [name];
      assert At(base, [name], s).None?;
    }
  }

  lemma RenamedOut(base: FS, mid: FS, now: FS, from: Path, to: Path, src: FS, p: Path)
    requires Gone(base, from) && Grown(base, mid, from) && Grown(Cut(mid, from), now, to)
    requires SameTree(now, to, mid, from) && SameTree(mid, from, src, p)
    ensures Grown(base, now, to) && SameTree(now, to, src, p)
  {
    forall s: Path
      ensures At(now, to, s) == At(src, p, s)
    {
      assert At(mid, from, s) == At(src, p, s);
    }
    forall q | q in base
      ensures !Within(q, from)
    {
      WithinSuffix(q, from);
      assert Within(q, from) ==> At(base, from, q[|from|..]).None?;
    }
  }

  function Parent(p: Path): Path
    requires p != []
  {
    p[..|p| - 1]
  }

  /** Outside the tree at p, live keeps all of before; what is new sits in p's own directory. */
  ghost predicate OutsideKept(before: FS, live: FS, p: Path)
    requires p != []
  {
    && (forall q :: q in before && !Within(q, p) ==> q in live && live[q] == before[q])
    && (forall q :: q in live ==> (q in before && live[q] == before[q]) || (Within(q, Parent(p)) && q != Parent(p)))
  }

  lemma StageFree(live: FS, p: Path, stage: string)
    requires Tree(live) && p in live && Gone(live, Parent(p) + [stage])
    ensures !Within(Parent(p) + [stage], p) && ParentsPresent(live, Parent(p) + [stage])
  {
    var d := Parent(p) + [stage];
    AtSelf(live, d);
    assert At(live, d, []).None?;
    assert |d| == |p| && d != p;
    forall a | Above(a, d)
      ensures Above(a, p)
    {
      assert p[..|a|] == d[..|a|];
    }
  }

  lemma Staged(before: FS, mid: FS, p: Path, stage: Path)
    requires Tree(before) && p in before && |stage| == |p| && Parent(stage) == Parent(p)
    requires Gone(before, stage)
    requires Grown(Cut(before, p), mid, stage) && SameTree(mid, stage, before, p)
    ensures OutsideKept(before, mid, p) && stage in mid && Gone(Cut(before, p), stage)
  {
    CopyThere(mid, stage, before, p);
    forall s: Path
      ensures At(Cut(before, p), stage, s).None?
    {
      assert At(before, stage, s).None?;
    }
    forall q | q in mid && q !in Cut(before, p)
      ensures Within(q, Parent(p)) && q != Parent(p)
    {
      assert q[..|stage|][..|stage| - 1] == q[..|stage| - 1];
    }
  }

  lemma PartlyDeleted(before: FS, mid: FS, now: FS, p: Path, stage: Path)
    requires p != [] && OutsideKept(before, mid, p) && Grown(Cut(before, p), mid, stage) && Pruned(mid, now, stage)
    requires Gone(Cut(before, p), stage)
    ensures OutsideKept(before, now, p)
    ensures Gone(now, stage) ==> now == Cut(before, p)
  {
    forall q | q in before && !Within(q, p)
      ensures q in now
    {
      WithinSuffix(q, stage);
      assert Within(q, stage) ==> At(Cut(before, p), stage, q[|stage|..]).None?;
    }
    if Gone(now, stage) { PrunedBack(Cut(before, p), mid, now, stage); }
  }

  /**
   The whole cross-device move. Whatever happens, the source is complete in place or a complete, published
   copy exists; without a failing primitive it moves exactly the trees that fit the budgets.
   */
  method MoveAcross(live: Volume, p: Path, vault: Volume, name: string) returns (ok: bool)
    requires live != vault && live.io == vault.io && Tree(live.nodes) && p in live.nodes && p != []
    requires Tree(vault.nodes) && Gone(vault.nodes, [name])
    modifies live`nodes, vault`nodes, vault.io
    ensures Tree(live.nodes) && Tree(vault.nodes) && Extends(old(vault.nodes), vault.nodes)
    ensures ok ==> live.nodes == Cut(old(live.nodes), p) && vault.io.faults == old(vault.io.faults)
    ensures ok ==> Grown(old(vault.nodes), vault.nodes, [name])
    ensures live.nodes == old(live.nodes) || SameTree(vault.nodes, [name], old(live.nodes), p)
    ensures ok ==> SameTree(vault.nodes, [name], old(live.nodes), p)
    ensures OutsideKept(old(live.nodes), live.nodes, p)
    ensures vault.io.faults == old(vault.io.faults) ==> (ok <==> Fits(old(live.nodes), p, 0, 0, 0))
    ensures !ok && vault.io.faults == old(vault.io.faults) ==>
      live.nodes == old(live.nodes) && vault.nodes == old(vault.nodes)
    ensures vault.io.faults >= old(vault.io.faults)
  {
    hide Fits, Gone, Tree, SameTree, ParentsPresent, Grown, Extends, Pruned;
    var before := live.nodes;
    ok := PublishCopy(live, p, vault, name);
    if ok { ok := vault.io.Attempt(); }
    if !ok { return; }
    var stage: string;
    ok, stage := FreshName(live, Parent(p));
    if !ok { return; }
    StageFree(live.nodes, p, stage);
    var at := Parent(p) + [stage];
    ok := Rename(live, p, at);
    if !ok { return; }
    ghost var mid := live.nodes;
    Staged(before, mid, p, at);
    ok := vault.io.Attempt();
    if !ok { return; }
    ok := live.VerifyTree(at, before, p);
    if !ok { return; }
    ok := live.RemoveTree(at, before, p, true);
    PartlyDeleted(before, mid, live.nodes, p, at);
  }
}
