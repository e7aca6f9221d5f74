/** The key-sorted form of a JSON value over which an export's digest is taken. */
module Json {
  import opened Common
  import opened Sorting

  datatype Value =
    | Null
    | Bool(b: bool)
    | Number(n: real)
    | Text(s: string)
    | List(items: seq<Value>)
    | Object(entries: seq<(string, Value)>)

  function Keys(entries: seq<(string, Value)>): (r: seq<string>)
    ensures |r| == |entries| && forall i :: 0 <= i < |r| ==> r[i] == entries[i].0
  {
    seq(|entries|, i requires 0 <= i < |entries| => entries[i].0)
  }

  /** No object has a key twice, as after parsing. */
  predicate Keyed(v: Value) {
    match v
    case List(items) => forall i :: 0 <= i < |items| ==> Keyed(items[i])
    case Object(entries) => Distinct(Keys(entries)) && forall i :: 0 <= i < |entries| ==> Keyed(entries[i].1)
    case _ => true
  }

  /** The key order ranks no two keys of one object equal. */
  predicate NoTies(v: Value, le: (string, string) -> bool) {
    match v
    case List(items) => forall i :: 0 <= i < |items| ==> NoTies(items[i], le)
    case Object(entries) => Separates(le, Keys(entries)) && forall i :: 0 <= i < |entries| ==> NoTies(entries[i].1, le)
    case _ => true
  }

  function IndexOf(keys: seq<string>, k: string): (i: nat)
    requires k in keys
    ensures i < |keys| && keys[i] == k
  {
    if keys[0] == k then 0 else 1 + IndexOf(keys[1..], k)
  }

  /** stableValue: the entries of every object in key order. */
  function Stable(v: Value, le: (string, string) -> bool): Value
    decreases v
  {
    match v
    case List(items) => List(seq(|items|, i requires 0 <= i < |items| => Stable(items[i], le)))
    case Object(entries) =>
      var keys := Keys(entries);
      var sorted := Sort(keys, le);
      Object(seq(|sorted|, i requires 0 <= i < |sorted| =>
        (sorted[i], if sorted[i] in keys then Stable(entries[IndexOf(keys, sorted[i])].1, le) else Value.Null)))
    case _ => v
  }

  /** An entry of the canonical form is the canonical form of the entry under its key. */
  ghost predicate StableEntry(e: (string, Value), entries: seq<(string, Value)>, le: (string, string) -> bool) {
    exists i :: 0 <= i < |entries| && e == (entries[i].0, Stable(entries[i].1, le))
  }

  /**
   The canonical form: a list's items in their order, an object's entries by ascending key and those ranked equal in
   their order, each put into its own canonical form, and anything else as it is.
   */
  lemma StableForm(v: Value, le: (string, string) -> bool)
    requires TotalPreorder(le) && Keyed(v)
    ensures var w := Stable(v, le);
      match v
      case List(items) =>
        w.List? && |w.items| == |items| && forall i :: 0 <= i < |items| ==> w.items[i] == Stable(items[i], le)
      case Object(entries) =>
        && w.Object? && |w.entries| == |entries|
        && (forall i, j :: 0 <= i < j < |entries| ==> le(w.entries[i].0, w.entries[j].0))
        && (forall i, j :: 0 <= i < j < |entries| && le(entries[i].0, entries[j].0) ==>
              Before(Keys(w.entries), entries[i].0, entries[j].0))
        && (forall e :: e in w.entries ==> StableEntry(e, entries, le))
        && (forall i :: 0 <= i < |entries| ==> (entries[i].0, Stable(entries[i].1, le)) in w.entries)
      case _ => w == v
  {
    if v.Object? { ObjectForm(v.entries, le); }
  }

  lemma ObjectForm(x: seq<(string, Value)>, le: (string, string) -> bool)
    requires TotalPreorder(le) && Distinct(Keys(x))
    ensures var w := Stable(Object(x), le).entries;
      && |w| == |x|
      && (forall i, j :: 0 <= i < j < |x| ==> le(w[i].0, w[j].0))
      && (forall i, j :: 0 <= i < j < |x| && le(x[i].0, x[j].0) ==> Before(Keys(w), x[i].0, x[j].0))
      && (forall e :: e in w ==> StableEntry(e, x, le))
      && (forall i :: 0 <= i < |x| ==> (x[i].0, Stable(x[i].1, le)) in w)
  {
    KeysSorted(x, le);
    hide Sort, Stable, TotalPreorder, Before, Distinct, StableEntry, Keys;
    forall i | 0 <= i < |x|
      ensures StableEntry(Stable(Object(x), le).entries[i], x, le)
    {
      EntryOf(x, le, i);
    }
    forall i | 0 <= i < |x|
      ensures (x[i].0, Stable(x[i].1, le)) in Stable(Object(x), le).entries
    {
      ObjectStable(x, le, i);
    }
    forall i, j | 0 <= i < j < |x| && le(x[i].0, x[j].0)
      ensures Before(Sort(Keys(x), le), x[i].0, x[j].0)
    {
      StayBefore(Keys(x), le, i, j);
    }
    SortedEntries(Stable(Object(x), le).entries, le);
  }

  lemma SortedEntries(w: seq<(string, Value)>, le: (string, string) -> bool)
    requires Sorted(Keys(w), le)
    ensures forall i, j :: 0 <= i < j < |w| ==> le(w[i].0, w[j].0)
  {
    var keys := Keys(w);
    forall i, j | 0 <= i < j < |w|
      ensures le(w[i].0, w[j].0)
    {
      assert le(keys[i], keys[j]);
    }
  }

  lemma EntryOf(x: seq<(string, Value)>, le: (string, string) -> bool, i: nat)
    requires TotalPreorder(le) && i < |x|
    ensures var w := Stable(Object(x), le).entries;
      |w| == |x| && StableEntry(w[i], x, le)
  {
    hide Sort, Stable, TotalPreorder;
    EntryAt(x, le, i);
  }

  lemma KeysSorted(x: seq<(string, Value)>, le: (string, string) -> bool)
    requires TotalPreorder(le)
    ensures var w := Stable(Object(x), le).entries;
      |w| == |x| && Keys(w) == Sort(Keys(x), le) && Sorted(Keys(w), le)
  {
    SortEffect(Keys(x), le);
    SortMembers(Keys(x), le);
    hide Sort, TotalPreorder, Sorted;
    var w, sorted := Stable(Object(x), le).entries, Sort(Keys(x), le);
    assert |w| == |sorted| && forall i :: 0 <= i < |w| ==> w[i].0 == sorted[i];
    assert Keys(w) == sorted;
  }

  lemma StayBefore(keys: seq<string>, le: (string, string) -> bool, i: nat, j: nat)
    requires i < j < |keys| && le(keys[i], keys[j])
    ensures Before(Sort(keys, le), keys[i], keys[j])
  {
    assert Before(keys, keys[i], keys[j]);
    hide Before;
    SortStable(keys, le, keys[i], keys[j]);
  }

  /** The same value, up to the order of object entries at any depth. */
  ghost predicate Same(a: Value, b: Value)
    decreases a
  {
    match (a, b)
    case (List(x), List(y)) => |x| == |y| && forall i :: 0 <= i < |x| ==> Same(x[i], y[i])
    case (Object(x), Object(y)) =>
      multiset(Keys(x)) == multiset(Keys(y)) &&
      forall i, j :: 0 <= i < |x| && 0 <= j < |y| && x[i].0 == y[j].0 ==> Same(x[i].1, y[j].1)
    case _ => a == b && !a.List? && !a.Object?
  }

  /**
   Two values have one stable form exactly when they differ only in the order of their keys, provided the key order
   tells the keys of every object of one of them apart.
   */
  lemma {:induction false} StableExactly(a: Value, b: Value, le: (string, string) -> bool)
    requires TotalPreorder(le) && Keyed(a) && Keyed(b) && NoTies(a, le)
    ensures Stable(a, le) == Stable(b, le) <==> Same(a, b)
    decreases a
  {
    match (a, b)
    case (List(x), List(y)) =>
      forall i | 0 <= i < |x| && i < |y|
        ensures Stable(x[i], le) == Stable(y[i], le) <==> Same(x[i], y[i])
      {
        StableExactly(x[i], y[i], le);
      }
      ListsExactly(a, b, le);
    case (Object(x), Object(y)) =>
      forall i, j | 0 <= i < |x| && 0 <= j < |y|
        ensures Stable(x[i].1, le) == Stable(y[j].1, le) <==> Same(x[i].1, y[j].1)
      {
        StableExactly(x[i].1, y[j].1, le);
      }
      ObjectsExactly(x, y, le);
    case _ =>
  }

  lemma ListsExactly(a: Value, b: Value, le: (string, string) -> bool)
    requires a.List? && b.List?
    requires forall i :: 0 <= i < |a.items| && i < |b.items| ==>
      (Stable(a.items[i], le) == Stable(b.items[i], le) <==> Same(a.items[i], b.items[i]))
    ensures Stable(a, le) == Stable(b, le) <==> Same(a, b)
  {
    var x, y := Stable(a, le).items, Stable(b, le).items;
    if Stable(a, le) == Stable(b, le) {
      assert |x| == |a.items| && |y| == |b.items|;
      assert forall i :: 0 <= i < |x| ==> x[i] == y[i];
    }
    if Same(a, b) {
      assert x == y;
    }
  }

  lemma IndexUnique(keys: seq<string>, i: nat)
    requires Distinct(keys) && i < |keys|
    ensures keys[i] in keys && IndexOf(keys, keys[i]) == i
  {
    assert keys[i] in keys;
  }

  /** What the stable form of an object holds under each of its keys. */
  lemma ObjectStable(x: seq<(string, Value)>, le: (string, string) -> bool, i: nat)
    requires TotalPreorder(le) && Distinct(Keys(x)) && i < |x|
    ensures (x[i].0, Stable(x[i].1, le)) in Stable(Object(x), le).entries
    ensures forall e :: e in Stable(Object(x), le).entries && e.0 == x[i].0 ==> e.1 == Stable(x[i].1, le)
  {
    var keys := Keys(x);
    SortMembers(keys, le);
    IndexUnique(keys, i);
    var sorted, entries := Sort(keys, le), Stable(Object(x), le).entries;
    hide Sort, Stable;
    var j :| 0 <= j < |sorted| && sorted[j] == keys[i];
    EntryAt(x, le, j);
    assert entries[j] == (x[i].0, Stable(x[i].1, le));
    forall e | e in entries && e.0 == x[i].0
      ensures e.1 == Stable(x[i].1, le)
    {
      var m :| 0 <= m < |entries| && entries[m] == e;
      EntryAt(x, le, m);
    }
  }

  lemma EntryAt(x: seq<(string, Value)>, le: (string, string) -> bool, j: nat)
    requires TotalPreorder(le) && j < |x|
    ensures var keys, sorted, entries := Keys(x), Sort(Keys(x), le), Stable(Object(x), le).entries;
      && |entries| == |sorted| == |x| && sorted[j] in keys
      && entries[j] == (sorted[j], Stable(x[IndexOf(keys, sorted[j])].1, le))
  {
    SortMembers(Keys(x), le);
    hide Sort;
    assert Sort(Keys(x), le)[j] in Sort(Keys(x), le);
  }

  lemma ObjectsExactly(x: seq<(string, Value)>, y: seq<(string, Value)>, le: (string, string) -> bool)
    requires TotalPreorder(le) && Distinct(Keys(x)) && Distinct(Keys(y)) && Separates(le, Keys(x))
    requires forall i, j :: 0 <= i < |x| && 0 <= j < |y| ==>
      (Stable(x[i].1, le) == Stable(y[j].1, le) <==> Same(x[i].1, y[j].1))
    ensures Stable(Object(x), le) == Stable(Object(y), le) <==> Same(Object(x), Object(y))
  {
    SortCanonical(Keys(x), Keys(y), le);
    SortMembers(Keys(x), le);
    SortMembers(Keys(y), le);
    SameObjects(x, y);
    hide Sort, Stable, Distinct, TotalPreorder, Separates, Same, Keys;
    var sx, sy := Stable(Object(x), le), Stable(Object(y), le);
    if sx == sy {
      assert Sort(Keys(x), le) == Sort(Keys(y), le) by { SameKeys(x, y, le); }
      forall i, j | 0 <= i < |x| && 0 <= j < |y| && x[i].0 == y[j].0
        ensures Same(x[i].1, y[j].1)
      {
        SameEntry(x, y, le, i, j);
      }
    }
    if Same(Object(x), Object(y)) {
      SameStable(x, y, le);
    }
  }

  lemma SameObjects(x: seq<(string, Value)>, y: seq<(string, Value)>)
    ensures Same(Object(x), Object(y)) <==>
      && multiset(Keys(x)) == multiset(Keys(y))
      && forall i, j :: 0 <= i < |x| && 0 <= j < |y| && x[i].0 == y[j].0 ==> Same(x[i].1, y[j].1)
  {
  }

  /** Objects of one stable form hold alike values under one key. */
  lemma SameEntry(x: seq<(string, Value)>, y: seq<(string, Value)>, le: (string, string) -> bool, i: nat, j: nat)
    requires TotalPreorder(le) && Distinct(Keys(x)) && Distinct(Keys(y)) && i < |x| && j < |y| && x[i].0 == y[j].0
    requires Stable(Object(x), le) == Stable(Object(y), le)
    ensures Stable(x[i].1, le) == Stable(y[j].1, le)
  {
    hide Stable, TotalPreorder, Distinct;
    ObjectStable(x, le, i);
    ObjectStable(y, le, j);
  }

  lemma SameKeys(x: seq<(string, Value)>, y: seq<(string, Value)>, le: (string, string) -> bool)
    requires TotalPreorder(le) && Stable(Object(x), le) == Stable(Object(y), le)
    ensures Sort(Keys(x), le) == Sort(Keys(y), le)
  {
    SortMembers(Keys(x), le);
    SortMembers(Keys(y), le);
    hide Sort, TotalPreorder;
    var a, b := Sort(Keys(x), le), Sort(Keys(y), le);
    var e, f := Stable(Object(x), le).entries, Stable(Object(y), le).entries;
    assert forall i :: 0 <= i < |a| ==> e[i].0 == a[i];
    assert forall i :: 0 <= i < |b| ==> f[i].0 == b[i];
    assert e == f;
  }

  lemma SameStable(x: seq<(string, Value)>, y: seq<(string, Value)>, le: (string, string) -> bool)
    requires TotalPreorder(le) && Sort(Keys(x), le) == Sort(Keys(y), le)
    requires forall i, j :: 0 <= i < |x| && 0 <= j < |y| && x[i].0 == y[j].0 ==>
      Stable(x[i].1, le) == Stable(y[j].1, le)
    ensures Stable(Object(x), le) == Stable(Object(y), le)
  {
    SortMembers(Keys(x), le);
    SortMembers(Keys(y), le);
    var e, f := Stable(Object(x), le).entries, Stable(Object(y), le).entries;
    forall i | 0 <= i < |x|
      ensures e[i] == f[i]
    {
      EntryAt(x, le, i);
      EntryAt(y, le, i);
    }
    hide Sort, TotalPreorder;
    assert e == f;
  }

  lemma {:induction false} SameItself(v: Value)
    requires Keyed(v)
    ensures Same(v, v)
    decreases v
  {
    match v
    case List(items) =>
      forall i | 0 <= i < |items|
        ensures Same(items[i], items[i])
      {
        SameItself(items[i]);
      }
    case Object(entries) =>
      forall i, j | 0 <= i < |entries| && 0 <= j < |entries| && entries[i].0 == entries[j].0
        ensures Same(entries[i].1, entries[j].1)
      {
        assert Keys(entries)[i] == Keys(entries)[j];
        SameItself(entries[i].1);
      }
    case _ =>
  }

  lemma {:induction false} DistinctSorted(keys: seq<string>, le: (string, string) -> bool)
    requires Distinct(keys)
    ensures Distinct(Sort(keys, le))
  {
    if keys != [] {
      var x, rest := keys[0], keys[1..];
      assert forall i :: 0 <= i < |rest| ==> rest[i] == keys[i + 1];
      DistinctSorted(rest, le);
      SortMultiset(rest, le);
      assert x !in rest && (x in multiset(Sort(rest, le)) <==> x in multiset(rest));
      DistinctInsert(Sort(rest, le), x, le);
    }
  }

  lemma {:induction false} DistinctInsert(s: seq<string>, x: string, le: (string, string) -> bool)
    requires Distinct(s) && x !in s
    ensures Distinct(Insert(s, x, le))
  {
    if s != [] && !le(x, s[0]) {
      var rest := s[1..];
      assert forall i :: 0 <= i < |rest| ==> rest[i] == s[i + 1];
      DistinctInsert(rest, x, le);
      InsertMultiset(rest, x, le);
      assert s[0] !in rest && (s[0] in multiset(Insert(rest, x, le)) <==> s[0] in multiset(rest) + multiset{x});
    }
  }

  lemma OneOrder(s: seq<string>, a: string, b: string)
    requires Distinct(s) && Before(s, a, b)
    ensures !Before(s, b, a)
  {
  }

  /** Entries i and j in each other's place. */
  function Swap(x: seq<(string, Value)>, i: nat, j: nat): seq<(string, Value)>
    requires i < j < |x|
  {
    x[i := x[j]][j := x[i]]
  }

  lemma SwapSame(x: seq<(string, Value)>, i: nat, j: nat)
    requires i < j < |x| && Keyed(Object(x))
    ensures Keyed(Object(Swap(x, i, j))) && Same(Object(x), Object(Swap(x, i, j)))
  {
    var y := Swap(x, i, j);
    var k := Keys(x);
    assert Keys(y) == k[i := k[j]][j := k[i]];
    SwapKeys(k, i, j);
    forall a, b | 0 <= a < |x| && 0 <= b < |y| && x[a].0 == y[b].0
      ensures Same(x[a].1, y[b].1)
    {
      var c := if b == i then j else if b == j then i else b;
      assert y[b] == x[c] && k[a] == k[c];
      SameItself(x[a].1);
    }
  }

  lemma SwapKeys(k: seq<string>, i: nat, j: nat)
    requires i < j < |k| && Distinct(k)
    ensures var l := k[i := k[j]][j := k[i]];
      Distinct(l) && multiset(l) == multiset(k)
  {
    var l := k[i := k[j]][j := k[i]];
    forall a, b | 0 <= a < b < |l|
      ensures l[a] != l[b]
    {
      var c := if a == i then j else if a == j then i else a;
      var d := if b == i then j else if b == j then i else b;
      assert l[a] == k[c] && l[b] == k[d];
    }
  }

  /** Two keys of one object that the order ranks equal keep their order, so swapping them changes the form. */
  lemma SwapTied(x: seq<(string, Value)>, i: nat, j: nat, le: (string, string) -> bool)
    requires TotalPreorder(le) && Keyed(Object(x)) && i < j < |x| && le(x[i].0, x[j].0) && le(x[j].0, x[i].0)
    ensures Keyed(Object(Swap(x, i, j))) && Same(Object(x), Object(Swap(x, i, j)))
    ensures Stable(Object(x), le) != Stable(Object(Swap(x, i, j)), le)
  {
    SwapSame(x, i, j);
    var y := Swap(x, i, j);
    var k, l := Keys(x), Keys(y);
    var a, b := k[i], k[j];
    assert l[i] == b && l[j] == a;
    assert Before(k, a, b) && Before(l, b, a);
    SortStable(k, le, a, b);
    SortStable(l, le, b, a);
    DistinctSorted(k, le);
    OneOrder(Sort(k, le), a, b);
    hide Before, Distinct, Keyed, Same, Stable, Sort;
    if Stable(Object(x), le) == Stable(Object(y), le) {
      SameKeys(x, y, le);
      assert false;
    }
  }

  /** Replacing a part of a list or an object by a reordering of it with another form. */
  lemma DeeperItem(items: seq<Value>, i: nat, w: Value, le: (string, string) -> bool)
    requires i < |items| && Keyed(List(items)) && Keyed(w) && Same(items[i], w) && Stable(items[i], le) != Stable(w, le)
    ensures var other := List(items[i := w]);
      Keyed(other) && Same(List(items), other) && Stable(List(items), le) != Stable(other, le)
  {
    forall j | 0 <= j < |items| && j != i
      ensures Same(items[j], items[j])
    {
      SameItself(items[j]);
    }
    assert Stable(List(items), le).items[i] == Stable(items[i], le);
    assert Stable(List(items[i := w]), le).items[i] == Stable(w, le);
  }

  lemma DeeperEntry(x: seq<(string, Value)>, i: nat, w: Value, le: (string, string) -> bool)
    requires TotalPreorder(le) && i < |x| && Keyed(Object(x)) && Keyed(w)
    requires Same(x[i].1, w) && Stable(x[i].1, le) != Stable(w, le)
    ensures var y := x[i := (x[i].0, w)];
      Keyed(Object(y)) && Same(Object(x), Object(y)) && Stable(Object(x), le) != Stable(Object(y), le)
  {
    var y := x[i := (x[i].0, w)];
    assert Keys(y) == Keys(x);
    forall a, b | 0 <= a < |x| && 0 <= b < |y| && x[a].0 == y[b].0
      ensures Same(x[a].1, y[b].1)
    {
      assert Keys(x)[a] == Keys(x)[b];
      SameItself(x[a].1);
    }
    hide Stable;
    ObjectStable(x, le, i);
    ObjectStable(y, le, i);
  }

  /** A value with tied keys somewhere has a reordering of another form. */
  lemma {:induction false} TiedReorders(v: Value, le: (string, string) -> bool) returns (w: Value)
    requires TotalPreorder(le) && Keyed(v) && !NoTies(v, le)
    ensures Keyed(w) && Same(v, w) && Stable(v, le) != Stable(w, le)
    decreases v
  {
    match v
    case List(items) =>
      var i :| 0 <= i < |items| && !NoTies(items[i], le);
      var u := TiedReorders(items[i], le);
      DeeperItem(items, i, u, le);
      w := List(items[i := u]);
    case Object(x) =>
      if Separates(le, Keys(x)) {
        var i :| 0 <= i < |x| && !NoTies(x[i].1, le);
        var u := TiedReorders(x[i].1, le);
        DeeperEntry(x, i, u, le);
        w := Object(x[i := (x[i].0, u)]);
      } else {
        var i, j :| 0 <= i < j < |x| && le(x[i].0, x[j].0) && le(x[j].0, x[i].0);
        SwapTied(x, i, j, le);
        w := Object(Swap(x, i, j));
      }
  }

  /**
   Every reordering of a value has its canonical form exactly when the key order ranks no two keys of an object equal,
   at any depth.
   */
  lemma NoTiesExactly(v: Value, le: (string, string) -> bool)
    requires TotalPreorder(le) && Keyed(v)
    ensures NoTies(v, le) <==> forall w :: Keyed(w) && Same(v, w) ==> Stable(w, le) == Stable(v, le)
  {
    hide NoTies, Keyed, Same, Stable;
    if NoTies(v, le) {
      forall w | Keyed(w) && Same(v, w)
        ensures Stable(w, le) == Stable(v, le)
      {
        StableExactly(v, w, le);
      }
    } else {
      var _ := TiedReorders(v, le);
    }
  }

  /**
   localeCompare does rank different strings equal: under any order that ranks these two spellings of one letter
   equal, two objects that differ only in the order of their keys have different forms.
   */
  lemma TiedKeys(le: (string, string) -> bool, v: Value, w: Value)
    requires TotalPreorder(le) && Keyed(v) && Keyed(w)
    requires le("e\U{301}", "\U{E9}") && le("\U{E9}", "e\U{301}")
    ensures var a, b := Object([("e\U{301}", v), ("\U{E9}", w)]), Object([("\U{E9}", w), ("e\U{301}", v)]);
      Keyed(a) && Keyed(b) && Same(a, b) && !NoTies(a, le) && Stable(a, le) != Stable(b, le)
  {
    var k, m := "e\U{301}", "\U{E9}";
    assert |k| == 2 && |m| == 1;
    var x := [(k, v), (m, w)];
    assert Keys(x) == [k, m];
    assert Swap(x, 0, 1) == [(m, w), (k, v)];
    SwapTied(x, 0, 1, le);
    NoTiesExactly(Object(x), le);
  }
}
