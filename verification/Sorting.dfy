/** Stable sorting by a total preorder; where the order tells elements apart, the result is unique. */
module Sorting {
  ghost predicate TotalPreorder<T(!new)>(le: (T, T) -> bool) {
    && (forall a, b :: le(a, b) || le(b, a))
    && (forall a, b, c :: le(a, b) && le(b, c) ==> le(a, c))
  }

  ghost predicate TotalOrder<T(!new)>(le: (T, T) -> bool) {
    TotalPreorder(le) && forall a, b :: le(a, b) && le(b, a) ==> a == b
  }

  /** le ranks no two different elements of s equal. */
  predicate Separates<T(==)>(le: (T, T) -> bool, s: seq<T>) {
    forall i, j :: 0 <= i < |s| && 0 <= j < |s| && le(s[i], s[j]) && le(s[j], s[i]) ==> s[i] == s[j]
  }

  predicate Sorted<T>(s: seq<T>, le: (T, T) -> bool) {
    forall i, j :: 0 <= i < j < |s| ==> le(s[i], s[j])
  }

  function Insert<T>(s: seq<T>, x: T, le: (T, T) -> bool): seq<T> {
    if s == [] then [x]
    else if le(x, s[0]) then [x] + s
    else [s[0]] + Insert(s[1..], x, le)
  }

  /** Equal elements keep their order. */
  function Sort<T>(s: seq<T>, le: (T, T) -> bool): seq<T> {
    if s == [] then [] else Insert(Sort(s[1..], le), s[0], le)
  }

  lemma {:induction false} InsertMultiset<T>(s: seq<T>, x: T, le: (T, T) -> bool)
    ensures multiset(Insert(s, x, le)) == multiset(s) + multiset{x}
  {
    if s != [] && !le(x, s[0]) {
      InsertMultiset(s[1..], x, le);
      assert s == [s[0]] + s[1..];
    }
  }

  lemma {:induction false} InsertEffect<T(!new)>(s: seq<T>, x: T, le: (T, T) -> bool)
    requires TotalPreorder(le) && Sorted(s, le)
    ensures multiset(Insert(s, x, le)) == multiset(s) + multiset{x} && Sorted(Insert(s, x, le), le)
  {
    InsertMultiset(s, x, le);
    if s != [] {
      if !le(x, s[0]) {
        InsertEffect(s[1..], x, le);
        var rest := Insert(s[1..], x, le);
        forall y | y in rest
          ensures le(s[0], y)
        {
          assert y in multiset(rest);
        }
      }
    }
  }

  lemma {:induction false} SortEffect<T(!new)>(s: seq<T>, le: (T, T) -> bool)
    requires TotalPreorder(le)
    ensures multiset(Sort(s, le)) == multiset(s) && Sorted(Sort(s, le), le)
  {
    hide TotalPreorder;
    if s != [] {
      SortEffect(s[1..], le);
      InsertEffect(Sort(s[1..], le), s[0], le);
      assert s == [s[0]] + s[1..];
    }
  }

  /** Sorting neither adds nor drops elements. */
  lemma SortMembers<T(!new)>(s: seq<T>, le: (T, T) -> bool)
    requires TotalPreorder(le)
    ensures |Sort(s, le)| == |s| && forall x :: x in Sort(s, le) <==> x in s
  {
    SortEffect(s, le);
    hide Sort, TotalPreorder;
    assert |multiset(s)| == |multiset(Sort(s, le))|;
    forall x
      ensures x in Sort(s, le) <==> x in s
    {
      assert x in multiset(Sort(s, le)) <==> x in multiset(s);
    }
  }

  lemma SameFirst<T(!new)>(a: seq<T>, b: seq<T>, le: (T, T) -> bool)
    requires TotalPreorder(le) && Separates(le, a) && Sorted(a, le) && Sorted(b, le)
    requires multiset(a) == multiset(b) && a != []
    ensures b != [] && a[0] == b[0]
  {
    assert a[0] in multiset(a) && a[0] in multiset(b);
    var i :| 0 <= i < |b| && b[i] == a[0];
    assert b[0] in multiset(b) && b[0] in multiset(a);
    var j :| 0 <= j < |a| && a[j] == b[0];
    assert le(a[0], a[0]) && le(a[0], a[j]) && le(b[0], b[i]);
  }

  lemma TailMultiset<T>(a: seq<T>)
    requires a != []
    ensures multiset(a[1..]) == multiset(a) - multiset{a[0]}
  {
    assert a == [a[0]] + a[1..];
  }

  lemma {:induction false} SortedUnique<T(!new)>(a: seq<T>, b: seq<T>, le: (T, T) -> bool)
    requires TotalPreorder(le) && Separates(le, a) && Sorted(a, le) && Sorted(b, le) && multiset(a) == multiset(b)
    ensures a == b
  {
    hide TotalPreorder;
    if a == [] {
      assert |b| == |multiset(b)| == 0;
    } else {
      SameFirst(a, b, le);
      TailMultiset(a);
      TailMultiset(b);
      SortedUnique(a[1..], b[1..], le);
      assert a == [a[0]] + a[1..] && b == [b[0]] + b[1..];
    }
  }

  lemma SeparatesSorted<T(!new)>(s: seq<T>, le: (T, T) -> bool)
    requires TotalPreorder(le) && Separates(le, s)
    ensures Separates(le, Sort(s, le))
  {
    SortMembers(s, le);
    hide Sort, TotalPreorder;
    var t := Sort(s, le);
    forall i, j | 0 <= i < |t| && 0 <= j < |t| && le(t[i], t[j]) && le(t[j], t[i])
      ensures t[i] == t[j]
    {
      assert t[i] in s && t[j] in s;
    }
  }

  /** Sorting sees only which elements there are, and leaves a sorted sequence alone. */
  lemma SortCanonical<T(!new)>(a: seq<T>, b: seq<T>, le: (T, T) -> bool)
    requires TotalPreorder(le) && Separates(le, a)
    ensures multiset(a) == multiset(b) <==> Sort(a, le) == Sort(b, le)
    ensures Sorted(a, le) <==> Sort(a, le) == a
  {
    SortEffect(a, le);
    SortEffect(b, le);
    SeparatesSorted(a, le);
    hide Sort, TotalPreorder, Separates;
    if multiset(a) == multiset(b) { SortedUnique(Sort(a, le), Sort(b, le), le); }
    if Sorted(a, le) { SortedUnique(Sort(a, le), a, le); }
  }

  /** a comes before b somewhere in s. */
  ghost predicate Before<T>(s: seq<T>, a: T, b: T) {
    exists p, q :: 0 <= p < q < |s| && s[p] == a && s[q] == b
  }

  lemma BeforeMore<T>(x: T, s: seq<T>, a: T, b: T)
    ensures Before(s, a, b) ==> Before([x] + s, a, b)
    ensures x == a && b in s ==> Before([x] + s, a, b)
  {
    var t := [x] + s;
    if Before(s, a, b) {
      var p, q :| 0 <= p < q < |s| && s[p] == a && s[q] == b;
      assert t[p + 1] == a && t[q + 1] == b;
    }
    if x == a && b in s {
      var q :| 0 <= q < |s| && s[q] == b;
      assert t[0] == a && t[q + 1] == b;
    }
  }

  /** What comes first in a nonempty sequence, or what comes before within the rest. */
  lemma BeforeSplit<T>(s: seq<T>, a: T, b: T)
    requires s != [] && Before(s, a, b)
    ensures (a == s[0] && b in s[1..]) || Before(s[1..], a, b)
  {
    var p, q :| 0 <= p < q < |s| && s[p] == a && s[q] == b;
    assert s[1..][q - 1] == b;
    if p > 0 { assert s[1..][p - 1] == a; }
  }

  /** Inserting keeps every order there was, and puts x before everything it is ranked at or below. */
  lemma {:induction false} InsertBefore<T>(s: seq<T>, x: T, le: (T, T) -> bool, a: T, b: T)
    ensures Before(s, a, b) ==> Before(Insert(s, x, le), a, b)
    ensures b in s && le(x, b) ==> Before(Insert(s, x, le), x, b)
  {
    hide Before;
    BeforeMore(x, s, a, b);
    BeforeMore(x, s, x, b);
    if s != [] && !le(x, s[0]) {
      var rest := s[1..];
      InsertBefore(rest, x, le, a, b);
      InsertMultiset(rest, x, le);
      assert b in multiset(rest) ==> b in multiset(Insert(rest, x, le));
      BeforeMore(s[0], Insert(rest, x, le), a, b);
      BeforeMore(s[0], Insert(rest, x, le), x, b);
      if Before(s, a, b) { BeforeSplit(s, a, b); }
    }
  }

  /** Sorting is stable: an element ranked at or below a later one stays before it. */
  lemma {:induction false} SortStable<T>(s: seq<T>, le: (T, T) -> bool, a: T, b: T)
    requires Before(s, a, b) && le(a, b)
    ensures Before(Sort(s, le), a, b)
  {
    hide Before;
    BeforeNonempty(s, a, b);
    var rest := s[1..];
    BeforeSplit(s, a, b);
    InsertBefore(Sort(rest, le), s[0], le, a, b);
    if Before(rest, a, b) {
      SortStable(rest, le, a, b);
    } else {
      SortMultiset(rest, le);
      assert b in multiset(rest) && b in multiset(Sort(rest, le));
    }
  }

  lemma BeforeNonempty<T>(s: seq<T>, a: T, b: T)
    requires Before(s, a, b)
    ensures s != []
  {
  }

  lemma {:induction false} SortMultiset<T>(s: seq<T>, le: (T, T) -> bool)
    ensures multiset(Sort(s, le)) == multiset(s)
  {
    if s != [] {
      SortMultiset(s[1..], le);
      InsertMultiset(Sort(s[1..], le), s[0], le);
      assert s == [s[0]] + s[1..];
    }
  }

  /** Lexicographic order on sequences of numbers. */
  predicate LexLe(a: seq<int>, b: seq<int>) {
    a == [] || (b != [] && (a[0] < b[0] || (a[0] == b[0] && LexLe(a[1..], b[1..]))))
  }

  lemma {:induction false} LexTotal(a: seq<int>, b: seq<int>)
    ensures LexLe(a, b) || LexLe(b, a)
    ensures LexLe(a, b) && LexLe(b, a) ==> a == b
  {
    if a != [] && b != [] {
      LexTotal(a[1..], b[1..]);
      assert a == [a[0]] + a[1..] && b == [b[0]] + b[1..];
    }
  }

  lemma {:induction false} LexTrans(a: seq<int>, b: seq<int>, c: seq<int>)
    requires LexLe(a, b) && LexLe(b, c)
    ensures LexLe(a, c)
  {
    if a != [] && b != [] && c != [] && a[0] == b[0] == c[0] { LexTrans(a[1..], b[1..], c[1..]); }
  }

  /** Text order: a prefix comes first, and otherwise the first difference decides. */
  ghost predicate Ascends(a: seq<int>, b: seq<int>) {
    || (|a| <= |b| && b[..|a|] == a)
    || exists k :: DiffersAt(a, b, k) && a[k] < b[k]
  }

  ghost predicate DiffersAt(a: seq<int>, b: seq<int>, k: int) {
    0 <= k < |a| && k < |b| && a[..k] == b[..k] && a[k] != b[k]
  }

  lemma {:induction false} LexExactly(a: seq<int>, b: seq<int>)
    ensures LexLe(a, b) <==> Ascends(a, b)
  {
    if a == [] {
      assert b[..0] == a;
    } else if b != [] {
      if a[0] != b[0] {
        assert DiffersAt(a, b, 0);
      } else {
        LexExactly(a[1..], b[1..]);
        hide LexLe, Ascends;
        AscendsAfter(a, b);
      }
    }
  }

  lemma AscendsAfter(a: seq<int>, b: seq<int>)
    requires a != [] && b != [] && a[0] == b[0]
    ensures Ascends(a, b) <==> Ascends(a[1..], b[1..])
  {
    var x, y := a[1..], b[1..];
    assert a == [a[0]] + x && b == [b[0]] + y;
    if |a| <= |b| { assert b[..|a|] == [b[0]] + y[..|x|]; }
    forall k | 0 <= k < |x| && k < |y|
      ensures DiffersAt(a, b, k + 1) <==> DiffersAt(x, y, k)
    {
      assert a[..k + 1] == [a[0]] + x[..k] && b[..k + 1] == [b[0]] + y[..k];
    }
    if Ascends(a, b) && !(|a| <= |b| && b[..|a|] == a) {
      var k :| DiffersAt(a, b, k) && a[k] < b[k];
      assert DiffersAt(x, y, k - 1);
    }
    if Ascends(x, y) && !(|x| <= |y| && y[..|x|] == x) {
      var k :| DiffersAt(x, y, k) && x[k] < y[k];
      assert DiffersAt(a, b, k + 1);
    }
  }
}
