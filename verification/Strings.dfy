/** Splitting and joining on a separator. */
module Strings {
  predicate Without(s: string, c: char) {
    forall i :: 0 <= i < |s| ==> s[i] != c
  }

  /** Position of the first c in s, or |s|. */
  function Find(s: string, c: char): (i: nat)
    ensures i <= |s| && Without(s[..i], c) && (i < |s| ==> s[i] == c)
  {
    if s == "" || s[0] == c then 0 else
      var i := 1 + Find(s[1..], c);
      assert s[..i] == [s[0]] + s[1..][..i - 1];
      i
  }

  lemma FindAt(a: string, c: char, b: string)
    requires Without(a, c)
    ensures Find(a + [c] + b, c) == |a|
    ensures Find(a, c) == |a|
    ensures (a + [c] + b)[..|a|] == a && (a + [c] + b)[|a| + 1..] == b
  {
    var s := a + [c] + b;
    var i := Find(s, c);
    assert forall k :: 0 <= k < |a| ==> s[k] == a[k];
    assert forall k :: 0 <= k < i ==> s[..i][k] == s[k];
    assert s[|a|] == c;
  }

  function Split(s: string, c: char): (r: seq<string>)
    ensures r != []
    decreases |s|
  {
    var i := Find(s, c);
    if i == |s| then [s] else [s[..i]] + Split(s[i + 1..], c)
  }

  function Join(parts: seq<string>, c: char): string {
    if |parts| == 0 then "" else if |parts| == 1 then parts[0] else parts[0] + [c] + Join(parts[1..], c)
  }

  lemma {:induction false} SplitJoin(parts: seq<string>, c: char)
    requires parts != [] && forall p :: p in parts ==> Without(p, c)
    ensures Split(Join(parts, c), c) == parts
  {
    FindAt(parts[0], c, Join(parts[1..], c));
    hide Without, Find;
    if |parts| > 1 {
      var rest := Join(parts[1..], c);
      SplitJoin(parts[1..], c);
      assert Join(parts, c) == parts[0] + [c] + rest;
      assert parts == [parts[0]] + parts[1..];
    } else {
      assert parts == [parts[0]];
    }
  }

  /** Joining parts free of the separator loses nothing. */
  lemma JoinInjective(a: seq<string>, b: seq<string>, c: char)
    requires a != [] && b != [] && forall p :: p in a + b ==> Without(p, c)
    ensures Join(a, c) == Join(b, c) <==> a == b
  {
    assert forall p :: p in a || p in b ==> p in a + b;
    SplitJoin(a, c);
    SplitJoin(b, c);
  }

  lemma {:induction false} JoinWithout(parts: seq<string>, c: char, d: char)
    requires c != d && forall p :: p in parts ==> Without(p, d)
    ensures Without(Join(parts, c), d)
  {
    if |parts| > 1 {
      JoinWithout(parts[1..], c, d);
      var j, rest := Join(parts, c), Join(parts[1..], c);
      assert j == parts[0] + [c] + rest;
      assert Without(parts[0], d) by { assert parts[0] in parts; }
    } else if |parts| == 1 {
      assert parts[0] in parts;
    }
  }
}
