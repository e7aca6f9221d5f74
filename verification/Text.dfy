/** String.prototype.trim, as the browser-side code uses it. */
module Text {
  /** White space and line terminators in the sense of section 22.1.3.32 of ECMA-262. */
  predicate Space(c: char) {
    c in {' ', '\t', '\n', '\r', '\U{0B}', '\U{0C}', '\U{A0}', '\U{1680}', '\U{2028}', '\U{2029}', '\U{202F}',
          '\U{205F}', '\U{3000}', '\U{FEFF}'}
    || '\U{2000}' <= c <= '\U{200A}'
  }

  function TrimStart<T>(s: seq<T>, space: T -> bool): (r: seq<T>)
    ensures |r| <= |s| && r == s[|s| - |r|..]
    ensures r == [] || !space(r[0])
    ensures forall k :: 0 <= k < |s| - |r| ==> space(s[k])
  {
    if s != [] && space(s[0]) then TrimStart(s[1..], space) else s
  }

  function TrimEnd<T>(s: seq<T>, space: T -> bool): (r: seq<T>)
    ensures |r| <= |s| && r == s[..|r|]
    ensures r == [] || !space(r[|r| - 1])
    ensures forall k :: |r| <= k < |s| ==> space(s[k])
  {
    if s != [] && space(s[|s| - 1]) then TrimEnd(s[..|s| - 1], space) else s
  }

  function TrimBy<T>(s: seq<T>, space: T -> bool): seq<T> {
    TrimEnd(TrimStart(s, space), space)
  }

  function Trim(s: string): string {
    TrimBy(s, Space)
  }

  /** A trimmed sequence is one with no space at either end; trimming it again changes nothing. */
  lemma TrimmedBy<T>(s: seq<T>, space: T -> bool)
    ensures var r := TrimBy(s, space);
      && (r == [] || (!space(r[0]) && !space(r[|r| - 1])))
      && (r == s <==> s == [] || (!space(s[0]) && !space(s[|s| - 1])))
      && TrimBy(r, space) == r && |r| <= |s|
  {
    var a := TrimStart(s, space);
    var t := TrimEnd(a, space);
    if t != [] {
      assert t[0] == a[0];
    }
  }

  /** r is what is left of s between two runs of spaces. */
  predicate Inner<T(==)>(s: seq<T>, space: T -> bool, r: seq<T>, i: nat, j: nat) {
    i <= j <= |s| && r == s[i..j] && (forall k :: 0 <= k < i ==> space(s[k])) &&
      (forall k :: j <= k < |s| ==> space(s[k]))
  }

  /** Trimming takes away spaces at the two ends and nothing else. */
  lemma TrimmedPart<T>(s: seq<T>, space: T -> bool)
    ensures exists i, j :: Inner(s, space, TrimBy(s, space), i, j)
  {
    var a := TrimStart(s, space);
    var i := |s| - |a|;
    var j := i + |TrimEnd(a, space)|;
    hide TrimStart, TrimEnd;
    assert forall k :: j <= k < |s| ==> s[k] == a[k - i];
    assert Inner(s, space, TrimBy(s, space), i, j);
  }

  lemma Trimmed(s: string)
    ensures Trim(s) == [] || (!Space(Trim(s)[0]) && !Space(Trim(s)[|Trim(s)| - 1]))
    ensures Trim(s) == s <==> s == [] || (!Space(s[0]) && !Space(s[|s| - 1]))
    ensures Trim(Trim(s)) == Trim(s)
    ensures |Trim(s)| <= |s|
  {
    hide TrimBy, Space;
    TrimmedBy(s, Space);
  }
}
