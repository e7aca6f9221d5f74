/** The byte stream hashed as a workspace's source digest: sorted files, each path and content length-prefixed. */
module SourceDigest {
  import opened Common
  import opened Percent
  import opened Sorting

  type File = (Text, Bytes)

  /** n as k bytes, most significant first. */
  function BigEndian(n: nat, k: nat): (b: Bytes)
    ensures |b| == k
  {
    if k == 0 then [] else BigEndian(n / 256, k - 1) + [(n % 256) as byte]
  }

  function FromBigEndian(b: Bytes): nat {
    if b == [] then 0 else FromBigEndian(b[..|b| - 1]) * 256 + b[|b| - 1] as nat
  }

  function Power(k: nat): nat {
    if k == 0 then 1 else 256 * Power(k - 1)
  }

  lemma {:induction false} BigEndianRoundTrip(n: nat, k: nat)
    requires n < Power(k)
    ensures FromBigEndian(BigEndian(n, k)) == n
  {
    if k > 0 {
      BigEndianRoundTrip(n / 256, k - 1);
      assert BigEndian(n, k)[..k - 1] == BigEndian(n / 256, k - 1);
    }
  }

  const LIMIT := 0x1_0000_0000_0000_0000

  lemma EightBytes()
    ensures Power(8) == LIMIT
  {
    assert Power(2) == 0x1_0000;
    assert Power(4) == 0x1_0000_0000;
    assert Power(6) == 0x1_0000_0000_0000;
  }

  const TAG: Bytes := [108, 105, 108, 45, 116, 119, 101, 97, 107, 45, 115, 111, 117, 114, 99, 101, 45, 118, 49, 0]

  function Chunk(b: Bytes): Bytes {
    BigEndian(|b|, 8) + b
  }

  /** The bytes of "lil-tweak-source-v1" and a zero byte. */
  lemma TagExactly()
    ensures |TAG| == 20 && TAG[19] == 0
    ensures forall i :: 0 <= i < 19 ==> TAG[i] as char == "lil-tweak-source-v1"[i]
  {
  }

  /** A piece is its length in eight bytes, most significant first, and then itself. */
  lemma ChunkExactly(b: Bytes)
    requires |b| < LIMIT
    ensures var c := Chunk(b);
      && |c| == 8 + |b| && c[8..] == b
      && |b| == c[0] as int * 0x100_0000_0000_0000 + c[1] as int * 0x1_0000_0000_0000 + c[2] as int * 0x100_0000_0000 +
        c[3] as int * 0x1_0000_0000 + c[4] as int * 0x100_0000 + c[5] as int * 0x1_0000 + c[6] as int * 0x100 +
        c[7] as int
  {
    var c := Chunk(b);
    EightBytes();
    BigEndianRoundTrip(|b|, 8);
    assert c[..8] == BigEndian(|b|, 8);
    FourRead(c[..8], 4);
    FourRead(c[..4], 0);
    assert c[..8][..4] == c[..4] && c[..4][..0] == [];
    hide BigEndian;
  }

  lemma FourRead(b: Bytes, n: nat)
    requires |b| == n + 4
    ensures FromBigEndian(b) == FromBigEndian(b[..n]) * 0x1_0000_0000 + b[n] as nat * 0x100_0000 +
      b[n + 1] as nat * 0x1_0000 + b[n + 2] as nat * 0x100 + b[n + 3] as nat
  {
    OneRead(b, n + 3);
    OneRead(b, n + 2);
    OneRead(b, n + 1);
    OneRead(b, n);
    assert b[..n + 4] == b;
    hide FromBigEndian;
  }

  lemma OneRead(b: Bytes, n: nat)
    requires n < |b|
    ensures FromBigEndian(b[..n + 1]) == FromBigEndian(b[..n]) * 256 + b[n] as nat
  {
    assert b[..n + 1][..n] == b[..n];
  }

  /** Files follow each other, each as its path in UTF-8 and its content. */
  lemma StreamExactly(f: File, rest: seq<File>)
    ensures Stream([]) == [] && Stream([f] + rest) == Chunk(EncodeText(f.0)) + Chunk(f.1) + Stream(rest)
  {
    assert ([f] + rest)[1..] == rest;
  }

  function Stream(files: seq<File>): Bytes {
    if files == [] then [] else Chunk(EncodeText(files[0].0)) + Chunk(files[0].1) + Stream(files[1..])
  }

  /** One length-prefixed piece and what follows it. */
  function TakeChunk(s: Bytes): Option<(Bytes, Bytes)> {
    if |s| < 8 || |s| < 8 + FromBigEndian(s[..8]) then None
    else Some((s[8..8 + FromBigEndian(s[..8])], s[8 + FromBigEndian(s[..8])..]))
  }

  function ParseStream(s: Bytes, decode: Bytes -> Text): Option<seq<File>>
    decreases |s|
  {
    if s == [] then Some([]) else
      match TakeChunk(s)
      case None => None
      case Some((path, rest)) =>
        match TakeChunk(rest)
        case None => None
        case Some((data, more)) =>
          match ParseStream(more, decode)
          case None => None
          case Some(files) => Some([(decode(path), data)] + files)
  }

  lemma ChunkRoundTrip(b: Bytes, rest: Bytes)
    requires |b| < LIMIT
    ensures TakeChunk(Chunk(b) + rest) == Some((b, rest))
  {
    hide BigEndian, FromBigEndian;
    EightBytes();
    BigEndianRoundTrip(|b|, 8);
    var s := Chunk(b) + rest;
    assert s[..8] == BigEndian(|b|, 8);
    assert s[8..8 + |b|] == b && s[8 + |b|..] == rest;
  }

  predicate Encodable(f: File) {
    |EncodeText(f.0)| < LIMIT && |f.1| < LIMIT
  }

  lemma {:induction false} StreamRoundTrip(files: seq<File>, decode: Bytes -> Text)
    requires Decoder(decode) && forall f :: f in files ==> Encodable(f)
    ensures ParseStream(Stream(files), decode) == Some(files)
  {
    hide Chunk, TakeChunk, EncodeText, Decoder;
    if files != [] {
      var path, data, rest := EncodeText(files[0].0), files[0].1, Stream(files[1..]);
      assert Encodable(files[0]);
      ChunkRoundTrip(path, Chunk(data) + rest);
      ChunkRoundTrip(data, rest);
      StreamRoundTrip(files[1..], decode);
      assert Stream(files) == Chunk(path) + (Chunk(data) + rest);
      ChunkNonempty(path, Chunk(data) + rest);
      Decoded(decode, files[0].0);
      assert files == [files[0]] + files[1..];
    }
  }

  lemma ChunkNonempty(b: Bytes, rest: Bytes)
    ensures Chunk(b) + rest != []
  {
  }

  lemma Decoded(decode: Bytes -> Text, t: Text)
    requires Decoder(decode)
    ensures decode(EncodeText(t)) == t
  {
  }

  predicate PathLe(a: Text, b: Text) {
    LexLe(a, b)
  }

  lemma PathOrder()
    ensures TotalOrder(PathLe)
  {
    forall a: Text, b: Text
      ensures (PathLe(a, b) || PathLe(b, a)) && (PathLe(a, b) && PathLe(b, a) ==> a == b)
    {
      LexTotal(a, b);
    }
    forall a: Text, b: Text, c: Text
      ensures PathLe(a, b) && PathLe(b, c) ==> PathLe(a, c)
    {
      if PathLe(a, b) && PathLe(b, c) { LexTrans(a, b, c); }
    }
  }

  function Listed(paths: seq<Text>, files: map<Text, Bytes>): (r: seq<File>)
    requires forall p :: p in paths ==> p in files
    ensures |r| == |paths| && forall i :: 0 <= i < |r| ==> r[i] == (paths[i], files[paths[i]])
  {
    seq(|paths|, i requires 0 <= i < |paths| => (paths[i], files[paths[i]]))
  }

  /** paths are the keys of files in sorted order. */
  ghost predicate SortedKeys(paths: seq<Text>, files: map<Text, Bytes>) {
    Sorted(paths, PathLe) && multiset(paths) == multiset(files.Keys)
  }

  /** The stream of a whole snapshot. */
  ghost predicate StreamOf(files: map<Text, Bytes>, s: Bytes) {
    exists paths :: SortedKeys(paths, files) && (forall p :: p in paths ==> p in files) &&
      s == TAG + Stream(Listed(paths, files))
  }

  /** The digest takes every path once, in ascending order of code points. */
  lemma PathsAscend(paths: seq<Text>, files: map<Text, Bytes>)
    requires SortedKeys(paths, files)
    ensures forall p :: p in paths <==> p in files
    ensures forall i, j :: 0 <= i < j < |paths| ==> Ascends(paths[i], paths[j]) && paths[i] != paths[j]
  {
    KeysIn(paths, files);
    hide LexLe, Ascends;
    forall i, j | 0 <= i < j < |paths|
      ensures Ascends(paths[i], paths[j]) && paths[i] != paths[j]
    {
      LexExactly(paths[i], paths[j]);
      Twice(paths, files, i, j);
    }
  }

  lemma Twice(paths: seq<Text>, files: map<Text, Bytes>, i: nat, j: nat)
    requires SortedKeys(paths, files) && i < j < |paths|
    ensures paths[i] != paths[j]
  {
    assert paths == paths[..i] + [paths[i]] + paths[i + 1..j] + [paths[j]] + paths[j + 1..];
    assert multiset(files.Keys)[paths[i]] <= 1;
  }

  lemma KeysIn(paths: seq<Text>, files: map<Text, Bytes>)
    requires SortedKeys(paths, files)
    ensures forall p :: p in paths <==> p in files
  {
    forall p
      ensures p in paths <==> p in files
    {
      assert p in multiset(paths) <==> p in multiset(files.Keys);
    }
  }

  method SortedPaths(files: map<Text, Bytes>) returns (paths: seq<Text>)
    ensures SortedKeys(paths, files)
  {
    paths := [];
    var left := files.Keys;
    while left != {}
      invariant left <= files.Keys && multiset(paths) + multiset(left) == multiset(files.Keys)
    {
      var p :| p in left;
      paths := paths + [p];
      left := left - {p};
    }
    PathOrder();
    SortEffect(paths, PathLe);
    paths := Sort(paths, PathLe);
  }

  /** The digest loop of capture_workspace, up to the hash. */
  method EncodeSnapshot(files: map<Text, Bytes>) returns (s: Bytes)
    ensures StreamOf(files, s)
  {
    hide Chunk, EncodeText, Stream, Listed, SortedKeys;
    var paths := SortedPaths(files);
    KeysIn(paths, files);
    s := TAG;
    var i := 0;
    assert paths[0..] == paths;
    while i < |paths|
      invariant 0 <= i <= |paths| && s + Stream(Listed(paths[i..], files)) == TAG + Stream(Listed(paths, files))
    {
      var path, data := Chunk(EncodeText(paths[i])), Chunk(files[paths[i]]);
      StreamStep(paths[i..], files);
      assert paths[i..][1..] == paths[i + 1..];
      Shift(s, path, data, Stream(Listed(paths[i + 1..], files)));
      s := s + path + data;
      i := i + 1;
    }
    StreamEnd(paths[i..], files);
    assert s + [] == s;
  }

  lemma Shift(s: Bytes, a: Bytes, b: Bytes, c: Bytes)
    ensures s + (a + b + c) == s + a + b + c
  {
  }

  lemma StreamEnd(paths: seq<Text>, files: map<Text, Bytes>)
    requires paths == []
    ensures Stream(Listed(paths, files)) == []
  {
  }

  lemma StreamStep(paths: seq<Text>, files: map<Text, Bytes>)
    requires paths != [] && forall p :: p in paths ==> p in files
    ensures Stream(Listed(paths, files)) ==
      Chunk(EncodeText(paths[0])) + Chunk(files[paths[0]]) + Stream(Listed(paths[1..], files))
  {
    assert Listed(paths, files)[1..] == Listed(paths[1..], files);
  }

  /** A snapshot has one stream, and the stream determines the snapshot: equal streams mean equal snapshots. */
  lemma StreamDeterminesSnapshot(a: map<Text, Bytes>, b: map<Text, Bytes>, s: Bytes, t: Bytes, decode: Bytes -> Text)
    requires Decoder(decode) && StreamOf(a, s) && StreamOf(b, t)
    requires forall p :: p in a ==> Encodable((p, a[p]))
    requires forall p :: p in b ==> Encodable((p, b[p]))
    ensures s == t <==> a == b
  {
    hide Decoder, Stream, LexLe, Encodable, Listed, SortedKeys, ParseStream;
    var ps :| SortedKeys(ps, a) && (forall p :: p in ps ==> p in a) && s == TAG + Stream(Listed(ps, a));
    var qs :| SortedKeys(qs, b) && (forall p :: p in qs ==> p in b) && t == TAG + Stream(Listed(qs, b));
    if a == b { SameKeys(ps, qs, a); }
    if s == t {
      assert Stream(Listed(ps, a)) == s[|TAG|..] == Stream(Listed(qs, b));
      ListedEncodable(ps, a);
      ListedEncodable(qs, b);
      StreamRoundTrip(Listed(ps, a), decode);
      StreamRoundTrip(Listed(qs, b), decode);
      SameListing(ps, a, qs, b);
    }
  }

  lemma SameKeys(ps: seq<Text>, qs: seq<Text>, files: map<Text, Bytes>)
    requires SortedKeys(ps, files) && SortedKeys(qs, files)
    ensures ps == qs
  {
    hide LexLe;
    PathOrder();
    SortedUnique(ps, qs, PathLe);
  }

  lemma ListedEncodable(ps: seq<Text>, files: map<Text, Bytes>)
    requires (forall p :: p in ps ==> p in files) && forall p :: p in files ==> Encodable((p, files[p]))
    ensures forall f :: f in Listed(ps, files) ==> Encodable(f)
  {
    hide Encodable;
  }

  lemma SameListing(ps: seq<Text>, a: map<Text, Bytes>, qs: seq<Text>, b: map<Text, Bytes>)
    requires SortedKeys(ps, a) && SortedKeys(qs, b) && (forall p :: p in ps ==> p in a)
    requires (forall p :: p in qs ==> p in b)
    requires Listed(ps, a) == Listed(qs, b)
    ensures a == b
  {
    KeysIn(ps, a);
    KeysIn(qs, b);
    hide Listed, SortedKeys;
    assert forall i :: 0 <= i < |ps| ==> Listed(ps, a)[i] == Listed(qs, b)[i];
    assert ps == qs;
    forall p | p in a
      ensures p in b && a[p] == b[p]
    {
      var i :| 0 <= i < |ps| && ps[i] == p;
    }
  }
}
