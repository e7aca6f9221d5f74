/** ZIP intake: the inspection of an inventory, and the extraction it makes safe. */
module Archive {
  import opened Common
  import opened Strings
  import opened FileSystem

  datatype Limits = Limits(maxEntries: nat, maxDepth: nat, maxFileBytes: nat, maxTotalBytes: nat, maxRatio: nat)

  datatype FileType = Unspecified | Regular | DirectoryType | OtherType

  datatype Info = Info(name: string, encrypted: bool, fileType: FileType, size: int, compressed: int)

  datatype Entry = Entry(path: Path, size: nat, isDirectory: bool)

  /** Case folding of one component (it never touches the slash) and the UTF-8 length of one, if it has any. */
  datatype Env = Env(fold: string -> string, width: string -> Option<nat>)

  datatype Code =
    | UnsafePath | PathTooDeep | EncryptedEntry | UnsupportedType | InvalidZip | FileTooLarge | CompressionRatio
    | TooManyEntries | DuplicatePath | PathConflict | ArchiveTooLarge | ExtractionFailed

  const BLOCKED: set<string> := {
    ".git", ".hg", ".svn", ".ssh", ".aws", ".gnupg", ".npmrc", ".pypirc", "credentials", "id_rsa", "id_ed25519"}

  predicate Blocked(folded: string) {
    folded in BLOCKED || folded == ".env" || (".env." <= folded && folded != ".env.example" && folded != ".env.sample")
  }

  predicate Control(s: string) {
    exists c :: c in s && (c as int < 32 || c as int == 127)
  }

  function Slashes(raw: string): string {
    if raw == "" then "" else [if raw[0] == '\\' then '/' else raw[0]] + Slashes(raw[1..])
  }

  predicate Drive(s: string) {
    |s| >= 2 && ('A' <= s[0] <= 'Z' || 'a' <= s[0] <= 'z') && s[1] == ':'
  }

  /** The components PurePosixPath keeps: empty ones and single dots disappear. */
  function Components(parts: seq<string>): Path {
    if parts == [] then []
    else (if parts[0] == "" || parts[0] == "." then [] else [parts[0]]) + Components(parts[1..])
  }

  predicate BadPart(part: string, env: Env) {
    env.width(part).None? || env.width(part).value > 255 || Blocked(env.fold(part))
  }

  /** Printable text that is not rooted, neither by a slash of either kind nor by a drive. */
  predicate SafeText(raw: string) {
    && raw != "" && raw[0] != '/' && raw[0] != '\\'
    && !(|raw| >= 2 && raw[1] == ':' && ('A' <= raw[0] <= 'Z' || 'a' <= raw[0] <= 'z'))
    && forall i :: 0 <= i < |raw| ==> 32 <= raw[i] as int && raw[i] as int != 127
  }

  /** What names keep under any spelling of the case: repositories, credentials and environments. */
  predicate Secret(folded: string) {
    || folded in [".git", ".hg", ".svn", ".ssh", ".aws", ".gnupg", ".npmrc", ".pypirc", "credentials", "id_rsa",
                  "id_ed25519", ".env"]
    || (|folded| >= 5 && folded[..5] == ".env." && folded[5..] != "example" && folded[5..] != "sample")
  }

  predicate SafeComponent(part: string, env: Env) {
    && part != "" && part != "." && part != ".." && '/' !in part && '\\' !in part
    && env.width(part).Some? && env.width(part).value <= 255 && !Secret(env.fold(part))
  }

  predicate SafePath(path: Path, env: Env) {
    forall part :: part in path ==> SafeComponent(part, env)
  }

  /** The components between slashes of either kind. */
  function NamedPath(raw: string): Path {
    Components(Split(Slashes(raw), '/'))
  }

  predicate EndsInSlash(raw: string) {
    raw != "" && (raw[|raw| - 1] == '/' || raw[|raw| - 1] == '\\')
  }

  /** Regular files and directories without content; without a type the name decides. */
  predicate Storable(info: Info) {
    !info.fileType.OtherType? && (EndsInSlash(info.name) || info.fileType.DirectoryType? ==> info.size == 0)
  }

  predicate Expands(info: Info, limits: Limits) {
    info.size > 0 ==> info.compressed > 0 && info.size <= limits.maxRatio * info.compressed
  }

  /** A member inspection accepts by itself, as this entry. */
  predicate GoodMember(info: Info, e: Entry, limits: Limits, env: Env) {
    && SafeText(info.name) && e.path == NamedPath(info.name) && SafePath(e.path, env) && |e.path| <= limits.maxDepth
    && !info.encrypted && Storable(info)
    && (e.isDirectory <==> EndsInSlash(info.name) || info.fileType.DirectoryType?)
    && e.size == info.size <= limits.maxFileBytes && info.compressed >= 0 && Expands(info, limits)
  }

  function SafeName(raw: string, limits: Limits, env: Env): Result<(Path, bool), Code> {
    var normalized := Slashes(raw);
    if raw == "" || Control(raw) then Failure(UnsafePath)
    else if (normalized != "" && normalized[0] == '/') || Drive(normalized) then Failure(UnsafePath)
    else
      var path := Components(Split(normalized, '/'));
      if ".." in path then Failure(UnsafePath)
      else if exists part :: part in path && BadPart(part, env) then Failure(UnsafePath)
      else if |path| > limits.maxDepth then Failure(PathTooDeep)
      else Success((path, normalized != "" && normalized[|normalized| - 1] == '/'))
  }

  function ValidateInfo(info: Info, limits: Limits, env: Env): (r: Result<Entry, Code>)
    ensures r.Failure? ==> !r.error.ExtractionFailed?
  {
    match SafeName(info.name, limits, env)
    case Failure(code) => Failure(code)
    case Success((path, named)) =>
      var isDirectory := named || info.fileType.DirectoryType?;
      if info.encrypted then Failure(EncryptedEntry)
      else if info.fileType.OtherType? then Failure(UnsupportedType)
      else if isDirectory && info.size != 0 then Failure(UnsupportedType)
      else if info.size < 0 || info.compressed < 0 then Failure(InvalidZip)
      else if info.size > limits.maxFileBytes then Failure(FileTooLarge)
      else if info.size > 0 && (info.compressed == 0 || info.size > limits.maxRatio * info.compressed) then
        Failure(CompressionRatio)
      else Success(Entry(path, info.size, isDirectory))
  }

  function Folded(p: Path, env: Env): Path {
    seq(|p|, i requires 0 <= i < |p| => env.fold(p[i]))
  }

  /** Two entries that can stand side by side, whatever the case sensitivity of the file system. */
  predicate Compatible(a: Entry, b: Entry, env: Env) {
    var k, l := Folded(a.path, env), Folded(b.path, env);
    && k != l
    && (!a.isDirectory ==> !Above(k, l))
    && (!b.isDirectory ==> !Above(l, k))
  }

  /** b begins with a's components, up to case. */
  predicate Leads(a: Path, b: Path, env: Env) {
    |a| <= |b| && forall i :: 0 <= i < |a| ==> env.fold(a[i]) == env.fold(b[i])
  }

  /** No path is spelt twice, and nothing lies below a file. */
  lemma CompatibleExactly(a: Entry, b: Entry, env: Env)
    ensures Compatible(a, b, env) <==>
      && !(|a.path| == |b.path| && Leads(a.path, b.path, env))
      && !(!a.isDirectory && 0 < |a.path| < |b.path| && Leads(a.path, b.path, env))
      && !(!b.isDirectory && 0 < |b.path| < |a.path| && Leads(b.path, a.path, env))
  {
    hide Folded;
    LeadsExactly(a.path, b.path, env);
    LeadsExactly(b.path, a.path, env);
    FoldedExactly(a.path, env);
    FoldedExactly(b.path, env);
    hide Leads;
    if |a.path| == |b.path| { assert Folded(b.path, env)[..|b.path|] == Folded(b.path, env); }
  }

  lemma LeadsExactly(a: Path, b: Path, env: Env)
    ensures Leads(a, b, env) <==> |a| <= |b| && Folded(b, env)[..|a|] == Folded(a, env)
  {
    FoldedExactly(a, env);
    FoldedExactly(b, env);
    hide Folded;
    if |a| <= |b| && Folded(b, env)[..|a|] == Folded(a, env) {
      assert forall i :: 0 <= i < |a| ==> Folded(b, env)[..|a|][i] == Folded(a, env)[i];
    }
  }

  predicate ConflictFree(entries: seq<Entry>, env: Env) {
    forall i, j :: 0 <= i < j < |entries| ==> Compatible(entries[i], entries[j], env)
  }

  function TotalSize(entries: seq<Entry>): nat {
    if entries == [] then 0 else TotalSize(entries[..|entries| - 1]) + entries[|entries| - 1].size
  }

  lemma {:induction false} TotalGrows(entries: seq<Entry>, n: nat)
    requires n <= |entries|
    ensures TotalSize(entries[..n]) <= TotalSize(entries)
  {
    if n == |entries| {
      assert entries[..n] == entries;
    } else {
      TotalGrows(entries[..|entries| - 1], n);
      assert entries[..|entries| - 1][..n] == entries[..n];
    }
  }

  lemma SafeExactly(raw: string, limits: Limits, env: Env)
    ensures var path := NamedPath(raw); var r := SafeName(raw, limits, env);
      && (r.Success? <==> SafeText(raw) && SafePath(path, env) && |path| <= limits.maxDepth)
      && (r.Success? ==> r.value == (path, EndsInSlash(raw)))
      && (r.Failure? ==> r.error == if SafeText(raw) && SafePath(path, env) then PathTooDeep else UnsafePath)
  {
    hide BadPart, Components, Split, Control, SafeComponent;
    var path := NamedPath(raw);
    SlashesExactly(raw);
    ControlExactly(raw);
    hide Slashes;
    forall part | part in path
      ensures SafeComponent(part, env) <==> part != ".." && !BadPart(part, env)
    {
      PartExactly(raw, part, env);
    }
  }

  lemma ControlExactly(raw: string)
    ensures Control(raw) <==> !forall i :: 0 <= i < |raw| ==> 32 <= raw[i] as int && raw[i] as int != 127
  {
    if i :| 0 <= i < |raw| && (raw[i] as int < 32 || raw[i] as int == 127) { assert raw[i] in raw; }
  }

  lemma {:induction false} SlashesExactly(raw: string)
    ensures |Slashes(raw)| == |raw|
    ensures forall i :: 0 <= i < |raw| ==> Slashes(raw)[i] == if raw[i] == '\\' then '/' else raw[i]
  {
    if raw != "" { SlashesExactly(raw[1..]); }
  }

  /** The path of a name drops empty components and single dots, and keeps all others in order. */
  lemma ComponentsExactly(part: string, rest: seq<string>)
    ensures Components([]) == []
    ensures Components([part] + rest) == (if part == "" || part == "." then [] else [part]) + Components(rest)
  {
    assert ([part] + rest)[1..] == rest;
  }

  lemma {:induction false} ComponentsKeep(parts: seq<string>)
    ensures forall part :: part in Components(parts) <==> part in parts && part != "" && part != "."
  {
    if parts != [] {
      ComponentsKeep(parts[1..]);
      assert parts == [parts[0]] + parts[1..];
    }
  }

  lemma PartExactly(raw: string, part: string, env: Env)
    requires part in NamedPath(raw)
    ensures SafeComponent(part, env) <==> part != ".." && !BadPart(part, env)
  {
    hide Slashes, Split, Components, Blocked, Secret;
    var parts := Split(Slashes(raw), '/');
    ComponentsKeep(parts);
    SlashesExactly(raw);
    SplitParts(Slashes(raw), '/');
    BlockedExactly(env.fold(part));
    assert '/' !in part && '\\' !in part;
  }

  lemma {:induction false} SplitParts(s: string, c: char)
    ensures forall p :: p in Split(s, c) ==> c !in p && forall d :: d in p ==> d in s
    decreases |s|
  {
    var i := Find(s, c);
    assert Without(s[..i], c);
    if i < |s| { SplitParts(s[i + 1..], c); }
  }

  lemma BlockedExactly(folded: string)
    ensures Blocked(folded) <==> Secret(folded)
  {
  }

  lemma MemberExactly(info: Info, e: Entry, limits: Limits, env: Env)
    ensures ValidateInfo(info, limits, env) == Success(e) <==> GoodMember(info, e, limits, env)
  {
    hide SafeName, SafeText, SafePath, NamedPath, EndsInSlash;
    SafeExactly(info.name, limits, env);
  }

  /** Names are tested first, then encryption, type, sign, size and compression. */
  lemma CodeExactly(info: Info, limits: Limits, env: Env)
    ensures var named := SafeText(info.name) && SafePath(NamedPath(info.name), env);
      var fits := named && |NamedPath(info.name)| <= limits.maxDepth;
      var sort := fits && !info.encrypted && Storable(info);
      var signed := sort && info.size >= 0 && info.compressed >= 0;
      var sized := signed && info.size <= limits.maxFileBytes;
      var r := ValidateInfo(info, limits, env);
      && (!named <==> r == Failure(UnsafePath))
      && (named && !fits <==> r == Failure(PathTooDeep))
      && (fits && info.encrypted <==> r == Failure(EncryptedEntry))
      && (fits && !info.encrypted && !sort <==> r == Failure(UnsupportedType))
      && (sort && !signed <==> r == Failure(InvalidZip))
      && (signed && !sized <==> r == Failure(FileTooLarge))
      && (sized && !Expands(info, limits) <==> r == Failure(CompressionRatio))
  {
    hide SafeName, SafeText, SafePath, NamedPath, EndsInSlash;
    SafeExactly(info.name, limits, env);
  }

  lemma FoldedExactly(p: Path, env: Env)
    ensures |Folded(p, env)| == |p| && forall i :: 0 <= i < |p| ==> Folded(p, env)[i] == env.fold(p[i])
  {
  }

  /** What inspection accepts; nothing in it depends on the order of the members. */
  ghost predicate Acceptable(infos: seq<Info>, entries: seq<Entry>, limits: Limits, env: Env) {
    && |infos| == |entries| <= limits.maxEntries
    && (forall i :: 0 <= i < |infos| ==> GoodMember(infos[i], entries[i], limits, env))
    && ConflictFree(entries, env)
    && TotalSize(entries) <= limits.maxTotalBytes
  }

  /** The lookups the inspection makes for one more entry, against everything it has seen. */
  predicate Clashes(e: Entry, types: map<Path, bool>, env: Env) {
    var folded := Folded(e.path, env);
    || folded in types
    || (exists n :: 0 < n < |folded| && folded[..n] in types && !types[folded[..n]])
    || (!e.isDirectory && exists k :: k in types && Above(folded, k))
  }

  /** types records every earlier entry under its folded path. */
  ghost predicate Records(types: map<Path, bool>, entries: seq<Entry>, env: Env) {
    && (forall e :: e in entries ==> Folded(e.path, env) in types && types[Folded(e.path, env)] == e.isDirectory)
    && (forall k :: k in types ==> exists e :: e in entries && Folded(e.path, env) == k)
  }

  lemma ClashesExactly(e: Entry, types: map<Path, bool>, entries: seq<Entry>, env: Env)
    requires Records(types, entries, env)
    ensures !Clashes(e, types, env) ==> Folded(e.path, env) !in types
    ensures Clashes(e, types, env) <==> exists other :: other in entries && !Compatible(other, e, env)
  {
    hide Folded;
    var folded := Folded(e.path, env);
    if Clashes(e, types, env) {
      var k :| k in types && (k == folded || (Above(k, folded) && !types[k]) || (!e.isDirectory && Above(folded, k)));
      var other :| other in entries && Folded(other.path, env) == k;
      assert !Compatible(other, e, env);
    }
    if exists other :: other in entries && !Compatible(other, e, env) {
      var other :| other in entries && !Compatible(other, e, env);
      var k := Folded(other.path, env);
      assert k in types;
      if k != folded && !other.isDirectory && Above(k, folded) {
        assert folded[..|k|] in types;
      }
    }
  }

  lemma FreeAppend(entries: seq<Entry>, e: Entry, env: Env)
    ensures ConflictFree(entries + [e], env) <==>
      ConflictFree(entries, env) && !exists other :: other in entries && !Compatible(other, e, env)
  {
    hide Compatible;
    var all := entries + [e];
    if ConflictFree(all, env) {
      forall i, j | 0 <= i < j < |entries|
        ensures Compatible(entries[i], entries[j], env)
      {
        assert all[i] == entries[i] && all[j] == entries[j];
      }
      forall other | other in entries
        ensures Compatible(other, e, env)
      {
        var i :| 0 <= i < |entries| && entries[i] == other;
        assert all[i] == other && all[|entries|] == e;
      }
    }
  }

  /** inspect_zip accepts exactly the inventories without conflicts and within the limits. */
  method InspectZip(infos: seq<Info>, limits: Limits, env: Env) returns (r: Result<seq<Entry>, Code>)
    ensures r.Success? ==> Acceptable(infos, r.value, limits, env)
    ensures r.Failure? ==> !r.error.ExtractionFailed? && forall entries :: !Acceptable(infos, entries, limits, env)
    ensures r.Failure? ==> RefusedFor(infos, limits, env, r.error)
  {
    hide ValidateInfo, Compatible, Clashes, Folded, Records, ConflictFree, TotalSize, Acceptable, GoodMember,
         RefusedFor, MemberRefused;
    InspectStart(infos, limits, env);
    if |infos| > limits.maxEntries { return Failure(TooManyEntries); }
    var entries: seq<Entry> := [];
    var types: map<Path, bool> := map[];
    var total := 0;
    var i := 0;
    while i < |infos|
      invariant 0 <= i <= |infos| && |entries| == i
      invariant forall k :: 0 <= k < i ==> ValidateInfo(infos[k], limits, env) == Success(entries[k])
      invariant ConflictFree(entries, env) && Records(types, entries, env)
      invariant total == TotalSize(entries) && total <= limits.maxTotalBytes
    {
      var checked := ValidateInfo(infos[i], limits, env);
      if checked.Failure? {
        Unacceptable(infos, i, limits, env);
        InvalidMember(infos[i], entries, limits, env);
        RefusedHere(infos, entries, limits, env, checked.error);
        return Failure(checked.error);
      }
      var e := checked.value;
      ClashesExactly(e, types, entries, env);
      FreeAppend(entries, e, env);
      var more := entries + [e];
      TotalMore(entries, e);
      OnlyThese(infos, more, limits, env);
      if Clashes(e, types, env) {
        var code := if Folded(e.path, env) in types then DuplicatePath else PathConflict;
        ClashingMember(infos[i], e, types, entries, limits, env);
        RefusedHere(infos, entries, limits, env, code);
        return Failure(code);
      }
      ghost var seen := types;
      RecordsMore(types, entries, e, env);
      types := types[Folded(e.path, env) := e.isDirectory];
      total := total + e.size;
      if total > limits.maxTotalBytes {
        LargeMember(infos[i], e, seen, entries, limits, env);
        RefusedHere(infos, entries, limits, env, ArchiveTooLarge);
        return Failure(ArchiveTooLarge);
      }
      entries := more;
      i := i + 1;
    }
    InspectEnd(infos, entries, limits, env);
    r := Success(entries);
  }

  /** Why the first member that does not fit stops the inspection. */
  ghost predicate RefusedFor(infos: seq<Info>, limits: Limits, env: Env, code: Code) {
    if |infos| > limits.maxEntries then code == TooManyEntries
    else exists entries :: RefusedAt(infos, entries, limits, env, code)
  }

  ghost predicate RefusedAt(infos: seq<Info>, entries: seq<Entry>, limits: Limits, env: Env, code: Code) {
    |entries| < |infos| && Acceptable(infos[..|entries|], entries, limits, env) &&
      MemberRefused(infos[|entries|], entries, limits, env, code)
  }

  /** The member itself, a path taken already, a file and a path below it, or too much in all. */
  ghost predicate MemberRefused(info: Info, entries: seq<Entry>, limits: Limits, env: Env, code: Code) {
    match ValidateInfo(info, limits, env)
    case Failure(error) => code == error
    case Success(e) =>
      if exists other :: other in entries && Folded(other.path, env) == Folded(e.path, env) then code == DuplicatePath
      else if exists other :: other in entries && !Compatible(other, e, env) then code == PathConflict
      else TotalSize(entries) + e.size > limits.maxTotalBytes && code == ArchiveTooLarge
  }

  lemma RefusedHere(infos: seq<Info>, entries: seq<Entry>, limits: Limits, env: Env, code: Code)
    requires |entries| < |infos| <= limits.maxEntries
    requires forall k :: 0 <= k < |entries| ==> ValidateInfo(infos[k], limits, env) == Success(entries[k])
    requires ConflictFree(entries, env) && TotalSize(entries) <= limits.maxTotalBytes
    requires MemberRefused(infos[|entries|], entries, limits, env, code)
    ensures RefusedFor(infos, limits, env, code)
  {
    hide ValidateInfo, ConflictFree, TotalSize, MemberRefused, Acceptable;
    InspectEnd(infos[..|entries|], entries, limits, env);
    assert RefusedAt(infos, entries, limits, env, code);
  }

  lemma InvalidMember(info: Info, entries: seq<Entry>, limits: Limits, env: Env)
    requires ValidateInfo(info, limits, env).Failure?
    ensures MemberRefused(info, entries, limits, env, ValidateInfo(info, limits, env).error)
  {
    hide ValidateInfo, TotalSize;
  }

  lemma ClashingMember(info: Info, e: Entry, types: map<Path, bool>, entries: seq<Entry>, limits: Limits, env: Env)
    requires ValidateInfo(info, limits, env) == Success(e) && Records(types, entries, env) && Clashes(e, types, env)
    ensures MemberRefused(info, entries, limits, env,
                          if Folded(e.path, env) in types then DuplicatePath else PathConflict)
  {
    ClashesExactly(e, types, entries, env);
    hide ValidateInfo, Clashes, Compatible, Folded, TotalSize;
  }

  lemma LargeMember(info: Info, e: Entry, types: map<Path, bool>, entries: seq<Entry>, limits: Limits, env: Env)
    requires ValidateInfo(info, limits, env) == Success(e) && Records(types, entries, env) && !Clashes(e, types, env)
    requires TotalSize(entries) + e.size > limits.maxTotalBytes
    ensures MemberRefused(info, entries, limits, env, ArchiveTooLarge)
  {
    ClashesExactly(e, types, entries, env);
    hide ValidateInfo, Clashes, Compatible, Folded, TotalSize;
  }

  lemma InspectStart(infos: seq<Info>, limits: Limits, env: Env)
    ensures ConflictFree([], env) && Records(map[], [], env) && TotalSize([]) == 0
    ensures |infos| > limits.maxEntries ==>
      RefusedFor(infos, limits, env, TooManyEntries) && forall all :: !Acceptable(infos, all, limits, env)
  {
    hide ValidateInfo, GoodMember, RefusedAt;
  }

  lemma InspectEnd(infos: seq<Info>, entries: seq<Entry>, limits: Limits, env: Env)
    requires |infos| == |entries| <= limits.maxEntries
    requires forall k :: 0 <= k < |entries| ==> ValidateInfo(infos[k], limits, env) == Success(entries[k])
    requires ConflictFree(entries, env) && TotalSize(entries) <= limits.maxTotalBytes
    ensures Acceptable(infos, entries, limits, env)
  {
    hide ValidateInfo, ConflictFree, GoodMember, TotalSize;
    forall k | 0 <= k < |entries|
      ensures GoodMember(infos[k], entries[k], limits, env)
    {
      MemberExactly(infos[k], entries[k], limits, env);
    }
  }

  lemma Unacceptable(infos: seq<Info>, i: nat, limits: Limits, env: Env)
    requires i < |infos| && ValidateInfo(infos[i], limits, env).Failure?
    ensures forall all :: !Acceptable(infos, all, limits, env)
  {
    hide ValidateInfo, ConflictFree, GoodMember;
    forall all | Acceptable(infos, all, limits, env)
      ensures false
    {
      MemberExactly(infos[i], all[i], limits, env);
    }
  }

  lemma TotalMore(entries: seq<Entry>, e: Entry)
    ensures TotalSize(entries + [e]) == TotalSize(entries) + e.size
  {
    assert (entries + [e])[..|entries|] == entries;
  }

  /** Any acceptable reading of the archive begins with the entries validated so far. */
  lemma OnlyThese(infos: seq<Info>, entries: seq<Entry>, limits: Limits, env: Env)
    requires |entries| <= |infos|
    requires forall k :: 0 <= k < |entries| ==> ValidateInfo(infos[k], limits, env) == Success(entries[k])
    ensures (exists all :: Acceptable(infos, all, limits, env)) ==> ConflictFree(entries, env)
    ensures (exists all :: Acceptable(infos, all, limits, env)) ==> TotalSize(entries) <= limits.maxTotalBytes
  {
    hide ValidateInfo, Compatible, GoodMember;
    if all :| Acceptable(infos, all, limits, env) {
      forall k | 0 <= k < |entries|
        ensures Success(all[k]) == ValidateInfo(infos[k], limits, env)
      {
        MemberExactly(infos[k], all[k], limits, env);
      }
      assert all[..|entries|] == entries;
      TotalGrows(all, |entries|);
      assert forall k :: 0 <= k < |entries| ==> entries[k] == all[k];
    }
  }

  lemma RecordsMore(types: map<Path, bool>, entries: seq<Entry>, e: Entry, env: Env)
    requires Records(types, entries, env) && Folded(e.path, env) !in types
    ensures Records(types[Folded(e.path, env) := e.isDirectory], entries + [e], env)
  {
    hide Folded;
    var after := types[Folded(e.path, env) := e.isDirectory];
    forall k | k in after
      ensures exists x :: x in entries + [e] && Folded(x.path, env) == k
    {
      if k in types {
        var x :| x in entries && Folded(x.path, env) == k;
        assert x in entries + [e];
      } else {
        assert e in entries + [e];
      }
    }
  }

  datatype Extracted = Dir | Plain(size: nat)

  type Root = map<Path, Extracted>

  /** after is root with every missing directory on the way to p, and p itself. */
  ghost predicate Grew(root: Root, p: Path, after: Root) {
    && (forall q :: q in root ==> q in after && after[q] == root[q])
    && (forall n :: 0 <= n <= |p| ==> p[..n] in after)
    && (forall q :: q in after && q !in root ==> after[q].Dir? && (q == p || Above(q, p)))
  }

  predicate Passable(root: Root, p: Path) {
    forall n :: 0 <= n <= |p| && p[..n] in root ==> root[p[..n]].Dir?
  }

  /** mkdir with parents and exist_ok: it fails on a file in the way. */
  method MakeDirectories(root: Root, p: Path) returns (ok: bool, after: Root)
    requires [] in root && root[[]].Dir?
    ensures ok <==> Passable(root, p)
    ensures ok ==> Grew(root, p, after)
  {
    after := root;
    var n := 0;
    while n < |p|
      invariant 0 <= n <= |p|
      invariant forall k :: 0 <= k <= n && p[..k] in root ==> root[p[..k]].Dir?
      invariant forall q :: q in root ==> q in after && after[q] == root[q]
      invariant forall k :: 0 <= k <= n ==> p[..k] in after
      invariant forall q :: q in after && q !in root ==> after[q].Dir? && |q| <= n && q == p[..|q|]
    {
      n := n + 1;
      var q := p[..n];
      if q in after {
        if !after[q].Dir? { return false, root; }
      } else {
        after := after[q := Dir];
      }
    }
    assert forall q :: q in after && q !in root && |q| == |p| ==> p[..|q|] == p;
    ok := true;
  }

  /** The directories an entry needs. */
  function Stem(e: Entry): Path
    requires e.path != []
  {
    if e.isDirectory then e.path else e.path[..|e.path| - 1]
  }

  /** The tree a list of entries describes. */
  ghost predicate Describes(entries: seq<Entry>, root: Root) {
    && (forall e :: e in entries && !e.isDirectory ==> e.path in root && root[e.path] == Plain(e.size))
    && (forall e, n :: e in entries && 0 <= n <= |e.path| && (n < |e.path| || e.isDirectory) ==>
          e.path[..n] in root && root[e.path[..n]].Dir?)
    && (forall p :: p in root ==> p == [] || exists e :: e in entries && (p == e.path || Above(p, e.path)))
    && [] in root && root[[]].Dir?
  }

  lemma FoldedPrefix(p: Path, n: nat, env: Env)
    requires n <= |p|
    ensures Folded(p[..n], env) == Folded(p, env)[..n]
  {
  }

  lemma PrefixFolded(a: Path, b: Path, env: Env)
    requires a == b || Above(a, b)
    ensures Folded(a, env) == Folded(b, env) || Above(Folded(a, env), Folded(b, env))
    ensures a != [] ==> Folded(a, env) != []
  {
    if |a| <= |b| { FoldedPrefix(b, |a|, env); }
  }

  /** An entry compatible with everything extracted so far meets neither its own target nor a file above it. */
  lemma NothingInTheWay(entries: seq<Entry>, root: Root, e: Entry, env: Env)
    requires Describes(entries, root) && e.path != []
    requires forall other :: other in entries ==> other.path != [] && Compatible(other, e, env)
    ensures Passable(root, Stem(e))
    ensures !e.isDirectory ==> e.path !in root
  {
    hide Folded;
    forall n | 0 <= n <= |Stem(e)| && Stem(e)[..n] in root
      ensures root[Stem(e)[..n]].Dir?
    {
      var p := Stem(e)[..n];
      assert p == e.path[..n];
      if p != [] {
        var other :| other in entries && (p == other.path || Above(p, other.path));
        assert other.path[..n] == p;
        PrefixFolded(p, e.path, env);
      }
    }
    if e.path in root {
      var other :| other in entries && (e.path == other.path || Above(e.path, other.path));
      PrefixFolded(e.path, other.path, env);
    }
  }

  predicate RootEntry(e: Entry) {
    e.path == []
  }

  lemma DescribedMore(entries: seq<Entry>, root: Root, e: Entry, made: Root)
    requires Describes(entries, root) && e.path != []
    requires Passable(root, Stem(e)) && Grew(root, Stem(e), made) && (!e.isDirectory ==> e.path !in root)
    ensures Describes(entries + [e], if e.isDirectory then made else made[e.path := Plain(e.size)])
    ensures !e.isDirectory ==> e.path !in made
  {
    var after := if e.isDirectory then made else made[e.path := Plain(e.size)];
    var stem := Stem(e);
    assert forall n :: 0 <= n <= |stem| ==> stem[..n] == e.path[..n];
    if !e.isDirectory { NotMade(e, root, made); }
    ListedAfter(entries, root, e, made);
    forall x, n | x in entries && 0 <= n <= |x.path| && (n < |x.path| || x.isDirectory)
      ensures x.path[..n] in after && after[x.path[..n]].Dir?
    {
      assert x.path[..n] in root && root[x.path[..n]].Dir?;
    }
    forall n | 0 <= n <= |stem|
      ensures e.path[..n] in after && after[e.path[..n]].Dir?
    {
      assert stem[..n] in made;
    }
  }

  lemma NotMade(e: Entry, root: Root, made: Root)
    requires e.path != [] && Grew(root, Stem(e), made) && !e.isDirectory && e.path !in root
    ensures e.path !in made
  {
  }

  /** Everything made lies on the way to some entry. */
  lemma ListedAfter(entries: seq<Entry>, root: Root, e: Entry, made: Root)
    requires Describes(entries, root) && e.path != [] && Grew(root, Stem(e), made)
    ensures forall p :: p in made && p != [] ==> exists x :: x in entries + [e] && (p == x.path || Above(p, x.path))
  {
    forall p | p in made && p != []
      ensures exists x :: x in entries + [e] && (p == x.path || Above(p, x.path))
    {
      if p in root {
        var x :| x in entries && (p == x.path || Above(p, x.path));
        assert x in entries + [e];
      } else {
        assert e in entries + [e];
      }
    }
  }

  /** What reading each member gives: the number of bytes it expands to, or nothing if the archive is broken there. */
  type Expansion = nat -> Option<nat>

  /** Entry i can be extracted: it does not name the root, and a file expands to the size the inventory gives. */
  predicate Extractable(e: Entry, expanded: Option<nat>) {
    !RootEntry(e) && (!e.isDirectory ==> expanded == Some(e.size))
  }

  predicate AllExtractable(entries: seq<Entry>, expand: Expansion) {
    forall i :: 0 <= i < |entries| ==>
      entries[i].path != [] && (entries[i].isDirectory || expand(i) == Some(entries[i].size))
  }

  /** Why the first entry that cannot be extracted stops the extraction. */
  function Refusal(e: Entry, expanded: Option<nat>): Code {
    if RootEntry(e) then UnsafePath else if expanded.None? then ExtractionFailed else InvalidZip
  }

  /** The first entry that cannot be extracted, and the code it gives. */
  ghost predicate Stopped(entries: seq<Entry>, expand: Expansion, code: Code) {
    exists i :: 0 <= i < |entries| && AllExtractable(entries[..i], expand) && !Extractable(entries[i], expand(i)) &&
      code == if entries[i].path == [] then UnsafePath else if expand(i).None? then ExtractionFailed else InvalidZip
  }

  /**
   extract_zip into an empty root. After inspection it never meets a target that exists or a file in the place of a
   directory: it builds the listed tree exactly unless an entry names the root itself, which inspection lets through,
   or a member does not expand to the size it declares.
   */
  method ExtractZip(infos: seq<Info>, expand: Expansion, limits: Limits, env: Env) returns (r: Result<Root, Code>)
    ensures r.Success? ==> exists entries :: Acceptable(infos, entries, limits, env) && Describes(entries, r.value)
    ensures r.Success? <==> exists entries :: Acceptable(infos, entries, limits, env) && AllExtractable(entries, expand)
    ensures forall entries :: r.Failure? && Acceptable(infos, entries, limits, env) ==>
      Stopped(entries, expand, r.error)
  {
    hide Folded, Describes, Compatible, ValidateInfo, TotalSize, Grew, Passable, Stem;
    var inspected := InspectZip(infos, limits, env);
    if inspected.Failure? { return Failure(inspected.error); }
    var entries := inspected.value;
    SameReading(infos, entries, limits, env);
    hide Acceptable;
    var root: Root := map[[] := Dir];
    EmptyDescribes(root);
    var i := 0;
    while i < |entries|
      invariant 0 <= i <= |entries| && Describes(entries[..i], root) && [] in root && root[[]].Dir?
      invariant AllExtractable(entries[..i], expand)
    {
      var e := entries[i];
      assert entries[..i + 1] == entries[..i] + [e];
      if !Extractable(e, expand(i)) {
        assert Stopped(entries, expand, Refusal(e, expand(i)));
        return Failure(Refusal(e, expand(i)));
      }
      var extracted := ExtractEntry(entries, i, root, env);
      if extracted.Failure? { return extracted; }
      root := extracted.value;
      i := i + 1;
    }
    assert entries[..i] == entries;
    r := Success(root);
  }

  /** One entry of an inspected archive: its directories, and its file where nothing stands yet. */
  method ExtractEntry(entries: seq<Entry>, i: nat, root: Root, ghost env: Env) returns (r: Result<Root, Code>)
    requires i < |entries| && !RootEntry(entries[i]) && Describes(entries[..i], root) && [] in root && root[[]].Dir?
    requires ConflictFree(entries, env) && forall e :: e in entries[..i] ==> !RootEntry(e)
    ensures r.Success? && Describes(entries[..i] + [entries[i]], r.value) && [] in r.value && r.value[[]].Dir?
  {
    hide Folded, Describes, Compatible, Grew, Passable, Stem;
    var e := entries[i];
    NothingInTheWay(entries[..i], root, e, env);
    var ok, after := MakeDirectories(root, Stem(e));
    if !ok { return Failure(ExtractionFailed); }
    DescribedMore(entries[..i], root, e, after);
    if !e.isDirectory {
      if e.path in after { return Failure(ExtractionFailed); }
      after := after[e.path := Plain(e.size)];
    }
    RootStays(entries[..i] + [e], after);
    r := Success(after);
  }

  lemma RootStays(entries: seq<Entry>, root: Root)
    requires Describes(entries, root)
    ensures [] in root && root[[]].Dir?
  {
  }

  lemma EmptyDescribes(root: Root)
    requires root == map[[] := Dir]
    ensures Describes([], root)
  {
  }

  lemma SameReading(infos: seq<Info>, entries: seq<Entry>, limits: Limits, env: Env)
    requires Acceptable(infos, entries, limits, env)
    ensures forall other :: Acceptable(infos, other, limits, env) ==> other == entries
  {
    hide ValidateInfo, ConflictFree, TotalSize, GoodMember;
    forall other | Acceptable(infos, other, limits, env)
      ensures other == entries
    {
      forall i | 0 <= i < |infos|
        ensures other[i] == entries[i]
      {
        MemberExactly(infos[i], other[i], limits, env);
        MemberExactly(infos[i], entries[i], limits, env);
      }
    }
  }

  /** Such an entry exists: inspection accepts a directory called "./". */
  lemma RootEntryAccepted(limits: Limits, env: Env)
    requires limits.maxEntries >= 1
    ensures Acceptable([Info("./", false, Unspecified, 0, 0)], [Entry([], 0, true)], limits, env)
  {
    RootName();
    assert TotalSize([Entry([], 0, true)]) == 0;
    hide NamedPath, TotalSize, Compatible;
  }

  lemma RootName()
    ensures SafeText("./") && EndsInSlash("./") && NamedPath("./") == []
  {
    var name := "./";
    assert name[0] == '.' && name[1..] == "/" && "/"[1..] == "";
    assert Slashes("/") == "/" && Slashes(name) == "./";
    FindAt(".", '/', "");
    assert name == "." + ['/'] + "";
    assert Find("", '/') == 0 && Split("", '/') == [""];
    assert Split(name, '/') == [".", ""];
    assert Components([""]) == [] && [".", ""][1..] == [""];
  }
}
