/** The manifest of the runtime sources: relative paths in their one form, sorted, each with a
    digest, and a digest over the whole list. */
module SourceManifest {
  import opened Common
  import opened ObjectKeys

  type Bytes = seq<bv8>

  // ---------------------------------------------------------------------------------------
  // Paths
  // ---------------------------------------------------------------------------------------

  /** The parts that mean something: neither empty nor a single dot. */
  function Proper(parts: seq<string>): (r: seq<string>)
    ensures forall x :: x in r <==> x in parts && x != "" && x != "."
  {
    if parts == [] then []
    else
      var rest := Proper(parts[1..]);
      if parts[0] == "" || parts[0] == "." then rest else [parts[0]] + rest
  }

  lemma {:induction false} ProperKeeps(parts: seq<string>)
    requires forall x | x in parts :: x != "" && x != "."
    ensures Proper(parts) == parts
  {
    if parts != [] {
      assert parts[0] in parts && forall x | x in parts[1..] :: x in parts;
      ProperKeeps(parts[1..]);
    }
  }

  function Parts(name: string): seq<string> {
    Proper(Split(name))
  }

  function AsPosix(name: string): string {
    if Parts(name) == [] then "." else Join(Parts(name))
  }

  predicate UnsafePath(name: string) {
    || (name != "" && name[0] == '/') || ".." in Parts(name) || '\\' in name
    || (Parts(name) != [] && ':' in Parts(name)[0])
  }

  /** A path, written as its parts, is unsafe exactly if it is absolute, or goes up, or has a
      backslash, or its first part that means something has a colon. */
  lemma UnsafePathIff(parts: seq<string>)
    requires parts != [] && forall i | 0 <= i < |parts| :: '/' !in parts[i]
    ensures
      UnsafePath(Join(parts)) <==>
        || (|parts| > 1 && parts[0] == "")
        || (exists i :: 0 <= i < |parts| && (parts[i] == ".." || '\\' in parts[i]))
        || (exists i :: 0 <= i < |parts| && ':' in parts[i] && forall j | 0 <= j < i :: parts[j] in {"", "."})
  {
    JoinStarts(parts);
    JoinHas('\\', parts);
    ProperFirst(parts);
    UnsafeJoined(parts);
    hide *;
    assert ".." in Proper(parts) <==> exists i :: 0 <= i < |parts| && parts[i] == "..";
  }

  lemma UnsafeJoined(parts: seq<string>)
    requires parts != [] && forall i | 0 <= i < |parts| :: '/' !in parts[i]
    ensures
      var s := Join(parts);
      UnsafePath(s) <==>
        || (s != "" && s[0] == '/') || ".." in Proper(parts) || '\\' in s
        || (Proper(parts) != [] && ':' in Proper(parts)[0])
  {
    SplitJoin(parts);
    hide Join, Split, Proper;
  }

  lemma JoinStarts(parts: seq<string>)
    requires parts != [] && '/' !in parts[0]
    ensures Join(parts) != "" && Join(parts)[0] == '/' <==> |parts| > 1 && parts[0] == ""
  {
  }

  lemma {:induction false} JoinHas(c: char, parts: seq<string>)
    requires c != '/'
    ensures c in Join(parts) <==> exists i :: 0 <= i < |parts| && c in parts[i]
  {
    if |parts| > 1 {
      JoinHas(c, parts[1..]);
      assert forall i | 1 <= i < |parts| :: parts[i] == parts[1..][i - 1];
      assert forall i | 0 <= i < |parts| - 1 :: parts[1..][i] == parts[i + 1];
      assert c in Join(parts) <==> c in parts[0] || c in Join(parts[1..]);
    }
  }

  lemma {:induction false} ProperFirst(parts: seq<string>)
    ensures Proper(parts) != [] && ':' in Proper(parts)[0] <==>
              exists i :: 0 <= i < |parts| && ':' in parts[i] && forall j | 0 <= j < i :: parts[j] in {"", "."}
  {
    if parts != [] {
      var rest := parts[1..];
      ProperFirst(rest);
      if parts[0] in {"", "."} {
        forall i | 0 <= i < |rest| && ':' in rest[i] && forall j | 0 <= j < i :: rest[j] in {"", "."}
          ensures ':' in parts[i + 1] && forall j | 0 <= j < i + 1 :: parts[j] in {"", "."}
        {
          assert forall j | 1 <= j < i + 1 :: parts[j] == rest[j - 1];
        }
        forall i | 0 <= i < |parts| && ':' in parts[i] && forall j | 0 <= j < i :: parts[j] in {"", "."}
          ensures i > 0 && ':' in rest[i - 1] && forall j | 0 <= j < i - 1 :: rest[j] in {"", "."}
        {
          assert forall j | 0 <= j < i - 1 :: rest[j] == parts[j + 1];
        }
      }
    }
  }

  lemma {:induction false} SplitHasNoSlash(s: string, i: nat)
    requires i < |Split(s)|
    ensures '/' !in Split(s)[i]
  {
    HeadHasNoSlash(s);
    if i > 0 {
      SplitHasNoSlash(s[|Head(s)| + 1..], i - 1);
    }
  }

  lemma {:induction false} HeadHasNoSlash(s: string)
    ensures '/' !in Head(s)
  {
    if s != "" && s[0] != '/' {
      HeadHasNoSlash(s[1..]);
    }
  }

  /** A path in its one form stays as it is. */
  lemma AsPosixIsNormal(name: string)
    requires Parts(name) != []
    ensures Parts(AsPosix(name)) == Parts(name) && AsPosix(AsPosix(name)) == AsPosix(name)
  {
    var parts := Parts(name);
    forall i | 0 <= i < |parts| ensures '/' !in parts[i] {
      PartHasNoSlash(name, i);
    }
    SplitJoin(parts);
    ProperKeeps(parts);
  }

  lemma {:induction false} SplitLacks(c: char, s: string, i: nat)
    requires c !in s && i < |Split(s)|
    ensures c !in Split(s)[i]
  {
    assert forall x | x in Head(s) :: x in s;
    if i > 0 {
      assert forall x | x in s[|Head(s)| + 1..] :: x in s;
      SplitLacks(c, s[|Head(s)| + 1..], i - 1);
    }
  }

  lemma {:induction false} JoinLacks(c: char, parts: seq<string>)
    requires c != '/' && forall i | 0 <= i < |parts| :: c !in parts[i]
    ensures c !in Join(parts)
  {
    if |parts| > 1 {
      JoinLacks(c, parts[1..]);
    }
  }

  /** Bringing a safe path into its one form keeps it safe. */
  lemma NormalIsSafe(name: string)
    requires !UnsafePath(name) && Parts(name) != []
    ensures !UnsafePath(AsPosix(name))
  {
    AsPosixIsNormal(name);
    var parts := Parts(name);
    assert parts[0] in parts && parts[0] != "";
    forall i | 0 <= i < |parts| ensures '\\' !in parts[i] {
      assert parts[i] in Split(name);
      var j :| 0 <= j < |Split(name)| && Split(name)[j] == parts[i];
      SplitLacks('\\', name, j);
    }
    JoinLacks('\\', parts);
    PartHasNoSlash(name, 0);
    assert Join(parts)[0] == parts[0][0];
  }

  lemma PartHasNoSlash(name: string, i: nat)
    requires i < |Parts(name)|
    ensures '/' !in Parts(name)[i]
  {
    assert Parts(name)[i] in Split(name);
    var j :| 0 <= j < |Split(name)| && Split(name)[j] == Parts(name)[i];
    SplitHasNoSlash(name, j);
  }

  // ---------------------------------------------------------------------------------------
  // Entries
  // ---------------------------------------------------------------------------------------

  datatype Entry = Entry(path: string, sha256: string)

  datatype RawEntry = NotAnObject | RawEntry(path: Option<string>, sha256: Option<string>)

  /** A manifest as it is read; `files` is None when it is missing or not a list. */
  datatype RawManifest = RawManifest(files: Option<seq<RawEntry>>, sha256: Option<string>, fileCount: Option<int>)

  /** Refused is the gate's own error; Crashed is an error it does not foresee. */
  datatype Refusal = Refused | Crashed

  predicate HexDigest(s: string) {
    |s| == 64 && forall i | 0 <= i < |s| :: '0' <= s[i] <= '9' || 'a' <= s[i] <= 'f'
  }

  predicate CompleteEntry(r: RawEntry) {
    r.RawEntry? && r.path.Some? && r.sha256.Some? && HexDigest(r.sha256.value)
  }

  predicate GoodEntry(r: RawEntry) {
    CompleteEntry(r) && !UnsafePath(r.path.value) && Parts(r.path.value) != []
  }

  function EntryOf(r: RawEntry): Entry
    requires GoodEntry(r)
  {
    Entry(AsPosix(r.path.value), r.sha256.value)
  }

  function EntriesOf(files: seq<RawEntry>): (r: seq<Entry>)
    requires forall i | 0 <= i < |files| :: GoodEntry(files[i])
    ensures |r| == |files| && forall i | 0 <= i < |r| :: r[i] == EntryOf(files[i])
  {
    seq(|files|, i requires 0 <= i < |files| && GoodEntry(files[i]) => EntryOf(files[i]))
  }

  /** The order of strings by code points. */
  predicate LexLe(a: string, b: string) {
    a == "" || (b != "" && (a[0] < b[0] || (a[0] == b[0] && LexLe(a[1..], b[1..]))))
  }

  predicate Sorted(entries: seq<Entry>) {
    forall i | 0 <= i < |entries| - 1 :: LexLe(entries[i].path, entries[i + 1].path)
  }

  /** What a manifest must be to be accepted. */
  ghost predicate Canonical(digest: seq<Entry> -> string, raw: RawManifest) {
    && raw.files.Some? && raw.files.value != []
    && (forall i | 0 <= i < |raw.files.value| :: GoodEntry(raw.files.value[i]))
    && var entries := EntriesOf(raw.files.value);
       Sorted(entries) && raw.sha256 == Some(digest(entries)) && raw.fileCount == Some(|entries|)
  }

  /** A manifest that lists a path with `..` among its parts is refused. */
  lemma UpwardPathRefused(digest: seq<Entry> -> string, raw: RawManifest, i: nat, parts: seq<string>)
    requires raw.files.Some? && i < |raw.files.value| && raw.files.value[i].RawEntry?
    requires parts != [] && (forall j | 0 <= j < |parts| :: '/' !in parts[j]) && ".." in parts
    requires raw.files.value[i].path == Some(Join(parts))
    ensures !Canonical(digest, raw)
  {
    UnsafePathIff(parts);
    hide UnsafePath, Join, HexDigest;
    assert !GoodEntry(raw.files.value[i]);
  }

  /** So is one with a digest that is not 64 lower-case hexadecimal digits. */
  lemma BadDigestRefused(digest: seq<Entry> -> string, raw: RawManifest, i: nat, sha: string)
    requires raw.files.Some? && i < |raw.files.value| && raw.files.value[i].RawEntry?
    requires raw.files.value[i].sha256 == Some(sha)
    requires |sha| != 64 || exists k :: 0 <= k < |sha| && sha[k] !in "0123456789abcdef"
    ensures !Canonical(digest, raw)
  {
    hide UnsafePath, Parts;
    assert !GoodEntry(raw.files.value[i]);
  }

  method ManifestEntries(digest: seq<Entry> -> string, raw: Option<RawManifest>)
    returns (r: Result<seq<Entry>, Refusal>)
    ensures r.Success? <==> raw.Some? && Canonical(digest, raw.value)
    ensures r.Success? ==> r.value == EntriesOf(raw.value.files.value)
    ensures r == Failure(Crashed) ==>
              raw.Some? && raw.value.files.Some?
              && exists i :: 0 <= i < |raw.value.files.value| && CompleteEntry(raw.value.files.value[i])
                             && Parts(raw.value.files.value[i].path.value) == []
  {
    hide UnsafePath, Parts, AsPosix, HexDigest, LexLe;
    if raw.None? || raw.value.files.None? || raw.value.files.value == [] {
      return Failure(Refused);
    }
    var files := raw.value.files.value;
    var normalized: seq<Entry> := [];
    for k := 0 to |files|
      invariant |normalized| == k
      invariant forall i | 0 <= i < k :: GoodEntry(files[i]) && normalized[i] == EntryOf(files[i])
    {
      var entry := files[k];
      if !CompleteEntry(entry) || UnsafePath(entry.path.value) {
        return Failure(Refused);
      }
      if Parts(entry.path.value) == [] {
        return Failure(Crashed);
      }
      normalized := normalized + [Entry(AsPosix(entry.path.value), entry.sha256.value)];
    }
    assert normalized == EntriesOf(files);
    if || !Sorted(normalized)
       || raw.value.sha256 != Some(digest(normalized))
       || raw.value.fileCount != Some(|normalized|)
    {
      return Failure(Refused);
    }
    return Success(normalized);
  }

  // ---------------------------------------------------------------------------------------
  // The sorted list of the files found
  // ---------------------------------------------------------------------------------------

  /** The paths of a set in order, each once. */
  ghost predicate Listing(paths: seq<string>, included: set<string>) {
    && (forall i, j | 0 <= i < j < |paths| :: paths[i] != paths[j])
    && (forall i | 0 <= i < |paths| - 1 :: LexLe(paths[i], paths[i + 1]))
    && forall x :: x in paths <==> x in included
  }

  /** Puts a path in its place in a sorted list, unless it is there. */
  function InsertPath(path: string, paths: seq<string>): seq<string> {
    if paths == [] then [path]
    else if path == paths[0] then paths
    else if LexLe(path, paths[0]) then [path] + paths
    else [paths[0]] + InsertPath(path, paths[1..])
  }

  /** Sorted, and each path once, however often and in whatever order it was found. */
  function SortedSet(found: seq<string>): seq<string> {
    if found == [] then [] else InsertPath(found[0], SortedSet(found[1..]))
  }

  lemma {:induction false} LexLeTotal(a: string, b: string)
    ensures LexLe(a, b) || LexLe(b, a)
    ensures LexLe(a, b) && LexLe(b, a) ==> a == b
  {
    if a != "" && b != "" {
      LexLeTotal(a[1..], b[1..]);
      assert a == [a[0]] + a[1..] && b == [b[0]] + b[1..];
    }
  }

  lemma {:induction false} LexLeTransitive(a: string, b: string, c: string)
    requires LexLe(a, b) && LexLe(b, c)
    ensures LexLe(a, c)
  {
    if a != "" && a[0] == b[0] == c[0] {
      LexLeTransitive(a[1..], b[1..], c[1..]);
    }
  }

  lemma {:induction false} FirstIsLeast(paths: seq<string>, i: nat)
    requires i < |paths| && forall j | 0 <= j < |paths| - 1 :: LexLe(paths[j], paths[j + 1])
    ensures LexLe(paths[0], paths[i])
    decreases i
  {
    hide LexLe;
    if i == 0 {
      LexLeTotal(paths[0], paths[0]);
    } else {
      FirstIsLeast(paths, i - 1);
      assert LexLe(paths[i - 1], paths[i - 1 + 1]);
      LexLeTransitive(paths[0], paths[i - 1], paths[i]);
    }
  }

  lemma ListingTail(paths: seq<string>, included: set<string>)
    requires Listing(paths, included) && paths != []
    ensures Listing(paths[1..], included - {paths[0]}) && paths[0] in included
  {
    hide LexLe;
    var rest := paths[1..];
    forall i | 0 <= i < |rest| - 1 ensures LexLe(rest[i], rest[i + 1]) {
      assert LexLe(paths[i + 1], paths[i + 1 + 1]);
    }
    assert paths == [paths[0]] + rest;
    assert forall i | 0 <= i < |rest| :: rest[i] == paths[i + 1] != paths[0];
  }

  /** One set of files has one listing, so one manifest: the list does not depend on the order in
      which the files were found. */
  lemma {:induction false} ListingIsUnique(a: seq<string>, b: seq<string>, included: set<string>)
    requires Listing(a, included) && Listing(b, included)
    ensures a == b
    decreases |a|
  {
    hide LexLe;
    if a != [] && b != [] {
      assert a[0] in a && b[0] in b;
      assert a[0] in b && b[0] in a;
      var i :| 0 <= i < |b| && b[i] == a[0];
      var j :| 0 <= j < |a| && a[j] == b[0];
      FirstIsLeast(b, i);
      FirstIsLeast(a, j);
      LexLeTotal(a[0], b[0]);
      ListingTail(a, included);
      ListingTail(b, included);
      ListingIsUnique(a[1..], b[1..], included - {a[0]});
      assert a == [a[0]] + a[1..] && b == [b[0]] + b[1..];
    } else if a != [] {
      ListingTail(a, included);
    } else if b != [] {
      ListingTail(b, included);
    }
  }

  ghost predicate Ascending(paths: seq<string>) {
    forall i | 0 <= i < |paths| - 1 :: LexLe(paths[i], paths[i + 1]) && paths[i] != paths[i + 1]
  }

  lemma AscendingTail(paths: seq<string>)
    requires Ascending(paths) && paths != []
    ensures Ascending(paths[1..])
  {
    hide LexLe;
    var rest := paths[1..];
    forall i | 0 <= i < |rest| - 1 ensures LexLe(rest[i], rest[i + 1]) && rest[i] != rest[i + 1] {
      assert LexLe(paths[i + 1], paths[i + 1 + 1]) && paths[i + 1] != paths[i + 1 + 1];
    }
  }

  lemma AscendingCons(first: string, paths: seq<string>)
    requires Ascending(paths) && (paths != [] ==> LexLe(first, paths[0]) && first != paths[0])
    ensures Ascending([first] + paths)
  {
    hide LexLe;
    var all := [first] + paths;
    forall i | 0 <= i < |all| - 1 ensures LexLe(all[i], all[i + 1]) && all[i] != all[i + 1] {
      if i > 0 {
        assert all[i] == paths[i - 1] && all[i + 1] == paths[i - 1 + 1];
      }
    }
  }

  lemma {:induction false} InsertAscends(path: string, paths: seq<string>)
    requires Ascending(paths)
    ensures Ascending(InsertPath(path, paths)) && InsertPath(path, paths) != []
    ensures forall x :: x in InsertPath(path, paths) <==> x == path || x in paths
    ensures InsertPath(path, paths)[0] == path || (paths != [] && InsertPath(path, paths)[0] == paths[0])
  {
    hide LexLe;
    if paths != [] && path != paths[0] {
      assert paths == [paths[0]] + paths[1..];
      if LexLe(path, paths[0]) {
        AscendingCons(path, paths);
      } else {
        LexLeTotal(path, paths[0]);
        AscendingTail(paths);
        InsertAscends(path, paths[1..]);
        var more := InsertPath(path, paths[1..]);
        assert |paths| > 1 ==> LexLe(paths[0], paths[0 + 1]) && paths[1..][0] == paths[0 + 1];
        AscendingCons(paths[0], more);
      }
    }
  }

  lemma {:induction false} SortedAscends(found: seq<string>)
    ensures Ascending(SortedSet(found)) && forall x :: x in SortedSet(found) <==> x in found
  {
    if found != [] {
      SortedAscends(found[1..]);
      InsertAscends(found[0], SortedSet(found[1..]));
      assert found == [found[0]] + found[1..];
    }
  }

  lemma {:induction false} AscendingDiffers(paths: seq<string>, i: nat, j: nat)
    requires Ascending(paths) && i < j < |paths|
    ensures LexLe(paths[i], paths[j]) && paths[i] != paths[j]
    decreases j
  {
    hide LexLe;
    assert LexLe(paths[j - 1], paths[j - 1 + 1]) && paths[j - 1] != paths[j - 1 + 1];
    if i < j - 1 {
      AscendingDiffers(paths, i, j - 1);
      LexLeTransitive(paths[i], paths[j - 1], paths[j]);
      if paths[i] == paths[j] {
        LexLeTotal(paths[i], paths[j - 1]);
      }
    }
  }

  /** Sorting the set of what was found lists it: in order, each path once. */
  lemma SortedSetLists(found: seq<string>)
    ensures Listing(SortedSet(found), set x | x in found)
  {
    hide LexLe;
    SortedAscends(found);
    var paths := SortedSet(found);
    forall i, j | 0 <= i < j < |paths| ensures paths[i] != paths[j] {
      AscendingDiffers(paths, i, j);
    }
  }

  /** So the list does not depend on the order in which the files were found, or how often. */
  lemma FoundOrderIrrelevant(a: seq<string>, b: seq<string>)
    requires forall x :: x in a <==> x in b
    ensures SortedSet(a) == SortedSet(b)
  {
    hide Listing;
    SortedSetLists(a);
    SortedSetLists(b);
    assert (set x | x in a) == (set x | x in b);
    ListingIsUnique(SortedSet(a), SortedSet(b), set x | x in a);
  }

  // ---------------------------------------------------------------------------------------
  // The manifest of the files found
  // ---------------------------------------------------------------------------------------

  /** Where the runtime sources are. */
  const RUNTIME_PATHS: seq<string> := [
    "backend/app", "backend/requirements.txt", "scripts", "src", "public", "config", "package.json",
    "package-lock.json", "index.html", "vite.config.ts", "tsconfig.json", "postcss.config.mjs", ".dockerignore",
    "Dockerfile", "backend/Dockerfile", "docker/postgres/Dockerfile", "docker-compose.prod.yml",
    "deploy/caddy/Caddyfile", "deploy/monitoring", "deploy/helm/logsentinel"]

  /** b lies in the directory a, or deeper. */
  predicate Below(a: string, b: string) {
    |a| < |b| && b[..|a|] == a && b[|a|] == '/'
  }

  predicate UnderRuntime(path: string) {
    exists i :: 0 <= i < |RUNTIME_PATHS| && (path == RUNTIME_PATHS[i] || Below(RUNTIME_PATHS[i], path))
  }

  /** What is taken from a tree: a runtime path that is a file, and what is included of the files
      below one that is not. */
  predicate Picked(walk: seq<string>, included: string -> bool, x: string, n: nat)
    requires n <= |RUNTIME_PATHS|
  {
    exists i :: 0 <= i < n && PickedAt(walk, included, x, RUNTIME_PATHS[i])
  }

  predicate PickedAt(walk: seq<string>, included: string -> bool, x: string, root: string) {
    x in walk && (x == root || (root !in walk && Below(root, x) && included(x)))
  }

  method FilesAt(walk: seq<string>, included: string -> bool, root: string) returns (found: seq<string>)
    ensures forall x :: x in found <==> PickedAt(walk, included, x, root)
  {
    if root in walk {
      return [root];
    }
    found := [];
    for i := 0 to |walk|
      invariant forall x :: x in found <==> x in walk[..i] && Below(root, x) && included(x)
    {
      if Below(root, walk[i]) && included(walk[i]) {
        found := found + [walk[i]];
      }
    }
    assert walk[..|walk|] == walk;
  }

  /** The sorted list of the runtime files of a tree, given its files in any order. */
  method RuntimeFiles(walk: seq<string>, included: string -> bool) returns (paths: seq<string>)
    ensures Listing(paths, set x | x in walk && Picked(walk, included, x, |RUNTIME_PATHS|))
  {
    hide PickedAt;
    var found: seq<string> := [];
    for i := 0 to |RUNTIME_PATHS|
      invariant forall x :: x in found <==> Picked(walk, included, x, i)
    {
      var more := FilesAt(walk, included, RUNTIME_PATHS[i]);
      found := found + more;
    }
    SortedSetLists(found);
    PickedWalks(walk, included);
    assert (set x | x in found) == set x | x in walk && Picked(walk, included, x, |RUNTIME_PATHS|);
    return SortedSet(found);
  }

  lemma PickedWalks(walk: seq<string>, included: string -> bool)
    ensures forall x :: Picked(walk, included, x, |RUNTIME_PATHS|) ==> x in walk
  {
  }

  /** A relative path as walking a directory gives it. */
  predicate Walked(path: string) {
    Parts(path) != [] && AsPosix(path) == path && ".." !in Parts(path)
  }

  /** What is found for the runtime: files at or below its paths. */
  ghost predicate Found(found: seq<string>) {
    forall x | x in found :: Walked(x) && UnderRuntime(x)
  }

  predicate PlainRoot(r: string) {
    |r| >= 2 && ':' !in r && (r[0] != '.' || r[1] != 'r')
  }

  lemma TopRootsArePlain()
    ensures PlainRoot("scripts") && PlainRoot("src") && PlainRoot("public") && PlainRoot("config")
    ensures PlainRoot("package.json") && PlainRoot("package-lock.json") && PlainRoot("index.html")
  {
  }

  lemma BuildRootsArePlain()
    ensures PlainRoot("vite.config.ts") && PlainRoot("tsconfig.json") && PlainRoot("postcss.config.mjs")
    ensures PlainRoot(".dockerignore") && PlainRoot("Dockerfile")
  {
  }

  lemma BackendRootsArePlain()
    ensures PlainRoot("backend/app") && PlainRoot("backend/requirements.txt") && PlainRoot("backend/Dockerfile")
    ensures PlainRoot("docker/postgres/Dockerfile")
  {
  }

  lemma DeployRootsArePlain()
    ensures PlainRoot("docker-compose.prod.yml") && PlainRoot("deploy/caddy/Caddyfile")
    ensures PlainRoot("deploy/monitoring") && PlainRoot("deploy/helm/logsentinel")
  {
  }

  lemma RootsArePlain(i: nat)
    requires i < |RUNTIME_PATHS|
    ensures PlainRoot(RUNTIME_PATHS[i])
  {
    hide PlainRoot;
    TopRootsArePlain();
    BuildRootsArePlain();
    BackendRootsArePlain();
    DeployRootsArePlain();
  }

  lemma {:induction false} HeadWithin(path: string, r: string)
    requires path == r || Below(r, path)
    ensures Head(path) <= r
  {
    if r != "" && path[0] != '/' {
      assert path[0] == r[0];
      if path == r {
      } else {
        assert path[1..][..|r[1..]|] == path[..|r|][1..];
      }
      HeadWithin(path[1..], r[1..]);
    }
  }

  lemma FirstPartIsHead(path: string)
    requires Walked(path)
    ensures Parts(path)[0] == Head(path) && path != "" && path[0] != '/'
  {
    var parts := Parts(path);
    assert parts[0] in parts && parts[0] != "";
    forall i | 0 <= i < |parts| ensures '/' !in parts[i] {
      PartHasNoSlash(path, i);
    }
    SplitJoin(parts);
    hide Parts, Join;
    assert Split(path) == parts && Split(path)[0] == Head(path);
  }

  /** The only thing that can be wrong with the path of a runtime file is a backslash. */
  lemma RuntimePathSafeIff(path: string)
    requires Walked(path) && UnderRuntime(path)
    ensures UnsafePath(path) <==> '\\' in path
  {
    FirstPartIsHead(path);
    var i :| 0 <= i < |RUNTIME_PATHS| && (path == RUNTIME_PATHS[i] || Below(RUNTIME_PATHS[i], path));
    hide RUNTIME_PATHS;
    RootsArePlain(i);
    HeadWithin(path, RUNTIME_PATHS[i]);
    assert forall c | c in Head(path) :: c in RUNTIME_PATHS[i];
  }

  function ListedEntries(paths: seq<string>, sha: string -> string): (r: seq<Entry>)
    ensures |r| == |paths| && forall i | 0 <= i < |r| :: r[i] == Entry(paths[i], sha(paths[i]))
  {
    seq(|paths|, i requires 0 <= i < |paths| => Entry(paths[i], sha(paths[i])))
  }

  function AsRaw(entries: seq<Entry>): (r: seq<RawEntry>)
    ensures |r| == |entries|
    ensures forall i | 0 <= i < |r| :: r[i] == RawEntry(Some(entries[i].path), Some(entries[i].sha256))
  {
    seq(|entries|, i requires 0 <= i < |entries| => RawEntry(Some(entries[i].path), Some(entries[i].sha256)))
  }

  /** The manifest written for the files found; `sha` gives the digest of the file at a path. */
  function RuntimeManifest(digest: seq<Entry> -> string, found: seq<string>, sha: string -> string): RawManifest {
    var entries := ListedEntries(SortedSet(found), sha);
    RawManifest(Some(AsRaw(entries)), Some(digest(entries)), Some(|entries|))
  }

  /** The manifest of any files found, in any order, is accepted exactly when there are some and
      no path holds a backslash; its entries are then the sorted files, each once. */
  lemma GeneratedAcceptedIff(digest: seq<Entry> -> string, found: seq<string>, sha: string -> string)
    requires Found(found) && forall x | x in found :: HexDigest(sha(x))
    ensures
      var raw := RuntimeManifest(digest, found, sha);
      && (Canonical(digest, raw) <==> found != [] && forall x | x in found :: '\\' !in x)
      && (Canonical(digest, raw) ==> EntriesOf(raw.files.value) == ListedEntries(SortedSet(found), sha))
  {
    hide UnsafePath, Parts, AsPosix, HexDigest, LexLe, UnderRuntime;
    var paths := SortedSet(found);
    var entries := ListedEntries(paths, sha);
    var files := AsRaw(entries);
    SortedAscends(found);
    forall i | 0 <= i < |files| ensures GoodEntry(files[i]) <==> '\\' !in paths[i] {
      assert paths[i] in found;
      RuntimePathSafeIff(paths[i]);
    }
    assert found != [] ==> found[0] in paths;
    assert paths != [] ==> paths[0] in found;
    if forall x | x in found :: '\\' !in x {
      assert forall i | 0 <= i < |files| :: paths[i] in found;
      GoodFilesAreListed(paths, sha);
    } else {
      var x :| x in found && '\\' in x;
      var i :| 0 <= i < |paths| && paths[i] == x;
      assert !GoodEntry(files[i]);
    }
  }

  lemma GoodFilesAreListed(paths: seq<string>, sha: string -> string)
    requires Ascending(paths) && forall i | 0 <= i < |paths| :: AsPosix(paths[i]) == paths[i]
    requires forall i | 0 <= i < |paths| :: GoodEntry(AsRaw(ListedEntries(paths, sha))[i])
    ensures EntriesOf(AsRaw(ListedEntries(paths, sha))) == ListedEntries(paths, sha)
    ensures Sorted(ListedEntries(paths, sha))
  {
    hide GoodEntry, AsPosix, LexLe;
    var entries := ListedEntries(paths, sha);
    forall i | 0 <= i < |paths| ensures EntriesOf(AsRaw(entries))[i] == entries[i] {
      assert AsPosix(paths[i]) == paths[i];
    }
    forall i | 0 <= i < |entries| - 1 ensures LexLe(entries[i].path, entries[i + 1].path) {
      assert LexLe(paths[i], paths[i + 1]);
    }
  }

  lemma SameFirst(a: string, b: string)
    ensures forall k | 0 < k <= |a| && k <= |b| && a[..k] == b[..k] :: a[0] == b[0]
  {
    forall k | 0 < k <= |a| && k <= |b| && a[..k] == b[..k] ensures a[0] == b[0] {
      assert a[..k][0] == a[0] && b[..k][0] == b[0];
    }
  }

  /** The order of paths, spelled out: a beginning comes first, and else the first character that
      differs decides. */
  lemma {:induction false} LexLeIff(a: string, b: string)
    ensures LexLe(a, b) <==>
              a <= b || exists k :: 0 <= k < |a| && k < |b| && a[..k] == b[..k] && a[k] < b[k]
  {
    if a != [] && b != [] && a[0] == b[0] {
      var a', b' := a[1..], b[1..];
      LexLeIff(a', b');
      assert a == [a[0]] + a' && b == [b[0]] + b';
      if k :| 0 <= k < |a'| && k < |b'| && a'[..k] == b'[..k] && a'[k] < b'[k] {
        assert a[..k + 1] == [a[0]] + a'[..k] && b[..k + 1] == [b[0]] + b'[..k] && a[k + 1] < b[k + 1];
      }
      if k :| 0 <= k < |a| && k < |b| && a[..k] == b[..k] && a[k] < b[k] {
        assert k > 0 && a'[..k - 1] == a[..k][1..] && b'[..k - 1] == b[..k][1..] && a'[k - 1] < b'[k - 1];
      }
    } else if a != [] && b != [] {
      SameFirst(a, b);
      assert a[0] < b[0] ==> a[..0] == b[..0];
    }
  }

  /** The parts that mean something are kept in their order. */
  lemma {:induction false} ProperParts(a: seq<string>, b: seq<string>)
    ensures Proper(a + b) == Proper(a) + Proper(b)
    ensures forall x: string :: Proper([x]) == if x in {"", "."} then [] else [x]
  {
    if a == [] {
      assert a + b == b;
    } else {
      assert (a + b)[1..] == a[1..] + b;
      ProperParts(a[1..], b);
    }
  }
}
