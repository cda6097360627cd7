/** Building the archive of the reviewed sources, and checking an archive together with the tree
    that was staged from it. */
module SourceArchive {
  import opened Common
  import opened ObjectKeys
  import opened SourceManifest

  const DIRECTORY := ".release"
  const FILE := "source-manifest.json"
  const EMBEDDED := DIRECTORY + "/" + FILE

  datatype Member = Member(name: string, regular: bool, content: Bytes)

  datatype Review = Review(status: string, runtimeSha: Option<string>, hostSha: Option<string>)

  /** A manifest payload: the runtime manifest, the review, the digest of the host operations. */
  datatype Payload = Payload(raw: Option<RawManifest>, review: Option<Review>, hostSha: Option<string>)

  /**
   A directory: every path that is a file and its content, the paths that a recursive listing
   gives, and those reached through a symbolic link or lying outside.
   */
  datatype Tree = Tree(present: bool, rootIsLink: bool, files: map<string, Bytes>, listed: set<string>,
                       linked: set<string>, outside: set<string>)

  /** The digests and the reading of a payload, as parameters. */
  datatype Codec = Codec(sha: Bytes -> string, digest: seq<Entry> -> string, parse: Bytes -> Option<Payload>,
                         encode: Payload -> Bytes)

  datatype Fault =
    | UnsafeMember | DuplicateMember | ManifestMissing | Invalid | IdentityMismatch | ReviewMissing
    | FileSetMismatch | RootIsSymlink | MissingMember(name: string) | MemberHash(name: string)
    | StagedUnsafe(name: string) | StagedOutside(name: string) | StagedHash(name: string) | StagedSetMismatch

  predicate Reviewed(p: Payload, sourceSha: string) {
    && p.review.Some? && p.review.value.status == "PASS" && p.review.value.runtimeSha == Some(sourceSha)
    && p.hostSha.Some? && p.review.value.hostSha == p.hostSha && HexDigest(p.hostSha.value)
  }

  predicate BadMember(m: Member) {
    UnsafePath(m.name) || !m.regular
  }

  function Paths(entries: seq<Entry>): set<string> {
    set i | 0 <= i < |entries| :: entries[i].path
  }

  predicate StagedWell(codec: Codec, tree: Tree, e: Entry) {
    && e.path !in tree.linked && e.path in tree.files && e.path !in tree.outside
    && codec.sha(tree.files[e.path]) == e.sha256
  }

  predicate Distinct(members: seq<Member>) {
    forall i, j | 0 <= i < j < |members| :: members[i].name != members[j].name
  }

  /** The members of an archive by name; a later member takes the place of an earlier one. */
  function ByName(members: seq<Member>, n: nat): map<string, Member>
    requires n <= |members|
  {
    if n == 0 then map[]
    else if BadMember(members[n - 1]) then ByName(members, n - 1)
    else ByName(members, n - 1)[members[n - 1].name := members[n - 1]]
  }

  /**
   Archive, manifest and tree agree: every member is a regular file at a safe path, each name
   occurs once, the embedded manifest is the reviewed one, and the archive without it, the
   manifest and the tree have the same paths and digests.
   */
  ghost predicate Agree(codec: Codec, members: seq<Member>, tree: Tree, sourceSha: string) {
    && (forall i | 0 <= i < |members| :: !BadMember(members[i])) && Distinct(members)
    && !tree.rootIsLink && tree.present
    && exists k: nat :: k < |members| && members[k].name == EMBEDDED
                        && AgreeWith(codec, members, tree, sourceSha, codec.parse(members[k].content))
  }

  ghost predicate AgreeWith(codec: Codec, members: seq<Member>, tree: Tree, sourceSha: string,
                            payload: Option<Payload>) {
    && payload.Some? && Reviewed(payload.value, sourceSha)
    && payload.value.raw.Some? && Canonical(codec.digest, payload.value.raw.value)
    && payload.value.raw.value.sha256 == Some(sourceSha)
    && SameFiles(codec, members, EntriesOf(payload.value.raw.value.files.value), tree)
  }

  ghost predicate SameFiles(codec: Codec, members: seq<Member>, entries: seq<Entry>, tree: Tree) {
    && (forall x :: x in Paths(entries) <==> x != EMBEDDED && exists i :: 0 <= i < |members| && members[i].name == x)
    && (forall i, j | 0 <= i < |members| && 0 <= j < |entries| ::
          members[i].name == entries[j].path ==> codec.sha(members[i].content) == entries[j].sha256)
    && (forall j | 0 <= j < |entries| :: StagedWell(codec, tree, entries[j]))
    && tree.listed - {EMBEDDED} == Paths(entries)
  }

  /** An archive whose embedded manifest was not reviewed as passed, or was reviewed for other
      sources or another host, does not pass. */
  lemma UnreviewedRefused(codec: Codec, members: seq<Member>, tree: Tree, sourceSha: string, k: nat, payload: Payload)
    requires k < |members| && members[k].name == EMBEDDED && codec.parse(members[k].content) == Some(payload)
    requires || payload.review.None? || payload.review.value.status != "PASS"
             || payload.review.value.runtimeSha != Some(sourceSha) || payload.review.value.hostSha != payload.hostSha
    ensures !Agree(codec, members, tree, sourceSha)
  {
    hide Canonical, SameFiles, BadMember;
    assert !Reviewed(payload, sourceSha);
  }

  // ---------------------------------------------------------------------------------------
  // The check
  // ---------------------------------------------------------------------------------------

  lemma {:induction false} ByNameKeys(members: seq<Member>, n: nat, x: string)
    requires n <= |members| && forall i | 0 <= i < n :: !BadMember(members[i])
    ensures x in ByName(members, n) <==> exists i :: 0 <= i < n && members[i].name == x
  {
    hide BadMember;
    if n > 0 {
      ByNameKeys(members, n - 1, x);
    }
  }

  lemma {:induction false} ByNameAt(members: seq<Member>, n: nat, i: nat)
    requires i < n <= |members| && Distinct(members) && forall j | 0 <= j < n :: !BadMember(members[j])
    ensures members[i].name in ByName(members, n) && ByName(members, n)[members[i].name] == members[i]
  {
    hide BadMember;
    if i < n - 1 {
      ByNameAt(members, n - 1, i);
    }
  }

  ghost predicate SoundMembers(members: seq<Member>, n: nat)
    requires n <= |members|
  {
    (forall i | 0 <= i < n :: !BadMember(members[i])) && Distinct(members[..n])
  }

  lemma SoundStep(members: seq<Member>, n: nat)
    requires n < |members| && SoundMembers(members, n) && !BadMember(members[n])
    ensures SoundMembers(members, n + 1) <==> members[n].name !in ByName(members, n)
  {
    hide BadMember;
    ByNameKeys(members, n, members[n].name);
    if members[n].name in ByName(members, n) {
      var i :| 0 <= i < n && members[i].name == members[n].name;
      assert members[..n + 1][i].name == members[..n + 1][n].name;
    } else {
      assert forall i | 0 <= i < n :: members[..n + 1][i] == members[..n][i];
    }
  }

  lemma SoundShrinks(members: seq<Member>, n: nat)
    requires n < |members| && SoundMembers(members, n + 1)
    ensures SoundMembers(members, n) && !BadMember(members[n])
  {
    assert forall i | 0 <= i < n :: members[..n][i] == members[..n + 1][i];
  }

  /** Gathers the members by name; no fault means all are sound. */
  method CollectMembers(members: seq<Member>) returns (files: map<string, Member>, faults: seq<Fault>)
    ensures files == ByName(members, |members|)
    ensures faults == [] <==> SoundMembers(members, |members|)
  {
    hide UnsafePath, SoundMembers;
    files, faults := map[], [];
    assert SoundMembers(members, 0) by { NoMembersSound(members); }
    for i := 0 to |members|
      invariant files == ByName(members, i)
      invariant faults == [] <==> SoundMembers(members, i)
    {
      if SoundMembers(members, i + 1) {
        SoundShrinks(members, i);
      }
      var m := members[i];
      if UnsafePath(m.name) || !m.regular {
        faults := faults + [UnsafeMember];
        continue;
      }
      if SoundMembers(members, i) {
        SoundStep(members, i);
      }
      if m.name in files {
        faults := faults + [DuplicateMember];
      }
      files := files[m.name := m];
    }
  }

  lemma NoMembersSound(members: seq<Member>)
    ensures SoundMembers(members, 0)
  {
  }

  predicate EntryAgrees(codec: Codec, files: map<string, Member>, tree: Tree, e: Entry) {
    e.path in files && codec.sha(files[e.path].content) == e.sha256 && StagedWell(codec, tree, e)
  }

  method CheckEntries(codec: Codec, files: map<string, Member>, entries: seq<Entry>, tree: Tree)
    returns (faults: seq<Fault>)
    ensures faults == [] <==> forall j | 0 <= j < |entries| :: EntryAgrees(codec, files, tree, entries[j])
  {
    faults := [];
    for k := 0 to |entries|
      invariant faults == [] <==> forall j | 0 <= j < k :: EntryAgrees(codec, files, tree, entries[j])
    {
      var name := entries[k].path;
      if name !in files {
        faults := faults + [MissingMember(name)];
        continue;
      }
      if codec.sha(files[name].content) != entries[k].sha256 {
        faults := faults + [MemberHash(name)];
      }
      if name in tree.linked || name !in tree.files {
        faults := faults + [StagedUnsafe(name)];
      } else if name in tree.outside {
        faults := faults + [StagedOutside(name)];
      } else if codec.sha(tree.files[name]) != entries[k].sha256 {
        faults := faults + [StagedHash(name)];
      }
    }
  }

  /** The check of an artifact: the list of its faults, or None for an error nobody foresaw. */
  method VerifySourceArchive(codec: Codec, members: seq<Member>, tree: Tree, sourceSha: string)
    returns (faults: Option<seq<Fault>>)
    ensures faults == Some([]) <==> Agree(codec, members, tree, sourceSha)
  {
    hide UnsafePath, Canonical, Reviewed, StagedWell, BadMember;
    var files, found := CollectMembers(members);
    if EMBEDDED !in files {
      NoManifest(codec, members, tree, sourceSha);
      return Some([ManifestMissing]);
    }
    var payload := codec.parse(files[EMBEDDED].content);
    Decided(codec, members, tree, sourceSha);
    if payload.None? {
      return Some(found + [Invalid]);
    }
    var entries := ManifestEntries(codec.digest, payload.value.raw);
    if entries.Failure? {
      return if entries.error.Crashed? then None else Some(found + [Invalid]);
    }
    if payload.value.raw.value.sha256 != Some(sourceSha) {
      found := found + [IdentityMismatch];
    }
    if !Reviewed(payload.value, sourceSha) {
      found := found + [ReviewMissing];
    }
    if files.Keys - {EMBEDDED} != Paths(entries.value) {
      found := found + [FileSetMismatch];
    }
    if tree.rootIsLink {
      return Some([RootIsSymlink]);
    }
    if !tree.present {
      return Some(found + [Invalid]);
    }
    var more := CheckEntries(codec, files, entries.value, tree);
    found := found + more;
    if tree.listed - {EMBEDDED} != Paths(entries.value) {
      found := found + [StagedSetMismatch];
    }
    return Some(found);
  }

  lemma NoManifest(codec: Codec, members: seq<Member>, tree: Tree, sourceSha: string)
    requires EMBEDDED !in ByName(members, |members|)
    ensures !Agree(codec, members, tree, sourceSha)
  {
    hide BadMember, Canonical, Reviewed, SameFiles;
    if Agree(codec, members, tree, sourceSha) {
      ByNameKeys(members, |members|, EMBEDDED);
    }
  }

  /** What the check looks at, one by one. */
  ghost predicate Passes(codec: Codec, members: seq<Member>, tree: Tree, sourceSha: string, payload: Option<Payload>) {
    && payload.Some? && payload.value.raw.Some? && Canonical(codec.digest, payload.value.raw.value)
    && payload.value.raw.value.sha256 == Some(sourceSha) && Reviewed(payload.value, sourceSha)
    && FilesPass(codec, members, EntriesOf(payload.value.raw.value.files.value), tree)
  }

  ghost predicate FilesPass(codec: Codec, members: seq<Member>, entries: seq<Entry>, tree: Tree) {
    var files := ByName(members, |members|);
    && files.Keys - {EMBEDDED} == Paths(entries)
    && (forall j | 0 <= j < |entries| :: EntryAgrees(codec, files, tree, entries[j]))
    && tree.listed - {EMBEDDED} == Paths(entries)
  }

  lemma PassesIff(codec: Codec, members: seq<Member>, tree: Tree, sourceSha: string, payload: Option<Payload>)
    requires SoundMembers(members, |members|)
    ensures Passes(codec, members, tree, sourceSha, payload) <==> AgreeWith(codec, members, tree, sourceSha, payload)
  {
    hide BadMember, Reviewed, SameFiles, FilesPass, GoodEntry, Sorted;
    assert members[..|members|] == members;
    if payload.Some? && payload.value.raw.Some? && Canonical(codec.digest, payload.value.raw.value) {
      SameFilesIff(codec, members, EntriesOf(payload.value.raw.value.files.value), tree);
    }
  }

  lemma {:induction false} Decided(codec: Codec, members: seq<Member>, tree: Tree, sourceSha: string)
    requires EMBEDDED in ByName(members, |members|)
    ensures Agree(codec, members, tree, sourceSha) <==>
              && SoundMembers(members, |members|) && !tree.rootIsLink && tree.present
              && Passes(codec, members, tree, sourceSha, codec.parse(ByName(members, |members|)[EMBEDDED].content))
  {
    hide BadMember, AgreeWith, Passes;
    assert members[..|members|] == members;
    if SoundMembers(members, |members|) {
      ByNameKeys(members, |members|, EMBEDDED);
      forall k: nat | k < |members| && members[k].name == EMBEDDED
        ensures members[k] == ByName(members, |members|)[EMBEDDED]
      {
        ByNameAt(members, |members|, k);
      }
      PassesIff(codec, members, tree, sourceSha, codec.parse(ByName(members, |members|)[EMBEDDED].content));
    }
  }

  lemma SameFilesIff(codec: Codec, members: seq<Member>, entries: seq<Entry>, tree: Tree)
    requires (forall i | 0 <= i < |members| :: !BadMember(members[i])) && Distinct(members)
    ensures SameFiles(codec, members, entries, tree) <==> FilesPass(codec, members, entries, tree)
  {
    hide BadMember, StagedWell;
    var files := ByName(members, |members|);
    forall x ensures x in files.Keys <==> exists i :: 0 <= i < |members| && members[i].name == x {
      ByNameKeys(members, |members|, x);
    }
    forall i | 0 <= i < |members| ensures members[i].name in files && files[members[i].name] == members[i] {
      ByNameAt(members, |members|, i);
    }
    assert forall j | 0 <= j < |entries| :: entries[j].path in Paths(entries);
  }

  // ---------------------------------------------------------------------------------------
  // Building
  // ---------------------------------------------------------------------------------------

  /** In a directory nothing lies below a file. */
  ghost predicate Real(files: map<string, Bytes>) {
    forall a, b | a in files && b in files :: !Below(a, b)
  }

  /** The sources are where the manifest says, with the digests it says. */
  predicate ValidSourceTree(codec: Codec, tree: Tree, entries: seq<Entry>) {
    forall j | 0 <= j < |entries| :: StagedWell(codec, tree, entries[j])
  }

  /** One regular member for each entry, in order, and the manifest last. */
  function MakeTar(codec: Codec, tree: Tree, entries: seq<Entry>, payload: Payload): seq<Member>
    requires ValidSourceTree(codec, tree, entries)
  {
    seq(|entries|, j requires 0 <= j < |entries| && StagedWell(codec, tree, entries[j])
                   => Member(entries[j].path, true, tree.files[entries[j].path]))
    + [Member(EMBEDDED, true, codec.encode(payload))]
  }

  method BuildTar(codec: Codec, tree: Tree, entries: seq<Entry>, payload: Payload) returns (members: seq<Member>)
    requires ValidSourceTree(codec, tree, entries)
    ensures members == MakeTar(codec, tree, entries, payload)
  {
    members := [];
    for j := 0 to |entries|
      invariant |members| == j
      invariant forall i | 0 <= i < j ::
                  && entries[i].path in tree.files
                  && members[i] == Member(entries[i].path, true, tree.files[entries[i].path])
    {
      assert StagedWell(codec, tree, entries[j]);
      members := members + [Member(entries[j].path, true, tree.files[entries[j].path])];
    }
    assert members == MakeTar(codec, tree, entries, payload)[..|entries|];
    members := members + [Member(EMBEDDED, true, codec.encode(payload))];
  }

  /** A file cannot be written where a directory is, nor below another file. */
  predicate Blocked(files: map<string, Bytes>, name: string) {
    exists f :: f in files && (Below(f, name) || Below(name, f))
  }

  /** What extracting the first n members writes into an empty directory, unless it fails. */
  function Extracted(members: seq<Member>, n: nat): Option<map<string, Bytes>>
    requires n <= |members|
  {
    if n == 0 then Some(map[])
    else
      var before := Extracted(members, n - 1);
      if before.None? || Blocked(before.value, members[n - 1].name) then None
      else Some(before.value[members[n - 1].name := members[n - 1].content])
  }

  function Extract(members: seq<Member>): Option<Tree> {
    var files := Extracted(members, |members|);
    if files.None? then None else Some(Tree(true, false, files.value, files.value.Keys, {}, {}))
  }

  lemma {:induction false} ExtractedAt(members: seq<Member>, n: nat, i: nat)
    requires i < n <= |members| && Distinct(members) && Extracted(members, n).Some?
    ensures
      var files := Extracted(members, n).value;
      members[i].name in files && files[members[i].name] == members[i].content
  {
    if i < n - 1 {
      ExtractedAt(members, n - 1, i);
    }
  }

  lemma {:induction false} ExtractedKeys(members: seq<Member>, n: nat, x: string)
    requires n <= |members| && Extracted(members, n).Some?
    ensures x in Extracted(members, n).value <==> exists i :: 0 <= i < n && members[i].name == x
  {
    if n > 0 {
      ExtractedKeys(members, n - 1, x);
    }
  }

  ghost predicate Apart(members: seq<Member>, n: nat)
    requires n <= |members|
  {
    forall i, j | 0 <= i < n && 0 <= j < n :: !Below(members[i].name, members[j].name)
  }

  lemma BlockedIff(members: seq<Member>, n: nat, name: string)
    requires n <= |members| && Extracted(members, n).Some?
    ensures Blocked(Extracted(members, n).value, name) <==>
              exists i :: 0 <= i < n && (Below(members[i].name, name) || Below(name, members[i].name))
  {
    hide Below, Extracted;
    var files := Extracted(members, n).value;
    forall x ensures x in files <==> exists i :: 0 <= i < n && members[i].name == x {
      ExtractedKeys(members, n, x);
    }
    if i: nat :| i < n && (Below(members[i].name, name) || Below(name, members[i].name)) {
      assert members[i].name in files;
    }
  }

  lemma ApartStep(members: seq<Member>, n: nat)
    requires n < |members|
    ensures Apart(members, n + 1) <==>
              && Apart(members, n)
              && !exists i :: 0 <= i < n
                              && (Below(members[i].name, members[n].name) || Below(members[n].name, members[i].name))
  {
    NotBelowItself(members[n].name);
    hide Below;
  }

  /** An archive can be extracted exactly when no member lies below another one. */
  lemma {:induction false} ExtractedIff(members: seq<Member>, n: nat)
    requires n <= |members|
    ensures Extracted(members, n).Some? <==> Apart(members, n)
  {
    hide Below, Blocked;
    if n > 0 {
      ExtractedIff(members, n - 1);
      ApartStep(members, n - 1);
      hide Apart;
      if Extracted(members, n - 1).Some? {
        BlockedIff(members, n - 1, members[n - 1].name);
      }
    }
  }

  predicate NoDuplicates(entries: seq<Entry>) {
    forall i, j | 0 <= i < j < |entries| :: entries[i].path != entries[j].path
  }

  lemma TarIsDistinct(codec: Codec, tree: Tree, entries: seq<Entry>, payload: Payload)
    requires ValidSourceTree(codec, tree, entries)
    ensures Distinct(MakeTar(codec, tree, entries, payload)) <==> NoDuplicates(entries) && EMBEDDED !in Paths(entries)
  {
    hide StagedWell;
    var members := MakeTar(codec, tree, entries, payload);
    var n := |entries|;
    assert forall i | 0 <= i < n :: members[i].name == entries[i].path && entries[i].path in Paths(entries);
    assert members[n].name == EMBEDDED;
  }

  /** Where an archive can be extracted, every file of it is then where it should be. */
  lemma TarAgrees(codec: Codec, tree: Tree, entries: seq<Entry>, payload: Payload)
    requires ValidSourceTree(codec, tree, entries) && NoDuplicates(entries) && EMBEDDED !in Paths(entries)
    requires Extract(MakeTar(codec, tree, entries, payload)).Some?
    ensures
      var members := MakeTar(codec, tree, entries, payload);
      SameFiles(codec, members, entries, Extract(members).value)
  {
    TarIsDistinct(codec, tree, entries, payload);
    var members, n := MakeTar(codec, tree, entries, payload), |entries|;
    var staged := Extract(members).value;
    forall j | 0 <= j < n
      ensures StagedWell(codec, staged, entries[j]) && codec.sha(members[j].content) == entries[j].sha256
    {
      assert StagedWell(codec, tree, entries[j]);
      ExtractedAt(members, |members|, j);
      assert members[j] == Member(entries[j].path, true, tree.files[entries[j].path]);
    }
    hide StagedWell;
    forall i, j | 0 <= i < |members| && 0 <= j < n && members[i].name == entries[j].path
      ensures codec.sha(members[i].content) == entries[j].sha256
    {
      assert members[j].name == entries[j].path && entries[j].path in Paths(entries);
      assert i == j;
    }
    forall x ensures x in Paths(entries) <==> x != EMBEDDED && exists i :: 0 <= i < |members| && members[i].name == x {
      NamesOfTar(codec, tree, entries, payload, x);
    }
    forall x ensures x in staged.listed <==> exists i :: 0 <= i < |members| && members[i].name == x {
      ExtractedKeys(members, |members|, x);
    }
  }

  lemma NamesOfTar(codec: Codec, tree: Tree, entries: seq<Entry>, payload: Payload, x: string)
    requires ValidSourceTree(codec, tree, entries) && EMBEDDED !in Paths(entries)
    ensures
      var members := MakeTar(codec, tree, entries, payload);
      x in Paths(entries) <==> x != EMBEDDED && exists i :: 0 <= i < |members| && members[i].name == x
  {
    hide StagedWell;
    var members := MakeTar(codec, tree, entries, payload);
    if x in Paths(entries) {
      var j :| 0 <= j < |entries| && entries[j].path == x;
      assert members[j].name == x;
    }
    if x != EMBEDDED && exists i :: 0 <= i < |members| && members[i].name == x {
      var i :| 0 <= i < |members| && members[i].name == x;
      assert entries[i].path == x;
    }
  }

  lemma MembersAreGood(codec: Codec, tree: Tree, files: seq<RawEntry>, payload: Payload, i: nat)
    requires forall j | 0 <= j < |files| :: GoodEntry(files[j])
    requires ValidSourceTree(codec, tree, EntriesOf(files)) && i <= |files|
    ensures !BadMember(MakeTar(codec, tree, EntriesOf(files), payload)[i])
  {
    if i < |files| {
      assert GoodEntry(files[i]);
      NormalIsSafe(files[i].path.value);
    } else {
      EmbeddedIsSafe();
    }
  }

  lemma TwoPartsAreSafe(a: string, b: string)
    requires a != "" && b != "" && a !in {".", ".."} && b !in {".", ".."}
    requires '/' !in a && '\\' !in a && ':' !in a && '/' !in b && '\\' !in b
    ensures !UnsafePath(a + "/" + b)
  {
    var parts := [a, b];
    assert parts[1..] == [b];
    assert Join(parts) == a + "/" + b;
    SplitJoin(parts);
    ProperKeeps(parts);
    JoinLacks('\\', parts);
  }

  lemma EmbeddedIsSafe()
    ensures !UnsafePath(EMBEDDED)
  {
    hide UnsafePath;
    TwoPartsAreSafe(DIRECTORY, FILE);
  }

  /** What the archive is made of: a reviewed manifest, and a directory it describes. */
  ghost predicate Buildable(codec: Codec, tree: Tree, payload: Payload, sourceSha: string) {
    && payload.raw.Some? && Canonical(codec.digest, payload.raw.value) && payload.raw.value.sha256 == Some(sourceSha)
    && Reviewed(payload, sourceSha) && codec.parse(codec.encode(payload)) == Some(payload)
    && Real(tree.files) && ValidSourceTree(codec, tree, EntriesOf(payload.raw.value.files.value))
  }

  /** The path is neither that of the embedded manifest, nor a directory it is in, nor below it. */
  predicate Clear(path: string) {
    path != EMBEDDED && !Below(path, EMBEDDED) && !Below(EMBEDDED, path)
  }

  /** The archive can be extracted, and the check passes on it and on what was extracted. */
  ghost predicate Verifies(codec: Codec, members: seq<Member>, sourceSha: string) {
    Extract(members).Some? && Agree(codec, members, Extract(members).value, sourceSha)
  }

  lemma TarExtractsIff(codec: Codec, tree: Tree, entries: seq<Entry>, payload: Payload)
    requires Real(tree.files) && ValidSourceTree(codec, tree, entries)
    ensures Extract(MakeTar(codec, tree, entries, payload)).Some? <==>
              forall j | 0 <= j < |entries| :: !Below(entries[j].path, EMBEDDED) && !Below(EMBEDDED, entries[j].path)
  {
    var members, n := MakeTar(codec, tree, entries, payload), |entries|;
    ExtractedIff(members, |members|);
    assert members[n].name == EMBEDDED;
    forall j | 0 <= j < n ensures members[j].name == entries[j].path && entries[j].path in tree.files {
      assert StagedWell(codec, tree, entries[j]);
    }
    hide StagedWell, Below;
    if forall j | 0 <= j < n :: !Below(entries[j].path, EMBEDDED) && !Below(EMBEDDED, entries[j].path) {
      forall i, j | 0 <= i < |members| && 0 <= j < |members| ensures !Below(members[i].name, members[j].name) {
        if i == n && j == n {
          NotBelowItself(EMBEDDED);
        }
      }
    } else {
      var j :| 0 <= j < n && (Below(entries[j].path, EMBEDDED) || Below(EMBEDDED, entries[j].path));
      assert Below(members[j].name, members[n].name) || Below(members[n].name, members[j].name);
    }
  }

  lemma NotBelowItself(a: string)
    ensures !Below(a, a)
  {
  }

  /**
   An archive built from a reviewed manifest and the directory it describes can be extracted, and
   then passes the check, exactly when no path is listed twice, and none is the path of the
   embedded manifest, a directory of it, or below it.
   */
  lemma BuiltArchiveVerifiesIff(codec: Codec, tree: Tree, payload: Payload, sourceSha: string)
    requires Buildable(codec, tree, payload, sourceSha)
    ensures
      var entries := EntriesOf(payload.raw.value.files.value);
      Verifies(codec, MakeTar(codec, tree, entries, payload), sourceSha) <==>
        NoDuplicates(entries) && forall j | 0 <= j < |entries| :: Clear(entries[j].path)
  {
    hide BadMember, Reviewed, SameFiles, StagedWell, NoDuplicates, GoodEntry, Below, Extract;
    var files := payload.raw.value.files.value;
    var entries := EntriesOf(files);
    var members := MakeTar(codec, tree, entries, payload);
    forall i | 0 <= i < |members| ensures !BadMember(members[i]) {
      MembersAreGood(codec, tree, files, payload, i);
    }
    TarIsDistinct(codec, tree, entries, payload);
    TarExtractsIff(codec, tree, entries, payload);
    assert EMBEDDED in Paths(entries) <==> exists j :: 0 <= j < |entries| && entries[j].path == EMBEDDED;
    if NoDuplicates(entries) && forall j | 0 <= j < |entries| :: Clear(entries[j].path) {
      TarAgrees(codec, tree, entries, payload);
      ExtractedStands(members);
      var k := |entries|;
      assert members[k] == Member(EMBEDDED, true, codec.encode(payload));
      assert AgreeWith(codec, members, Extract(members).value, sourceSha, codec.parse(members[k].content));
    }
  }

  lemma ExtractedStands(members: seq<Member>)
    requires Extract(members).Some?
    ensures Extract(members).value.present && !Extract(members).value.rootIsLink
  {
  }

  // ---------------------------------------------------------------------------------------
  // From the files of a checkout to a verified archive
  // ---------------------------------------------------------------------------------------

  /** The digests of the files of a tree. */
  function TreeSha(codec: Codec, tree: Tree): string -> string {
    (path: string) => if path in tree.files then codec.sha(tree.files[path]) else ""
  }

  /** The files found are files of the directory itself, and can be listed in a manifest. */
  ghost predicate Checkout(codec: Codec, tree: Tree, found: seq<string>) {
    && Real(tree.files) && found != [] && Found(found)
    && forall x | x in found ::
         && x in tree.files && x !in tree.linked && x !in tree.outside && '\\' !in x
         && HexDigest(codec.sha(tree.files[x]))
  }

  lemma BelowStartsAlike(a: string, b: string)
    requires Below(a, b) && |a| >= 2
    ensures |b| >= 2 && b[0] == a[0] && b[1] == a[1]
  {
    assert b[..|a|][0] == a[0] && b[..|a|][1] == a[1];
  }

  lemma EmbeddedStarts()
    ensures |EMBEDDED| >= 2 && EMBEDDED[0] == '.' && EMBEDDED[1] == 'r'
  {
  }

  lemma StartsPlain(path: string)
    requires UnderRuntime(path)
    ensures |path| >= 2 && (path[0] != '.' || path[1] != 'r')
  {
    var i :| 0 <= i < |RUNTIME_PATHS| && (path == RUNTIME_PATHS[i] || Below(RUNTIME_PATHS[i], path));
    hide RUNTIME_PATHS, Below;
    RootsArePlain(i);
    if path != RUNTIME_PATHS[i] {
      BelowStartsAlike(RUNTIME_PATHS[i], path);
    }
  }

  lemma ClearOfRuntime(path: string)
    requires UnderRuntime(path)
    ensures Clear(path)
  {
    hide Below, UnderRuntime, EMBEDDED;
    StartsPlain(path);
    EmbeddedStarts();
    if Below(path, EMBEDDED) {
      BelowStartsAlike(path, EMBEDDED);
    } else if Below(EMBEDDED, path) {
      BelowStartsAlike(EMBEDDED, path);
    }
  }

  lemma ListedDiffer(codec: Codec, tree: Tree, found: seq<string>)
    ensures NoDuplicates(ListedEntries(SortedSet(found), TreeSha(codec, tree)))
  {
    SortedSetLists(found);
  }

  /**
   The manifest generated for the runtime files of a checkout, once reviewed, always yields an
   archive that extracts and verifies.
   */
  lemma GeneratedVerifies(codec: Codec, tree: Tree, found: seq<string>, payload: Payload, sourceSha: string)
    requires Checkout(codec, tree, found)
    requires payload.raw == Some(RuntimeManifest(codec.digest, found, TreeSha(codec, tree)))
    requires payload.raw.value.sha256 == Some(sourceSha) && Reviewed(payload, sourceSha)
    requires codec.parse(codec.encode(payload)) == Some(payload)
    ensures Buildable(codec, tree, payload, sourceSha)
    ensures Verifies(codec, MakeTar(codec, tree, EntriesOf(payload.raw.value.files.value), payload), sourceSha)
  {
    var entries := ListedEntries(SortedSet(found), TreeSha(codec, tree));
    GeneratedAcceptedIff(codec.digest, found, TreeSha(codec, tree));
    SortedAscends(found);
    ListedDiffer(codec, tree, found);
    hide Reviewed, RuntimeManifest, SortedSet, NoDuplicates, Clear, UnderRuntime, Walked, Verifies, HexDigest, Real;
    forall j | 0 <= j < |entries| ensures StagedWell(codec, tree, entries[j]) && Clear(entries[j].path) {
      assert SortedSet(found)[j] in found;
      ClearOfRuntime(entries[j].path);
    }
    BuiltArchiveVerifiesIff(codec, tree, payload, sourceSha);
  }
}
