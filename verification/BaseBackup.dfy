/**
 One physical base backup, call by call: every staged file is uploaded and checked, the
 manifest goes last, and the listing is compared at the end. Other clients may add objects at
 any moment; the process may die at any moment. Nobody deletes or replaces an object.
 */
module BaseBackup {
  import opened Common
  import opened ObjectKeys
  import opened ObjectStore
  import opened Uploads

  const MANIFEST_NAME := "recovery-manifest.json"

  datatype Staged = Staged(name: string, body: Bytes)

  datatype Record = Record(filename: string, key: string, size: int, sha256: string, status: Outcome)

  datatype Manifest = Manifest(baseId: string, files: seq<Record>)

  datatype Job = Job(h: Hash, prefix: string, baseId: string, files: seq<Staged>,
                     encode: Manifest -> Bytes)

  datatype Phase =
    | UploadingFile(uploaded: seq<Record>, pc: Pc)
    | UploadingManifest(uploaded: seq<Record>, pc: Pc)
    | Listing(uploaded: seq<Record>)
    | Finished(uploaded: seq<Record>)
    | Stopped(uploaded: seq<Record>)

  datatype BackupState = BackupState(store: Store, phase: Phase)

  datatype BackupEvent = Reply(answer: Answer) | Listed | Others(store: Store) | Crash

  // ---------------------------------------------------------------------------------------
  // What is staged
  // ---------------------------------------------------------------------------------------

  datatype Entry = Entry(name: string, isFile: bool, isSymlink: bool, body: Bytes)

  datatype StagingError = NoFiles | UnsafeName

  function RegularFiles(entries: seq<Entry>): seq<Staged> {
    if entries == [] then []
    else (if entries[0].isFile then [Staged(entries[0].name, entries[0].body)] else []) + RegularFiles(entries[1..])
  }

  predicate UnsafeEntry(e: Entry) {
    e.isFile && (e.isSymlink || !SafeComponent(e.name))
  }

  function RecoveryFiles(entries: seq<Entry>): Result<seq<Staged>, StagingError> {
    if RegularFiles(entries) == [] then Failure(NoFiles)
    else if exists i | 0 <= i < |entries| :: UnsafeEntry(entries[i]) then Failure(UnsafeName)
    else Success(RegularFiles(entries))
  }

  lemma {:induction false} RegularFilesAreEntries(entries: seq<Entry>, k: nat) returns (i: nat)
    requires k < |RegularFiles(entries)|
    ensures i < |entries| && entries[i].isFile && RegularFiles(entries)[k] == Staged(entries[i].name, entries[i].body)
  {
    var skip := if entries[0].isFile then 1 else 0;
    if k < skip {
      i := 0;
    } else {
      var j := RegularFilesAreEntries(entries[1..], k - skip);
      i := j + 1;
    }
  }

  /** What is accepted is not empty, and every name makes a key. */
  lemma RecoveryFilesAreSafe(entries: seq<Entry>, k: nat)
    requires RecoveryFiles(entries).Success? && k < |RecoveryFiles(entries).value|
    ensures SafeComponent(RecoveryFiles(entries).value[k].name)
  {
    var i := RegularFilesAreEntries(entries, k);
    assert !UnsafeEntry(entries[i]);
  }

  predicate Rising(at: seq<nat>) {
    forall j, k | 0 <= j < k < |at| :: at[j] < at[k]
  }

  /** Where the files come from: `at` lists the regular entries in order, each once. */
  ghost predicate PickedAt(entries: seq<Entry>, files: seq<Staged>, at: seq<nat>) {
    PickedFrom(entries, files, at, 0)
  }

  ghost predicate PickedFrom(entries: seq<Entry>, files: seq<Staged>, at: seq<nat>, first: nat) {
    && |at| == |files| && Rising(at)
    && (forall k | 0 <= k < |at| ::
          && first <= at[k] < |entries| && entries[at[k]].isFile
          && files[k] == Staged(entries[at[k]].name, entries[at[k]].body))
    && forall i | first <= i < |entries| && entries[i].isFile :: i in at
  }

  lemma PickedLater(entries: seq<Entry>, files: seq<Staged>, at: seq<nat>) returns (moved: seq<nat>)
    requires entries != [] && PickedAt(entries[1..], files, at)
    ensures PickedFrom(entries, files, moved, 1)
  {
    moved := seq(|at|, k requires 0 <= k < |at| => at[k] + 1);
    forall k | 0 <= k < |moved|
      ensures 1 <= moved[k] < |entries| && entries[moved[k]].isFile
      ensures files[k] == Staged(entries[moved[k]].name, entries[moved[k]].body)
    {
      assert entries[moved[k]] == entries[1..][at[k]];
    }
    forall i | 1 <= i < |entries| && entries[i].isFile ensures i in moved {
      assert entries[1..][i - 1].isFile;
      var k :| 0 <= k < |at| && at[k] == i - 1;
      assert moved[k] == i;
    }
  }

  lemma FirstRises(moved: seq<nat>)
    requires Rising(moved) && forall k | 0 <= k < |moved| :: 1 <= moved[k]
    ensures Rising([0] + moved)
  {
  }

  lemma FirstIn(moved: seq<nat>, i: nat)
    requires i > 0 ==> i in moved
    ensures i in [0] + moved
  {
    assert i == 0 ==> ([0] + moved)[0] == i;
  }

  lemma PickedFirst(entries: seq<Entry>, files: seq<Staged>, moved: seq<nat>)
    requires entries != [] && PickedFrom(entries, files, moved, 1) && entries[0].isFile
    ensures PickedAt(entries, [Staged(entries[0].name, entries[0].body)] + files, [0] + moved)
  {
    hide Rising;
    var at: seq<nat> := [0] + moved;
    var all := [Staged(entries[0].name, entries[0].body)] + files;
    FirstRises(moved);
    forall k | 0 <= k < |at|
      ensures at[k] < |entries| && entries[at[k]].isFile && all[k] == Staged(entries[at[k]].name, entries[at[k]].body)
    {
      if k > 0 {
        assert at[k] == moved[k - 1] && all[k] == files[k - 1];
      }
    }
    forall i | 0 <= i < |entries| && entries[i].isFile ensures i in at {
      FirstIn(moved, i);
    }
  }

  lemma {:induction false} RegularFilesPicked(entries: seq<Entry>) returns (at: seq<nat>)
    ensures PickedAt(entries, RegularFiles(entries), at)
  {
    hide PickedFrom;
    if entries == [] {
      at := [];
      NothingPicked();
    } else {
      var rest := RegularFilesPicked(entries[1..]);
      at := PickedLater(entries, RegularFiles(entries[1..]), rest);
      if entries[0].isFile {
        PickedFirst(entries, RegularFiles(entries[1..]), at);
        at := [0] + at;
      } else {
        NotFirst(entries, RegularFiles(entries[1..]), at);
        assert [] + RegularFiles(entries[1..]) == RegularFiles(entries[1..]);
      }
    }
  }

  lemma NothingPicked()
    ensures PickedAt([], [], [])
  {
  }

  lemma NotFirst(entries: seq<Entry>, files: seq<Staged>, at: seq<nat>)
    requires entries != [] && PickedFrom(entries, files, at, 1) && !entries[0].isFile
    ensures PickedAt(entries, files, at)
  {
  }

  /** A file name the backup accepts: a letter or a digit, and then letters, digits, dots,
      underscores and hyphens. */
  predicate PlainName(name: string) {
    && name != "" && name[0] !in "._-"
    && forall i | 0 <= i < |name| ::
         'A' <= name[i] <= 'Z' || 'a' <= name[i] <= 'z' || '0' <= name[i] <= '9' || name[i] in "._-"
  }

  /**
   What is backed up: exactly the regular files of the directory, in its order. It is refused
   exactly if there is none, or one of them is a link or has a name that is not plain.
   */
  lemma RecoveryFilesAre(entries: seq<Entry>) returns (at: seq<nat>)
    ensures
      var r := RecoveryFiles(entries);
      && (r == Failure(NoFiles) <==> forall i | 0 <= i < |entries| :: !entries[i].isFile)
      && (r == Failure(UnsafeName) <==> exists i :: 0 <= i < |entries| && entries[i].isFile
                                          && (entries[i].isSymlink || !PlainName(entries[i].name)))
      && (r.Success? ==> r.value != [] && PickedAt(entries, r.value, at))
  {
    at := RegularFilesPicked(entries);
    forall i | 0 <= i < |entries| ensures SafeComponent(entries[i].name) <==> PlainName(entries[i].name) {
      PlainNameIff(entries[i].name);
    }
    hide RegularFiles, SafeComponent, PlainName;
    if RegularFiles(entries) == [] {
      assert at == [];
    } else {
      assert entries[at[0]].isFile;
    }
    forall i | 0 <= i < |entries|
      ensures UnsafeEntry(entries[i]) <==>
                entries[i].isFile && (entries[i].isSymlink || !PlainName(entries[i].name))
    {
    }
  }

  lemma PlainNameIff(name: string)
    ensures SafeComponent(name) <==> PlainName(name)
  {
  }

  /** Names in one directory differ. */
  ghost predicate Directory(entries: seq<Entry>) {
    forall i, j | 0 <= i < j < |entries| :: entries[i].name != entries[j].name
  }

  /** What is accepted from a directory is what a backup can start with. */
  lemma DirectoryIsStaging(job: Job, entries: seq<Entry>)
    requires Directory(entries) && RecoveryFiles(entries) == Success(job.files)
    ensures Staging(job)
  {
    var at := RecoveryFilesAre(entries);
    forall j, k | 0 <= j < k < |job.files| ensures job.files[j].name != job.files[k].name {
      assert at[j] < at[k];
    }
  }

  // ---------------------------------------------------------------------------------------
  // The machine
  // ---------------------------------------------------------------------------------------

  function Key(job: Job, name: string): string {
    job.prefix + (job.baseId + "/" + name)
  }

  lemma KeyIsSafeKey(job: Job, name: string)
    requires SafeComponent(job.baseId) && SafeComponent(name)
    ensures SafeKey(job.prefix, [job.baseId, name]) == Some(Key(job, name))
  {
    var parts := [job.baseId, name];
    assert parts[1..] == [name] && Join(parts) == job.baseId + "/" + name;
  }

  lemma KeyInjective(job: Job, a: string, b: string)
    requires Key(job, a) == Key(job, b)
    ensures a == b
  {
    var stem := job.prefix + (job.baseId + "/");
    assert Key(job, a) == stem + a && Key(job, b) == stem + b;
    assert a == (stem + a)[|stem|..] && b == (stem + b)[|stem|..];
  }

  function ManifestKey(job: Job): string {
    Key(job, MANIFEST_NAME)
  }

  function FileRequest(job: Job, k: nat): Request
    requires k < |job.files|
  {
    Request(Key(job, job.files[k].name), job.files[k].body)
  }

  function ManifestRequest(job: Job, uploaded: seq<Record>): Request {
    Request(ManifestKey(job), job.encode(Manifest(job.baseId, uploaded)))
  }

  function RecordOf(job: Job, k: nat, status: Outcome): Record
    requires k < |job.files|
  {
    Record(job.files[k].name, Key(job, job.files[k].name), |job.files[k].body|, job.h(job.files[k].body), status)
  }

  function Start(store: Store): BackupState {
    BackupState(store, UploadingFile([], Begin))
  }

  function AfterFile(job: Job, uploaded: seq<Record>, pc: Pc): Phase
    requires |uploaded| < |job.files|
  {
    if !pc.Done? then UploadingFile(uploaded, pc)
    else if pc.outcome.Failed? then Stopped(uploaded)
    else
      var next := uploaded + [RecordOf(job, |uploaded|, pc.outcome)];
      if |next| < |job.files| then UploadingFile(next, Begin) else UploadingManifest(next, Begin)
  }

  function AfterManifest(uploaded: seq<Record>, pc: Pc): Phase {
    if !pc.Done? then UploadingManifest(uploaded, pc)
    else if pc.outcome.Failed? then Stopped(uploaded)
    else Listing(uploaded)
  }

  predicate Complete(job: Job, store: Store) {
    ManifestKey(job) in store && forall k | 0 <= k < |job.files| :: FileRequest(job, k).key in store
  }

  ghost predicate Enabled(job: Job, s: BackupState, e: BackupEvent) {
    match e
    case Reply(answer) =>
      && (s.phase.UploadingFile? || s.phase.UploadingManifest?)
      && (s.phase.UploadingFile? ==> |s.phase.uploaded| < |job.files|)
      && Possible(true, s.store,
                  if s.phase.UploadingFile? then FileRequest(job, |s.phase.uploaded|)
                  else ManifestRequest(job, s.phase.uploaded), s.phase.pc, answer)
    case Listed => s.phase.Listing?
    case Others(store) => Keeps(s.store, store) && (ManifestKey(job) in store ==> ManifestKey(job) in s.store)
    case Crash => !s.phase.Finished? && !s.phase.Stopped?
  }

  ghost function Apply(job: Job, s: BackupState, e: BackupEvent): BackupState
    requires Enabled(job, s, e)
  {
    match e
    case Reply(answer) =>
      (match s.phase
       case UploadingFile(uploaded, pc) =>
         var r := FileRequest(job, |uploaded|);
         var next := NextPc(job.h, s.store, r, pc, answer);
         BackupState(NextStore(job.h, s.store, r, pc, answer), AfterFile(job, uploaded, next))
       case UploadingManifest(uploaded, pc) =>
         var r := ManifestRequest(job, uploaded);
         var next := NextPc(job.h, s.store, r, pc, answer);
         BackupState(NextStore(job.h, s.store, r, pc, answer), AfterManifest(uploaded, next))
       case _ => s)
    case Listed =>
      s.(phase := if Complete(job, s.store) then Finished(s.phase.uploaded) else Stopped(s.phase.uploaded))
    case Others(store) => s.(store := store)
    case Crash => s.(phase := Stopped(s.phase.uploaded))
  }

  ghost predicate Legal(job: Job, s: BackupState, schedule: seq<BackupEvent>)
    decreases schedule
  {
    schedule == [] || (Enabled(job, s, schedule[0]) && Legal(job, Apply(job, s, schedule[0]), schedule[1..]))
  }

  ghost function Run(job: Job, s: BackupState, schedule: seq<BackupEvent>): BackupState
    requires Legal(job, s, schedule)
    decreases schedule
  {
    if schedule == [] then s else Run(job, Apply(job, s, schedule[0]), schedule[1..])
  }

  // ---------------------------------------------------------------------------------------
  // What every run keeps
  // ---------------------------------------------------------------------------------------

  /** At least one file is staged, and staged names come from one directory, so they differ. */
  ghost predicate Staging(job: Job) {
    job.files != [] && forall j, k | 0 <= j < k < |job.files| :: job.files[j].name != job.files[k].name
  }

  /** A staged file bears the manifest's name. */
  predicate Named(job: Job) {
    exists k :: 0 <= k < |job.files| && job.files[k].name == MANIFEST_NAME
  }

  /** The records of the first files, each right about its file. */
  ghost predicate Describes(job: Job, uploaded: seq<Record>) {
    && |uploaded| <= |job.files|
    && forall k | 0 <= k < |uploaded| :: uploaded[k] == RecordOf(job, k, uploaded[k].status)
  }

  ghost predicate Stored(job: Job, store: Store, n: nat)
    requires n <= |job.files|
  {
    forall k | 0 <= k < n :: Matches(job.h, store, FileRequest(job, k))
  }

  /** The first n files are not empty; an empty one ends the backup. */
  ghost predicate Filled(job: Job, n: nat)
    requires n <= |job.files|
  {
    forall k | 0 <= k < n :: job.files[k].body != []
  }

  ghost predicate Inv(job: Job, s: BackupState) {
    var uploaded := s.phase.uploaded;
    && Describes(job, uploaded) && Stored(job, s.store, |uploaded|) && Filled(job, |uploaded|)
    && (match s.phase
        case UploadingFile(_, pc) =>
          |uploaded| < |job.files| && !pc.Over() && (!pc.Begin? ==> Filled(job, |uploaded| + 1))
        case UploadingManifest(_, pc) =>
          |uploaded| == |job.files| && !pc.Over() && (Named(job) ==> pc.Begin? || pc.FirstHead?)
        case Listing(_) => |uploaded| == |job.files| && Matches(job.h, s.store, ManifestRequest(job, uploaded))
        case Finished(_) => |uploaded| == |job.files| && Matches(job.h, s.store, ManifestRequest(job, uploaded))
        case Stopped(_) => true)
  }

  lemma OthersKeep(job: Job, s: BackupState, e: BackupEvent)
    requires Inv(job, s) && Enabled(job, s, e) && !e.Reply?
    ensures Inv(job, Apply(job, s, e))
  {
    var s', n := Apply(job, s, e), |s.phase.uploaded|;
    forall k | 0 <= k < n ensures Matches(job.h, s'.store, FileRequest(job, k)) {
      assert Matches(job.h, s.store, FileRequest(job, k));
    }
  }

  lemma FileStepKeeps(job: Job, s: BackupState, e: BackupEvent)
    requires Staging(job) && Inv(job, s) && Enabled(job, s, e) && e.Reply? && s.phase.UploadingFile?
    ensures Inv(job, Apply(job, s, e))
  {
    var s', n := Apply(job, s, e), |s.phase.uploaded|;
    forall k | 0 <= k < |s'.phase.uploaded| ensures Matches(job.h, s'.store, FileRequest(job, k)) {
      if k < n {
        assert Matches(job.h, s.store, FileRequest(job, k));
        if Key(job, job.files[n].name) == Key(job, job.files[k].name) {
          KeyInjective(job, job.files[n].name, job.files[k].name);
        }
      }
    }
  }

  lemma NamedIsStored(job: Job, store: Store)
    requires Named(job) && Stored(job, store, |job.files|)
    ensures ManifestKey(job) in store
  {
    var k :| 0 <= k < |job.files| && job.files[k].name == MANIFEST_NAME;
    assert Matches(job.h, store, FileRequest(job, k));
  }

  lemma UnnamedKey(job: Job, k: nat)
    requires !Named(job) && k < |job.files|
    ensures FileRequest(job, k).key != ManifestKey(job)
  {
    if FileRequest(job, k).key == ManifestKey(job) {
      KeyInjective(job, job.files[k].name, MANIFEST_NAME);
    }
  }

  lemma ManifestStepKeeps(job: Job, s: BackupState, e: BackupEvent)
    requires Staging(job) && Inv(job, s) && Enabled(job, s, e) && e.Reply? && s.phase.UploadingManifest?
    ensures Inv(job, Apply(job, s, e))
  {
    var s' := Apply(job, s, e);
    assert s'.phase.uploaded == s.phase.uploaded;
    if Named(job) {
      NamedIsStored(job, s.store);
      assert s'.store == s.store;
    } else {
      forall k | 0 <= k < |job.files| ensures Matches(job.h, s'.store, FileRequest(job, k)) {
        assert Matches(job.h, s.store, FileRequest(job, k));
        UnnamedKey(job, k);
      }
    }
  }

  lemma StepKeeps(job: Job, s: BackupState, e: BackupEvent)
    requires Staging(job) && Inv(job, s) && Enabled(job, s, e)
    ensures Inv(job, Apply(job, s, e))
  {
    if !e.Reply? {
      OthersKeep(job, s, e);
    } else if s.phase.UploadingFile? {
      FileStepKeeps(job, s, e);
    } else {
      ManifestStepKeeps(job, s, e);
    }
  }

  lemma {:induction false} RunKeeps(job: Job, s: BackupState, schedule: seq<BackupEvent>)
    requires Staging(job) && Inv(job, s) && Legal(job, s, schedule)
    ensures Inv(job, Run(job, s, schedule))
    decreases schedule
  {
    hide Inv, Staging;
    if schedule != [] {
      StepKeeps(job, s, schedule[0]);
      RunKeeps(job, Apply(job, s, schedule[0]), schedule[1..]);
    }
  }

  /** The last comparison with the listing never finds an object missing. */
  lemma ListingIsComplete(job: Job, store: Store, schedule: seq<BackupEvent>)
    requires Staging(job) && Legal(job, Start(store), schedule)
    requires
      var end := Run(job, Start(store), schedule);
      end.phase.Listing?
    ensures
      var end := Run(job, Start(store), schedule);
      Enabled(job, end, Listed) && Apply(job, end, Listed).phase.Finished?
  {
    RunKeeps(job, Start(store), schedule);
    var end := Run(job, Start(store), schedule);
    forall k | 0 <= k < |job.files| ensures FileRequest(job, k).key in end.store {
      assert Matches(job.h, end.store, FileRequest(job, k));
    }
  }

  // ---------------------------------------------------------------------------------------
  // The manifest is published last
  // ---------------------------------------------------------------------------------------

  ghost predicate ManifestIs(job: Job, store: Store, uploaded: seq<Record>) {
    ManifestKey(job) in store && store[ManifestKey(job)] == ObjectOf(job.h, ManifestRequest(job, uploaded).body)
  }

  ghost predicate Published(job: Job, s: BackupState) {
    ManifestKey(job) in s.store ==> |s.phase.uploaded| == |job.files| && ManifestIs(job, s.store, s.phase.uploaded)
  }

  lemma {:induction false} RunPublishes(job: Job, s: BackupState, schedule: seq<BackupEvent>)
    requires Staging(job) && !Named(job) && Inv(job, s) && Published(job, s) && Legal(job, s, schedule)
    ensures Published(job, Run(job, s, schedule))
    decreases schedule
  {
    if schedule != [] {
      StepPublishes(job, s, schedule[0]);
      StepKeeps(job, s, schedule[0]);
      hide Inv, Staging, Published;
      RunPublishes(job, Apply(job, s, schedule[0]), schedule[1..]);
    }
  }

  lemma StepPublishes(job: Job, s: BackupState, e: BackupEvent)
    requires !Named(job) && Inv(job, s) && Published(job, s) && Enabled(job, s, e)
    ensures Published(job, Apply(job, s, e))
  {
    if s.phase.UploadingFile? {
      UnnamedKey(job, |s.phase.uploaded|);
    }
  }

  /**
   At every point of every run, crashes included, when no staged file bears the manifest's name:
   if the manifest of this base id is there, it is the complete one, and every file it lists is
   stored with the listed size and digest.
   */
  lemma ManifestIsLast(job: Job, store: Store, schedule: seq<BackupEvent>) returns (records: seq<Record>)
    requires Staging(job) && !Named(job) && ManifestKey(job) !in store
    requires Legal(job, Start(store), schedule)
    requires
      var end := Run(job, Start(store), schedule).store;
      ManifestKey(job) in end
    ensures |records| == |job.files| && Describes(job, records)
    ensures
      var end := Run(job, Start(store), schedule).store;
      ManifestIs(job, end, records) && Stored(job, end, |job.files|)
  {
    RunKeeps(job, Start(store), schedule);
    RunPublishes(job, Start(store), schedule);
    records := Run(job, Start(store), schedule).phase.uploaded;
  }

  /** A file of the manifest's name is uploaded before some other one: it is not the last, and
      no file up to it is empty. */
  ghost predicate Shadowed(job: Job) {
    exists k :: 0 <= k < |job.files| - 1 && job.files[k].name == MANIFEST_NAME && Filled(job, k + 1)
  }

  /** If the manifest's key is taken, all files are stored. */
  ghost predicate FilesFirst(job: Job, store: Store) {
    ManifestKey(job) in store ==> Stored(job, store, |job.files|)
  }

  lemma StepKeepsFilesFirst(job: Job, s: BackupState, e: BackupEvent)
    requires Staging(job) && !Shadowed(job) && Inv(job, s) && FilesFirst(job, s.store) && Enabled(job, s, e)
    ensures FilesFirst(job, Apply(job, s, e).store)
  {
    var s', n := Apply(job, s, e), |s.phase.uploaded|;
    StepKeeps(job, s, e);
    if s.phase.UploadingFile? && e.Reply? && ManifestKey(job) in s'.store {
      forall k | 0 <= k < |job.files| ensures Matches(job.h, s'.store, FileRequest(job, k)) {
        if ManifestKey(job) in s.store {
          assert Matches(job.h, s.store, FileRequest(job, k));
        } else {
          KeyInjective(job, job.files[n].name, MANIFEST_NAME);
          assert n == |job.files| - 1;
          assert k < n ==> Matches(job.h, s.store, FileRequest(job, k));
        }
        if Key(job, job.files[n].name) == Key(job, job.files[k].name) {
          KeyInjective(job, job.files[n].name, job.files[k].name);
        }
      }
    } else if ManifestKey(job) in s'.store && !s.phase.UploadingManifest? {
      forall k | 0 <= k < |job.files| ensures Matches(job.h, s'.store, FileRequest(job, k)) {
        assert Matches(job.h, s.store, FileRequest(job, k));
      }
    }
  }

  lemma {:induction false} RunKeepsFilesFirst(job: Job, s: BackupState, schedule: seq<BackupEvent>)
    requires Staging(job) && !Shadowed(job) && Inv(job, s) && FilesFirst(job, s.store) && Legal(job, s, schedule)
    ensures FilesFirst(job, Run(job, s, schedule).store)
    decreases schedule
  {
    hide Inv, Staging, FilesFirst, Shadowed;
    if schedule != [] {
      StepKeepsFilesFirst(job, s, schedule[0]);
      StepKeeps(job, s, schedule[0]);
      RunKeepsFilesFirst(job, Apply(job, s, schedule[0]), schedule[1..]);
    }
  }

  lemma Prepend(job: Job, s: BackupState, e: BackupEvent, rest: seq<BackupEvent>)
    requires Enabled(job, s, e) && Legal(job, Apply(job, s, e), rest)
    ensures Legal(job, s, [e] + rest) && Run(job, s, [e] + rest) == Run(job, Apply(job, s, e), rest)
  {
    assert ([e] + rest)[1..] == rest;
  }
}
