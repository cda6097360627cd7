/** Getting a base backup back: the manifest first, then every file it lists, each checked
    against the store's metadata and against the manifest. */
module BaseRetrieval {
  import opened Common
  import opened ObjectKeys
  import opened ObjectStore
  import opened Uploads
  import opened StoreClient
  import BaseBackup

  /** A file entry as it is read back; `size` is None when it is missing or not a number. */
  datatype RemoteRecord =
    | NotAnObject
    | RemoteRecord(filename: string, key: Option<string>, size: Option<int>, sha256: string)

  datatype RemoteManifest = RemoteManifest(baseId: Option<string>, files: seq<RemoteRecord>)

  type Decoder = Bytes -> Option<RemoteManifest>

  datatype RetrieveError =
    | BadIdentity | ManifestNotDownloaded(error: DownloadError) | Unreadable | IdentityMismatch | NoFiles
    | BadEntry | UnsafeFilename | BadIntegrityMetadata | FileNotDownloaded(error: DownloadError)
    | BadSize | NotAsListed

  datatype Retrieved = Retrieved(filename: string, body: Bytes)

  predicate Digits(s: string) {
    forall i | 0 <= i < |s| :: '0' <= s[i] <= '9'
  }

  predicate LowerHex(s: string) {
    forall i | 0 <= i < |s| :: '0' <= s[i] <= '9' || 'a' <= s[i] <= 'f'
  }

  predicate HexDigest(s: string) {
    |s| == 64 && LowerHex(s)
  }

  predicate ValidBaseId(s: string) {
    |s| == 25 && Digits(s[..8]) && s[8] == 'T' && Digits(s[9..15]) && s[15] == 'Z' && s[16] == '-' && LowerHex(s[17..])
  }

  predicate DigitText(s: string, n: nat) {
    |s| == n && forall i | 0 <= i < n :: '0' <= s[i] <= '9'
  }

  /** A base id is a date, `T`, a time, `Z-`, and eight lower-case hexadecimal digits. */
  lemma BaseIdIff(s: string) returns (date: string, time: string, tail: string)
    ensures ValidBaseId(s) ==>
              DigitText(date, 8) && DigitText(time, 6) && |tail| == 8 && LowerHex(tail)
              && s == date + ("T" + (time + ("Z-" + tail)))
    ensures forall d, t, x | DigitText(d, 8) && DigitText(t, 6) && |x| == 8 && LowerHex(x) ::
              ValidBaseId(d + ("T" + (t + ("Z-" + x))))
  {
    date, time, tail := "", "", "";
    if ValidBaseId(s) {
      date, time, tail := s[..8], s[9..15], s[17..];
      assert s == s[..8] + ([s[8]] + (s[9..15] + ([s[15], s[16]] + s[17..])));
    }
    forall d, t, x | DigitText(d, 8) && DigitText(t, 6) && |x| == 8 && LowerHex(x)
      ensures ValidBaseId(d + ("T" + (t + ("Z-" + x))))
    {
      var id := d + ("T" + (t + ("Z-" + x)));
      assert id[..8] == d && id[8] == 'T' && id[9..15] == t && id[15] == 'Z' && id[16] == '-' && id[17..] == x;
    }
  }

  lemma BaseIdIsSafe(s: string)
    requires ValidBaseId(s)
    ensures SafeComponent(s)
  {
    forall i | 0 <= i < |s| ensures IsAlphanumeric(s[i]) || s[i] == '-' {
      if i < 8 { assert s[i] == s[..8][i]; }
      else if 9 <= i < 15 { assert s[i] == s[9..15][i - 9]; }
      else if 17 <= i { assert s[i] == s[17..][i - 17]; }
    }
    assert s[0] == s[..8][0];
  }

  function FileKey(prefix: string, baseId: string, name: string): string {
    prefix + (baseId + "/" + name)
  }

  /** What is asked of an entry before anything is downloaded for it. */
  function EntryFault(prefix: string, baseId: string, r: RemoteRecord): Option<RetrieveError> {
    if r.NotAnObject? then Some(BadEntry)
    else if !SafeComponent(r.filename) then Some(UnsafeFilename)
    else if r.key != Some(FileKey(prefix, baseId, r.filename)) || !HexDigest(r.sha256) then Some(BadIntegrityMetadata)
    else None
  }

  /** One file: the n-th download reads the metadata and the bytes from two states of the store. */
  function RetrieveFile(h: Hash, at: nat -> Store, n: nat, prefix: string, baseId: string, r: RemoteRecord)
    : Result<Retrieved, RetrieveError>
  {
    var fault := EntryFault(prefix, baseId, r);
    if fault.Some? then Failure(fault.value)
    else
      var got := DownloadVerified(h, at(2 * n), at(2 * n + 1), FileKey(prefix, baseId, r.filename));
      if got.Failure? then Failure(FileNotDownloaded(got.error))
      else if r.size.None? then Failure(BadSize)
      else if |got.value| != r.size.value || h(got.value) != r.sha256 then Failure(NotAsListed)
      else Success(Retrieved(r.filename, got.value))
  }

  /**
   A listed file passes exactly if its name is plain, its key is its own, its digest is 64 lower-case
   hexadecimal digits, and the object that is looked up and the bytes that are then read agree with
   each other and with the entry; and what comes out are those bytes under that name.
   */
  lemma FilePassesIff(h: Hash, at: nat -> Store, n: nat, prefix: string, baseId: string, r: RemoteRecord)
    ensures
      var got := RetrieveFile(h, at, n, prefix, baseId, r);
      && (got.Success? <==>
            && r.RemoteRecord? && BaseBackup.PlainName(r.filename)
            && r.key == Some(prefix + (baseId + "/" + r.filename))
            && |r.sha256| == 64 && (forall k | 0 <= k < 64 :: r.sha256[k] in "0123456789abcdef")
            && var before, after := at(2 * n), at(2 * n + 1);
               && r.key.value in before && r.key.value in after && before[r.key.value].sha256 == Some(r.sha256)
               && r.size == Some(|after[r.key.value].body|)
               && |before[r.key.value].body| == |after[r.key.value].body| && h(after[r.key.value].body) == r.sha256)
      && (got.Success? ==> got.value == Retrieved(r.filename, at(2 * n + 1)[r.key.value].body))
  {
    if r.RemoteRecord? {
      BaseBackup.PlainNameIff(r.filename);
      HexDigestIff(r.sha256);
    }
    hide SafeComponent, HexDigest, BaseBackup.PlainName;
  }

  lemma HexDigestIff(s: string)
    ensures HexDigest(s) <==> |s| == 64 && forall k | 0 <= k < 64 :: s[k] in "0123456789abcdef"
  {
  }

  function RetrieveFrom(h: Hash, at: nat -> Store, prefix: string, baseId: string, files: seq<RemoteRecord>, k: nat,
                        downloaded: seq<Retrieved>): Result<seq<Retrieved>, RetrieveError>
    requires k <= |files|
    decreases |files| - k
  {
    if k == |files| then Success(downloaded)
    else
      var got := RetrieveFile(h, at, k + 1, prefix, baseId, files[k]);
      if got.Failure? then Failure(got.error)
      else RetrieveFrom(h, at, prefix, baseId, files, k + 1, downloaded + [got.value])
  }

  function Retrieve(h: Hash, decode: Decoder, at: nat -> Store, prefix: string, baseId: string)
    : Result<seq<Retrieved>, RetrieveError>
  {
    if !ValidBaseId(baseId) then Failure(BadIdentity)
    else
      var got := DownloadVerified(h, at(0), at(1), FileKey(prefix, baseId, BaseBackup.MANIFEST_NAME));
      if got.Failure? then Failure(ManifestNotDownloaded(got.error))
      else if decode(got.value).None? then Failure(Unreadable)
      else
        var manifest := decode(got.value).value;
        if manifest.baseId != Some(baseId) then Failure(IdentityMismatch)
        else if manifest.files == [] then Failure(NoFiles)
        else RetrieveFrom(h, at, prefix, baseId, manifest.files, 0, [])
  }

  // ---------------------------------------------------------------------------------------
  // What an accepted retrieval vouches for
  // ---------------------------------------------------------------------------------------

  /** Entry k of the manifest stands for exactly these bytes. */
  ghost predicate Vouches(h: Hash, at: nat -> Store, prefix: string, baseId: string, files: seq<RemoteRecord>,
                          k: nat, got: Retrieved)
    requires k < |files|
  {
    && files[k].RemoteRecord? && files[k].filename == got.filename && files[k].size == Some(|got.body|)
    && files[k].sha256 == h(got.body) && files[k].key == Some(FileKey(prefix, baseId, got.filename))
    && files[k].key.value in at(2 * k + 3) && at(2 * k + 3)[files[k].key.value].body == got.body
  }

  lemma {:induction false} RetrieveFromIff(h: Hash, at: nat -> Store, prefix: string, baseId: string,
                                           files: seq<RemoteRecord>, k: nat, downloaded: seq<Retrieved>)
    requires k == |downloaded| <= |files|
    requires forall i | 0 <= i < k :: Vouches(h, at, prefix, baseId, files, i, downloaded[i])
    ensures
      var r := RetrieveFrom(h, at, prefix, baseId, files, k, downloaded);
      && (r.Success? <==> forall i | k <= i < |files| :: RetrieveFile(h, at, i + 1, prefix, baseId, files[i]).Success?)
      && (r.Success? ==> |r.value| == |files| && downloaded <= r.value
                         && forall i | 0 <= i < |files| :: Vouches(h, at, prefix, baseId, files, i, r.value[i]))
    decreases |files| - k
  {
    if k < |files| {
      var got := RetrieveFile(h, at, k + 1, prefix, baseId, files[k]);
      if got.Success? {
        assert Vouches(h, at, prefix, baseId, files, k, got.value);
        RetrieveFromIff(h, at, prefix, baseId, files, k + 1, downloaded + [got.value]);
      }
    }
  }

  /** A retrieval passes exactly when the manifest passes and each of its files does; what it
      returns are the stored bytes, in manifest order, with the listed names, sizes and digests. */
  lemma RetrievePassesIff(h: Hash, decode: Decoder, at: nat -> Store, prefix: string, baseId: string,
                          manifest: RemoteManifest)
    requires ValidBaseId(baseId)
    requires DownloadVerified(h, at(0), at(1), FileKey(prefix, baseId, BaseBackup.MANIFEST_NAME)).Success?
    requires
      var body := DownloadVerified(h, at(0), at(1), FileKey(prefix, baseId, BaseBackup.MANIFEST_NAME)).value;
      decode(body) == Some(manifest)
    ensures
      var r, files := Retrieve(h, decode, at, prefix, baseId), manifest.files;
      && (r.Success? <==> manifest.baseId == Some(baseId) && files != []
                          && forall i | 0 <= i < |files| ::
                               RetrieveFile(h, at, i + 1, prefix, baseId, files[i]).Success?)
      && (r.Success? ==> |r.value| == |files|
                         && forall i | 0 <= i < |files| :: Vouches(h, at, prefix, baseId, files, i, r.value[i]))
  {
    RetrieveFromIff(h, at, prefix, baseId, manifest.files, 0, []);
  }

  // ---------------------------------------------------------------------------------------
  // A published backup comes back
  // ---------------------------------------------------------------------------------------

  function AsRemote(r: BaseBackup.Record): RemoteRecord {
    RemoteRecord(r.filename, Some(r.key), Some(r.size), r.sha256)
  }

  function AsRemoteAll(records: seq<BaseBackup.Record>): seq<RemoteRecord> {
    seq(|records|, i requires 0 <= i < |records| => AsRemote(records[i]))
  }

  /** Reading a written manifest gives its identity and its entries back. */
  ghost predicate RoundTrips(job: BaseBackup.Job, decode: Decoder) {
    forall m: BaseBackup.Manifest :: decode(job.encode(m))
      == Some(RemoteManifest(Some(m.baseId), AsRemoteAll(m.files)))
  }

  /** The digest is one that tells the staged bytes from whatever else lies under their key. */
  ghost predicate Sound(job: BaseBackup.Job, store: Store) {
    forall k | 0 <= k < |job.files| ::
      && SafeComponent(job.files[k].name) && HexDigest(job.h(job.files[k].body))
      && var key := BaseBackup.FileRequest(job, k).key;
         Honest(job.h, store, key) && (key in store ==> NoCollision(job.h, store[key].body, job.files[k].body))
  }

  lemma FileComesBack(job: BaseBackup.Job, store: Store, at: nat -> Store, k: nat, status: Outcome)
    requires k < |job.files| && Sound(job, store)
    requires Matches(job.h, store, BaseBackup.FileRequest(job, k))
    requires forall n :: Keeps(store, at(n))
    ensures RetrieveFile(job.h, at, k + 1, job.prefix, job.baseId, AsRemote(BaseBackup.RecordOf(job, k, status)))
         == Success(Retrieved(job.files[k].name, job.files[k].body))
  {
    var key := BaseBackup.FileRequest(job, k).key;
    assert Keeps(store, at(2 * (k + 1))) && Keeps(store, at(2 * (k + 1) + 1));
    assert at(2 * (k + 1))[key] == store[key] == at(2 * (k + 1) + 1)[key];
  }

  lemma {:induction false} FilesComeBack(job: BaseBackup.Job, store: Store, at: nat -> Store, files: seq<RemoteRecord>,
                                         records: seq<BaseBackup.Record>, k: nat, downloaded: seq<Retrieved>)
    requires k == |downloaded| <= |job.files| == |records| == |files|
    requires BaseBackup.Describes(job, records) && BaseBackup.Stored(job, store, |job.files|) && Sound(job, store)
    requires forall i | 0 <= i < |files| :: files[i] == AsRemote(records[i])
    requires forall n :: Keeps(store, at(n))
    requires forall i | 0 <= i < k :: downloaded[i] == Retrieved(job.files[i].name, job.files[i].body)
    ensures
      var r := RetrieveFrom(job.h, at, job.prefix, job.baseId, files, k, downloaded);
      && r.Success? && |r.value| == |job.files|
      && forall i | 0 <= i < |job.files| :: r.value[i] == Retrieved(job.files[i].name, job.files[i].body)
    decreases |files| - k
  {
    if k < |files| {
      hide RetrieveFile, Sound, AsRemote, BaseBackup.RecordOf, Matches;
      assert records[k] == BaseBackup.RecordOf(job, k, records[k].status);
      FileComesBack(job, store, at, k, records[k].status);
      var next := Retrieved(job.files[k].name, job.files[k].body);
      FilesComeBack(job, store, at, files, records, k + 1, downloaded + [next]);
    }
  }

  /** A retrieval that meets the manifest of stored files gives them back. */
  lemma StoredComesBack(job: BaseBackup.Job, decode: Decoder, store: Store, records: seq<BaseBackup.Record>,
                        at: nat -> Store)
    requires job.files != [] && ValidBaseId(job.baseId) && RoundTrips(job, decode) && Sound(job, store)
    requires |records| == |job.files| && BaseBackup.Describes(job, records)
    requires BaseBackup.Stored(job, store, |job.files|)
    requires BaseBackup.ManifestIs(job, store, records) && |job.h(store[BaseBackup.ManifestKey(job)].body)| == 64
    requires forall n :: Keeps(store, at(n))
    ensures GivesBack(job, decode, at)
  {
    var key := BaseBackup.ManifestKey(job);
    assert Keeps(store, at(0)) && Keeps(store, at(1));
    var files := AsRemoteAll(records);
    assert decode(store[key].body) == Some(RemoteManifest(Some(job.baseId), files)) by {
      var m := BaseBackup.Manifest(job.baseId, records);
      assert store[key].body == job.encode(m);
    }
    FilesComeBack(job, store, at, files, records, 0, []);
  }

  /** The retrieval passes and returns every staged file, byte for byte. */
  ghost predicate GivesBack(job: BaseBackup.Job, decode: Decoder, at: nat -> Store) {
    var r := Retrieve(job.h, decode, at, job.prefix, job.baseId);
    && r.Success? && |r.value| == |job.files|
    && forall i | 0 <= i < |job.files| :: r.value[i] == Retrieved(job.files[i].name, job.files[i].body)
  }

  /**
   Whatever happened during the backup, crashes included: once its manifest is there, a
   retrieval passes and gives every staged file back byte for byte, however the store grows
   meanwhile. No staged file bears the manifest's name.
   */
  lemma BackupThenRetrieve(job: BaseBackup.Job, decode: Decoder, store: Store, schedule: seq<BaseBackup.BackupEvent>,
                           at: nat -> Store)
    requires BaseBackup.Staging(job) && !BaseBackup.Named(job) && ValidBaseId(job.baseId)
    requires BaseBackup.ManifestKey(job) !in store && BaseBackup.Legal(job, BaseBackup.Start(store), schedule)
    requires RoundTrips(job, decode)
    requires
      var end := BaseBackup.Run(job, BaseBackup.Start(store), schedule).store;
      && BaseBackup.ManifestKey(job) in end && Sound(job, end) && (forall n :: Keeps(end, at(n)))
      && |job.h(end[BaseBackup.ManifestKey(job)].body)| == 64
    ensures GivesBack(job, decode, at)
  {
    var records := BaseBackup.ManifestIsLast(job, store, schedule);
    StoredComesBack(job, decode, BaseBackup.Run(job, BaseBackup.Start(store), schedule).store, records, at);
  }

  /** The same for every backup that finished, whatever its files are called and whatever was in
      the store before, if the digest tells the manifest from what may lie in its place. */
  lemma FinishedBackupComesBack(job: BaseBackup.Job, decode: Decoder, store: Store,
                                schedule: seq<BaseBackup.BackupEvent>, at: nat -> Store)
    requires BaseBackup.Staging(job) && ValidBaseId(job.baseId) && RoundTrips(job, decode)
    requires BaseBackup.Legal(job, BaseBackup.Start(store), schedule)
    requires BaseBackup.Run(job, BaseBackup.Start(store), schedule).phase.Finished?
    requires
      var end := BaseBackup.Run(job, BaseBackup.Start(store), schedule);
      var r := BaseBackup.ManifestRequest(job, end.phase.uploaded);
      && Sound(job, end.store) && (forall n :: Keeps(end.store, at(n)))
      && Honest(job.h, end.store, r.key) && |job.h(r.body)| == 64
      && (r.key in end.store ==> NoCollision(job.h, end.store[r.key].body, r.body))
    ensures GivesBack(job, decode, at)
  {
    BaseBackup.RunKeeps(job, BaseBackup.Start(store), schedule);
    var end := BaseBackup.Run(job, BaseBackup.Start(store), schedule);
    StoredComesBack(job, decode, end.store, end.phase.uploaded, at);
  }

  /**
   From directory to directory: when the backup of a directory has finished, a retrieval passes
   and returns every regular file of the directory, and nothing else, byte for byte and in order.
   */
  lemma DirectoryComesBack(job: BaseBackup.Job, decode: Decoder, store: Store, entries: seq<BaseBackup.Entry>,
                           schedule: seq<BaseBackup.BackupEvent>, at: nat -> Store) returns (picked: seq<nat>)
    requires BaseBackup.Directory(entries) && BaseBackup.RecoveryFiles(entries) == Success(job.files)
    requires ValidBaseId(job.baseId) && RoundTrips(job, decode)
    requires BaseBackup.Legal(job, BaseBackup.Start(store), schedule)
    requires BaseBackup.Run(job, BaseBackup.Start(store), schedule).phase.Finished?
    requires
      var end := BaseBackup.Run(job, BaseBackup.Start(store), schedule);
      var r := BaseBackup.ManifestRequest(job, end.phase.uploaded);
      && Sound(job, end.store) && (forall n :: Keeps(end.store, at(n)))
      && Honest(job.h, end.store, r.key) && |job.h(r.body)| == 64
      && (r.key in end.store ==> NoCollision(job.h, end.store[r.key].body, r.body))
    ensures
      var r := Retrieve(job.h, decode, at, job.prefix, job.baseId);
      && r.Success? && |r.value| == |picked| && BaseBackup.Rising(picked)
      && (forall i | 0 <= i < |entries| && entries[i].isFile :: i in picked)
      && forall k | 0 <= k < |picked| ::
           && picked[k] < |entries| && entries[picked[k]].isFile
           && r.value[k] == Retrieved(entries[picked[k]].name, entries[picked[k]].body)
  {
    hide BaseBackup.RecoveryFiles, RoundTrips, Sound, BaseBackup.Legal, BaseBackup.Run, Retrieve;
    picked := BaseBackup.RecoveryFilesAre(entries);
    BaseBackup.DirectoryIsStaging(job, entries);
    FinishedBackupComesBack(job, decode, store, schedule, at);
  }

  // ---------------------------------------------------------------------------------------
  // The tool
  // ---------------------------------------------------------------------------------------

  /** The destination after the downloads, in order; a name listed twice keeps the later file. */
  function Written(start: map<string, Bytes>, files: seq<Retrieved>): map<string, Bytes> {
    if files == [] then start
    else
      var last := files[|files| - 1];
      Written(start, files[..|files| - 1])[last.filename := last.body]
  }

  lemma {:induction false} WrittenHolds(start: map<string, Bytes>, files: seq<Retrieved>, k: nat)
    requires k < |files| && forall j | k < j < |files| :: files[j].filename != files[k].filename
    ensures files[k].filename in Written(start, files) && Written(start, files)[files[k].filename] == files[k].body
    decreases |files|
  {
    if k < |files| - 1 {
      WrittenHolds(start, files[..|files| - 1], k);
    }
  }

  class Retriever {
    const h: Hash
    const decode: Decoder
    const at: nat -> Store
    var destination: map<string, Bytes>

    constructor (h: Hash, decode: Decoder, at: nat -> Store, destination: map<string, Bytes>)
      ensures this.h == h && this.decode == decode && this.at == at && this.destination == destination
    {
      this.h, this.decode, this.at, this.destination := h, decode, at, destination;
    }

    /** The bytes are written before they are checked. */
    method Download(n: nat, key: string, name: string) returns (r: Result<Bytes, DownloadError>)
      modifies this
      ensures r == DownloadVerified(h, at(2 * n), at(2 * n + 1), key)
      ensures r.Success? ==> destination == old(destination)[name := r.value]
      ensures forall other | other != name :: other in destination <==> other in old(destination)
      ensures forall other | other != name && other in destination :: destination[other] == old(destination)[other]
    {
      var head, get := at(2 * n), at(2 * n + 1);
      if key !in head {
        return Failure(Missing);
      }
      var expected := head[key].sha256;
      if expected.None? || |expected.value| != 64 {
        return Failure(NoChecksum);
      }
      if key !in get {
        return Failure(Unavailable);
      }
      destination := destination[name := get[key].body];
      if |get[key].body| != |head[key].body| {
        return Failure(SizeMismatch);
      }
      if h(get[key].body) != expected.value {
        return Failure(ChecksumMismatch);
      }
      return Success(get[key].body);
    }

    method RetrieveBase(prefix: string, baseId: string) returns (r: Result<seq<Retrieved>, RetrieveError>)
      modifies this
      ensures r == Retrieve(h, decode, at, prefix, baseId)
      ensures r.Success? ==>
                var key := FileKey(prefix, baseId, BaseBackup.MANIFEST_NAME);
                var manifest := DownloadVerified(h, at(0), at(1), key).value;
                destination == Written(old(destination)[BaseBackup.MANIFEST_NAME := manifest], r.value)
      ensures !ValidBaseId(baseId) ==> destination == old(destination)
    {
      if !ValidBaseId(baseId) {
        return Failure(BadIdentity);
      }
      var got := Download(0, FileKey(prefix, baseId, BaseBackup.MANIFEST_NAME), BaseBackup.MANIFEST_NAME);
      if got.Failure? {
        return Failure(ManifestNotDownloaded(got.error));
      }
      if decode(got.value).None? {
        return Failure(Unreadable);
      }
      var manifest := decode(got.value).value;
      if manifest.baseId != Some(baseId) {
        return Failure(IdentityMismatch);
      }
      if manifest.files == [] {
        return Failure(NoFiles);
      }
      r := RetrieveListed(prefix, baseId, manifest.files);
    }

    method RetrieveListed(prefix: string, baseId: string, files: seq<RemoteRecord>)
      returns (r: Result<seq<Retrieved>, RetrieveError>)
      modifies this
      ensures r == RetrieveFrom(h, at, prefix, baseId, files, 0, [])
      ensures r.Success? ==> destination == Written(old(destination), r.value)
    {
      var downloaded: seq<Retrieved> := [];
      for k := 0 to |files|
        invariant |downloaded| == k
        invariant RetrieveFrom(h, at, prefix, baseId, files, 0, [])
               == RetrieveFrom(h, at, prefix, baseId, files, k, downloaded)
        invariant destination == Written(old(destination), downloaded)
      {
        var record := files[k];
        var fault := EntryFault(prefix, baseId, record);
        if fault.Some? {
          return Failure(fault.value);
        }
        var got := Download(k + 1, FileKey(prefix, baseId, record.filename), record.filename);
        if got.Failure? {
          return Failure(FileNotDownloaded(got.error));
        }
        if record.size.None? {
          return Failure(BadSize);
        }
        if |got.value| != record.size.value || h(got.value) != record.sha256 {
          return Failure(NotAsListed);
        }
        var file := Retrieved(record.filename, got.value);
        assert (downloaded + [file])[..k] == downloaded;
        downloaded := downloaded + [file];
      }
      return Success(downloaded);
    }
  }
}
