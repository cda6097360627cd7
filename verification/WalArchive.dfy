/** Archiving one write-ahead-log file of the database and getting it back. */
module WalArchive {
  import opened Common
  import opened ObjectKeys
  import opened ObjectStore
  import opened Uploads
  import opened StoreClient

  datatype WalKind = WalSegment | TimelineHistory | BackupHistory | InvalidName

  predicate IsHex(c: char) {
    '0' <= c <= '9' || 'A' <= c <= 'F' || 'a' <= c <= 'f'
  }

  predicate AllHex(s: string) {
    forall i | 0 <= i < |s| :: IsHex(s[i])
  }

  function Classification(name: string): WalKind {
    if |name| == 16 && AllHex(name[..8]) && name[8..] == ".history" then TimelineHistory
    else if |name| == 40 && AllHex(name[..24]) && name[24] == '.' && AllHex(name[25..33]) && name[33..] == ".backup"
    then BackupHistory
    else if |name| == 24 && AllHex(name) then WalSegment
    else InvalidName
  }

  predicate ValidName(name: string) {
    Classification(name) != InvalidName
  }

  /** A valid file name is a safe component, so the key of a validated name always exists. */
  lemma ValidNameIsSafe(prefix: string, name: string)
    requires ValidName(name)
    ensures SafeKey(prefix, [name]) == Some(prefix + name)
  {
    forall i | 0 <= i < |name| ensures IsAlphanumeric(name[i]) || name[i] == '.' {
      match Classification(name)
      case TimelineHistory =>
        if i < 8 { assert IsHex(name[..8][i]); } else { assert name[i] == name[8..][i - 8]; }
      case BackupHistory =>
        if i < 24 { assert IsHex(name[..24][i]); }
        else if 25 <= i < 33 { assert IsHex(name[25..33][i - 25]); }
        else if 33 <= i { assert name[i] == name[33..][i - 33]; }
      case WalSegment => assert IsHex(name[i]);
    }
    FirstIsHex(name);
  }

  lemma FirstIsHex(name: string)
    requires ValidName(name)
    ensures IsHex(name[0])
  {
    match Classification(name)
    case TimelineHistory => assert IsHex(name[..8][0]);
    case BackupHistory => assert IsHex(name[..24][0]);
    case WalSegment =>
  }

  predicate HexText(s: string, n: nat) {
    && |s| == n
    && forall i | 0 <= i < n :: '0' <= s[i] <= '9' || 'A' <= s[i] <= 'F' || 'a' <= s[i] <= 'f'
  }

  /** Exactly three kinds of names are valid: a segment, a timeline history, a backup history. */
  lemma ValidNameIff(name: string) returns (a: string, b: string)
    ensures ValidName(name) ==>
              || HexText(name, 24)
              || (HexText(b, 8) && name == b + ".history")
              || (HexText(a, 24) && HexText(b, 8) && name == a + ("." + (b + ".backup")))
    ensures forall s | HexText(s, 24) :: ValidName(s)
    ensures forall t | HexText(t, 8) :: ValidName(t + ".history")
    ensures forall s, t | HexText(s, 24) && HexText(t, 8) :: ValidName(s + ("." + (t + ".backup")))
  {
    a, b := name, name;
    match Classification(name) {
      case TimelineHistory =>
        b := name[..8];
        assert name == name[..8] + name[8..];
      case BackupHistory =>
        a, b := name[..24], name[25..33];
        assert name == name[..24] + ([name[24]] + (name[25..33] + name[33..]));
      case _ =>
    }
    forall t | HexText(t, 8) ensures ValidName(t + ".history") {
      assert (t + ".history")[..8] == t && (t + ".history")[8..] == ".history";
    }
    forall s, t | HexText(s, 24) && HexText(t, 8) ensures ValidName(s + ("." + (t + ".backup"))) {
      BackupName(s, t);
    }
  }

  lemma BackupName(s: string, t: string)
    requires HexText(s, 24) && HexText(t, 8)
    ensures ValidName(s + ("." + (t + ".backup")))
  {
    var name := s + ("." + (t + ".backup"));
    assert name[..24] == s && name[24] == '.' && name[25..33] == t && name[33..] == ".backup";
  }

  // ---------------------------------------------------------------------------------------
  // Archiving
  // ---------------------------------------------------------------------------------------

  /** The local file: its own name, and its content if it is a regular file. */
  datatype Source = Source(name: string, content: Option<Bytes>)

  datatype ArchiveError = UnsupportedName | NamesDiffer | SourceMissing | UploadFailed

  function ValidateWalSource(source: Source, filename: string): Option<ArchiveError> {
    if !ValidName(filename) then Some(UnsupportedName)
    else if source.name != filename then Some(NamesDiffer)
    else if source.content.None? || source.content.value == [] then Some(SourceMissing)
    else None
  }

  /** The store after archiving a file, and what is reported. */
  function Archive(h: Hash, prefix: string, store: Store, source: Source, filename: string, net: Network)
    : (Store, Result<Outcome, ArchiveError>)
  {
    var fault := ValidateWalSource(source, filename);
    if fault.Some? then (store, Failure(fault.value))
    else
      var (end, outcome) := Complete(h, store, Request(prefix + filename, source.content.value), Begin, net);
      (end, if outcome.Failed? then Failure(UploadFailed) else Success(outcome))
  }

  /** While the lookups work, what is reported is decided by the names, the file, what is under the
      key and how the PUTs are answered; with no error a file that is new, or there already, is
      archived. */
  lemma ArchiveDecided(h: Hash, prefix: string, store: Store, source: Source, filename: string, net: Network)
    requires HeadsWork(net)
    ensures
      var r, key := Archive(h, prefix, store, source, filename, net).1, prefix + filename;
      && (r == Failure(UnsupportedName) <==> !ValidName(filename))
      && (r == Failure(NamesDiffer) <==> ValidName(filename) && source.name != filename)
      && (r == Failure(SourceMissing) <==>
            ValidName(filename) && source.name == filename && source.content in {None, Some([])})
      && (ValidName(filename) && source.name == filename && source.content !in {None, Some([])} ==>
            var outcome :=
              if key !in store then FreeKeyOutcome(net.putFails(ConditionalPut), net.putFails(PlainPut))
              else if Matches(h, store, Request(key, source.content.value)) then Idempotent
              else Failed;
            r == if outcome.Failed? then Failure(UploadFailed) else Success(outcome))
  {
    hide ValidName, Complete;
    if ValidateWalSource(source, filename).None? {
      UploadDecided(h, store, Request(prefix + filename, source.content.value), net);
    }
  }

  /** A refused file leaves the store alone; any other leaves every name but its own alone, and
      never replaces what is stored under its own name. */
  lemma ArchiveTouchesOneName(h: Hash, prefix: string, store: Store, source: Source, filename: string, net: Network,
                              other: string)
    requires ValidName(other)
    ensures
      var end, key := Archive(h, prefix, store, source, filename, net).0, prefix + other;
      && (ValidateWalSource(source, filename).Some? ==> end == store)
      && (key in store ==> key in end && end[key] == store[key])
      && (other != filename ==> (key in end ==> key in store))
  {
    ValidNameIsSafe(prefix, other);
    if ValidName(filename) {
      ValidNameIsSafe(prefix, filename);
      if prefix + other == prefix + filename {
        SafeKeyInjective(prefix, [other], [filename]);
        assert [other][0] == [filename][0];
      }
    }
    if ValidateWalSource(source, filename).None? {
      UploadOutcome(h, store, Request(prefix + filename, source.content.value), net);
    }
  }

  // ---------------------------------------------------------------------------------------
  // Restoring
  // ---------------------------------------------------------------------------------------

  datatype RestoreError = RestoreNameInvalid | NotRestored(error: DownloadError)

  /** What a restore gives when the lookup and the transfer meet these states of the store. */
  function Restore(h: Hash, prefix: string, atHead: Store, atGet: Store, filename: string): Result<Bytes, RestoreError>
  {
    if !ValidName(filename) then Failure(RestoreNameInvalid)
    else
      match DownloadVerified(h, atHead, atGet, prefix + filename)
      case Success(body) => Success(body)
      case Failure(error) => Failure(NotRestored(error))
  }

  /** Archive, then restore at any later time without deletes: the same bytes come back. */
  lemma {:induction false} ArchiveThenRestore(h: Hash, prefix: string, store: Store, source: Source, filename: string,
                                              net: Network, atHead: Store, atGet: Store)
    requires Archive(h, prefix, store, source, filename, net).1.Success?
    requires |h(source.content.value)| == 64
    requires Honest(h, store, prefix + filename)
    requires prefix + filename in store ==> NoCollision(h, store[prefix + filename].body, source.content.value)
    requires
      var end := Archive(h, prefix, store, source, filename, net).0;
      Keeps(end, atHead) && Keeps(end, atGet)
    ensures Restore(h, prefix, atHead, atGet, filename) == Success(source.content.value)
  {
    UploadThenDownload(h, store, Request(prefix + filename, source.content.value), net, atHead, atGet);
  }

  /** Archiving other files, any number of them and with any failures, in between changes nothing. */
  function ArchiveAll(h: Hash, prefix: string, store: Store, files: seq<(Source, string)>, net: Network): Store
    decreases |files|
  {
    if files == [] then store
    else ArchiveAll(h, prefix, Archive(h, prefix, store, files[0].0, files[0].1, net).0, files[1..], net)
  }

  lemma {:induction false} ArchivesKeep(h: Hash, prefix: string, store: Store, files: seq<(Source, string)>,
                                        net: Network)
    ensures Keeps(store, ArchiveAll(h, prefix, store, files, net))
    decreases |files|
  {
    if files != [] {
      var next := Archive(h, prefix, store, files[0].0, files[0].1, net).0;
      if ValidateWalSource(files[0].0, files[0].1).None? {
        UploadOutcome(h, store, Request(prefix + files[0].1, files[0].0.content.value), net);
      }
      assert Keeps(store, next);
      ArchivesKeep(h, prefix, next, files[1..], net);
    }
  }

  lemma {:induction false} ArchivedStaysRestorable(h: Hash, prefix: string, store: Store, source: Source,
                                                   filename: string, net: Network, later: seq<(Source, string)>)
    requires Archive(h, prefix, store, source, filename, net).1.Success?
    requires |h(source.content.value)| == 64
    requires Honest(h, store, prefix + filename)
    requires prefix + filename in store ==> NoCollision(h, store[prefix + filename].body, source.content.value)
    ensures
      var end := ArchiveAll(h, prefix, Archive(h, prefix, store, source, filename, net).0, later, net);
      Restore(h, prefix, end, end, filename) == Success(source.content.value)
  {
    var mid := Archive(h, prefix, store, source, filename, net).0;
    ArchivesKeep(h, prefix, mid, later, net);
    ArchiveThenRestore(h, prefix, store, source, filename, net,
                       ArchiveAll(h, prefix, mid, later, net), ArchiveAll(h, prefix, mid, later, net));
  }
}
