/** A restore as it is observed: what each storage call answered, and the outcome reported to
    the database server. */
module WalRestore {
  import opened Common
  import opened ObjectStore
  import opened StoreClient
  import opened WalArchive

  /** An error answer to a HEAD: the error code and the HTTP status, each if there is one. */
  datatype StorageError = StorageError(code: Option<string>, status: Option<nat>)

  datatype HeadAnswer = Present(meta: Object) | Refused(error: StorageError)

  /** How far things get before the first storage call. */
  datatype Setup = Configured | NoConfiguration | NoClient | Unforeseen

  datatype Local = Works | NoDirectory | NoStat | NoRead

  /** What the world answers during one restore; `got` is None when the transfer fails. */
  datatype Episode = Episode(setup: Setup, head: HeadAnswer, local: Local, got: Option<Bytes>)

  const NOT_FOUND_CODES := {"404", "NoSuchKey", "NotFound"}

  /** How the storage helper decides that an object is missing: by the code, or by the status if
      there is no code. */
  predicate MissingToHelper(e: StorageError) {
    if e.code.Some? then e.code.value in NOT_FOUND_CODES else e.status == Some(404)
  }

  /** How the observer decides it. */
  predicate MissingToObserver(e: StorageError) {
    (e.code.Some? && e.code.value in NOT_FOUND_CODES) || e.status == Some(404)
  }

  datatype LookupResult = LookupNotAttempted | Found | NotFound | LookupFailed

  datatype DownloadResult = DownloadNotAttempted | DownloadPassed | DownloadBroke

  datatype IntegrityResult = NotChecked | IntegrityPassed | VerifyFailed

  datatype DestinationResult = DestinationNotAttempted | WrittenUnverified | DestinationPassed | TransferFailed
                             | WriteFailed | ReadFailed

  datatype Stage = NoStage | RequestValidation | StorageConfiguration | StorageClient | LookupStage | DownloadStage
                 | DestinationWrite | DestinationRead | IntegrityStage | Internal

  datatype Report = ReportPass | ReportInvalid | ReportConfigFailed | ReportNotFound | ReportDownloadFailed
                  | ReportVerifyFailed | ReportInternalFailed

  /** The errors a restore can end in, as far as the report can tell them apart. */
  datatype Fault = ConfigFault | OsFault | StorageFault(localRead: bool) | OtherFault

  /** What truly happened, decided by the answers alone. */
  datatype Truth = Restored(body: Bytes) | NameRefused | NotConfigured | NoClientMade | Surprise | NotThere
                 | LookupBroke | BadMetadata | NoPlaceForIt | TransferBroke | Unreadable | Corrupt

  function TruthOf(h: Hash, filename: string, e: Episode): Truth {
    if !ValidName(filename) then NameRefused
    else if e.setup == NoConfiguration then NotConfigured
    else if e.setup == NoClient then NoClientMade
    else if e.setup == Unforeseen then Surprise
    else if e.head.Refused? then if MissingToHelper(e.head.error) then NotThere else LookupBroke
    else if e.head.meta.sha256.None? || |e.head.meta.sha256.value| != 64 then BadMetadata
    else if e.local == NoDirectory then NoPlaceForIt
    else if e.got.None? then TransferBroke
    else if e.local != Works then Unreadable
    else if |e.got.value| != |e.head.meta.body| || h(e.got.value) != e.head.meta.sha256.value then Corrupt
    else Restored(e.got.value)
  }

  /** When nothing else fails, what happened is what the store holds: the file comes back exactly
      when the restore from the store gives it, and it is not there exactly when no object is. */
  lemma ObservedIsRestore(h: Hash, prefix: string, atHead: Store, atGet: Store, filename: string, e: Episode)
    requires e.setup == Configured && e.local == Works
    requires prefix + filename in atHead ==> e.head == Present(atHead[prefix + filename])
    requires prefix + filename !in atHead ==> e.head.Refused? && MissingToHelper(e.head.error)
    requires e.got == if prefix + filename in atGet then Some(atGet[prefix + filename].body) else None
    ensures Restore(h, prefix, atHead, atGet, filename).Success? <==> TruthOf(h, filename, e).Restored?
    ensures TruthOf(h, filename, e).Restored? ==>
              Restore(h, prefix, atHead, atGet, filename) == Success(TruthOf(h, filename, e).body)
    ensures TruthOf(h, filename, e).NotThere? <==> ValidName(filename) && prefix + filename !in atHead
  {
  }

  class Observation {
    const filename: string
    var lookup: LookupResult
    var download: DownloadResult
    var integrity: IntegrityResult
    var destination: DestinationResult
    var report: Option<Report>
    var stage: Stage

    constructor (filename: string)
      ensures this.filename == filename && Untouched()
    {
      this.filename := filename;
      lookup, download, integrity := LookupNotAttempted, DownloadNotAttempted, NotChecked;
      destination, report, stage := DestinationNotAttempted, None, NoStage;
    }

    predicate Untouched()
      reads this
    {
      && lookup == LookupNotAttempted && download == DownloadNotAttempted && integrity == NotChecked
      && destination == DestinationNotAttempted && report == None && stage == NoStage
    }

    method ObservedHead(answer: HeadAnswer)
      modifies this`lookup
      ensures lookup == if answer.Present? then Found
                        else if MissingToObserver(answer.error) then NotFound else LookupFailed
    {
      lookup := if answer.Present? then Found else if MissingToObserver(answer.error) then NotFound else LookupFailed;
    }

    method ObservedDownload(got: Option<Bytes>)
      modifies this`download, this`destination
      ensures (download, destination)
           == if got.Some? then (DownloadPassed, WrittenUnverified) else (DownloadBroke, TransferFailed)
    {
      if got.Some? {
        download, destination := DownloadPassed, WrittenUnverified;
      } else {
        download, destination := DownloadBroke, TransferFailed;
      }
    }

    /** The verified download through the observed calls. */
    method RestoreWal(h: Hash, e: Episode) returns (r: Result<Bytes, Fault>)
      requires Untouched()
      modifies this`lookup, this`download, this`destination
      ensures r.Success? <==> TruthOf(h, filename, e).Restored?
      ensures r.Success? ==> r.value == TruthOf(h, filename, e).body
      ensures r == Failure(ConfigFault) <==> TruthOf(h, filename, e) in {NameRefused, NotConfigured}
      ensures r == Failure(OtherFault) <==> TruthOf(h, filename, e) == Surprise
      ensures r == Failure(OsFault) <==> TruthOf(h, filename, e) == NoPlaceForIt
      ensures r == Failure(StorageFault(true)) <==> TruthOf(h, filename, e) == Unreadable
      ensures lookup == LookupNotAttempted <==>
                TruthOf(h, filename, e) in {NameRefused, NotConfigured, NoClientMade, Surprise}
      ensures lookup != LookupNotAttempted ==>
                && (lookup == Found <==> e.head.Present?)
                && (lookup == NotFound <==> e.head.Refused? && MissingToObserver(e.head.error))
      ensures var t := TruthOf(h, filename, e);
              download == if t.Restored? || t.Unreadable? || t.Corrupt? then DownloadPassed
                          else if t.TransferBroke? then DownloadBroke else DownloadNotAttempted
    {
      if !ValidName(filename) || e.setup == NoConfiguration {
        return Failure(ConfigFault);
      }
      if e.setup == NoClient {
        return Failure(StorageFault(false));
      }
      if e.setup == Unforeseen {
        return Failure(OtherFault);
      }
      ObservedHead(e.head);
      if e.head.Refused? {
        return Failure(StorageFault(false));
      }
      var expected := e.head.meta.sha256;
      if expected.None? || |expected.value| != 64 {
        return Failure(StorageFault(false));
      }
      if e.local == NoDirectory {
        return Failure(OsFault);
      }
      ObservedDownload(e.got);
      if e.got.None? {
        return Failure(StorageFault(false));
      }
      if e.local != Works {
        return Failure(StorageFault(true));
      }
      var digest := h(e.got.value);
      if |e.got.value| != |e.head.meta.body| || digest != expected.value {
        return Failure(StorageFault(false));
      }
      return Success(e.got.value);
    }

    /**
     One whole run, with the report read off the observed fields. It is right about what
     happened, except that a lookup which broke is reported as an absent object when the error
     has the status 404 and a code that says something else.
     */
    method Serve(h: Hash, e: Episode) returns (exit: int)
      requires Untouched()
      modifies this
      ensures exit == 0 <==> TruthOf(h, filename, e).Restored?
      ensures report.Some?
      ensures report == Some(ReportPass) <==> TruthOf(h, filename, e).Restored?
      ensures report == Some(ReportNotFound) <==>
                || TruthOf(h, filename, e) == NotThere
                || (&& TruthOf(h, filename, e) == LookupBroke
                    && e.head.error.status == Some(404)
                    && e.head.error.code.Some? && e.head.error.code.value !in {"404", "NoSuchKey", "NotFound"})
      ensures report == Some(ReportVerifyFailed) <==> TruthOf(h, filename, e) in {BadMetadata, Corrupt}
      ensures report == Some(ReportInvalid) <==> TruthOf(h, filename, e) == NameRefused
      ensures report == Some(ReportConfigFailed) <==> TruthOf(h, filename, e) == NotConfigured
      ensures report == Some(ReportInternalFailed) <==> TruthOf(h, filename, e) == Surprise
      ensures report == Some(ReportDownloadFailed) ==>
                && (stage == LookupStage <==> TruthOf(h, filename, e) == LookupBroke)
                && (stage == DownloadStage <==> TruthOf(h, filename, e) == TransferBroke)
                && (stage == DestinationWrite <==> TruthOf(h, filename, e) == NoPlaceForIt)
                && (stage == DestinationRead <==> TruthOf(h, filename, e) == Unreadable)
                && (stage == StorageClient <==> TruthOf(h, filename, e) == NoClientMade)
      ensures integrity == IntegrityPassed <==> TruthOf(h, filename, e).Restored?
    {
      var r := RestoreWal(h, e);
      if r.Success? {
        integrity, destination := IntegrityPassed, DestinationPassed;
        report, stage := Some(ReportPass), NoStage;
        return 0;
      }
      match r.error {
        case ConfigFault =>
          if Classification(filename) == InvalidName {
            report, stage := Some(ReportInvalid), RequestValidation;
          } else {
            report, stage := Some(ReportConfigFailed), StorageConfiguration;
          }
        case OsFault =>
          destination, report, stage := WriteFailed, Some(ReportDownloadFailed), DestinationWrite;
        case OtherFault =>
          report, stage := Some(ReportInternalFailed), Internal;
        case StorageFault(localRead) =>
          if lookup == NotFound {
            report, stage := Some(ReportNotFound), LookupStage;
          } else if lookup == LookupFailed {
            report, stage := Some(ReportDownloadFailed), LookupStage;
          } else if download == DownloadBroke {
            report, stage := Some(ReportDownloadFailed), DownloadStage;
          } else if download == DownloadPassed && localRead {
            destination, report, stage := ReadFailed, Some(ReportDownloadFailed), DestinationRead;
          } else if download == DownloadPassed || lookup == Found {
            integrity, report, stage := VerifyFailed, Some(ReportVerifyFailed), IntegrityStage;
          } else {
            report, stage := Some(ReportDownloadFailed), StorageClient;
          }
      }
      return 1;
    }
  }

  /** A run against a bucket that does not exist: the lookup breaks, and the server is told that
      the file is not there. */
  method MissingBucketLooksAbsent(h: Hash, filename: string) returns (e: Episode, report: Option<Report>)
    requires ValidName(filename)
    ensures TruthOf(h, filename, e) == LookupBroke && report == Some(ReportNotFound)
  {
    e := Episode(Configured, Refused(StorageError(Some("NoSuchBucket"), Some(404))), Works, None);
    assert "NoSuchBucket" != "NoSuchKey" && "NoSuchBucket" != "404" && "NoSuchBucket" != "NotFound";
    var observation := new Observation(filename);
    var _ := observation.Serve(h, e);
    report := observation.report;
  }
}
