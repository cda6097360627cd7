# Verified model of the operations tooling

This project models the parts of the repository that move data between states in which a crash, a
second process or a half-done write could leave something wrong, and proves what those parts
promise. All claims hold for every input, every run or every interleaving, unless a row below says
otherwise.

* **Schema migrations** (`Migrations`, `MigrationRuns`, `MigrationRunner`). A database is a ledger
  and the list of statements committed to its schema, so every claim about the schema holds under
  every meaning of the SQL text. `MigrationRuns` interleaves any number of runs call by call, with
  failures and kills at every call; `Migrations` is the one-shot run they refine to, which an
  undisturbed run of the machine is (`MigrationAlone`); and `MigrationRunner` is the code in its own
  form, a connection whose fields a run updates.
* **Dotenv editing** (the `Env` modules). Parser and editor as specified functions over text
  (`EnvText`), what is an assignment character by character (`EnvShapes`), the laws that connect
  them, for every text (`EnvLaws`, `EnvCommute`), and the index and line loops proved against
  those functions (`EnvFile`).
* **Recovery objects** (`ObjectKeys`, `ObjectStore`, `Uploads`, `StoreClient`). One verified upload
  is an automaton over its calls (conditional PUT after section 13.1.2 of RFC 9110). `Uploads` runs
  any number of them in any interleaving; `StoreClient` is the client code.
* **WAL files and base backups** (`WalArchive`, `WalRestore`, `BaseBackup`, `BaseBackupTool`,
  `BaseRetrieval`). Writers and readers on that store, with round trips down to the bytes.
* **Staged backfill** (`Backfill`, `BackfillRuns`, `BackfillAlone`, `BackfillRunner`). A batch as a
  function, any number of interrupted runs over it statement by statement, the undisturbed run,
  the loops, and the full comparison.
* **Source archives** (`SourceManifest`, `SourceArchive`). Manifest, archive and staged tree.
* **Algorithms** (`JobGraph`, `LoadPhase`, `Windows`, `Thresholds`, `Percentile`).

Digests are parameters: any function. Where bytes are claimed to be identical, the lemma asks that
the digest tells the contents at hand apart. JSON encodings, tar bytes and SQL text are
parameters or opaque values; where a round trip needs them to be read back, the lemma says so.

## Where the code and what is said about it differ

* `scripts/pitr_storage.py:324-328` says that the final HEAD makes any concurrent mismatched write
  a visible failure. It does not: `Uploads.RivalsBothSucceed` is a schedule in which two uploads
  with different content both report success. The fallback that allows it is entered on a dropped
  connection too (lines 219-230), so a provider that accepts conditional PUTs does not rule it out.
  `Uploads.SuccessIsLastingIff` says exactly when success can be trusted.
* `scripts/safe_env_file.py:110-111` promises to keep unrelated lines. Line breaks other than LF, CR
  and CRLF can break that: in a value always, and in a text exactly if they end the line of the
  edited key outside a comment and something other than a blank or a comment follows, or there is
  no value before them (`EnvLaws.SetIsMapUpdate`, `EnvLaws.OtherLinesUntouched`). Anywhere else in
  the text they do no harm.
* `scripts/wal_restore.py:117-132` takes any error with status 404 for a missing object; the storage
  helper does not. So a missing bucket is reported as a missing file:
  `WalRestore.MissingBucketLooksAbsent`, exactly as far as `WalRestore.Observation.Serve` says.
* `scripts/physical_base_backup.py:169-176` accepts a staged file of the manifest's own name. If
  another file comes after it, the manifest's key is taken too early: `BaseBackupTool.FilesFirstIff`.
* `scripts/evaluate_ml_accuracy.py:703` asks for a recall above and a rate below the bounds; the
  code accepts equality, and so does the model.
* The window loop covers every log only if the stride is at most the window size, which nothing in
  the code demands: `Windows.CoverageIff`.
* A manifest that lists a path twice, or one that collides with the embedded manifest
  (`.release`, say), is accepted, but no archive built from it verifies:
  `SourceArchive.BuiltArchiveVerifiesIff`. Generated manifests are never of this kind:
  `SourceArchive.GeneratedVerifies`.

## Model

| member | source | states |
|---|---|---|
| Migrations.VerdictIff | scripts/database_lifecycle.py:156-196 | The preflight error is absent exactly when every recorded checksum matches or is NULL, every frozen entry is recorded, and no recorded entry follows a missing one |
| Migrations.VerdictIs | scripts/database_lifecycle.py:156-196 | Which error preflight reports: the first migration whose row does not match or is missing though frozen, by its version; only without one, the first missing migration with recorded ones after it, and the first three of those |
| Migrations.AdvancedHistory | scripts/database_lifecycle.py:156-196 | After any number of committed migrations the history is still one that preflight accepts, and the next missing entry is the one a new run starts with |
| Migrations.RunOutcome | scripts/database_lifecycle.py:235-304 | One run: a database that is not eligible keeps its rows and schema; an eligible one is advanced to the first entry that is empty or fails, success exactly when there is none, reporting the missing suffix in order |
| Migrations.SecondRunIsEmpty | scripts/database_lifecycle.py:263-304 | A run right after a successful one returns the empty list and changes nothing |
| Migrations.RetryCompletes | scripts/database_lifecycle.py:263-304 | A run that fails mid-list keeps what it committed; the retry returns the rest and ends where one clean run would have ended |
| Migrations.ResumedRun | scripts/database_lifecycle.py:263-304 | From any partly advanced database, one clean run ends where a clean run from the start would have, and reports exactly what was missing |
| Migrations.AdvancedTwice | scripts/database_lifecycle.py:263-304 | Advancing in two goes is advancing in one |
| MigrationRuns.StepKeepsInv | scripts/database_lifecycle.py:235-304 | Every database call of every run, every failure (also a commit that takes effect and is reported as failed) and every kill keeps the invariant |
| MigrationRuns.Safety | scripts/database_lifecycle.py:156-304 | In every interleaving of any number of runs, with failures and kills anywhere: the ledger gained a contiguous piece of manifest order, the schema is the starting one followed by exactly those statements in order, each once; a rejected database never changes |
| MigrationRuns.FrozenNeverExecuted | scripts/database_lifecycle.py:263-283 | No frozen statement is ever executed by any run, not even in a transaction that is rolled back; a transaction executes the statement of its own entry and no other |
| MigrationRuns.MutualExclusion | scripts/database_lifecycle.py:259-302 | At most one run is between taking the advisory lock and giving it back |
| MigrationRuns.ReturnedMeansOneShot | scripts/database_lifecycle.py:235-304 | Once any run has returned, the database is the one a single undisturbed run would have left, and the returned list is the tail of that run's list |
| MigrationRuns.ReportedOnce | scripts/database_lifecycle.py:256-304 | No version is reported as applied by two runs |
| MigrationRuns.Recovery | scripts/database_lifecycle.py:235-304 | From every reachable database one clean run succeeds and ends where a clean run from the start would have ended |
| MigrationRuns.NoDeadlock | scripts/database_lifecycle.py:259-302 | While a run is unfinished, some run can make its next call |
| MigrationAlone.AloneIsOneShot | scripts/database_lifecycle.py:235-304 | From every state whose lock is free, whatever other runs have done: the calls of a run that starts now and is disturbed by nothing but failing statements end with the database and the outcome of the one-shot run, returned list included, and the lock free |
| MigrationAlone.HistoryGoesOn | scripts/database_lifecycle.py:235-304 | Those calls are steps of the interleaved machine, so every history can go on with them |
| MigrationAlone.RunCanReturn | scripts/database_lifecycle.py:235-304 | So in every history a run that starts while the lock is free can still return, with the list a one-shot run from there would return |
| MigrationRunner.LoadManifest | scripts/database_lifecycle.py:72-116 | Accepts exactly the documents that name the bootstrap script at its path, with that file there, and a non-empty list of named migrations with existing files and strictly ascending versions; returns those versions, all different |
| MigrationRunner.BelowIff | scripts/database_lifecycle.py:93-116 | Versions are ordered by the first character that differs, a beginning coming first |
| MigrationRunner.Connection.PreflightHistory | scripts/database_lifecycle.py:156-196 | The two loops return the first error in the source's order, and none exactly for an acceptable history |
| MigrationRunner.Connection.ApplyMigrations | scripts/database_lifecycle.py:235-304 | The loop changes the database and returns exactly as the specified run does, and always gives the lock back |
| MigrationRunner.Connection.ValidateLedger | scripts/database_lifecycle.py:334-393 | The ledger checks pass exactly when preflight does, the bootstrap marker is there and every active version is recorded |
| MigrationRunner.RunSucceedsIffLedgerValidates | scripts/database_lifecycle.py:263-304 | After a run on a marked database the ledger checks pass exactly when the run succeeded |
| EnvQuoting.EscapeAppend | scripts/safe_env_file.py:80-83 | The two replacement passes of quoting act character by character |
| EnvQuoting.DecodeQuote | scripts/safe_env_file.py:17-83 | Decoding the quoted form of any value, with or without a trailing comment, gives the value back |
| EnvQuoting.DecodeQuoteIff | scripts/safe_env_file.py:50-54 | After a closing quote, only white space or a comment is accepted; anything else is refused |
| EnvDecoding.DecodeDouble | scripts/safe_env_file.py:34-46 | Every value, also one of several lines, can be written in double quotes and is read back |
| EnvDecoding.DecodeBare | scripts/safe_env_file.py:59-63 | An unquoted value is read as it stands, without the white space and comment after it |
| EnvQuoting.DecodeUnterminated | scripts/safe_env_file.py:17-57 | A quoted form that is cut before its closing quote is refused |
| EnvQuoting.SuffixOfQuote | scripts/safe_env_file.py:86-107 | The comment scanner, which knows nothing of the decoder, finds exactly the suffix that follows the editor's own quoted value |
| EnvQuoting.CommentSuffixIsSuffix | scripts/safe_env_file.py:86-107 | What is kept of any raw value is empty, or white space and a comment, and is the end of that value |
| EnvDecoding.SuffixOfBare | scripts/safe_env_file.py:86-107 | Behind an unquoted value the scanner finds the comment with the white space before it |
| EnvDecoding.SuffixOfDouble | scripts/safe_env_file.py:86-107 | And behind a value in double quotes, whatever is in it |
| EnvAssignments.MatchKeepsPrefix | scripts/safe_env_file.py:11-14 | Replacing everything after the prefix of an assignment leaves its key and prefix as they were |
| EnvShapes.MatchIff | scripts/safe_env_file.py:11-14 | A text is an assignment exactly if it is white space, perhaps `export` and white space, a key, white space, `=`, white space and a raw value, with the characters of each spelled out; key, prefix and raw value are then those of that shape |
| EnvShapes.ValidKeyIff | scripts/safe_env_file.py:10 | The keys that can be set are exactly a letter or underscore followed by letters, digits and underscores |
| EnvShapes.LinesAreCut | scripts/safe_env_file.py:69 | A text is cut behind its first break, one of ten characters or CRLF, and the parser sees the line without it |
| EnvShapes.ParseOneLine | scripts/safe_env_file.py:66-77 | A file of one line of that shape gives its key the decoded raw value, or is refused with that line number |
| EnvShapes.ParseOtherLine | scripts/safe_env_file.py:70-72 | A file of one line of another shape assigns nothing |
| EnvShapes.ReplaceOneLine | scripts/safe_env_file.py:117-140 | Setting the key of such a line replaces its raw value up to a trailing comment, and nothing else |
| EnvShapes.ReplaceFailsIff | scripts/safe_env_file.py:80-132 | An edit is refused exactly for a key that is no name, else for a value with LF, CR or NUL, else for a key that two lines assign |
| EnvParsing.ParseAppend | scripts/safe_env_file.py:66-77 | Parsing lines in two pieces is parsing them at once, so later assignments win and the first bad line is the one reported |
| EnvLines.LinesAppend | scripts/safe_env_file.py:116-139 | A text that ends in a break, and what is appended to it, are cut into lines separately |
| EnvAssignments.SameKey | scripts/safe_env_file.py:70-127 | Still parser and editor see an assignment of the same key on every line, or none |
| EnvParsing.ParsePlain | scripts/safe_env_file.py:66-77 | No text at all reads back a value that holds a break other than LF and CR |
| EnvCutting.WriteExotic | scripts/safe_env_file.py:80-134 | Writing such a value to a line of a text that parses makes the parser fail on exactly that line, unless the line splits |
| EnvLaws.SetIsMapUpdate | scripts/safe_env_file.py:66-140 | For every text that parses and assigns the key at most once: parsing the edited text gives the old map with the key set -- exactly if the value is free of the line breaks the editor does not know, and the line that assigns the key, if any, keeps its own break in the edit, or has a value and only a blank line or a comment behind it, or (an empty line split in two) is set to nothing and hides nothing |
| EnvLaws.OtherLinesUntouched | scripts/safe_env_file.py:118-134 | Editing an assigned key leaves every other line byte for byte -- exactly if the break of its line is kept, or the line is the last and has a value; and whatever the value, if the break is kept |
| EnvLaws.CompletionKeepsLines | scripts/safe_env_file.py:136-138 | Before appending, every line is kept but for a newline added to a last one without a break; a final break the editor does not know gets an empty line after it |
| EnvLaws.AppendKeepsLines | scripts/safe_env_file.py:136-140 | Editing an unassigned key of any text keeps all lines and appends those of one assignment: one line, for values without such breaks |
| EnvLaws.LineEndingsStay | scripts/safe_env_file.py:114-140 | A text whose lines all end in CRLF, or all in LF, keeps that under every edit with such a value |
| EnvLaws.LastWriteWins | scripts/safe_env_file.py:110-140 | Writing v and then w gives the text that writing w alone gives, so that editing is idempotent -- exactly if v is free of such breaks, and the line of the key, if any, keeps its break, or has a value and, on the next line, nothing or a comment after white space |
| EnvCommute.EditsCommute | scripts/safe_env_file.py:110-140 | In every text, edits of two keys that are each assigned once commute, byte for byte, for values free of such breaks -- exactly if neither key is assigned on the line directly behind the other one with a break between them that the edit loses |
| EnvCommute.AnyEditsCommute | scripts/safe_env_file.py:110-140 | For any two values, on lines whose breaks are kept: the edits commute exactly if each value brings a line that assigns the other key, or neither does |
| EnvLaws.SplitLosesEdit | scripts/safe_env_file.py:116-134 | On a single line that is empty up to such a break, every edit is accepted and none is seen by the parser |
| EnvLaws.ExoticTextLosesEdit | scripts/safe_env_file.py:116-134 | One such text: `A=` and a vertical tab |
| EnvFile.DecodeValue | scripts/safe_env_file.py:17-63 | The index loop decodes as specified, also its errors |
| EnvFile.ParseEnvText | scripts/safe_env_file.py:66-77 | The line loop builds the specified map or stops at the specified line |
| EnvFile.FindCommentSuffix | scripts/safe_env_file.py:86-107 | The scan with its quote and escape flags returns the specified suffix |
| EnvFile.RewriteLine | scripts/safe_env_file.py:119-134 | The line of an assignment is rewritten as specified |
| EnvFile.EditLines | scripts/safe_env_file.py:117-134 | The loop over lines counts the assignments, stops at a second one, and edits the one it finds |
| EnvFile.ReplaceEnvValue | scripts/safe_env_file.py:110-140 | The editor returns the specified text or the specified error |
| ObjectKeys.SplitJoin | scripts/pitr_storage.py:195-202 | Splitting a joined list of components gives the list back |
| ObjectKeys.SafeKeyInjective | scripts/pitr_storage.py:195-202 | Under one prefix, different component lists have different keys |
| ObjectKeys.NormalizePrefixIsCanonical | scripts/pitr_storage.py:65-74 | Every accepted prefix comes out with exactly one trailing slash and no leading one; giving it again gives it back |
| ObjectKeys.NormalizePrefixIff | scripts/pitr_storage.py:65-74 | Exactly the safe components joined by slashes are accepted, with any slashes at the ends; they come out with one at the end |
| Uploads.CleanRun | scripts/pitr_storage.py:280-319 | If no PUT can fail in a way that enters the fallback (a dropped connection, or a provider without conditional PUTs), every interleaving of uploads keeps the invariant and every stored object |
| Uploads.ObjectsNeverChange | scripts/pitr_storage.py:280-319 | There, from any moment on, an object that is stored stays as it is |
| Uploads.FinalCheckPasses | scripts/pitr_storage.py:363-370 | There, an upload that wrote its object never fails its final check |
| Uploads.SuccessIsLastingIff | scripts/pitr_storage.py:219-370 | Every reported success stays true in every interleaving exactly when no PUT can fail in a way that enters the fallback, or no two uploads bring different content to one absent key |
| Uploads.SuccessHoldsSoFar | scripts/pitr_storage.py:219-370 | With any provider: as long as no PUT has failed in that way, every success so far holds and no stored object has changed |
| Uploads.RivalsBothSucceed | scripts/pitr_storage.py:219-361 | Otherwise there is a schedule, with one dropped connection, in which two uploads with different content both report success, although each made its final check |
| Uploads.SuccessesAgree | scripts/pitr_storage.py:262-370 | Where the condition holds, all successes on one key carried the same size and digest |
| Uploads.OneContent | scripts/pitr_storage.py:262-370 | With the fallback and with PUTs that take effect but report an error: if all writers of a key bring the same bytes and it starts absent or with them, nothing else is ever stored there |
| Uploads.SuccessWasSeen | scripts/pitr_storage.py:280-370 | Every success was preceded, within that upload, by a HEAD that matched its size and digest |
| Uploads.HeadAfterError | scripts/pitr_storage.py:219-354 | After a conflict, or an error that enters the fallback, and whatever others do meanwhile: a HEAD that finds a matching object ends the upload as idempotent, one that finds another object fails it, and one that finds none goes on or fails as the error says |
| Uploads.FailsIffSpoiled | scripts/pitr_storage.py:262-370 | Among writers of the same bytes, in every interleaving: an upload has failed exactly if one of its own HEADs or PUTs failed in another way, or a conflict was followed by a HEAD that found nothing; so one that meets only conflicts and objects succeeds |
| StoreClient.CompleteIsRun | scripts/pitr_storage.py:262-370 | An upload left alone is one of the interleavings |
| StoreClient.UploadOutcome | scripts/pitr_storage.py:262-370 | An upload touches no other key and never an object that is there; after success the object has the size and digest of the file |
| StoreClient.QuietUpload | scripts/pitr_storage.py:280-370 | With nothing failing, the outcome is decided by what is under the key: uploaded, idempotent or refused |
| StoreClient.UploadDecided | scripts/pitr_storage.py:262-370 | While HEADs work, the outcome follows from what is under the key and how the PUTs are answered; a PUT that took effect but was answered a conflict or a dropped connection is an idempotent success |
| StoreClient.UploadThenDownload | scripts/pitr_storage.py:262-409 | What was uploaded with success is what every later verified download returns, byte for byte |
| StoreClient.SuccessThenDownload | scripts/pitr_storage.py:262-409 | The same among any number of concurrent uploads while no PUT can fail in a way that enters the fallback |
| StoreClient.Client.PutObject | scripts/pitr_storage.py:293-306 | A conditional PUT never replaces; a failing PUT may take effect |
| StoreClient.Client.UploadFileVerified | scripts/pitr_storage.py:262-370 | The straight-line code leaves the store and the outcome of the specified automaton |
| StoreClient.Client.DownloadFileVerified | scripts/pitr_storage.py:373-409 | The error for a failing lookup, a missing object or checksum, a failing transfer or a mismatch, the transfer reading the store as it is by then; success returns the bytes then stored, of the size and digest looked up before |
| WalArchive.ValidNameIsSafe | scripts/wal_archive.py:29-31 | Every valid file name is a safe component, so its key always exists |
| WalArchive.ValidNameIff | scripts/wal_archive.py:29-31 | Exactly segments, timeline histories and backup histories have valid names |
| WalArchive.ArchiveDecided | scripts/wal_archive.py:34-60 | Which error, or which success, is reported: by the names, the file, what is under the key and how the PUTs are answered |
| WalArchive.ArchiveTouchesOneName | scripts/wal_archive.py:34-60 | A refused file changes nothing; an accepted one changes no other name and never replaces an object |
| WalArchive.ArchiveThenRestore | scripts/wal_restore.py:169-185 | A successful archive followed, without deletes, by a restore gives the identical bytes |
| WalArchive.ArchivedStaysRestorable | scripts/wal_archive.py:47-60 | The same after archiving any further files, whatever fails among them |
| WalRestore.ObservedIsRestore | scripts/wal_restore.py:169-185 | With nothing else failing, the observed restore succeeds exactly when the restore from the store does, with the same bytes, and finds nothing exactly when no object is there |
| WalRestore.Observation.RestoreWal | scripts/wal_restore.py:169-185 | Success, the kinds of error and the recorded fields, each tied to what happened |
| WalRestore.Observation.Serve | scripts/wal_restore.py:117-257 | Exit status 0 exactly for a restored file; each report exactly for what happened, also the configuration and internal failures -- except that a broken lookup is reported as an absent object exactly when its error has status 404 and a code that says something else |
| WalRestore.MissingBucketLooksAbsent | scripts/wal_restore.py:117-257 | So a bucket that does not exist is reported to the server as a file that is not there |
| BaseBackup.RecoveryFilesAreSafe | scripts/physical_base_backup.py:169-176 | Every staged file that is accepted has a name that makes a key |
| BaseBackup.RecoveryFilesAre | scripts/physical_base_backup.py:169-176 | What is backed up: exactly the regular files of the directory, as often and in the order they are there; refused exactly if there is none, or one of them is a link or has a name that is not plain |
| BaseBackup.DirectoryIsStaging | scripts/physical_base_backup.py:169-176 | What is accepted from a directory is what a backup can start with |
| BaseBackup.KeyIsSafeKey | scripts/physical_base_backup.py:232-233 | The key of a file of a backup is the safe key of base id and name |
| BaseBackup.RunKeeps | scripts/physical_base_backup.py:228-293 | Every call, crash and foreign write of every run keeps the invariant |
| BaseBackup.ManifestIsLast | scripts/physical_base_backup.py:228-285 | At every point of every run, crashes included, when no staged file bears the manifest's name: if the manifest is there, it is the complete one, and every file it lists is stored with the listed size and digest |
| BaseBackup.ListingIsComplete | scripts/physical_base_backup.py:286-293 | The final comparison with the listing never finds an object missing, whatever the staged files are called |
| BaseBackupTool.PublishIsRun | scripts/physical_base_backup.py:228-293 | A backup left alone is one run of the machine |
| BaseBackupTool.BackupTool.CreateBaseBackup | scripts/physical_base_backup.py:228-293 | The loop leaves the store and the phase of the specified backup |
| BaseBackupTool.BackupTool.ListingShowsAll | scripts/physical_base_backup.py:286-293 | True exactly when all keys of the backup are listed |
| BaseBackupTool.QuietBackupFinishes | scripts/physical_base_backup.py:228-293 | With nothing going wrong and nothing of this backup stored before, the tool finishes, with every file and the manifest stored |
| BaseBackupTool.FilesFirstIff | scripts/physical_base_backup.py:169-293 | In every run from a store whose manifest key is free, that key is taken only once all files are stored -- exactly when no staged file of the manifest's name (which the source accepts) is uploaded before another file |
| BaseBackupTool.ToolPublishesLast | scripts/physical_base_backup.py:228-293 | Under that condition: however the tool ends, a manifest that is there means that all files are stored |
| BaseRetrieval.BaseIdIsSafe | scripts/retrieve_physical_base_backup.py:30-40 | A valid base id is a safe component |
| BaseRetrieval.BaseIdIff | scripts/retrieve_physical_base_backup.py:30 | A base id is exactly a date, T, a time, Z-, and eight lower-case hexadecimal digits |
| BaseRetrieval.FilePassesIff | scripts/retrieve_physical_base_backup.py:54-84 | A listed file passes exactly if its name, key and digest are in order and the object looked up, the bytes then read and the entry agree |
| BaseRetrieval.RetrievePassesIff | scripts/retrieve_physical_base_backup.py:35-94 | A retrieval passes exactly when the manifest and every listed file pass; it returns the stored bytes in manifest order with the listed names, sizes and digests |
| BaseRetrieval.BackupThenRetrieve | scripts/retrieve_physical_base_backup.py:35-94 | Whatever happened during the backup, once its manifest is there a retrieval passes and gives every staged file back byte for byte; no staged file bears the manifest's name |
| BaseRetrieval.FinishedBackupComesBack | scripts/retrieve_physical_base_backup.py:35-94 | The same for every backup that finished, whatever its files are called and whatever was stored before |
| BaseRetrieval.DirectoryComesBack | scripts/retrieve_physical_base_backup.py:35-94 | From directory to directory: once the backup of a directory has finished, a retrieval returns every regular file of it, and nothing else, byte for byte and in order |
| BaseRetrieval.WrittenHolds | scripts/retrieve_physical_base_backup.py:72-84 | The destination holds the last download of each name |
| BaseRetrieval.Retriever.Download | scripts/pitr_storage.py:373-409 | The verified download; the bytes are written before they are checked, under no other name |
| BaseRetrieval.Retriever.RetrieveListed | scripts/retrieve_physical_base_backup.py:54-84 | The loop over the listed files returns and writes what is specified |
| BaseRetrieval.Retriever.RetrieveBase | scripts/retrieve_physical_base_backup.py:35-94 | The whole retrieval, its errors in order, and what is in the destination after success |
| Backfill.AtMeans | scripts/staged_backfill.py:60-100 | What the position says: every earlier target row unchanged, a row for every key up to the cursor, nothing else added, and the count is the number of rows up to the cursor |
| Backfill.UncontradictedRows | scripts/staged_backfill.py:60-100 | Where no earlier row contradicts them, the rows up to the cursor are there with all fields |
| Backfill.BatchAgreesIff | scripts/staged_backfill.py:79-92 | The count and checksum comparison of a batch passes if no row that was there before contradicts it, and only then if the digest tells the rows apart |
| Backfill.BatchFrom | scripts/staged_backfill.py:65-95 | One transaction: exhausted exactly when all rows are copied; rolled back only when a row contradicts the batch, and always then if the digest tells the rows apart; else the next rows are committed, at least one |
| Backfill.BatchesCover | scripts/staged_backfill.py:65-98 | Without contradicting rows, batches of any sizes copy as many rows as their sizes add up to |
| Backfill.CeilBatchesExhaust | scripts/staged_backfill.py:65-98 | ceil(n / b) batches copy all n rows, one fewer does not, and the next fetch reports exhaustion with n rows copied |
| BackfillRuns.StepKeepsInv | scripts/staged_backfill.py:58-100 | Every statement and every failure of every run keeps the invariant; the statements of a transaction add up to one batch |
| BackfillRuns.CopyIsAlwaysAPrefix | scripts/staged_backfill.py:58-100 | At every committed state of any interleaving of any number of runs, interrupted anywhere: no earlier row changed, the cursor and count belong together, each row up to the cursor has a target row of its key, nothing else appeared; and each of them holds every field of its source row, if the digest tells the rows apart |
| BackfillRuns.ReportsAreTrue | scripts/staged_backfill.py:73-92 | `copy_exhausted` is reported only when every row is copied; a mismatch only when a row that was there before contradicts the source |
| BackfillRuns.CommitMovesCursorUp | scripts/staged_backfill.py:93-95 | Each committed batch strictly raises the cursor |
| BackfillRuns.CommittedBatchesCover | scripts/staged_backfill.py:65-98 | However batches are spread over runs: k committed ones have copied min(n, k * b) rows, so all rows exactly at ceil(n / b) |
| BackfillRuns.NoDeadlock | scripts/staged_backfill.py:58-100 | While a run is unfinished, some run can take its next step |
| BackfillAlone.AloneIsRunFrom | scripts/staged_backfill.py:58-100 | From every state whose lock is free: the statements of an allowed run, undisturbed, end with the database, the outcome and the number of batches of the run as a function |
| BackfillAlone.AloneIsRun | scripts/staged_backfill.py:58-100 | Those statements are one of the interleavings |
| BackfillAlone.RunsCommitAll | scripts/staged_backfill.py:58-100 | When nothing fails and no row contradicts the source, any number of runs with one batch size have together committed the lesser of the batches they were allowed and ceil(n / b) |
| BackfillRunner.ValidateNames | scripts/staged_backfill.py:28-32 | Accepts exactly non-empty lists of distinct simple identifiers |
| BackfillRunner.ValidateContract | scripts/staged_backfill.py:23-36 | Accepts exactly the acceptable contracts |
| BackfillRunner.RunCopies | scripts/staged_backfill.py:65-98 | One run from r copied rows: where it ends, a mismatch only with contradicting rows ahead, and without them exhausted exactly when it was allowed a batch more than needed |
| BackfillRunner.Copier.Run | scripts/staged_backfill.py:39-100 | Refusals, the dry run that writes nothing, and the loop over batches |
| BackfillRunner.Copier.Transaction | scripts/staged_backfill.py:66-95 | One transaction as specified: committed, exhausted, or rolled back |
| BackfillRunner.Copier.Insert | scripts/staged_backfill.py:79-81 | Inserts the rows whose keys are absent |
| BackfillRunner.Copier.ReadBack | scripts/staged_backfill.py:83-87 | Reads the rows under the keys of a batch, in key order |
| BackfillRunner.Digest | scripts/staged_backfill.py:119-125 | The running count and digest of a table in key order |
| BackfillRunner.ValidateCopy | scripts/staged_backfill.py:103-129 | Passes exactly when counts and digests agree |
| BackfillRunner.ListingUnique | scripts/staged_backfill.py:121-124 | A table has one listing in key order |
| BackfillRunner.ValidationAfterCopyIff | scripts/staged_backfill.py:103-129 | After a whole copy the comparison passes if the target held nothing to begin with but rows of the source, and only then if the digest tells the two streams apart |
| BackfillRunner.RunThenValidate | scripts/staged_backfill.py:65-129 | A run with batches enough, then the comparison: exhausted with n rows, and passed |
| JobGraph.NamesIn | scripts/validate_ci_workflow.py:52-60 | A list of needs keeps its texts and drops everything else |
| JobGraph.NeedsOf | scripts/validate_ci_workflow.py:52-60 | A job needs exactly what it names under `needs`, alone or in a list |
| JobGraph.ReachesWithin | scripts/validate_ci_workflow.py:124-139 | No walk leaves a set that no edge leaves |
| JobGraph.FinishJob | scripts/validate_ci_workflow.py:124-136 | Finishing a job keeps what the search knows about finished jobs |
| JobGraph.Search.Visit | scripts/validate_ci_workflow.py:124-136 | The recursive visit ends, keeps the stack of jobs being visited, and explores the job |
| JobGraph.Ancestors | scripts/validate_ci_workflow.py:119-139 | Returns exactly the jobs reached by one or more edges, and circular exactly when one of them waits for itself |
| LoadPhase.SendRecord | scripts/benchmark_performance.py:405-458 | The metric is about the first attempt that is not retryable or the last one allowed; every earlier attempt was retryable; no metric exactly when no attempt is allowed |
| LoadPhase.StepShaped | scripts/benchmark_performance.py:473-481 | The queue always holds the records not yet taken, in order, and then one sentinel for each worker still there |
| LoadPhase.StepConserved | scripts/benchmark_performance.py:478-492 | Each step keeps every record taken from the queue in exactly one place |
| LoadPhase.NoRecordTwice | scripts/benchmark_performance.py:461-495 | At every moment: a record out of the queue is with exactly one worker or in exactly one metric |
| LoadPhase.MetricsAreSent | scripts/benchmark_performance.py:405-495 | In every interleaving each metric is the one that sending its record alone gives, retries included, whatever each attempt for each record meets |
| LoadPhase.SomeoneMoves | scripts/benchmark_performance.py:478-494 | As long as one worker has not left, some worker can move |
| LoadPhase.EveryRecordOnce | scripts/benchmark_performance.py:461-495 | When all workers have left, the queue is empty and the metrics hold exactly one entry for each record, with at most `max_retries` attempts |
| LoadPhase.PhaseEnds | scripts/benchmark_performance.py:461-495 | Every schedule ends within (records + workers) * (retries + 2) steps |
| Percentile.PercentileBetween | scripts/benchmark_performance.py:165-177 | A percentile lies between the least and the greatest value, which 0 and 100 percent give |
| Percentile.PercentileMonotone | scripts/benchmark_performance.py:165-177 | A higher percentage never gives a lower value |
| Percentile.PercentileLinear | scripts/benchmark_performance.py:165-177 | In the list put in order, the value at p percent is that at p / 100 of the way from the first to the last place, linear between neighbouring places |
| Percentile.PercentileOfPermutation | scripts/benchmark_performance.py:165-177 | The order of the input does not matter |
| Percentile.SortSorts | scripts/benchmark_performance.py:168 | The sorted copy is in order and has the same elements |
| SourceManifest.AsPosixIsNormal | scripts/release_gate.py:111-119 | A normalised path is its own normal form |
| SourceManifest.NormalIsSafe | scripts/release_gate.py:111-119 | Normalising a safe path keeps it safe |
| SourceManifest.UnsafePathIff | scripts/release_gate.py:111-117 | A path, written as its parts, is unsafe exactly if it is absolute, goes up, has a backslash, or has a colon in its first part that means something |
| SourceManifest.UpwardPathRefused | scripts/release_gate.py:92-119 | A manifest that lists a path with `..` is refused |
| SourceManifest.BadDigestRefused | scripts/release_gate.py:101-110 | So is one with a digest that is not 64 lower-case hexadecimal digits |
| SourceManifest.LexLeIff | scripts/release_gate.py:120 | The order of paths: a beginning first, and else by the first character that differs |
| SourceManifest.ManifestEntries | scripts/release_gate.py:92-128 | The loop accepts exactly the canonical manifests and returns their normalised entries |
| SourceManifest.SortedSetLists | scripts/release_manifest.py:122 | Sorting the set of what was found lists it: in order, each path once |
| SourceManifest.FoundOrderIrrelevant | scripts/release_manifest.py:105-122 | So the order in which files are found, and how often, does not matter |
| SourceManifest.RuntimeFiles | scripts/release_manifest.py:105-122 | The walk over the runtime paths returns exactly the included files at or below them, in order, each once |
| SourceManifest.RuntimePathSafeIff | scripts/release_gate.py:111-119 | The only thing that can be wrong with the path of a runtime file is a backslash |
| SourceManifest.GeneratedAcceptedIff | scripts/release_manifest.py:105-145 | A manifest generated from any list of found files is accepted exactly when there are some and no path holds a backslash; its entries are then the files found, sorted, each once |
| SourceManifest.ListingIsUnique | scripts/release_manifest.py:122 | One set of files has one sorted listing |
| SourceArchive.CollectMembers | scripts/release_gate.py:677-692 | The members by name, and no fault exactly when all are regular files at safe, distinct paths |
| SourceArchive.CheckEntries | scripts/release_gate.py:715-737 | No fault exactly when each entry agrees with its member and its staged file |
| SourceArchive.VerifySourceArchive | scripts/release_gate.py:668-748 | The list of errors is empty exactly when archive, reviewed manifest and staged tree agree in paths and digests |
| SourceArchive.UnreviewedRefused | scripts/release_gate.py:668-748 | An archive whose embedded manifest was not reviewed as passed, or for other sources or another host, does not pass |
| SourceArchive.BuildTar | scripts/release_gate.py:576-609 | One regular member for each entry and the manifest last |
| SourceArchive.ExtractedIff | scripts/release_gate.py:782-793 | An archive can be extracted exactly when no member lies below another one |
| SourceArchive.TarExtractsIff | scripts/release_gate.py:576-609 | A built archive can be extracted exactly when no listed path is a directory of the embedded manifest or below it |
| SourceArchive.TarAgrees | scripts/release_gate.py:576-609 | A built archive that can be extracted then agrees file by file with its manifest |
| SourceArchive.BuiltArchiveVerifiesIff | scripts/release_gate.py:576-793 | An archive built from a reviewed manifest can be extracted and then passes exactly when no path is listed twice, and none is the path of the embedded manifest, a directory of it, or below it |
| SourceArchive.GeneratedVerifies | scripts/release_manifest.py:105-145 | A reviewed manifest that was generated from the runtime files of a checkout always yields an archive that extracts and passes |
| Windows.FindSpan | scripts/evaluate_ml_accuracy.py:575-577 | The earliest and the latest time |
| Windows.CountIn | scripts/evaluate_ml_accuracy.py:585 | How many logs, and how many anomalies, lie in a window |
| Windows.BuildWindows | scripts/evaluate_ml_accuracy.py:566-598 | The loop ends and returns the non-empty windows at every stride up to the latest log |
| Windows.WindowsAreSound | scripts/evaluate_ml_accuracy.py:583-596 | Windows are numbered from 0, each starts at one of the positions and counts what lies in it, none is empty, and one is an anomaly exactly when one of its logs is |
| Windows.CoverageIff | scripts/evaluate_ml_accuracy.py:566-598 | For every list of logs, every log lies in one of the windows returned for it -- exactly when the stride is at most the size |
| Windows.GapLosesLog | scripts/evaluate_ml_accuracy.py:566-598 | Otherwise two logs suffice, the second of which is in no window |
| Windows.HoldingIsMultiplicity | scripts/evaluate_ml_accuracy.py:583-596 | The windows returned hold a log as often as the positions reach it: dropping empty windows never drops a log |
| Windows.MultiplicityOf | scripts/evaluate_ml_accuracy.py:566-598 | When the size is m strides, a log at offset d lies in exactly min(m, d / stride + 1) of the windows returned |
| Windows.TotalsAreMultiplicities | scripts/evaluate_ml_accuracy.py:583-596 | Counted by windows or by logs, the total is the same |
| Windows.WindowTotals | scripts/evaluate_ml_accuracy.py:566-598 | The window sizes add up to the sum of those minima over all logs |
| Thresholds.ComputeConfusionMatrix | scripts/evaluate_ml_accuracy.py:637-652 | The loop counts the four kinds of pairs, up to the shorter list |
| Thresholds.MatrixCounts | scripts/evaluate_ml_accuracy.py:637-652 | Each of the four numbers is the number of positions with its two labels |
| Thresholds.RaisingMovesOneWay | scripts/evaluate_ml_accuracy.py:667-672 | Raising the threshold never lowers tp or fp and never raises fn or tn; tp + fn and fp + tn stay |
| Thresholds.RatesRise | scripts/evaluate_ml_accuracy.py:118-130 | Recall and false-positive rate never fall along a rising sweep |
| Thresholds.F1Between | scripts/evaluate_ml_accuracy.py:112-125 | F1 lies between precision and recall, and is 0 exactly without true positives |
| Thresholds.F1OfCounts | scripts/evaluate_ml_accuracy.py:112-125 | F1 is 2 tp / (2 tp + fp + fn) |
| Thresholds.ThresholdSweep | scripts/evaluate_ml_accuracy.py:675-695 | The loop ends with one point for each threshold below the stop, and no other |
| Thresholds.OptimalIsBest | scripts/evaluate_ml_accuracy.py:698-725 | The choice is the first point with the best F1 of the strictest tier that is not empty |
| Thresholds.StrictTierIsInterval | scripts/evaluate_ml_accuracy.py:675-725 | Along a sweep the strict tier is one stretch of neighbouring thresholds |

## Left out

- EnvCommute.AnyEditsCommute: does not cover values with a break the editor does not know written to a line whose own break is lost in the edit; `EnvCommute.EditsCommute` covers the other values there.
- BaseBackup.ManifestIsLast: takes for granted that nobody else writes this backup's manifest key and that nobody deletes.
- BackfillRuns.CopyIsAlwaysAPrefix: keys stand as integers for their order, and writers other than the copy are paused.
- Thresholds.ThresholdSweep: thresholds are exact reals, without the rounding to six digits.
- Percentile.PercentileBetween: before the rounding to three digits.
- Windows.BuildWindows: the stride is positive; with zero the loop does not end, and with a negative one it ends in an error.
- LoadPhase.EveryRecordOnce: at least one worker and one attempt; without attempts every worker raises (`LoadPhase.SendRecord`), without workers nothing is sent.
- StoreClient.UploadThenDownload: the local file does not change during an upload; retries inside the storage library are part of one call's answer.
- The text of SQL statements, the stripping of BEGIN and COMMIT, timeouts, and the schema checks that read the catalogue of the database.
- Which keys of the advisory locks and which progress rows belong to other jobs: one manifest and one contract at a time.
- Atomic replacement of the dotenv file on disk (`update_env_file`).
- How the staged files are sorted, capacity and version checks of the base backup, content types, and metadata other than the digest.
- Symbolic links and resolution of paths: a tree says which paths go through a link or lead outside.
- Which files below the runtime paths are excluded: the test is a parameter of `SourceManifest.RuntimeFiles`.
- The features, model training, ROC-AUC and rounding of the accuracy evaluation; a window keeps its counts only.
- Python's recursion limit in the walk over the job graph.
- Release evidence, gates over it, retention, reports, dashboards and the services: conjunctions of fields and wiring over libraries that are not part of this model.
