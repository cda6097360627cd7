/** The runner's own procedures: loading a manifest, the preflight check, one run, and the
    ledger part of schema validation. */
module MigrationRunner {
  import opened Common
  import opened Migrations

  // ---------------------------------------------------------------------------------------
  // Loading the manifest
  // ---------------------------------------------------------------------------------------

  /** One member of `active_migrations` as the JSON file may hold it. */
  datatype RawEntry = NotAnObject | Entry(version: Option<string>, path: Option<string>)

  /** The parsed document: the path under `canonical_bootstrap`, unless that is no object (or has
      none), and the list of migrations, unless it is no list. */
  datatype Document = NoObject | Document(bootstrap: Option<Option<string>>, migrations: Option<seq<RawEntry>>)

  const BOOTSTRAP_PATH := "scripts/init.sql"

  datatype ManifestError =
    | Unreadable
    | NoBootstrap
    | WrongBootstrap
    | BootstrapFileMissing
    | NoMigrations
    | MalformedEntry
    | MissingVersion
    | DuplicateVersion(version: string)
    | OutOfOrder(version: string)
    | MissingPath(version: string)
    | BadPath(path: string)

  /** Strings are ordered by their first differing character, a proper prefix coming first. */
  predicate Below(a: string, b: string) {
    b != [] && (a == [] || a[0] < b[0] || (a[0] == b[0] && Below(a[1..], b[1..])))
  }

  lemma SameFirst(a: string, b: string)
    ensures forall k | 0 < k <= |a| && k <= |b| && a[..k] == b[..k] :: a[0] == b[0]
  {
    forall k | 0 < k <= |a| && k <= |b| && a[..k] == b[..k] ensures a[0] == b[0] {
      assert a[..k][0] == a[0] && b[..k][0] == b[0];
    }
  }

  /** The order of versions, spelled out: the first character that differs decides. */
  lemma {:induction false} BelowIff(a: string, b: string)
    ensures Below(a, b) <==>
              exists k :: 0 <= k <= |a| && k < |b| && a[..k] == b[..k] && (k == |a| || a[k] < b[k])
  {
    if a != [] && b != [] && a[0] == b[0] {
      var a', b' := a[1..], b[1..];
      BelowIff(a', b');
      if k :| 0 <= k <= |a'| && k < |b'| && a'[..k] == b'[..k] && (k == |a'| || a'[k] < b'[k]) {
        assert a[..k + 1] == [a[0]] + a'[..k] && b[..k + 1] == [b[0]] + b'[..k];
      }
      if k :| 0 <= k <= |a| && k < |b| && a[..k] == b[..k] && (k == |a| || a[k] < b[k]) {
        assert k > 0 && a'[..k - 1] == a[..k][1..] && b'[..k - 1] == b[..k][1..];
      }
    } else {
      SameFirst(a, b);
      assert b != [] ==> a[..0] == b[..0];
    }
  }

  lemma {:induction false} BelowTransitive(a: string, b: string, c: string)
    requires Below(a, b) && Below(b, c)
    ensures Below(a, c)
  {
    if a != [] && a[0] == b[0] == c[0] {
      BelowTransitive(a[1..], b[1..], c[1..]);
    }
  }

  lemma {:induction false} BelowIrreflexive(a: string)
    ensures !Below(a, a)
  {
    if a != [] {
      BelowIrreflexive(a[1..]);
    }
  }

  predicate WellFormed(entry: RawEntry, files: set<string>) {
    && entry.Entry?
    && entry.version.Some? && entry.version.value != ""
    && entry.path.Some? && entry.path.value in files
  }

  /** A list of migrations that is not empty, each with a version and the path of a repository
      file, the versions strictly ascending. */
  predicate Ordered(entries: seq<RawEntry>, files: set<string>) {
    && entries != []
    && (forall i | 0 <= i < |entries| :: WellFormed(entries[i], files))
    && (forall i | 0 < i < |entries| :: Below(entries[i - 1].version.value, entries[i].version.value))
  }

  /**
   Accepts a document exactly when it names the bootstrap script, that script exists, and its
   migrations are in order. The accepted versions are all different.
   */
  method LoadManifest(document: Option<Document>, files: set<string>) returns (r: Result<seq<string>, ManifestError>)
    ensures r.Success? <==>
      && document.Some? && document.value.Document?
      && document.value.bootstrap == Some(Some(BOOTSTRAP_PATH)) && BOOTSTRAP_PATH in files
      && document.value.migrations.Some? && Ordered(document.value.migrations.value, files)
    ensures r.Success? ==>
      var entries := document.value.migrations.value;
      && |r.value| == |entries|
      && (forall i | 0 <= i < |entries| :: entries[i].version == Some(r.value[i]))
      && (forall i, j | 0 <= i < j < |entries| :: r.value[i] != r.value[j])
  {
    if document.None? || document.value.NoObject? {
      return Failure(Unreadable);
    }
    var bootstrap, migrations := document.value.bootstrap, document.value.migrations;
    if bootstrap.None? {
      return Failure(NoBootstrap);
    }
    if bootstrap.value != Some(BOOTSTRAP_PATH) {
      return Failure(WrongBootstrap);
    }
    if BOOTSTRAP_PATH !in files {
      return Failure(BootstrapFileMissing);
    }
    if migrations.None? {
      return Failure(NoMigrations);
    }
    r := LoadEntries(migrations.value, files);
  }

  method LoadEntries(entries: seq<RawEntry>, files: set<string>) returns (r: Result<seq<string>, ManifestError>)
    ensures r.Success? <==> Ordered(entries, files)
    ensures r.Success? ==>
      && |r.value| == |entries|
      && (forall i | 0 <= i < |entries| :: entries[i].version == Some(r.value[i]))
      && (forall i, j | 0 <= i < j < |entries| :: Below(r.value[i], r.value[j]) && r.value[i] != r.value[j])
  {
    if entries == [] {
      return Failure(NoMigrations);
    }
    var versions: set<string>, previous, loaded := {}, "", [];
    for i := 0 to |entries|
      invariant |loaded| == i
      invariant forall k | 0 <= k < i :: WellFormed(entries[k], files) && entries[k].version == Some(loaded[k])
      invariant forall j, k | 0 <= j < k < i :: Below(loaded[j], loaded[k])
      invariant versions == set v | v in loaded
      invariant previous == if i == 0 then "" else loaded[i - 1]
    {
      var entry := entries[i];
      if entry.NotAnObject? {
        return Failure(MalformedEntry);
      }
      if entry.version.None? || entry.version.value == "" {
        return Failure(MissingVersion);
      }
      var version := entry.version.value;
      if version in versions {
        AscendingMeansNew(loaded, version);
        return Failure(DuplicateVersion(version));
      }
      if !Below(previous, version) {
        return Failure(OutOfOrder(version));
      }
      if entry.path.None? {
        return Failure(MissingPath(version));
      }
      if entry.path.value !in files {
        return Failure(BadPath(entry.path.value));
      }
      forall j | 0 <= j < i ensures Below(loaded[j], version) {
        if j < i - 1 { BelowTransitive(loaded[j], previous, version); }
      }
      versions, previous, loaded := versions + {version}, version, loaded + [version];
    }
    forall i, j | 0 <= i < j < |entries| ensures loaded[i] != loaded[j] {
      BelowIrreflexive(loaded[j]);
    }
    return Success(loaded);
  }

  /** A version above the last of an ascending list is not in the list. */
  lemma AscendingMeansNew(loaded: seq<string>, version: string)
    requires forall j, k | 0 <= j < k < |loaded| :: Below(loaded[j], loaded[k])
    requires version in loaded
    ensures !Below(loaded[|loaded| - 1], version)
  {
    if Below(loaded[|loaded| - 1], version) {
      var j :| 0 <= j < |loaded| && loaded[j] == version;
      if j < |loaded| - 1 { BelowTransitive(version, loaded[|loaded| - 1], version); }
      BelowIrreflexive(version);
    }
  }

  // ---------------------------------------------------------------------------------------
  // One connection
  // ---------------------------------------------------------------------------------------

  const CANONICAL_BOOTSTRAP := "0000_canonical_init"

  lemma {:induction false} SameRecorded(known: map<string, Option<Option<string>>>, ledger: Ledger,
                                        active: seq<Migration>)
    requires forall i | 0 <= i < |active| :: active[i].version in known
    requires forall i | 0 <= i < |active| :: known[active[i].version] == Lookup(ledger, active[i].version)
    ensures LaterApplied(known, active) == RecordedIn(ledger, active)
  {
    if active != [] {
      assert forall i | 0 <= i < |active[1..]| :: active[1..][i] == active[i + 1];
      SameRecorded(known, ledger, active[1..]);
    }
  }

  function LaterApplied(known: map<string, Option<Option<string>>>, active: seq<Migration>): seq<string> {
    if active == [] then []
    else
      var rest := LaterApplied(known, active[1..]);
      if active[0].version in known && known[active[0].version].Some? then [active[0].version] + rest else rest
  }

  /** The database seen through the session of one run, with nobody else writing. */
  class Connection {
    var hasLedger: bool
    var ledger: Ledger
    var schema: seq<string>
    var locked: bool

    constructor (db: Database)
      ensures Contents() == db && !locked
    {
      hasLedger, ledger, schema, locked := db.hasLedger, db.ledger, db.schema, false;
    }

    function Contents(): Database
      reads this
    {
      Database(hasLedger, ledger, schema)
    }

    method PreflightHistory(active: seq<Migration>) returns (verdict: Option<Error>)
      ensures verdict == PreflightVerdict(ledger, active)
      ensures verdict.None? <==> PreflightOk(ledger, active)
    {
      VerdictIff(ledger, active);
      assert active[0..] == active;
      hide PreflightOk, RowError;
      var rows: map<string, Option<Option<string>>> := map[];
      for i := 0 to |active|
        invariant FirstRowError(ledger, active) == FirstRowError(ledger, active[i..])
        invariant forall k | 0 <= k < i :: active[k].version in rows
        invariant forall v | v in rows :: rows[v] == Lookup(ledger, v)
      {
        assert active[i..][0] == active[i] && active[i..][1..] == active[i + 1..];
        var row := Lookup(ledger, active[i].version);
        rows := rows[active[i].version := row];
        var e := RowError(row, active[i]);
        if e.Some? {
          return e;
        }
      }
      for i := 0 to |active|
        invariant FirstGap(ledger, active) == FirstGap(ledger, active[i..])
      {
        assert active[i..][0] == active[i] && active[i..][1..] == active[i + 1..];
        if rows[active[i].version].None? {
          var later := LaterApplied(rows, active[i + 1..]);
          SameRecorded(rows, ledger, active[i + 1..]);
          if later != [] {
            return Some(LedgerGap(active[i].version, Take(later, 3)));
          }
        }
      }
      return None;
    }

    /** One run. `faults` are the versions whose statements fail; such a transaction leaves
        nothing behind. The lock is given back on every way out. */
    method ApplyMigrations(m: Manifest, faults: set<string>) returns (r: Result<seq<string>, Error>)
      requires !locked
      modifies this
      ensures (Contents(), r) == Migrations.ApplyMigrations(m, old(Contents()), faults)
      ensures !locked
    {
      hasLedger := true;
      if m.bootstrap !in ledger {
        return Failure(BootstrapMissing);
      }
      locked := true;
      var verdict := PreflightHistory(m.active);
      if verdict.Some? {
        locked := false;
        return Failure(verdict.value);
      }
      ghost var begun := Contents();
      var applied: seq<string> := [];
      for i := 0 to |m.active|
        invariant ApplyFrom(m, begun, 0, [], faults) == ApplyFrom(m, Contents(), i, applied, faults)
        invariant locked
      {
        var mig := m.active[i];
        var row := Lookup(ledger, mig.version);
        if row.Some? {
          if row.value !in {None, Some(mig.checksum)} {
            locked := false;
            return Failure(ChecksumMismatch(mig.version));
          }
        } else {
          if mig.sql == "" {
            locked := false;
            return Failure(EmptySql(mig.version));
          }
          var savepoint := schema;
          schema := schema + [mig.sql];
          if mig.version in faults {
            schema := savepoint;
            locked := false;
            return Failure(SqlFailed(mig.version));
          }
          ledger := ledger[mig.version := Some(mig.checksum)];
          applied := applied + [mig.version];
        }
      }
      locked := false;
      return Success(applied);
    }

    /** The part of schema validation that reads the ledger. */
    method ValidateLedger(active: seq<Migration>) returns (ok: bool)
      ensures ok <==> LedgerValid(ledger, active)
    {
      var verdict := PreflightHistory(active);
      if verdict.Some? || CANONICAL_BOOTSTRAP !in ledger {
        return false;
      }
      for i := 0 to |active|
        invariant forall k | 0 <= k < i :: active[k].version in ledger
      {
        if active[i].version !in ledger {
          return false;
        }
      }
      return true;
    }
  }

  ghost predicate LedgerValid(ledger: Ledger, active: seq<Migration>) {
    && PreflightOk(ledger, active)
    && CANONICAL_BOOTSTRAP in ledger
    && forall i | 0 <= i < |active| :: active[i].version in ledger
  }

  /** After a run on a database carrying the canonical marker, the ledger validates exactly when
      the run succeeded. */
  lemma RunSucceedsIffLedgerValidates(m: Manifest, db: Database, faults: set<string>)
    requires DistinctVersions(m.active)
    requires m.bootstrap == CANONICAL_BOOTSTRAP && m.bootstrap in db.ledger
    ensures
      var (end, r) := Migrations.ApplyMigrations(m, db, faults);
      r.Success? <==> LedgerValid(end.ledger, m.active)
  {
    RunOutcome(m, db, faults);
    if Eligible(m, db.ledger) {
      var stop := Stop(m.active, Recorded(db.ledger, m.active), faults);
      AdvancedHistory(m, db, Migrations.ApplyMigrations(m, db, faults).0, stop);
    }
  }
}
