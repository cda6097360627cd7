/**
 The schema migration runner: what a manifest must satisfy, what the runner checks before
 it touches the schema, and what one run does to the ledger and to the schema.

 A schema is represented by the statements committed to it, in commit order, so a claim
 about the schema holds under every interpretation of the SQL text.
 */
module Migrations {
  import opened Common

  /** One active manifest entry. `sql` is the text left after the outer BEGIN/COMMIT wrappers
      are stripped, and is empty when only white space is left. */
  datatype Migration = Migration(version: string, sql: string, checksum: string, frozen: bool)

  datatype Manifest = Manifest(bootstrap: string, active: seq<Migration>)

  /** The ledger maps a recorded version to its checksum, which may be NULL. */
  type Ledger = map<string, Option<string>>

  datatype Database = Database(hasLedger: bool, ledger: Ledger, schema: seq<string>)

  datatype Error =
    | BootstrapMissing
    | ChecksumMismatch(version: string)
    | Frozen(version: string)
    | LedgerGap(version: string, later: seq<string>)
    | EmptySql(version: string)
    | SqlFailed(version: string)

  ghost predicate DistinctVersions(active: seq<Migration>) {
    forall i, j | 0 <= i < j < |active| :: active[i].version != active[j].version
  }

  /** The versions of migrations `i` up to `j`, in manifest order. */
  function Versions(active: seq<Migration>, i: nat, j: nat): (vs: seq<string>)
    requires i <= j <= |active|
    ensures |vs| == j - i
    ensures forall t | 0 <= t < |vs| :: vs[t] == active[i + t].version
    decreases j - i
  {
    if i == j then [] else [active[i].version] + Versions(active, i + 1, j)
  }

  /** The statements of migrations `i` up to `j`, in manifest order. */
  function Statements(active: seq<Migration>, i: nat, j: nat): (ss: seq<string>)
    requires i <= j <= |active|
    ensures |ss| == j - i
    ensures forall t | 0 <= t < |ss| :: ss[t] == active[i + t].sql
  {
    if i == j then [] else Statements(active, i, j - 1) + [active[j - 1].sql]
  }

  // ---------------------------------------------------------------------------------------
  // Preflight
  // ---------------------------------------------------------------------------------------

  function Lookup(ledger: Ledger, version: string): Option<Option<string>> {
    if version in ledger then Some(ledger[version]) else None
  }

  /** The two checks made on the row of one migration, in the order the runner makes them. */
  function RowError(row: Option<Option<string>>, migration: Migration): Option<Error> {
    if row.Some? && row.value.Some? && row.value.value != migration.checksum then
      Some(ChecksumMismatch(migration.version))
    else if migration.frozen && row.None? then
      Some(Frozen(migration.version))
    else
      None
  }

  ghost predicate RowsAgree(ledger: Ledger, active: seq<Migration>) {
    forall i | 0 <= i < |active| :: RowError(Lookup(ledger, active[i].version), active[i]).None?
  }

  ghost predicate GapFree(ledger: Ledger, active: seq<Migration>) {
    forall i, j | 0 <= i < j < |active| :: active[j].version in ledger ==> active[i].version in ledger
  }

  ghost predicate PreflightOk(ledger: Ledger, active: seq<Migration>) {
    RowsAgree(ledger, active) && GapFree(ledger, active)
  }

  /** What lets a run advance a database at all: the marker and a clean history. */
  ghost predicate Eligible(m: Manifest, ledger: Ledger) {
    m.bootstrap in ledger && PreflightOk(ledger, m.active)
  }

  function FirstRowError(ledger: Ledger, active: seq<Migration>): Option<Error> {
    if active == [] then None
    else
      var e := RowError(Lookup(ledger, active[0].version), active[0]);
      if e.Some? then e else FirstRowError(ledger, active[1..])
  }

  function RecordedIn(ledger: Ledger, active: seq<Migration>): (vs: seq<string>)
    ensures forall v :: v in vs <==> exists i :: 0 <= i < |active| && active[i].version == v && v in ledger
  {
    if active == [] then []
    else
      var rest := RecordedIn(ledger, active[1..]);
      assert forall i | 1 <= i < |active| :: active[i] == active[1..][i - 1];
      assert forall i | 0 <= i < |active[1..]| :: active[1..][i] == active[i + 1];
      if active[0].version in ledger then [active[0].version] + rest else rest
  }

  function Take<T>(s: seq<T>, n: nat): seq<T> {
    if |s| <= n then s else s[..n]
  }

  /** The first missing version that has recorded versions after it, with up to three of them. */
  function FirstGap(ledger: Ledger, active: seq<Migration>): Option<Error> {
    if active == [] then None
    else if active[0].version !in ledger && RecordedIn(ledger, active[1..]) != [] then
      Some(LedgerGap(active[0].version, Take(RecordedIn(ledger, active[1..]), 3)))
    else FirstGap(ledger, active[1..])
  }

  function PreflightVerdict(ledger: Ledger, active: seq<Migration>): Option<Error> {
    var e := FirstRowError(ledger, active);
    if e.Some? then e else FirstGap(ledger, active)
  }

  lemma {:induction false} FirstRowErrorIff(ledger: Ledger, active: seq<Migration>)
    ensures FirstRowError(ledger, active).None? <==> RowsAgree(ledger, active)
  {
    if active != [] {
      FirstRowErrorIff(ledger, active[1..]);
      assert forall i | 1 <= i < |active| :: active[i] == active[1..][i - 1];
      assert forall i | 0 <= i < |active[1..]| :: active[1..][i] == active[i + 1];
    }
  }

  lemma {:induction false} FirstGapIff(ledger: Ledger, active: seq<Migration>)
    ensures FirstGap(ledger, active).None? <==> GapFree(ledger, active)
  {
    if active != [] {
      var rest := active[1..];
      FirstGapIff(ledger, rest);
      assert forall i | 1 <= i < |active| :: active[i] == rest[i - 1];
      assert forall i | 0 <= i < |rest| :: rest[i] == active[i + 1];
      if RecordedIn(ledger, rest) != [] {
        assert RecordedIn(ledger, rest)[0] in RecordedIn(ledger, rest);
      }
      forall i, j | 0 <= i < j < |active| && FirstGap(ledger, active).None? && active[j].version in ledger
        ensures active[i].version in ledger
      {
        assert rest[j - 1].version in RecordedIn(ledger, rest);
        if i > 0 { assert rest[i - 1].version in ledger; }
      }
    }
  }

  /** The runner's verdict is clean exactly for a matching, frozen-complete, gap-free history. */
  lemma VerdictIff(ledger: Ledger, active: seq<Migration>)
    ensures PreflightVerdict(ledger, active).None? <==> PreflightOk(ledger, active)
  {
    FirstRowErrorIff(ledger, active);
    FirstGapIff(ledger, active);
  }

  /** The row of migration `i` does not match, or is missing though the migration is frozen. */
  predicate Mismatched(ledger: Ledger, mig: Migration) {
    mig.version in ledger && ledger[mig.version].Some? && ledger[mig.version] != Some(mig.checksum)
  }

  predicate FrozenMissing(ledger: Ledger, mig: Migration) {
    mig.frozen && mig.version !in ledger
  }

  /** A missing migration with a recorded one after it. */
  predicate Skipped(ledger: Ledger, active: seq<Migration>, i: nat)
    requires i < |active|
  {
    active[i].version !in ledger && exists j :: i < j < |active| && active[j].version in ledger
  }

  lemma {:induction false} FirstRowErrorIs(ledger: Ledger, active: seq<Migration>) returns (i: nat)
    requires FirstRowError(ledger, active).Some?
    ensures i < |active| && (forall j | 0 <= j < i :: RowError(Lookup(ledger, active[j].version), active[j]).None?)
    ensures FirstRowError(ledger, active) == RowError(Lookup(ledger, active[i].version), active[i])
  {
    hide RowError;
    i := 0;
    if RowError(Lookup(ledger, active[0].version), active[0]).None? {
      i := FirstRowErrorIs(ledger, active[1..]);
      assert forall j | 1 <= j < |active| :: active[j] == active[1..][j - 1];
      i := i + 1;
    }
  }

  lemma SkippedNow(ledger: Ledger, active: seq<Migration>)
    requires active != []
    ensures Skipped(ledger, active, 0) <==> active[0].version !in ledger && RecordedIn(ledger, active[1..]) != []
  {
    var rest, later := active[1..], RecordedIn(ledger, active[1..]);
    assert forall j | 1 <= j < |active| :: active[j] == rest[j - 1];
    assert forall j | 0 <= j < |rest| :: rest[j] == active[j + 1];
    if later != [] {
      assert later[0] in later;
    }
    forall j | 0 < j < |active| && active[j].version in ledger ensures later != [] {
      assert rest[j - 1].version in later;
    }
  }

  lemma {:induction false} FirstGapIs(ledger: Ledger, active: seq<Migration>) returns (i: nat)
    requires FirstGap(ledger, active).Some?
    ensures i < |active| && Skipped(ledger, active, i) && (forall j | 0 <= j < i :: !Skipped(ledger, active, j))
    ensures FirstGap(ledger, active)
         == Some(LedgerGap(active[i].version, Take(RecordedIn(ledger, active[i + 1..]), 3)))
  {
    hide Take, Skipped, RecordedIn;
    SkippedNow(ledger, active);
    i := 0;
    if !Skipped(ledger, active, 0) {
      var rest := active[1..];
      var r := FirstGapIs(ledger, rest);
      i := r + 1;
      forall j | 0 < j <= i ensures Skipped(ledger, active, j) <==> Skipped(ledger, rest, j - 1) {
        SkippedLater(ledger, active, j);
      }
      assert rest[r + 1..] == active[i + 1..];
    }
  }

  lemma SkippedLater(ledger: Ledger, active: seq<Migration>, j: nat)
    requires 0 < j < |active|
    ensures Skipped(ledger, active, j) <==> Skipped(ledger, active[1..], j - 1)
  {
    var rest := active[1..];
    assert forall k | 1 <= k < |active| :: active[k] == rest[k - 1];
    if Skipped(ledger, active, j) {
      var k :| j < k < |active| && active[k].version in ledger;
      assert rest[k - 1].version in ledger;
    }
    if Skipped(ledger, rest, j - 1) {
      var k :| j - 1 < k < |rest| && rest[k].version in ledger;
      assert active[k + 1].version in ledger;
    }
  }

  /** Recorded versions are listed in manifest order, piece by piece. */
  lemma {:induction false} RecordedInParts(ledger: Ledger, a: seq<Migration>, b: seq<Migration>)
    ensures RecordedIn(ledger, a + b) == RecordedIn(ledger, a) + RecordedIn(ledger, b)
  {
    hide *;
    if a == [] {
      assert a + b == b;
      RecordedInFirst(ledger, a);
    } else {
      assert (a + b)[1..] == a[1..] + b && (a + b)[0] == a[0];
      RecordedInParts(ledger, a[1..], b);
      RecordedInFirst(ledger, a);
      RecordedInFirst(ledger, a + b);
    }
  }

  lemma RecordedInFirst(ledger: Ledger, active: seq<Migration>)
    ensures RecordedIn(ledger, active)
         == if active == [] then []
            else (if active[0].version in ledger then [active[0].version] else []) + RecordedIn(ledger, active[1..])
  {
  }

  /**
   Which error is reported: the first migration whose row does not match or is missing though
   frozen, by its version; only if there is none, the first missing one with a recorded one after
   it, with the first three recorded ones after it.
   */
  lemma VerdictIs(ledger: Ledger, active: seq<Migration>) returns (i: nat)
    requires PreflightVerdict(ledger, active).Some?
    ensures i < |active|
    ensures
      var e, mig := PreflightVerdict(ledger, active).value, active[i];
      if RowsAgree(ledger, active) then
        && e == LedgerGap(mig.version, Take(RecordedIn(ledger, active[i + 1..]), 3))
        && Skipped(ledger, active, i) && forall j | 0 <= j < i :: !Skipped(ledger, active, j)
      else
        && (forall j | 0 <= j < i :: !Mismatched(ledger, active[j]) && !FrozenMissing(ledger, active[j]))
        && (Mismatched(ledger, mig) || FrozenMissing(ledger, mig))
        && (Mismatched(ledger, mig) ==> e == ChecksumMismatch(mig.version))
        && (FrozenMissing(ledger, mig) ==> e == Frozen(mig.version))
  {
    FirstRowErrorIff(ledger, active);
    if FirstRowError(ledger, active).Some? {
      i := FirstRowErrorIs(ledger, active);
    } else {
      i := FirstGapIs(ledger, active);
    }
  }

  // ---------------------------------------------------------------------------------------
  // One run, as a function of the database it starts from
  // ---------------------------------------------------------------------------------------

  /** How many migrations of the manifest are recorded before the first missing one. */
  function Recorded(ledger: Ledger, active: seq<Migration>): nat {
    FirstMissing(ledger, active, 0)
  }

  function FirstMissing(ledger: Ledger, active: seq<Migration>, i: nat): (k: nat)
    requires i <= |active|
    ensures i <= k <= |active|
    ensures forall j | i <= j < k :: active[j].version in ledger
    ensures k < |active| ==> active[k].version !in ledger
    decreases |active| - i
  {
    if i == |active| || active[i].version !in ledger then i
    else FirstMissing(ledger, active, i + 1)
  }

  /** The database after the transaction of one migration commits. */
  function Commit(db: Database, mig: Migration): Database {
    db.(ledger := db.ledger[mig.version := Some(mig.checksum)], schema := db.schema + [mig.sql])
  }

  /** `faults` are the versions whose statements fail in this run. */
  function ApplyFrom(m: Manifest, db: Database, i: nat, applied: seq<string>, faults: set<string>)
    : (Database, Result<seq<string>, Error>)
    requires i <= |m.active|
    decreases |m.active| - i
  {
    if i == |m.active| then (db, Success(applied))
    else
      var mig := m.active[i];
      var row := Lookup(db.ledger, mig.version);
      if row.Some? then
        if row.value.Some? && row.value.value != mig.checksum then
          (db, Failure(ChecksumMismatch(mig.version)))
        else
          ApplyFrom(m, db, i + 1, applied, faults)
      else if mig.sql == "" then (db, Failure(EmptySql(mig.version)))
      else if mig.version in faults then (db, Failure(SqlFailed(mig.version)))
      else
        ApplyFrom(m, Commit(db, mig), i + 1, applied + [mig.version], faults)
  }

  function ApplyMigrations(m: Manifest, db: Database, faults: set<string>)
    : (Database, Result<seq<string>, Error>)
  {
    var db := db.(hasLedger := true);
    if m.bootstrap !in db.ledger then (db, Failure(BootstrapMissing))
    else
      var verdict := PreflightVerdict(db.ledger, m.active);
      if verdict.Some? then (db, Failure(verdict.value))
      else ApplyFrom(m, db, 0, [], faults)
  }

  // ---------------------------------------------------------------------------------------
  // What a run does
  // ---------------------------------------------------------------------------------------

  /** `start` with the transactions of migrations `first` up to `k` committed, in order. */
  function Replay(active: seq<Migration>, start: Database, first: nat, k: nat): (db: Database)
    requires k <= |active|
    ensures db.hasLedger == start.hasLedger
    ensures forall v | v in start.ledger :: v in db.ledger
  {
    if k <= first then start else Commit(Replay(active, start, first, k - 1), active[k - 1])
  }

  /** `db` is `start` advanced to migration `k`: the rows and the statements added are those of
      the missing migrations below `k`, once each and in manifest order, and nothing else. */
  ghost predicate Advanced(m: Manifest, start: Database, db: Database, k: nat) {
    var first := Recorded(start.ledger, m.active);
    && first <= k <= |m.active|
    && db == Replay(m.active, start, first, k).(hasLedger := db.hasLedger)
    && (first < k ==> Eligible(m, start.ledger))
    && (forall j | first <= j < k :: !m.active[j].frozen && m.active[j].sql != "")
  }

  lemma {:induction false} ReplaySchema(active: seq<Migration>, start: Database, first: nat, k: nat)
    requires first <= k <= |active|
    ensures Replay(active, start, first, k).schema == start.schema + Statements(active, first, k)
  {
    if first < k {
      ReplaySchema(active, start, first, k - 1);
    }
  }

  lemma {:induction false} ReplayRow(active: seq<Migration>, start: Database, first: nat, k: nat, i: nat)
    requires DistinctVersions(active) && k <= |active| && i < |active|
    ensures Lookup(Replay(active, start, first, k).ledger, active[i].version)
         == if first <= i < k then Some(Some(active[i].checksum)) else Lookup(start.ledger, active[i].version)
  {
    if first < k {
      ReplayRow(active, start, first, k - 1, i);
      assert i != k - 1 ==> active[i].version != active[k - 1].version;
    }
  }

  lemma {:induction false} ReplayTwice(active: seq<Migration>, start: Database, first: nat, j: nat, k: nat)
    requires first <= j <= k <= |active|
    ensures Replay(active, Replay(active, start, first, j), j, k) == Replay(active, start, first, k)
  {
    if j < k {
      ReplayTwice(active, start, first, j, k - 1);
    }
  }

  lemma {:induction false} ReplayFlag(active: seq<Migration>, start: Database, first: nat, k: nat, flag: bool)
    requires k <= |active|
    ensures Replay(active, start.(hasLedger := flag), first, k) == Replay(active, start, first, k).(hasLedger := flag)
  {
    if first < k {
      ReplayFlag(active, start, first, k - 1, flag);
    }
  }

  lemma GapFreePrefix(ledger: Ledger, active: seq<Migration>)
    requires GapFree(ledger, active)
    ensures forall i | 0 <= i < |active| :: active[i].version in ledger <==> i < Recorded(ledger, active)
  {
    var r := Recorded(ledger, active);
    forall i | r < i < |active|
      ensures active[i].version !in ledger
    {
      assert active[r].version !in ledger;
    }
  }

  /** Advancing keeps a clean history clean, and `k` is where the next run resumes. */
  lemma AdvancedHistory(m: Manifest, start: Database, db: Database, k: nat)
    requires DistinctVersions(m.active)
    requires Advanced(m, start, db, k) && Eligible(m, start.ledger)
    ensures forall i | 0 <= i < |m.active| :: m.active[i].version in db.ledger <==> i < k
    ensures Eligible(m, db.ledger) && Recorded(db.ledger, m.active) == k
  {
    var active, first := m.active, Recorded(start.ledger, m.active);
    GapFreePrefix(start.ledger, active);
    forall i | 0 <= i < |active|
      ensures active[i].version in db.ledger <==> i < k
      ensures RowError(Lookup(db.ledger, active[i].version), active[i]).None?
    {
      assert RowError(Lookup(start.ledger, active[i].version), active[i]).None?;
      ReplayRow(active, start, first, k, i);
    }
    assert k < |active| ==> active[k].version !in db.ledger;
  }

  /** The only migration whose prerequisites are all recorded is the next one in order. */
  lemma NextIsTheOnlyOne(m: Manifest, start: Database, db: Database, k: nat, i: nat)
    requires DistinctVersions(m.active)
    requires Advanced(m, start, db, k) && Eligible(m, db.ledger)
    requires i < |m.active| && m.active[i].version !in db.ledger
    requires forall j | 0 <= j < i :: m.active[j].version in db.ledger
    ensures i == k && Eligible(m, start.ledger)
  {
    AdvancedHistory(m, start, db, k);
  }

  lemma CommitAdvances(m: Manifest, start: Database, db: Database, k: nat)
    requires DistinctVersions(m.active)
    requires Advanced(m, start, db, k) && Eligible(m, start.ledger)
    requires k < |m.active| && m.active[k].sql != ""
    ensures Advanced(m, start, Commit(db, m.active[k]), k + 1)
  {
    GapFreePrefix(start.ledger, m.active);
    assert RowError(Lookup(start.ledger, m.active[k].version), m.active[k]).None?;
  }

  /** Advancing in two goes is advancing in one. */
  lemma AdvancedTwice(m: Manifest, start: Database, mid: Database, end: Database, j: nat, k: nat)
    requires DistinctVersions(m.active)
    requires Advanced(m, start, mid, j) && Eligible(m, start.ledger) && Advanced(m, mid, end, k)
    ensures Advanced(m, start, end, k)
  {
    AdvancedHistory(m, start, mid, j);
    var first := Recorded(start.ledger, m.active);
    ReplayTwice(m.active, start, first, j, k);
    ReplayFlag(m.active, Replay(m.active, start, first, j), j, k, mid.hasLedger);
  }

  /** Where a run that starts at migration `i` stops: the first migration that is empty or fails. */
  function Stop(active: seq<Migration>, i: nat, faults: set<string>): (k: nat)
    requires i <= |active|
    ensures i <= k <= |active|
    ensures forall j | i <= j < k :: active[j].sql != "" && active[j].version !in faults
    ensures k < |active| ==> active[k].sql == "" || active[k].version in faults
    decreases |active| - i
  {
    if i == |active| || active[i].sql == "" || active[i].version in faults then i
    else Stop(active, i + 1, faults)
  }

  /** What is reported when a run stops at migration `stop`. */
  function Report(active: seq<Migration>, stop: nat, applied: seq<string>): Result<seq<string>, Error>
    requires stop <= |active|
  {
    if stop == |active| then Success(applied)
    else if active[stop].sql == "" then Failure(EmptySql(active[stop].version))
    else Failure(SqlFailed(active[stop].version))
  }

  /** Rows that are already recorded are passed over. */
  lemma {:induction false} ApplyFromSkips(m: Manifest, db: Database, i: nat, faults: set<string>)
    requires RowsAgree(db.ledger, m.active) && i <= Recorded(db.ledger, m.active)
    ensures ApplyFrom(m, db, i, [], faults) == ApplyFrom(m, db, Recorded(db.ledger, m.active), [], faults)
    decreases |m.active| - i
  {
    if i < Recorded(db.ledger, m.active) {
      assert RowError(Lookup(db.ledger, m.active[i].version), m.active[i]).None?;
      ApplyFromSkips(m, db, i + 1, faults);
    }
  }

  /** A missing migration is committed, or ends the run. */
  lemma ApplyNext(m: Manifest, db: Database, k: nat, applied: seq<string>, faults: set<string>)
    requires k <= |m.active| && (k < |m.active| ==> m.active[k].version !in db.ledger)
    ensures
      var stop := Stop(m.active, k, faults);
      ApplyFrom(m, db, k, applied, faults)
      == if k < stop then ApplyFrom(m, Commit(db, m.active[k]), k + 1, applied + [m.active[k].version], faults)
         else (db, Report(m.active, k, applied))
    ensures k < |m.active| ==> Commit(db, m.active[k]).hasLedger == db.hasLedger
  {
  }

  lemma {:induction false} ApplyFromMissing(
    m: Manifest, start: Database, db: Database, k: nat, applied: seq<string>, faults: set<string>)
    requires DistinctVersions(m.active) && Eligible(m, start.ledger) && Advanced(m, start, db, k)
    ensures
      var (end, r) := ApplyFrom(m, db, k, applied, faults);
      var stop := Stop(m.active, k, faults);
      && Advanced(m, start, end, stop) && end.hasLedger == db.hasLedger
      && r == Report(m.active, stop, applied + Versions(m.active, k, stop))
    decreases |m.active| - k
  {
    assert k <= |m.active|;
    AdvancedHistory(m, start, db, k);
    assert k <= |m.active|;
    ApplyNext(m, db, k, applied, faults);
    ReportNext(m.active, k, applied, faults);
    hide *;
    if k < Stop(m.active, k, faults) {
      var mig := m.active[k];
      CommitAdvances(m, start, db, k);
      ApplyFromMissing(m, start, Commit(db, mig), k + 1, applied + [mig.version], faults);
    }
  }

  lemma ReportNext(active: seq<Migration>, k: nat, applied: seq<string>, faults: set<string>)
    requires k <= |active|
    ensures
      var stop := Stop(active, k, faults);
      if k < stop then
        && Stop(active, k + 1, faults) == stop
        && applied + Versions(active, k, stop) == applied + [active[k].version] + Versions(active, k + 1, stop)
      else stop == k && applied + Versions(active, k, stop) == applied
  {
  }

  /**
   One uninterrupted run. A database that is not eligible keeps its rows and its schema. An
   eligible one is advanced up to the first migration that is empty or fails; the run succeeds
   exactly when there is none, and then reports the missing versions in manifest order.
   */
  lemma RunOutcome(m: Manifest, db: Database, faults: set<string>)
    requires DistinctVersions(m.active)
    ensures
      var (end, r) := ApplyMigrations(m, db, faults);
      var first := Recorded(db.ledger, m.active);
      var stop := Stop(m.active, first, faults);
      && end.hasLedger
      && (!Eligible(m, db.ledger) ==> r.Failure? && end == db.(hasLedger := true))
      && (Eligible(m, db.ledger) ==>
        && Advanced(m, db, end, stop)
        && end.schema == db.schema + Statements(m.active, first, stop)
        && r == Report(m.active, stop, Versions(m.active, first, stop)))
  {
    VerdictIff(db.ledger, m.active);
    if Eligible(m, db.ledger) {
      var begun := db.(hasLedger := true);
      var first := Recorded(db.ledger, m.active);
      ReplaySchema(m.active, db, first, Stop(m.active, first, faults));
      ApplyFromSkips(m, begun, 0, faults);
      ApplyFromMissing(m, db, begun, first, [], faults);
      assert forall vs: seq<string> :: [] + vs == vs;
    }
  }

  /** A database advanced past the last migration is what one clean run leaves. */
  lemma CleanRun(m: Manifest, start: Database, db: Database)
    requires DistinctVersions(m.active) && Eligible(m, start.ledger)
    requires Advanced(m, start, db, |m.active|)
    ensures ApplyMigrations(m, start, {})
         == (db.(hasLedger := true), Success(Versions(m.active, Recorded(start.ledger, m.active), |m.active|)))
  {
    RunOutcome(m, start, {});
  }

  /** A second run after a successful one returns the empty list and changes nothing. */
  lemma SecondRunIsEmpty(m: Manifest, db: Database, faults: set<string>, again: set<string>)
    requires DistinctVersions(m.active)
    requires ApplyMigrations(m, db, faults).1.Success?
    ensures
      var (end, _) := ApplyMigrations(m, db, faults);
      ApplyMigrations(m, end, again) == (end, Success([]))
  {
    var (end, r) := ApplyMigrations(m, db, faults);
    RunOutcome(m, db, faults);
    AdvancedHistory(m, db, end, |m.active|);
    RunOutcome(m, end, again);
  }

  /** A failed run keeps what it committed, and retrying ends exactly where one clean run ends. */
  lemma RetryCompletes(m: Manifest, db: Database, faults: set<string>)
    requires DistinctVersions(m.active) && Eligible(m, db.ledger)
    requires Stop(m.active, Recorded(db.ledger, m.active), {}) == |m.active|
    ensures
      var (failed, _) := ApplyMigrations(m, db, faults);
      var stop := Stop(m.active, Recorded(db.ledger, m.active), faults);
      && ApplyMigrations(m, failed, {}) == (ApplyMigrations(m, db, {}).0, Success(Versions(m.active, stop, |m.active|)))
  {
    RunOutcome(m, db, faults);
    ResumedRun(m, db, ApplyMigrations(m, db, faults).0, Stop(m.active, Recorded(db.ledger, m.active), faults));
  }

  /** From wherever a database was advanced to, one clean run ends where a clean run from the
      start would have ended, and reports what was still missing. */
  lemma ResumedRun(m: Manifest, start: Database, mid: Database, k: nat)
    requires DistinctVersions(m.active) && Eligible(m, start.ledger)
    requires Advanced(m, start, mid, k)
    requires Stop(m.active, Recorded(start.ledger, m.active), {}) == |m.active|
    ensures ApplyMigrations(m, mid, {}) == (ApplyMigrations(m, start, {}).0, Success(Versions(m.active, k, |m.active|)))
  {
    AdvancedHistory(m, start, mid, k);
    RunOutcome(m, mid, {});
    RunOutcome(m, start, {});
    var end := ApplyMigrations(m, mid, {}).0;
    AdvancedTwice(m, start, mid, end, k, |m.active|);
  }
}
