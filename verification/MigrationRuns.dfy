/**
 Any number of migration runs against one database, interleaved statement by statement, each
 free to raise or to be killed at every step. The advisory lock belongs to a session: a killed
 run loses it, and the writes of its open transaction are dropped.
 */
module MigrationRuns {
  import opened Common
  import opened Migrations

  datatype Outcome = Applied(versions: seq<string>) | Raised

  datatype Write = Executed(sql: string) | RowInserted(version: string, checksum: string)

  /** Where a run is. `rows` are the ledger rows preflight has fetched so far; `writes` are the
      statements of the open transaction. */
  datatype Pc =
    | Start
    | CheckMarker
    | WaitLock
    | Preflight(rows: seq<Option<Option<string>>>)
    | AtMigration(i: nat, applied: seq<string>)
    | BeforeTransaction(i: nat, applied: seq<string>)
    | InTransaction(i: nat, applied: seq<string>, writes: seq<Write>)
    | Unlock(outcome: Outcome)
    | Finished(outcome: Outcome)
    | Killed
  {
    predicate HoldsLock() {
      Preflight? || AtMigration? || BeforeTransaction? || InTransaction? || Unlock?
    }

    predicate Over() {
      Finished? || Killed?
    }

    /** The versions this run has committed and will report if it succeeds. */
    function Reported(): seq<string> {
      match this
      case AtMigration(_, applied) => applied
      case BeforeTransaction(_, applied) => applied
      case InTransaction(_, applied, _) => applied
      case Unlock(Applied(vs)) => vs
      case Finished(Applied(vs)) => vs
      case _ => []
    }
  }

  datatype State = State(db: Database, owner: Option<nat>, runs: seq<Pc>) {
    function To(i: nat, pc: Pc): State
      requires i < |runs|
    {
      this.(runs := runs[i := pc])
    }
  }

  function CommitWrites(db: Database, writes: seq<Write>): Database {
    if writes == [] then db
    else
      var before := CommitWrites(db, writes[..|writes| - 1]);
      match writes[|writes| - 1]
      case Executed(sql) => before.(schema := before.schema + [sql])
      case RowInserted(version, checksum) => before.(ledger := before.ledger[version := Some(checksum)])
  }

  predicate GapInRows(rows: seq<Option<Option<string>>>) {
    exists a, b | 0 <= a < b < |rows| :: rows[a].None? && rows[b].Some?
  }

  /** Where the next database call of a run takes it when the call does what it should. */
  function NextPc(m: Manifest, ledger: Ledger, pc: Pc): Pc
    requires pc.InTransaction? ==> pc.i < |m.active|
  {
    var n := |m.active|;
    match pc
    case Start => CheckMarker
    case CheckMarker => if m.bootstrap in ledger then WaitLock else Finished(Raised)
    case WaitLock => Preflight([])
    case Preflight(rows) =>
      if |rows| < n then
        var row := Lookup(ledger, m.active[|rows|].version);
        if RowError(row, m.active[|rows|]).Some? then Unlock(Raised) else Preflight(rows + [row])
      else if GapInRows(rows) then Unlock(Raised)
      else AtMigration(0, [])
    case AtMigration(j, applied) =>
      if j < n then
        var mig := m.active[j];
        var row := Lookup(ledger, mig.version);
        if row.Some? then
          if row.value in {None, Some(mig.checksum)} then AtMigration(j + 1, applied) else Unlock(Raised)
        else if mig.sql == "" then Unlock(Raised)
        else BeforeTransaction(j, applied)
      else
        Unlock(Applied(applied))
    case BeforeTransaction(j, applied) => InTransaction(j, applied, [])
    case InTransaction(j, applied, writes) =>
      var mig := m.active[j];
      if |writes| == 0 then InTransaction(j, applied, [Executed(mig.sql)])
      else if |writes| == 1 then
        if mig.version in ledger then Unlock(Raised)
        else InTransaction(j, applied, writes + [RowInserted(mig.version, mig.checksum)])
      else AtMigration(j + 1, applied + [mig.version])
    case Unlock(outcome) => Finished(outcome)
    case _ => pc
  }

  predicate Commits(pc: Pc) {
    pc.InTransaction? && |pc.writes| == 2
  }

  ghost predicate Proceeds(m: Manifest, s: State, i: nat, s': State)
    requires i < |s.runs|
  {
    var pc := s.runs[i];
    && !pc.Over()
    && (pc.WaitLock? ==> s.owner.None?)
    && (pc.InTransaction? ==> pc.i < |m.active|)
    && s' == State(
         if pc.Start? then s.db.(hasLedger := true) else if Commits(pc) then CommitWrites(s.db, pc.writes) else s.db,
         if pc.WaitLock? then Some(i) else if pc.Unlock? then None else s.owner,
         s.runs[i := NextPc(m, s.db.ledger, pc)])
  }

  /** A call of run `i` raises. The open transaction is rolled back, unless the call was the
      commit and it took effect before the connection reported the failure. */
  ghost predicate Fails(s: State, i: nat, s': State)
    requires i < |s.runs|
  {
    var pc := s.runs[i];
    if pc.Over() then false
    else if !pc.HoldsLock() then s' == s.To(i, Finished(Raised))
    else
      && !pc.Unlock?
      && (|| s' == s.To(i, Unlock(Raised))
          || (&& Commits(pc)
              && s' == s.To(i, Unlock(Raised)).(db := CommitWrites(s.db, pc.writes))))
  }

  /** The process of run `i` is killed, whatever it was doing. */
  ghost predicate IsKilled(s: State, i: nat, s': State)
    requires i < |s.runs|
  {
    !s.runs[i].Over() && s' == s.To(i, Killed).(owner := if s.owner == Some(i) then None else s.owner)
  }

  ghost predicate StepOf(m: Manifest, s: State, i: nat, s': State)
    requires i < |s.runs|
  {
    Proceeds(m, s, i, s') || Fails(s, i, s') || IsKilled(s, i, s')
  }

  ghost predicate Next(m: Manifest, s: State, s': State) {
    exists i: nat | i < |s.runs| :: StepOf(m, s, i, s')
  }

  ghost predicate IsHistory(m: Manifest, h: seq<State>) {
    && |h| > 0
    && h[0].owner.None?
    && (forall i | 0 <= i < |h[0].runs| :: h[0].runs[i] == Start)
    && (forall t | 0 <= t < |h| - 1 :: Next(m, h[t], h[t + 1]))
  }

  // ---------------------------------------------------------------------------------------
  // The invariant
  // ---------------------------------------------------------------------------------------

  ghost predicate AllRecorded(m: Manifest, ledger: Ledger, j: nat)
    requires j <= |m.active|
  {
    forall t | 0 <= t < j :: m.active[t].version in ledger
  }

  /** The run is past preflight, migrations below `j` are recorded, and it committed the last
      of them itself: those in `applied`. */
  ghost predicate UpTo(m: Manifest, ledger: Ledger, j: nat, applied: seq<string>) {
    && j <= |m.active|
    && Eligible(m, ledger)
    && AllRecorded(m, ledger, j)
    && |applied| <= j
    && applied == Versions(m.active, j - |applied|, j)
    && (applied != [] && j < |m.active| ==> m.active[j].version !in ledger)
  }

  ghost predicate PcInv(m: Manifest, ledger: Ledger, pc: Pc) {
    match pc
    case WaitLock => m.bootstrap in ledger
    case Preflight(rows) =>
      && m.bootstrap in ledger
      && |rows| <= |m.active|
      && (forall t | 0 <= t < |rows| :: rows[t] == Lookup(ledger, m.active[t].version))
      && (forall t | 0 <= t < |rows| :: RowError(rows[t], m.active[t]).None?)
    case AtMigration(j, applied) => UpTo(m, ledger, j, applied)
    case BeforeTransaction(j, applied) =>
      UpTo(m, ledger, j, applied) && j < |m.active| && m.active[j].version !in ledger && m.active[j].sql != ""
    case InTransaction(j, applied, writes) =>
      && UpTo(m, ledger, j, applied) && j < |m.active| && m.active[j].version !in ledger && m.active[j].sql != ""
      && writes <= [Executed(m.active[j].sql), RowInserted(m.active[j].version, m.active[j].checksum)]
    case Unlock(Applied(vs)) => UpTo(m, ledger, |m.active|, vs)
    case Finished(Applied(vs)) => UpTo(m, ledger, |m.active|, vs)
    case _ => true
  }

  ghost predicate LockInv(s: State) {
    && (s.owner.Some? ==> s.owner.value < |s.runs|)
    && (forall i | 0 <= i < |s.runs| :: s.runs[i].HoldsLock() <==> s.owner == Some(i))
  }

  ghost predicate NoSharedReport(s: State) {
    forall i, j | 0 <= i < |s.runs| && 0 <= j < |s.runs| && i != j ::
      Disjoint(s.runs[i].Reported(), s.runs[j].Reported())
  }

  ghost predicate Disjoint(a: seq<string>, b: seq<string>) {
    forall v :: v in a ==> v !in b
  }

  ghost predicate NewReport(ledger: Ledger, pc: Pc) {
    forall v | v in pc.Reported() :: v !in ledger
  }

  ghost predicate Inv(m: Manifest, start: Database, s: State) {
    && LockInv(s)
    && (exists k: nat :: Advanced(m, start, s.db, k))
    && (forall i | 0 <= i < |s.runs| :: PcInv(m, s.db.ledger, s.runs[i]))
    && NoSharedReport(s)
    && (forall i | 0 <= i < |s.runs| :: NewReport(start.ledger, s.runs[i]))
  }

  lemma {:induction false} VersionsSnoc(active: seq<Migration>, i: nat, j: nat)
    requires i <= j < |active|
    decreases j - i
    ensures Versions(active, i, j + 1) == Versions(active, i, j) + [active[j].version]
  {
    if i < j {
      VersionsSnoc(active, i + 1, j);
    }
  }

  lemma ReportedIsRecorded(m: Manifest, ledger: Ledger, pc: Pc)
    requires PcInv(m, ledger, pc)
    ensures forall v | v in pc.Reported() :: v in ledger
  {
  }

  /** Steps that leave the ledger and the schema alone. */
  lemma QuietStep(m: Manifest, start: Database, s: State, i: nat, s': State)
    requires Inv(m, start, s) && i < |s.runs| == |s'.runs| && LockInv(s')
    requires s'.runs == s.runs[i := s'.runs[i]] && s'.db == s.db.(hasLedger := s'.db.hasLedger)
    requires PcInv(m, s.db.ledger, s'.runs[i])
    requires s'.runs[i].Reported() == s.runs[i].Reported() || s'.runs[i].Reported() == []
    ensures Inv(m, start, s')
  {
    var k: nat :| Advanced(m, start, s.db, k);
    assert Advanced(m, start, s'.db, k);
  }

  lemma CommitWritesIs(db: Database, mig: Migration)
    ensures CommitWrites(db, [Executed(mig.sql), RowInserted(mig.version, mig.checksum)]) == Commit(db, mig)
  {
    var writes := [Executed(mig.sql), RowInserted(mig.version, mig.checksum)];
    assert writes[..1] == [Executed(mig.sql)];
    assert CommitWrites(db, writes[..1]) == db.(schema := db.schema + [mig.sql]);
  }

  /** What the other runs know survives a commit, and they have not committed that version. */
  lemma OthersUnaffected(m: Manifest, s: State, i: nat, j: nat)
    requires i < |s.runs| && j < |s.runs| && i != j
    requires LockInv(s) && s.runs[i].InTransaction?
    requires PcInv(m, s.db.ledger, s.runs[i]) && PcInv(m, s.db.ledger, s.runs[j])
    ensures
      var mig := m.active[s.runs[i].i];
      && PcInv(m, Commit(s.db, mig).ledger, s.runs[j])
      && mig.version !in s.runs[j].Reported()
  {
    ReportedIsRecorded(m, s.db.ledger, s.runs[j]);
    assert !s.runs[j].HoldsLock();
  }

  /** What a commit does to the database, given what its run knows. */
  lemma CommitDb(m: Manifest, start: Database, db: Database, pc: Pc)
    requires DistinctVersions(m.active)
    requires exists k: nat :: Advanced(m, start, db, k)
    requires PcInv(m, db.ledger, pc) && Commits(pc)
    ensures CommitWrites(db, pc.writes) == Commit(db, m.active[pc.i])
    ensures Advanced(m, start, Commit(db, m.active[pc.i]), pc.i + 1) && Eligible(m, start.ledger)
    ensures m.active[pc.i].version !in start.ledger
  {
    var mig := m.active[pc.i];
    CommitWritesIs(db, mig);
    assert pc.writes == [Executed(mig.sql), RowInserted(mig.version, mig.checksum)];
    var k: nat :| Advanced(m, start, db, k);
    NextIsTheOnlyOne(m, start, db, k, pc.i);
    CommitAdvances(m, start, db, k);
  }

  lemma CommitPc(m: Manifest, start: Database, db: Database, pc: Pc)
    requires DistinctVersions(m.active)
    requires PcInv(m, db.ledger, pc) && Commits(pc)
    requires Advanced(m, start, Commit(db, m.active[pc.i]), pc.i + 1) && Eligible(m, start.ledger)
    ensures PcInv(m, Commit(db, m.active[pc.i]).ledger, NextPc(m, db.ledger, pc))
    ensures NextPc(m, db.ledger, pc).Reported() == pc.Reported() + [m.active[pc.i].version]
  {
    AdvancedHistory(m, start, Commit(db, m.active[pc.i]), pc.i + 1);
    VersionsSnoc(m.active, pc.i - |pc.applied|, pc.i);
  }

  lemma ReportsStayApart(s: State, s': State, i: nat, version: string)
    requires NoSharedReport(s) && i < |s.runs| == |s'.runs| && s'.runs == s.runs[i := s'.runs[i]]
    requires forall v | v in s'.runs[i].Reported() :: v in s.runs[i].Reported() || v == version
    requires forall j | 0 <= j < |s.runs| && j != i :: version !in s.runs[j].Reported()
    ensures NoSharedReport(s')
  {
  }

  /** The one kind of step that writes: a commit, acknowledged or not. */
  lemma {:induction false} CommitStep(m: Manifest, start: Database, s: State, i: nat, s': State)
    requires Inv(m, start, s) && LockInv(s')
    requires i < |s.runs| == |s'.runs| && PcInv(m, s.db.ledger, s.runs[i]) && Commits(s.runs[i])
    requires s'.runs == s.runs[i := s'.runs[i]] && s'.db == Commit(s.db, m.active[s.runs[i].i])
    requires Advanced(m, start, s'.db, s.runs[i].i + 1) && PcInv(m, s'.db.ledger, s'.runs[i])
    requires s'.runs[i].Reported() in {[], s.runs[i].Reported() + [m.active[s.runs[i].i].version]}
    requires m.active[s.runs[i].i].version !in start.ledger
    ensures Inv(m, start, s')
  {
    forall j | 0 <= j < |s.runs| && j != i
      ensures PcInv(m, s'.db.ledger, s.runs[j])
      ensures m.active[s.runs[i].i].version !in s.runs[j].Reported()
    {
      OthersUnaffected(m, s, i, j);
    }
    ReportsStayApart(s, s', i, m.active[s.runs[i].i].version);
  }

  lemma PreflightPassed(m: Manifest, ledger: Ledger, rows: seq<Option<Option<string>>>)
    requires PcInv(m, ledger, Preflight(rows)) && |rows| == |m.active| && !GapInRows(rows)
    ensures UpTo(m, ledger, 0, [])
  {
    assert forall t | 0 <= t < |m.active| :: rows[t].Some? <==> m.active[t].version in ledger;
    assert GapFree(ledger, m.active);
  }

  lemma QuietPc(m: Manifest, ledger: Ledger, pc: Pc)
    requires PcInv(m, ledger, pc) && !Commits(pc) && !pc.Over()
    ensures PcInv(m, ledger, NextPc(m, ledger, pc))
    ensures NextPc(m, ledger, pc).Reported() in {pc.Reported(), []}
  {
    if pc.Preflight? && |pc.rows| == |m.active| && !GapInRows(pc.rows) {
      PreflightPassed(m, ledger, pc.rows);
    } else if pc.AtMigration? && pc.i < |m.active| {
      assert RowError(Lookup(ledger, m.active[pc.i].version), m.active[pc.i]).None?;
    }
  }

  lemma LockStep(m: Manifest, s: State, i: nat, s': State)
    requires LockInv(s) && i < |s.runs| && StepOf(m, s, i, s')
    ensures LockInv(s')
  {
    assert forall j | 0 <= j < |s.runs| && j != i :: s'.runs[j] == s.runs[j];
  }

  lemma WriteKeepsInv(m: Manifest, start: Database, s: State, i: nat, s': State)
    requires DistinctVersions(m.active) && Inv(m, start, s) && LockInv(s')
    requires i < |s.runs| && PcInv(m, s.db.ledger, s.runs[i]) && Commits(s.runs[i])
    requires s'.db == CommitWrites(s.db, s.runs[i].writes)
    requires s'.runs == s.runs[i := Unlock(Raised)] || s'.runs == s.runs[i := NextPc(m, s.db.ledger, s.runs[i])]
    ensures Inv(m, start, s')
  {
    CommitDb(m, start, s.db, s.runs[i]);
    CommitPc(m, start, s.db, s.runs[i]);
    CommitStep(m, start, s, i, s');
  }

  lemma CallKeepsInv(m: Manifest, start: Database, s: State, i: nat, s': State)
    requires DistinctVersions(m.active) && Inv(m, start, s) && LockInv(s')
    requires i < |s.runs| && Proceeds(m, s, i, s')
    ensures Inv(m, start, s')
  {
    assert PcInv(m, s.db.ledger, s.runs[i]);
    if Commits(s.runs[i]) {
      WriteKeepsInv(m, start, s, i, s');
    } else {
      QuietPc(m, s.db.ledger, s.runs[i]);
      QuietStep(m, start, s, i, s');
    }
  }

  lemma {:induction false} FailureKeepsInv(m: Manifest, start: Database, s: State, i: nat, s': State)
    requires DistinctVersions(m.active) && Inv(m, start, s) && LockInv(s')
    requires i < |s.runs| && (Fails(s, i, s') || IsKilled(s, i, s'))
    ensures Inv(m, start, s')
  {
    FailureIs(m, start, s, i, s');
    hide Inv, LockInv, PcInv, CommitWrites, Fails, IsKilled, DistinctVersions;
    if s'.db == s.db {
      QuietStep(m, start, s, i, s');
    } else {
      WriteKeepsInv(m, start, s, i, s');
    }
  }

  lemma FailureIs(m: Manifest, start: Database, s: State, i: nat, s': State)
    requires Inv(m, start, s) && i < |s.runs| && (Fails(s, i, s') || IsKilled(s, i, s'))
    ensures |s'.runs| == |s.runs| && s'.runs == s.runs[i := s'.runs[i]] && s'.runs[i].Reported() == []
    ensures PcInv(m, s.db.ledger, s.runs[i]) && PcInv(m, s.db.ledger, s'.runs[i])
    ensures s'.db == s.db || (Commits(s.runs[i]) && s'.db == CommitWrites(s.db, s.runs[i].writes)
                              && s'.runs == s.runs[i := Unlock(Raised)])
  {
    hide CommitWrites;
  }

  lemma StepKeepsInv(m: Manifest, start: Database, s: State, i: nat, s': State)
    requires DistinctVersions(m.active) && Inv(m, start, s)
    requires i < |s.runs| && StepOf(m, s, i, s')
    ensures Inv(m, start, s')
  {
    LockStep(m, s, i, s');
    if Proceeds(m, s, i, s') {
      CallKeepsInv(m, start, s, i, s');
    } else {
      FailureKeepsInv(m, start, s, i, s');
    }
  }

  // ---------------------------------------------------------------------------------------
  // What holds in every history
  // ---------------------------------------------------------------------------------------

  lemma InitInv(m: Manifest, s: State)
    requires s.owner.None? && forall i | 0 <= i < |s.runs| :: s.runs[i] == Start
    ensures Inv(m, s.db, s)
  {
    assert Advanced(m, s.db, s.db, Recorded(s.db.ledger, m.active));
  }

  lemma NextKeepsInv(m: Manifest, start: Database, s: State, s': State)
    requires DistinctVersions(m.active) && Inv(m, start, s) && Next(m, s, s')
    ensures Inv(m, start, s')
  {
    var i: nat :| i < |s.runs| && StepOf(m, s, i, s');
    StepKeepsInv(m, start, s, i, s');
  }

  lemma {:induction false} HistoryInv(m: Manifest, h: seq<State>, t: nat)
    requires DistinctVersions(m.active) && IsHistory(m, h) && t < |h|
    ensures Inv(m, h[0].db, h[t])
  {
    if t == 0 {
      InitInv(m, h[0]);
    } else {
      HistoryInv(m, h, t - 1);
      NextKeepsInv(m, h[0].db, h[t - 1], h[t]);
    }
  }

  /**
   Safety over every interleaving, with failures and kills anywhere. At every moment the
   database is the starting one advanced to some migration `k`: the recorded versions added
   are a contiguous piece of manifest order, each committed once, and the schema is the
   starting schema followed by exactly their statements. A database whose history preflight
   rejects, or that has no bootstrap marker, keeps its rows and its schema for ever. No
   statement of a frozen migration is ever among those committed.
   */
  lemma Safety(m: Manifest, h: seq<State>, t: nat) returns (k: nat)
    requires DistinctVersions(m.active) && IsHistory(m, h) && t < |h|
    ensures Advanced(m, h[0].db, h[t].db, k)
    ensures h[t].db.schema == h[0].db.schema + Statements(m.active, Recorded(h[0].db.ledger, m.active), k)
    ensures Eligible(m, h[0].db.ledger) ==>
      forall i | 0 <= i < |m.active| :: m.active[i].version in h[t].db.ledger <==> i < k
    ensures !Eligible(m, h[0].db.ledger) ==> h[t].db == h[0].db.(hasLedger := h[t].db.hasLedger)
    ensures forall j | Recorded(h[0].db.ledger, m.active) <= j < k :: !m.active[j].frozen
  {
    HistoryInv(m, h, t);
    k :| Advanced(m, h[0].db, h[t].db, k);
    ReplaySchema(m.active, h[0].db, Recorded(h[0].db.ledger, m.active), k);
    if Eligible(m, h[0].db.ledger) {
      AdvancedHistory(m, h[0].db, h[t].db, k);
    }
  }

  /** No run ever executes a statement of a frozen migration, not even in a transaction that is
      rolled back later: none is ever open for one. */
  lemma FrozenNeverExecuted(m: Manifest, h: seq<State>, t: nat, i: nat)
    requires DistinctVersions(m.active) && IsHistory(m, h) && t < |h|
    requires i < |h[t].runs| && h[t].runs[i].InTransaction?
    ensures h[t].runs[i].i < |m.active| && !m.active[h[t].runs[i].i].frozen
    ensures forall sql | Executed(sql) in h[t].runs[i].writes :: sql == m.active[h[t].runs[i].i].sql
  {
    HistoryInv(m, h, t);
    var pc := h[t].runs[i];
    assert PcInv(m, h[t].db.ledger, pc);
    assert RowError(Lookup(h[t].db.ledger, m.active[pc.i].version), m.active[pc.i]).None?;
    var plan := [Executed(m.active[pc.i].sql), RowInserted(m.active[pc.i].version, m.active[pc.i].checksum)];
    assert forall w | w in pc.writes :: w in plan;
  }

  /** At most one run is between taking the advisory lock and giving it back. */
  lemma MutualExclusion(m: Manifest, h: seq<State>, t: nat, i: nat, j: nat)
    requires DistinctVersions(m.active) && IsHistory(m, h) && t < |h|
    requires i < |h[t].runs| && j < |h[t].runs|
    requires h[t].runs[i].HoldsLock() && h[t].runs[j].HoldsLock()
    ensures i == j
  {
    HistoryInv(m, h, t);
  }

  lemma {:induction false} VersionsTail(active: seq<Migration>, i: nat, j: nat, k: nat)
    requires i <= j <= k <= |active|
    ensures Versions(active, i, k)[j - i..] == Versions(active, j, k)
    decreases j - i
  {
    if i < j {
      VersionsTail(active, i + 1, j, k);
    }
  }

  /** A run that got to the end left nothing missing. */
  lemma NothingMissing(m: Manifest, start: Database, db: Database, k: nat, vs: seq<string>)
    requires DistinctVersions(m.active)
    requires Advanced(m, start, db, k) && UpTo(m, db.ledger, |m.active|, vs)
    requires forall v | v in vs :: v !in start.ledger
    ensures Eligible(m, start.ledger) && k == |m.active|
    ensures Recorded(start.ledger, m.active) <= k - |vs|
  {
    assert Eligible(m, start.ledger);
    AdvancedHistory(m, start, db, k);
    GapFreePrefix(start.ledger, m.active);
    if vs != [] {
      assert vs[0] in vs && vs[0] == m.active[|m.active| - |vs|].version;
    }
  }

  ghost predicate OneShotTail(m: Manifest, start: Database, db: Database, vs: seq<string>) {
    var (end, r) := ApplyMigrations(m, start, {});
    r.Success? && db == end.(hasLedger := db.hasLedger) && IsTail(vs, r.value)
  }

  predicate IsTail(a: seq<string>, b: seq<string>) {
    |a| <= |b| && a == b[|b| - |a|..]
  }

  lemma VersionsAreTail(active: seq<Migration>, i: nat, j: nat)
    requires i <= j <= |active|
    ensures IsTail(Versions(active, j, |active|), Versions(active, i, |active|))
  {
    VersionsTail(active, i, j, |active|);
  }

  lemma EndIsOneShot(m: Manifest, start: Database, db: Database, k: nat, vs: seq<string>)
    requires DistinctVersions(m.active)
    requires Advanced(m, start, db, k) && UpTo(m, db.ledger, |m.active|, vs)
    requires forall v | v in vs :: v !in start.ledger
    ensures OneShotTail(m, start, db, vs)
  {
    NothingMissing(m, start, db, k, vs);
    assert |vs| <= |m.active| && vs == Versions(m.active, |m.active| - |vs|, |m.active|);
    hide Eligible, DistinctVersions, Advanced, UpTo, ApplyMigrations, Recorded;
    var all := Versions(m.active, Recorded(start.ledger, m.active), |m.active|);
    assert IsTail(vs, all) by {
      VersionsAreTail(m.active, Recorded(start.ledger, m.active), k - |vs|);
    }
    assert ApplyMigrations(m, start, {}) == (db.(hasLedger := true), Success(all)) by {
      CleanRun(m, start, db);
    }
  }

  /** Once any run has returned, the database is the one a single undisturbed run would have
      left, and what was returned is the tail of that run's report which this run committed. */
  lemma ReturnedMeansOneShot(m: Manifest, h: seq<State>, t: nat, i: nat)
    requires DistinctVersions(m.active) && IsHistory(m, h) && t < |h|
    requires i < |h[t].runs| && h[t].runs[i].Finished? && h[t].runs[i].outcome.Applied?
    ensures OneShotTail(m, h[0].db, h[t].db, h[t].runs[i].outcome.versions)
  {
    HistoryInv(m, h, t);
    assert PcInv(m, h[t].db.ledger, h[t].runs[i]) && NewReport(h[0].db.ledger, h[t].runs[i]);
    var k: nat :| Advanced(m, h[0].db, h[t].db, k);
    EndIsOneShot(m, h[0].db, h[t].db, k, h[t].runs[i].outcome.versions);
  }

  /** No version is committed and reported by two runs. */
  lemma ReportedOnce(m: Manifest, h: seq<State>, t: nat, i: nat, j: nat, version: string)
    requires DistinctVersions(m.active) && IsHistory(m, h) && t < |h|
    requires i < |h[t].runs| && j < |h[t].runs| && i != j
    requires version in h[t].runs[i].Reported()
    ensures version !in h[t].runs[j].Reported()
  {
    HistoryInv(m, h, t);
    assert Disjoint(h[t].runs[i].Reported(), h[t].runs[j].Reported());
  }

  /** Whatever was interrupted, one clean run from here completes the job: it ends exactly
      where one clean run from the start would have ended. */
  lemma Recovery(m: Manifest, h: seq<State>, t: nat)
    requires DistinctVersions(m.active) && IsHistory(m, h) && t < |h|
    requires ApplyMigrations(m, h[0].db, {}).1.Success?
    ensures
      var (end, r) := ApplyMigrations(m, h[t].db, {});
      r.Success? && end == ApplyMigrations(m, h[0].db, {}).0
  {
    var k := Safety(m, h, t);
    RunOutcome(m, h[0].db, {});
    ResumedRun(m, h[0].db, h[t].db, k);
  }

  /** While a run is unfinished, some run can make its next call: waiting for the lock never
      turns into waiting for ever on a run that is gone. */
  lemma NoDeadlock(m: Manifest, h: seq<State>, t: nat, i: nat) returns (j: nat, s': State)
    requires DistinctVersions(m.active) && IsHistory(m, h) && t < |h|
    requires i < |h[t].runs| && !h[t].runs[i].Over()
    ensures j < |h[t].runs| && Proceeds(m, h[t], j, s')
  {
    HistoryInv(m, h, t);
    var s := h[t];
    j := if s.owner.Some? then s.owner.value else i;
    var pc := s.runs[j];
    assert PcInv(m, s.db.ledger, pc);
    s' := State(
      if pc.Start? then s.db.(hasLedger := true) else if Commits(pc) then CommitWrites(s.db, pc.writes) else s.db,
      if pc.WaitLock? then Some(j) else if pc.Unlock? then None else s.owner,
      s.runs[j := NextPc(m, s.db.ledger, pc)]);
  }
}
