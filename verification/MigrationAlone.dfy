/** A migration run that nothing disturbs, inside the interleaved machine: its own calls, one after
    the other, are the one-shot run. */
module MigrationAlone {
  import opened Common
  import opened Migrations
  import opened MigrationRuns

  /** A run that is about to execute a statement, or does, is at an entry of the manifest. */
  predicate InRange(m: Manifest, pc: Pc) {
    pc.BeforeTransaction? || pc.InTransaction? ==> pc.i < |m.active|
  }

  /** How many calls are left at most. */
  function Rank(m: Manifest, pc: Pc): nat {
    var n := |m.active|;
    match pc
    case Start => 7 * n + 9
    case CheckMarker => 7 * n + 8
    case WaitLock => 7 * n + 7
    case Preflight(rows) => 6 * n + 6 + if |rows| < n then n - |rows| else 0
    case AtMigration(j, _) => 5 + if j < n then 6 * (n - j) else 0
    case BeforeTransaction(j, _) => 4 + if j < n then 6 * (n - j) else 0
    case InTransaction(j, _, writes) =>
      1 + (if j < n then 6 * (n - j) else 0) + if |writes| < 2 then 2 - |writes| else 0
    case Unlock(_) => 1
    case _ => 0
  }

  /** The next call of run `i`: it raises if it executes the statement of a version in `faults`, and
      otherwise does what it should. */
  function StepAlone(m: Manifest, s: State, i: nat, faults: set<string>): State
    requires i < |s.runs| && InRange(m, s.runs[i])
  {
    var pc := s.runs[i];
    if pc.InTransaction? && pc.writes == [] && m.active[pc.i].version in faults then s.To(i, Unlock(Raised))
    else
      State(if pc.Start? then s.db.(hasLedger := true) else if Commits(pc) then CommitWrites(s.db, pc.writes) else s.db,
            if pc.WaitLock? then Some(i) else if pc.Unlock? then None else s.owner,
            s.runs[i := NextPc(m, s.db.ledger, pc)])
  }

  lemma StepGoesOn(m: Manifest, s: State, i: nat, faults: set<string>)
    requires i < |s.runs| && InRange(m, s.runs[i]) && !s.runs[i].Over()
    ensures
      var s' := StepAlone(m, s, i, faults);
      |s'.runs| == |s.runs| && InRange(m, s'.runs[i]) && Rank(m, s'.runs[i]) < Rank(m, s.runs[i])
  {
    hide CommitWrites, RowError, GapInRows;
  }

  /** Where the calls of run `i` alone take the database and the run. */
  function EndAlone(m: Manifest, s: State, i: nat, faults: set<string>): State
    requires i < |s.runs| && InRange(m, s.runs[i])
    decreases Rank(m, s.runs[i])
  {
    if s.runs[i].Over() then s
    else
      StepGoesOn(m, s, i, faults);
      EndAlone(m, StepAlone(m, s, i, faults), i, faults)
  }

  // ---------------------------------------------------------------------------------------
  // These calls are steps of the machine
  // ---------------------------------------------------------------------------------------

  /** The lock is free or the run's own, as its place says. */
  ghost predicate Undisturbed(s: State, i: nat)
    requires i < |s.runs|
  {
    s.owner == if s.runs[i].HoldsLock() then Some(i) else None
  }

  lemma StepIsCall(m: Manifest, s: State, i: nat, faults: set<string>)
    requires i < |s.runs| && InRange(m, s.runs[i]) && !s.runs[i].Over() && Undisturbed(s, i)
    ensures
      var s' := StepAlone(m, s, i, faults);
      Next(m, s, s') && |s'.runs| == |s.runs| && Undisturbed(s', i)
  {
    hide CommitWrites, RowError, GapInRows;
    var s' := StepAlone(m, s, i, faults);
    assert StepOf(m, s, i, s') by {
      if s.runs[i].InTransaction? && s.runs[i].writes == [] && m.active[s.runs[i].i].version in faults {
        assert Fails(s, i, s');
      } else {
        assert Proceeds(m, s, i, s');
      }
    }
  }

  /** So every history can go on with them. */
  lemma {:induction false} HistoryGoesOn(m: Manifest, h: seq<State>, i: nat, faults: set<string>)
    returns (h': seq<State>)
    requires IsHistory(m, h) && i < |h[|h| - 1].runs|
    requires InRange(m, h[|h| - 1].runs[i]) && Undisturbed(h[|h| - 1], i)
    ensures IsHistory(m, h') && h <= h' && h'[|h'| - 1] == EndAlone(m, h[|h| - 1], i, faults)
    decreases Rank(m, h[|h| - 1].runs[i])
  {
    hide Next, StepAlone, Undisturbed, InRange, Rank;
    var s := h[|h| - 1];
    h' := h;
    if !s.runs[i].Over() {
      StepGoesOn(m, s, i, faults);
      StepIsCall(m, s, i, faults);
      h' := HistoryGoesOn(m, h + [StepAlone(m, s, i, faults)], i, faults);
    }
  }

  // ---------------------------------------------------------------------------------------
  // And they are the one-shot run
  // ---------------------------------------------------------------------------------------

  function OutcomeOf(r: Result<seq<string>, Error>): Outcome {
    if r.Success? then Applied(r.value) else Raised
  }

  function Ended(s: State, i: nat, db: Database, outcome: Outcome): State
    requires i < |s.runs|
  {
    State(db, None, s.runs[i := Finished(outcome)])
  }

  lemma UnlockEnds(m: Manifest, s: State, i: nat, faults: set<string>)
    requires i < |s.runs| && s.runs[i].Unlock?
    ensures EndAlone(m, s, i, faults) == Ended(s, i, s.db, s.runs[i].outcome)
  {
    var s' := StepAlone(m, s, i, faults);
    assert s'.runs[i] == Finished(s.runs[i].outcome);
    assert EndAlone(m, s, i, faults) == EndAlone(m, s', i, faults) == s';
  }

  lemma Goes(m: Manifest, s: State, i: nat, faults: set<string>, s': State)
    requires i < |s.runs| && InRange(m, s.runs[i]) && !s.runs[i].Over() && s' == StepAlone(m, s, i, faults)
    ensures |s'.runs| == |s.runs| && InRange(m, s'.runs[i])
    ensures EndAlone(m, s, i, faults) == EndAlone(m, s', i, faults)
  {
    StepGoesOn(m, s, i, faults);
    hide StepAlone;
  }

  /** The transaction of one entry: committed, or rolled back if its statement fails. */
  lemma TransactionEnds(m: Manifest, s: State, i: nat, faults: set<string>)
    requires i < |s.runs| && s.runs[i].BeforeTransaction? && s.runs[i].i < |m.active|
    requires m.active[s.runs[i].i].version !in s.db.ledger
    ensures
      var j, applied, mig := s.runs[i].i, s.runs[i].applied, m.active[s.runs[i].i];
      EndAlone(m, s, i, faults)
      == if mig.version in faults then Ended(s, i, s.db, Raised)
         else EndAlone(m, s.To(i, AtMigration(j + 1, applied + [mig.version])).(db := Commit(s.db, mig)), i, faults)
  {
    var j, applied, mig := s.runs[i].i, s.runs[i].applied, m.active[s.runs[i].i];
    var writes := [Executed(mig.sql), RowInserted(mig.version, mig.checksum)];
    var s1 := s.To(i, InTransaction(j, applied, []));
    Goes(m, s, i, faults, s1);
    if mig.version in faults {
      Goes(m, s1, i, faults, s.To(i, Unlock(Raised)));
      UnlockEnds(m, s.To(i, Unlock(Raised)), i, faults);
    } else {
      var s2 := s.To(i, InTransaction(j, applied, [Executed(mig.sql)]));
      var s3 := s.To(i, InTransaction(j, applied, writes));
      assert writes == [Executed(mig.sql)] + [RowInserted(mig.version, mig.checksum)];
      CommitWritesIs(s.db, mig);
      Goes(m, s1, i, faults, s2);
      Goes(m, s2, i, faults, s3);
      Goes(m, s3, i, faults, s.To(i, AtMigration(j + 1, applied + [mig.version])).(db := Commit(s.db, mig)));
    }
  }

  lemma {:induction false} MigrationsEnd(m: Manifest, s: State, i: nat, faults: set<string>)
    requires i < |s.runs| && s.runs[i].AtMigration? && s.runs[i].i <= |m.active|
    ensures
      var (db, r) := ApplyFrom(m, s.db, s.runs[i].i, s.runs[i].applied, faults);
      EndAlone(m, s, i, faults) == Ended(s, i, db, OutcomeOf(r))
    decreases Rank(m, s.runs[i])
  {
    hide CommitWrites, EndAlone;
    var j, applied := s.runs[i].i, s.runs[i].applied;
    var s' := StepAlone(m, s, i, faults);
    Goes(m, s, i, faults, s');
    if s'.runs[i].Unlock? {
      UnlockEnds(m, s', i, faults);
    } else if s'.runs[i].AtMigration? {
      MigrationsEnd(m, s', i, faults);
    } else {
      TransactionEnds(m, s', i, faults);
      var mig := m.active[j];
      if mig.version !in faults {
        MigrationsEnd(m, s'.To(i, AtMigration(j + 1, applied + [mig.version])).(db := Commit(s.db, mig)), i, faults);
      }
    }
  }

  /** What the remaining rows of preflight find. */
  lemma {:induction false} RowsEnd(m: Manifest, s: State, i: nat, faults: set<string>)
    requires i < |s.runs| && s.runs[i].Preflight? && |s.runs[i].rows| <= |m.active|
    requires forall t | 0 <= t < |s.runs[i].rows| :: s.runs[i].rows[t] == Lookup(s.db.ledger, m.active[t].version)
    requires forall t | 0 <= t < |s.runs[i].rows| :: RowError(s.runs[i].rows[t], m.active[t]).None?
    ensures
      var (db, r) := ApplyFrom(m, s.db, 0, [], faults);
      EndAlone(m, s, i, faults)
      == if PreflightOk(s.db.ledger, m.active) then Ended(s, i, db, OutcomeOf(r)) else Ended(s, i, s.db, Raised)
    decreases Rank(m, s.runs[i])
  {
    hide CommitWrites, EndAlone, ApplyFrom, RowError, GapInRows;
    var rows, s' := s.runs[i].rows, StepAlone(m, s, i, faults);
    Goes(m, s, i, faults, s');
    if |rows| < |m.active| {
      if s'.runs[i].Unlock? {
        assert RowError(Lookup(s.db.ledger, m.active[|rows|].version), m.active[|rows|]).Some?;
        UnlockEnds(m, s', i, faults);
      } else {
        RowsEnd(m, s', i, faults);
      }
    } else {
      GapsAre(s.db.ledger, m.active, rows);
      if s'.runs[i].Unlock? {
        UnlockEnds(m, s', i, faults);
      } else {
        MigrationsEnd(m, s', i, faults);
      }
    }
  }

  lemma GapsAre(ledger: Ledger, active: seq<Migration>, rows: seq<Option<Option<string>>>)
    requires |rows| == |active| && forall t | 0 <= t < |rows| :: rows[t] == Lookup(ledger, active[t].version)
    ensures GapInRows(rows) <==> !GapFree(ledger, active)
  {
    if GapInRows(rows) {
      var a, b :| 0 <= a < b < |rows| && rows[a].None? && rows[b].Some?;
      assert active[b].version in ledger && active[a].version !in ledger;
    } else {
      forall a, b | 0 <= a < b < |active| && active[b].version in ledger ensures active[a].version in ledger {
        assert rows[b].Some?;
      }
    }
  }

  /**
   From every state whose lock is free, whatever other runs have done and left behind: the calls
   of a run that starts now, undisturbed but for the statements that fail, end as the one-shot
   run does. It leaves that run's database, returns exactly if that run succeeds, and then the
   same list; and the lock is free again.
   */
  lemma AloneIsOneShot(m: Manifest, s: State, i: nat, faults: set<string>)
    requires i < |s.runs| && s.runs[i] == Start && s.owner.None?
    ensures
      var (db, r) := ApplyMigrations(m, s.db, faults);
      EndAlone(m, s, i, faults) == State(db, None, s.runs[i := Finished(OutcomeOf(r))])
  {
    hide CommitWrites, EndAlone, ApplyFrom, RowError, GapInRows, PreflightVerdict;
    VerdictIff(s.db.ledger, m.active);
    var db := s.db.(hasLedger := true);
    var s1 := s.To(i, CheckMarker).(db := db);
    Goes(m, s, i, faults, s1);
    var s2 := StepAlone(m, s1, i, faults);
    Goes(m, s1, i, faults, s2);
    if m.bootstrap in db.ledger {
      var s3 := StepAlone(m, s2, i, faults);
      Goes(m, s2, i, faults, s3);
      RowsEnd(m, s3, i, faults);
    } else {
      OverEnds(m, s2, i, faults);
    }
  }

  lemma OverEnds(m: Manifest, s: State, i: nat, faults: set<string>)
    requires i < |s.runs| && s.runs[i].Over()
    ensures EndAlone(m, s, i, faults) == s
  {
  }

  /** Whatever has happened, a run that starts while the lock is free can still return: there is a
      way on from here in which it does, if a one-shot run from here would. */
  lemma RunCanReturn(m: Manifest, h: seq<State>, i: nat) returns (h': seq<State>)
    requires IsHistory(m, h) && i < |h[|h| - 1].runs| && h[|h| - 1].runs[i] == Start && h[|h| - 1].owner.None?
    ensures IsHistory(m, h') && h <= h'
    ensures
      var (db, r) := ApplyMigrations(m, h[|h| - 1].db, {});
      && h'[|h'| - 1].db == db && i < |h'[|h'| - 1].runs| && h'[|h'| - 1].runs[i] == Finished(OutcomeOf(r))
  {
    AloneIsOneShot(m, h[|h| - 1], i, {});
    hide EndAlone, IsHistory, ApplyMigrations;
    h' := HistoryGoesOn(m, h, i, {});
  }
}
