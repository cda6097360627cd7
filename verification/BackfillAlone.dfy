/** A staged copy that nothing disturbs, inside the interleaved machine; and how many batches any
    number of runs commit together when nothing fails. */
module BackfillAlone {
  import opened Common
  import opened Backfill
  import opened BackfillRuns
  import BackfillRunner

  // ---------------------------------------------------------------------------------------
  // One run alone
  // ---------------------------------------------------------------------------------------

  /** How many statements are left at most. */
  function Rank(c: Config, pc: Pc): nat
    requires Allowed(c)
  {
    match pc
    case Fresh => 5 * c.max + 3
    case Waiting => 5 * c.max + 2
    case Between(left) => 5 * left + 1
    case Open(left, _) => 5 * left + 5
    case Fetched(left, _, _) => 5 * left + 4
    case Inserted(left, _, _) => 5 * left + 3
    case Updated(left, _) => 5 * left + 2
    case Emptied(_) => 1
    case Over(_) => 0
  }

  lemma StepGoesOn(job: Job, c: Config, s: State, i: nat)
    requires i < |s.pcs| && Allowed(c) && !s.pcs[i].Over?
    ensures |Advance(job, c, s, i).pcs| == |s.pcs| && Rank(c, Advance(job, c, s, i).pcs[i]) < Rank(c, s.pcs[i])
  {
    hide Fetch, InsertAll, BatchAgrees, Advanced, Ensured;
  }

  /** Where the statements of run i alone take the database and the run. */
  function EndAlone(job: Job, c: Config, s: State, i: nat): State
    requires i < |s.pcs| && Allowed(c)
    decreases Rank(c, s.pcs[i])
  {
    if s.pcs[i].Over? then s
    else
      StepGoesOn(job, c, s, i);
      EndAlone(job, c, Advance(job, c, s, i), i)
  }

  /** Every event is a statement of run i. */
  predicate Only(schedule: seq<Event>, i: nat) {
    forall n | 0 <= n < |schedule| :: schedule[n] == Step(i)
  }

  /** The lock is free or the run's own, as its place says. */
  predicate Undisturbed(s: State, i: nat)
    requires i < |s.pcs|
  {
    s.owner == if s.pcs[i].Holds() then Some(i) else None
  }

  lemma StepIsEvent(job: Job, configs: seq<Config>, s: State, i: nat)
    requires i < |s.pcs| == |configs| && Allowed(configs[i]) && !s.pcs[i].Over? && Undisturbed(s, i)
    ensures Enabled(configs, s, Step(i)) && Apply(job, configs, s, Step(i)) == Advance(job, configs[i], s, i)
    ensures |Advance(job, configs[i], s, i).pcs| == |s.pcs| && Undisturbed(Advance(job, configs[i], s, i), i)
  {
    hide Fetch, InsertAll, BatchAgrees, Advanced, Ensured;
  }

  /** These statements are one of the interleavings. */
  lemma {:induction false} AloneIsRun(job: Job, configs: seq<Config>, s: State, i: nat) returns (schedule: seq<Event>)
    requires i < |s.pcs| == |configs| && Allowed(configs[i]) && Undisturbed(s, i)
    ensures Only(schedule, i) && Legal(job, configs, s, schedule)
    ensures Run(job, configs, s, schedule) == EndAlone(job, configs[i], s, i)
    decreases Rank(configs[i], s.pcs[i])
  {
    hide Advance, Apply, Undisturbed, Rank;
    schedule := [];
    if !s.pcs[i].Over? {
      StepGoesOn(job, configs[i], s, i);
      StepIsEvent(job, configs, s, i);
      var rest := AloneIsRun(job, configs, Advance(job, configs[i], s, i), i);
      schedule := [Step(i)] + rest;
      assert schedule[1..] == rest;
    }
  }

  // ---------------------------------------------------------------------------------------
  // It is the run as a function
  // ---------------------------------------------------------------------------------------

  function EndedAs(outcome: BackfillRunner.Outcome): Ended {
    match outcome
    case NotExhausted => Ended.NotExhausted
    case CopyExhausted(copied) => Ended.CopyExhausted(copied)
    case BatchMismatch => Ended.BatchMismatch
    case _ => Refused
  }

  /** The batches committed by the rest of a run. */
  function Committed(job: Job, db: Db, batch: nat, left: nat): nat
    decreases left
  {
    if left == 0 || !Batch(job, db, batch).Copied? then 0
    else 1 + Committed(job, Batch(job, db, batch).db, batch, left - 1)
  }

  lemma Goes(job: Job, c: Config, s: State, i: nat, s': State)
    requires i < |s.pcs| && Allowed(c) && !s.pcs[i].Over? && s' == Advance(job, c, s, i)
    ensures |s'.pcs| == |s.pcs| && EndAlone(job, c, s, i) == EndAlone(job, c, s', i)
  {
    StepGoesOn(job, c, s, i);
    hide Advance;
  }

  lemma OverEnds(job: Job, c: Config, s: State, i: nat)
    requires i < |s.pcs| && Allowed(c) && s.pcs[i].Over?
    ensures EndAlone(job, c, s, i) == s
  {
  }

  /** The statements of one transaction add up to one batch. */
  lemma TransactionEnds(job: Job, c: Config, s: State, i: nat)
    requires i < |s.pcs| && Allowed(c) && s.pcs[i].Between? && s.pcs[i].left > 0 && s.owner == Some(i)
    ensures
      EndAlone(job, c, s, i)
      == match Batch(job, s.db, c.batch)
         case Copied(db) =>
           EndAlone(job, c, State(db, s.owner, s.pcs[i := Between(s.pcs[i].left - 1)], s.commits + 1), i)
         case Exhausted(db, copied) => State(db, None, s.pcs[i := Over(CopyExhausted(copied))], s.commits)
         case Mismatch => State(s.db, None, s.pcs[i := Over(BatchMismatch)], s.commits)
  {
    hide Fetch, InsertAll, BatchAgrees, Advanced, EndAlone;
    var tx := Ensured(s.db);
    var rows := Fetch(job, CursorOf(tx), c.batch);
    var s1 := s.(pcs := s.pcs[i := Open(s.pcs[i].left - 1, tx)]);
    Goes(job, c, s, i, s1);
    var s2 := Advance(job, c, s1, i);
    Goes(job, c, s1, i, s2);
    var s3 := Advance(job, c, s2, i);
    Goes(job, c, s2, i, s3);
    if rows == [] {
      OverEnds(job, c, s3, i);
    } else {
      var s4 := Advance(job, c, s3, i);
      Goes(job, c, s3, i, s4);
      if s4.pcs[i].Over? {
        OverEnds(job, c, s4, i);
      } else {
        var s5 := Advance(job, c, s4, i);
        Goes(job, c, s4, i, s5);
        var db, pcs := Batch(job, s.db, c.batch).db, s.pcs[i := Between(s.pcs[i].left - 1)];
        assert s5 == State(db, s.owner, pcs, s.commits + 1);
      }
    }
  }

  lemma {:induction false} BatchesEnd(job: Job, c: Config, s: State, i: nat)
    requires i < |s.pcs| && Allowed(c) && s.pcs[i].Between? && s.owner == Some(i)
    ensures
      var (db, outcome) := BackfillRunner.RunFrom(job, s.db, c.batch, s.pcs[i].left);
      EndAlone(job, c, s, i)
      == State(db, None, s.pcs[i := Over(EndedAs(outcome))],
               s.commits + Committed(job, s.db, c.batch, s.pcs[i].left))
    decreases s.pcs[i].left
  {
    hide Batch, EndAlone;
    var left := s.pcs[i].left;
    if left == 0 {
      var s' := Advance(job, c, s, i);
      Goes(job, c, s, i, s');
      OverEnds(job, c, s', i);
    } else {
      TransactionEnds(job, c, s, i);
      var b := Batch(job, s.db, c.batch);
      if b.Copied? {
        BatchesEnd(job, c, State(b.db, s.owner, s.pcs[i := Between(left - 1)], s.commits + 1), i);
      }
    }
  }

  /**
   From every state whose lock is free, whatever other runs have done and left behind: the
   statements of a run that starts now, undisturbed, end with the database and the outcome of
   that run as a function, and with its batches committed; and the lock is free again.
   */
  lemma AloneIsRunFrom(job: Job, c: Config, s: State, i: nat)
    requires i < |s.pcs| && Allowed(c) && s.pcs[i].Fresh? && s.owner.None?
    ensures
      var (db, outcome) := BackfillRunner.RunFrom(job, s.db, c.batch, c.max);
      EndAlone(job, c, s, i)
      == State(db, None, s.pcs[i := Over(EndedAs(outcome))], s.commits + Committed(job, s.db, c.batch, c.max))
  {
    hide Batch, EndAlone;
    var s1 := Advance(job, c, s, i);
    Goes(job, c, s, i, s1);
    var s2 := Advance(job, c, s1, i);
    Goes(job, c, s1, i, s2);
    BatchesEnd(job, c, s2, i);
  }

  // ---------------------------------------------------------------------------------------
  // What any number of runs commit together
  // ---------------------------------------------------------------------------------------

  /** The batches a run may commit. */
  function Quota(c: Config): nat {
    if Allowed(c) then c.max else 0
  }

  function Quotas(configs: seq<Config>): nat {
    if configs == [] then 0 else Quotas(configs[..|configs| - 1]) + Quota(configs[|configs| - 1])
  }

  /** The batches it may still commit, the open one included. */
  function Left(c: Config, pc: Pc): nat {
    match pc
    case Fresh => Quota(c)
    case Waiting => Quota(c)
    case Between(left) => left
    case Open(left, _) => left + 1
    case Fetched(left, _, _) => left + 1
    case Inserted(left, _, _) => left + 1
    case Updated(left, _) => left + 1
    case Emptied(_) => 0
    case Over(_) => 0
  }

  function Lefts(configs: seq<Config>, pcs: seq<Pc>): nat
    requires |configs| == |pcs|
  {
    if pcs == [] then 0
    else
      var n := |pcs| - 1;
      Lefts(configs[..n], pcs[..n]) + Left(configs[n], pcs[n])
  }

  lemma {:induction false} LeftsUpdate(configs: seq<Config>, pcs: seq<Pc>, i: nat, pc: Pc)
    requires |configs| == |pcs| && i < |pcs|
    ensures Lefts(configs, pcs[i := pc]) + Left(configs[i], pcs[i]) == Lefts(configs, pcs) + Left(configs[i], pc)
    decreases |pcs|
  {
    var n := |pcs| - 1;
    if i < n {
      LeftsUpdate(configs[..n], pcs[..n], i, pc);
      assert pcs[i := pc][..n] == pcs[..n][i := pc];
    } else {
      assert pcs[i := pc][..n] == pcs[..n];
    }
  }

  lemma {:induction false} LeftsStart(configs: seq<Config>, pcs: seq<Pc>)
    requires |configs| == |pcs| && forall i | 0 <= i < |pcs| :: pcs[i] == Fresh
    ensures Lefts(configs, pcs) == Quotas(configs)
    decreases |pcs|
  {
    if pcs != [] {
      LeftsStart(configs[..|pcs| - 1], pcs[..|pcs| - 1]);
    }
  }

  lemma {:induction false} LeftsOver(configs: seq<Config>, pcs: seq<Pc>)
    requires |configs| == |pcs| && forall i | 0 <= i < |pcs| :: pcs[i].Over?
    ensures Lefts(configs, pcs) == 0
    decreases |pcs|
  {
    if pcs != [] {
      LeftsOver(configs[..|pcs| - 1], pcs[..|pcs| - 1]);
    }
  }

  /** What is committed and what may still be add up, unless everything has been copied. */
  ghost predicate Tally(job: Job, configs: seq<Config>, s: State, batch: nat)
    requires |s.pcs| == |configs| && batch > 0
  {
    var total := s.commits + Lefts(configs, s.pcs);
    total <= Quotas(configs) && (total == Quotas(configs) || s.commits == CeilDiv(|job.source|, batch))
  }

  /** A statement commits what it takes off the quota, if the table is not exhausted. */
  lemma StepLeft(job: Job, configs: seq<Config>, start: Target, s: State, e: Event)
    requires WellFormed(job, start) && NoConflict(job, start, 0, |job.source|)
    requires Inv(job, configs, start, s) && Enabled(configs, s, e) && e.Step?
    ensures
      var s' := Apply(job, configs, s, e);
      var before, after := s.commits + Left(configs[e.i], s.pcs[e.i]), s'.commits + Left(configs[e.i], s'.pcs[e.i]);
      && s'.pcs == s.pcs[e.i := s'.pcs[e.i]] && after <= before
      && (!s'.pcs[e.i].Emptied? ==> after == before)
      && (s'.pcs[e.i].Emptied? ==> s'.commits == s.commits)
  {
    hide Fetch, InsertAll, BatchAgrees, Conflict, Overlay, WellFormed, TellsApart, Advanced, NoConflict, Ensured;
    assert PcInv(job, start, configs[e.i], s, s.pcs[e.i]);
    if Allowed(configs[e.i]) && s.pcs[e.i].Inserted? && Apply(job, configs, s, e).pcs[e.i] == Over(BatchMismatch) {
      StepMismatch(job, configs, start, s, e);
    }
  }

  /** Once a run finds nothing more to copy, all batches have been committed. */
  lemma EmptiedMeansAll(job: Job, configs: seq<Config>, start: Target, s: State, i: nat, batch: nat)
    requires WellFormed(job, start) && Inv(job, configs, start, s) && i < |s.pcs| && s.pcs[i].Emptied?
    requires SameBatch(configs, batch) && batch > 0 && Counted(job, s, batch)
    ensures s.commits == CeilDiv(|job.source|, batch)
  {
    hide Fetch, InsertAll, BatchAgrees, Conflict, Overlay, WellFormed, TellsApart, Advanced, NoConflict, CeilDiv, Batch;
    assert PcInv(job, start, configs[i], s, s.pcs[i]);
    BatchFrom(job, start, s.db, CopiedOf(s.db), batch);
    CountedIff(job, s, batch);
  }

  lemma StepKeepsTally(job: Job, configs: seq<Config>, start: Target, s: State, e: Event, batch: nat)
    requires WellFormed(job, start) && NoConflict(job, start, 0, |job.source|)
    requires SameBatch(configs, batch) && batch > 0 && Inv(job, configs, start, s) && Counted(job, s, batch)
    requires Enabled(configs, s, e) && e.Step? && Tally(job, configs, s, batch)
    ensures
      var s' := Apply(job, configs, s, e);
      Inv(job, configs, start, s') && Counted(job, s', batch) && Tally(job, configs, s', batch)
  {
    var s' := Apply(job, configs, s, e);
    StepKeepsInv(job, configs, start, s, e);
    StepDb(job, configs, start, s, e);
    StepLeft(job, configs, start, s, e);
    LeftsUpdate(configs, s.pcs, e.i, s'.pcs[e.i]);
    hide Inv, WellFormed, NoConflict, Apply, CeilDiv, Lefts, Quotas, Next;
    if s'.commits != s.commits {
      CountStep(job, s, s', batch);
    }
    CountedIff(job, s, batch);
    CountedIff(job, s', batch);
    if s'.pcs[e.i].Emptied? {
      EmptiedMeansAll(job, configs, start, s', e.i, batch);
    }
  }

  lemma {:induction false} RunTallies(job: Job, configs: seq<Config>, start: Target, s: State, schedule: seq<Event>,
                                      batch: nat)
    requires WellFormed(job, start) && NoConflict(job, start, 0, |job.source|)
    requires SameBatch(configs, batch) && batch > 0 && Inv(job, configs, start, s) && Counted(job, s, batch)
    requires Legal(job, configs, s, schedule) && Tally(job, configs, s, batch)
    requires forall n | 0 <= n < |schedule| :: schedule[n].Step?
    ensures
      var end := Run(job, configs, s, schedule);
      Inv(job, configs, start, end) && Counted(job, end, batch) && Tally(job, configs, end, batch)
    decreases schedule
  {
    hide Inv, WellFormed, NoConflict, Apply, CeilDiv, Lefts, Quotas, Counted, Tally;
    if schedule != [] {
      StepKeepsTally(job, configs, start, s, schedule[0], batch);
      RunTallies(job, configs, start, Apply(job, configs, s, schedule[0]), schedule[1..], batch);
    }
  }

  /**
   When nothing fails and no row contradicts the source, any number of runs, however interleaved,
   have together committed as many batches as they were allowed, or as many as there are: the
   lesser of the two numbers.
   */
  lemma RunsCommitAll(job: Job, configs: seq<Config>, start: Target, schedule: seq<Event>, batch: nat)
    requires WellFormed(job, start) && NoConflict(job, start, 0, |job.source|)
    requires SameBatch(configs, batch) && batch > 0
    requires Legal(job, configs, Start(configs, start), schedule)
    requires forall n | 0 <= n < |schedule| :: schedule[n].Step?
    requires
      var end := Run(job, configs, Start(configs, start), schedule);
      forall i | 0 <= i < |end.pcs| :: end.pcs[i].Over?
    ensures
      var end, all := Run(job, configs, Start(configs, start), schedule), CeilDiv(|job.source|, batch);
      end.commits == if Quotas(configs) < all then Quotas(configs) else all
  {
    var s := Start(configs, start);
    StartInv(job, configs, start);
    LeftsStart(configs, s.pcs);
    RunTallies(job, configs, start, s, schedule, batch);
    var end := Run(job, configs, s, schedule);
    LeftsOver(configs, end.pcs);
    CountedIff(job, end, batch);
  }
}
