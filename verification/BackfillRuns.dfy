/**
 Any number of staged copies of one table, statement by statement: an advisory lock held for a
 whole run, a transaction per batch, and failures that drop the open transaction and release
 the lock. The source and all other writers are paused.
 */
module BackfillRuns {
  import opened Common
  import opened Backfill

  datatype Config = Config(batch: int, max: int)

  datatype Ended = Refused | NotExhausted | CopyExhausted(copied: int) | BatchMismatch | Broken

  /** Where a run stands. `left` counts the batches still allowed, `tx` is what its open
      transaction sees. */
  datatype Pc =
    | Fresh
    | Waiting
    | Between(left: nat)
    | Open(left: nat, tx: Db)
    | Emptied(tx: Db)
    | Fetched(left: nat, tx: Db, rows: seq<string>)
    | Inserted(left: nat, tx: Db, rows: seq<string>)
    | Updated(left: nat, tx: Db)
    | Over(result: Ended)
  {
    predicate Holds() {
      !Fresh? && !Waiting? && !Over?
    }
  }

  /** `commits` counts the batches committed. */
  datatype State = State(db: Db, owner: Option<nat>, pcs: seq<Pc>, commits: nat)

  datatype Event = Step(i: nat) | Fail(i: nat)

  predicate Allowed(c: Config) {
    1 <= c.batch <= 10000 && 1 <= c.max <= 1000
  }

  function Start(configs: seq<Config>, start: Target): State {
    State(Db(start, None), None, seq(|configs|, _ => Fresh), 0)
  }

  predicate Enabled(configs: seq<Config>, s: State, e: Event) {
    && |s.pcs| == |configs| && e.i < |s.pcs| && !s.pcs[e.i].Over?
    && (e.Step? && s.pcs[e.i].Waiting? ==> s.owner.None?)
  }

  function Finish(s: State, i: nat, result: Ended): State
    requires i < |s.pcs|
  {
    s.(pcs := s.pcs[i := Over(result)], owner := if s.owner == Some(i) then None else s.owner)
  }

  function CursorOf(db: Db): Option<string> {
    Ensured(db).progress.value.cursor
  }

  function CopiedOf(db: Db): int {
    Ensured(db).progress.value.copied
  }

  /** The next statement of run i. */
  function Advance(job: Job, c: Config, s: State, i: nat): State
    requires i < |s.pcs| && Allowed(c) && !s.pcs[i].Over?
  {
    match s.pcs[i]
    case Fresh => s.(pcs := s.pcs[i := Waiting])
    case Waiting => s.(pcs := s.pcs[i := Between(c.max)], owner := Some(i))
    case Between(left) =>
      if left == 0 then Finish(s, i, NotExhausted) else s.(pcs := s.pcs[i := Open(left - 1, Ensured(s.db))])
    case Open(left, tx) =>
      var rows := Fetch(job, CursorOf(tx), c.batch);
      s.(pcs := s.pcs[i := if rows == [] then Emptied(tx) else Fetched(left, tx, rows)])
    case Emptied(tx) => Finish(s.(db := tx), i, CopyExhausted(CopiedOf(tx)))
    case Fetched(left, tx, rows) =>
      s.(pcs := s.pcs[i := Inserted(left, tx.(target := InsertAll(job.keyOf, tx.target, rows, |rows|)), rows)])
    case Inserted(left, tx, rows) =>
      if rows == [] || !BatchAgrees(job, tx.target, rows) then Finish(s, i, BatchMismatch)
      else s.(pcs := s.pcs[i := Updated(left, tx.(progress := Some(Advanced(job, Ensured(tx).progress.value, rows))))])
    case Updated(left, tx) => s.(db := tx, pcs := s.pcs[i := Between(left)], commits := s.commits + 1)
    case Over(_) => s
  }

  function Apply(job: Job, configs: seq<Config>, s: State, e: Event): State
    requires Enabled(configs, s, e)
  {
    if e.Fail? then Finish(s, e.i, Broken)
    else if !Allowed(configs[e.i]) then Finish(s, e.i, Refused)
    else Advance(job, configs[e.i], s, e.i)
  }

  predicate Legal(job: Job, configs: seq<Config>, s: State, schedule: seq<Event>)
    decreases schedule
  {
    schedule == [] ||
    (Enabled(configs, s, schedule[0]) && Legal(job, configs, Apply(job, configs, s, schedule[0]), schedule[1..]))
  }

  function Run(job: Job, configs: seq<Config>, s: State, schedule: seq<Event>): State
    requires Legal(job, configs, s, schedule)
    decreases schedule
  {
    if schedule == [] then s else Run(job, configs, Apply(job, configs, s, schedule[0]), schedule[1..])
  }

  // ---------------------------------------------------------------------------------------
  // What every interleaving keeps
  // ---------------------------------------------------------------------------------------

  ghost predicate AtCopied(job: Job, start: Target, db: Db) {
    && CopiedOf(db) >= 0 && At(job, start, db, CopiedOf(db))
    && (TellsApart(job, start) ==> NoConflict(job, start, 0, CopiedOf(db)))
  }

  /** The statements of an open transaction add up to one batch of the simple form. */
  ghost predicate PcInv(job: Job, start: Target, c: Config, s: State, pc: Pc) {
    && (pc.Holds() ==> Allowed(c))
    && (match pc
        case Open(_, tx) => tx == Ensured(s.db)
        case Emptied(tx) => Allowed(c) && Batch(job, s.db, c.batch) == Exhausted(tx, CopiedOf(tx))
        case Fetched(_, tx, rows) =>
          Allowed(c) && tx == Ensured(s.db) && rows == Fetch(job, CursorOf(tx), c.batch) && rows != []
        case Inserted(_, tx, rows) =>
          && Allowed(c) && rows == Fetch(job, CursorOf(s.db), c.batch) && rows != []
          && tx == Ensured(s.db).(target := InsertAll(job.keyOf, s.db.target, rows, |rows|))
        case Updated(_, tx) => Allowed(c) && Batch(job, s.db, c.batch) == Copied(tx)
        case Over(result) =>
          && (result.CopyExhausted? ==> result.copied == |job.source| == CopiedOf(s.db))
          && (result.BatchMismatch? ==> !NoConflict(job, start, 0, |job.source|))
        case _ => true)
  }

  ghost predicate Inv(job: Job, configs: seq<Config>, start: Target, s: State) {
    && |s.pcs| == |configs| && AtCopied(job, start, s.db)
    && (forall i | 0 <= i < |s.pcs| :: s.pcs[i].Holds() <==> s.owner == Some(i))
    && forall i | 0 <= i < |s.pcs| :: PcInv(job, start, configs[i], s, s.pcs[i])
  }

  /** Only the finished runs care about a commit, and they are glad of it. */
  lemma OthersUnmoved(job: Job, start: Target, c: Config, s: State, s': State, pc: Pc)
    requires PcInv(job, start, c, s, pc) && (s'.db == s.db || !pc.Holds())
    requires AtCopied(job, start, s'.db) && CopiedOf(s.db) <= CopiedOf(s'.db)
    ensures PcInv(job, start, c, s', pc)
  {
    hide Batch, Fetch, InsertAll, NoConflict;
  }

  /** The state of the database after a statement, and what a run that ended on it can say. */
  lemma StepDb(job: Job, configs: seq<Config>, start: Target, s: State, e: Event)
    requires WellFormed(job, start)
    requires Inv(job, configs, start, s) && Enabled(configs, s, e)
    ensures
      var s' := Apply(job, configs, s, e);
      && AtCopied(job, start, s'.db) && CopiedOf(s.db) <= CopiedOf(s'.db)
      && (s'.db != s.db ==> s.owner == Some(e.i))
      && (s'.commits != s.commits ==> s'.commits == s.commits + 1 && Allowed(configs[e.i])
                                      && CopiedOf(s.db) < CopiedOf(s'.db)
                                      && CopiedOf(s'.db) == Next(job, CopiedOf(s.db), configs[e.i].batch))
      && (s'.commits == s.commits ==> Ensured(s'.db) == Ensured(s.db))
      && (s'.pcs[e.i].Over? && s'.pcs[e.i].result.CopyExhausted? ==>
            s'.pcs[e.i].result.copied == |job.source| == CopiedOf(s'.db))
  {
    hide Fetch, InsertAll, BatchAgrees, Conflict, Overlay, WellFormed, TellsApart;
    var c, pc := configs[e.i], s.pcs[e.i];
    assert PcInv(job, start, c, s, pc);
    if e.Step? && Allowed(c) && (pc.Emptied? || pc.Updated?) {
      BatchFrom(job, start, s.db, CopiedOf(s.db), c.batch);
    }
  }

  lemma StepMismatch(job: Job, configs: seq<Config>, start: Target, s: State, e: Event)
    requires WellFormed(job, start)
    requires Inv(job, configs, start, s) && Enabled(configs, s, e) && e.Step? && Allowed(configs[e.i])
    requires s.pcs[e.i].Inserted? && Apply(job, configs, s, e).pcs[e.i] == Over(BatchMismatch)
    ensures !NoConflict(job, start, 0, |job.source|)
  {
    hide Fetch, InsertAll, BatchAgrees, Conflict, Overlay, WellFormed, TellsApart;
    var c := configs[e.i];
    assert PcInv(job, start, c, s, s.pcs[e.i]);
    BatchFrom(job, start, s.db, CopiedOf(s.db), c.batch);
    assert Batch(job, s.db, c.batch).Mismatch?;
  }

  lemma {:induction false} StepPc(job: Job, configs: seq<Config>, start: Target, s: State, e: Event)
    requires WellFormed(job, start)
    requires Inv(job, configs, start, s) && Enabled(configs, s, e)
    ensures PcInv(job, start, configs[e.i], Apply(job, configs, s, e), Apply(job, configs, s, e).pcs[e.i])
  {
    hide Fetch, InsertAll, BatchAgrees, Conflict, Overlay, WellFormed, TellsApart, NoConflict, Advanced;
    var c, pc := configs[e.i], s.pcs[e.i];
    assert PcInv(job, start, c, s, pc);
    StepDb(job, configs, start, s, e);
    if e.Step? && Allowed(c) && pc.Inserted? && Apply(job, configs, s, e).pcs[e.i] == Over(BatchMismatch) {
      StepMismatch(job, configs, start, s, e);
    }
  }

  ghost predicate LockInv(s: State) {
    forall i | 0 <= i < |s.pcs| :: s.pcs[i].Holds() <==> s.owner == Some(i)
  }

  lemma StepKeepsLock(job: Job, configs: seq<Config>, s: State, e: Event)
    requires Enabled(configs, s, e) && LockInv(s)
    ensures
      var s' := Apply(job, configs, s, e);
      && |s'.pcs| == |s.pcs| && LockInv(s') && forall j | 0 <= j < |s.pcs| && j != e.i :: s'.pcs[j] == s.pcs[j]
  {
    hide Fetch, InsertAll, BatchAgrees, Advanced, Ensured, CopiedOf, CursorOf;
  }

  lemma StepKeepsInv(job: Job, configs: seq<Config>, start: Target, s: State, e: Event)
    requires WellFormed(job, start)
    requires Inv(job, configs, start, s) && Enabled(configs, s, e)
    ensures Inv(job, configs, start, Apply(job, configs, s, e))
  {
    StepDb(job, configs, start, s, e);
    StepPc(job, configs, start, s, e);
    StepKeepsLock(job, configs, s, e);
    hide Apply, AtCopied, PcInv, Ensured, WellFormed;
    var s' := Apply(job, configs, s, e);
    forall j | 0 <= j < |s.pcs| && j != e.i ensures PcInv(job, start, configs[j], s', s'.pcs[j]) {
      OthersUnmoved(job, start, configs[j], s, s', s.pcs[j]);
    }
  }

  lemma {:induction false} RunKeepsInv(job: Job, configs: seq<Config>, start: Target, s: State, schedule: seq<Event>)
    requires WellFormed(job, start)
    requires Inv(job, configs, start, s) && Legal(job, configs, s, schedule)
    ensures Inv(job, configs, start, Run(job, configs, s, schedule))
    ensures CopiedOf(s.db) <= CopiedOf(Run(job, configs, s, schedule).db)
    decreases schedule
  {
    hide Inv, WellFormed, CopiedOf, Apply;
    if schedule != [] {
      StepKeepsInv(job, configs, start, s, schedule[0]);
      StepDb(job, configs, start, s, schedule[0]);
      RunKeepsInv(job, configs, start, Apply(job, configs, s, schedule[0]), schedule[1..]);
    }
  }

  lemma StartInv(job: Job, configs: seq<Config>, start: Target)
    ensures Inv(job, configs, start, Start(configs, start))
  {
  }

  // ---------------------------------------------------------------------------------------
  // Main results
  // ---------------------------------------------------------------------------------------

  /**
   At every committed state of any interleaving of any number of runs, interrupted anywhere: the
   count is the number of source rows up to the cursor, each of them has a row of its key in the
   target, no row that was there before has changed, and nothing else has appeared. If moreover
   the digest tells rows apart, each of those rows is in the target with every field.
   */
  lemma CopyIsAlwaysAPrefix(job: Job, configs: seq<Config>, start: Target, schedule: seq<Event>)
    requires WellFormed(job, start) && Legal(job, configs, Start(configs, start), schedule)
    ensures
      var db := Run(job, configs, Start(configs, start), schedule).db;
      var r := CopiedOf(db);
      && 0 <= r <= |job.source| && CursorOf(db) == CursorAt(job, r)
      && (r > 0 ==> forall i | 0 <= i < |job.source| ::
                    i < r <==> job.keyOf(job.source[i]) <= job.keyOf(CursorOf(db).value))
      && (forall i | 0 <= i < r ::
          job.keyOf(job.source[i]) in db.target && db.target[job.keyOf(job.source[i])] == Seen(job, start, i))
      && (forall k | k in start :: k in db.target && db.target[k] == start[k])
      && (forall k | k in db.target && k !in start :: exists i :: 0 <= i < r && job.keyOf(job.source[i]) == k)
      && (TellsApart(job, start) ==> forall i | 0 <= i < r :: db.target[job.keyOf(job.source[i])] == job.source[i])
  {
    StartInv(job, configs, start);
    RunKeepsInv(job, configs, start, Start(configs, start), schedule);
    hide TellsApart;
    var db := Run(job, configs, Start(configs, start), schedule).db;
    AtMeans(job, start, db, CopiedOf(db));
    if TellsApart(job, start) {
      UncontradictedRows(job, start, db, CopiedOf(db));
    }
  }

  /** A run reports the copy as exhausted only when every row is copied, and a mismatch only when
      a row that was there before contradicts its source row. */
  lemma ReportsAreTrue(job: Job, configs: seq<Config>, start: Target, schedule: seq<Event>, i: nat)
    requires WellFormed(job, start)
    requires Legal(job, configs, Start(configs, start), schedule) && i < |configs|
    ensures
      var end := Run(job, configs, Start(configs, start), schedule);
      && |end.pcs| == |configs|
      && (end.pcs[i].Over? && end.pcs[i].result.CopyExhausted? ==>
            end.pcs[i].result.copied == |job.source| && At(job, start, end.db, |job.source|))
      && (end.pcs[i] == Over(BatchMismatch) ==> exists k :: 0 <= k < |job.source| && Conflict(job, start, k))
  {
    StartInv(job, configs, start);
    RunKeepsInv(job, configs, start, Start(configs, start), schedule);
    var end := Run(job, configs, Start(configs, start), schedule);
    assert PcInv(job, start, configs[i], end, end.pcs[i]);
  }

  /** The position only ever moves forward: each committed batch raises the cursor. */
  lemma CommitMovesCursorUp(job: Job, configs: seq<Config>, start: Target, schedule: seq<Event>, e: Event)
    requires WellFormed(job, start)
    requires Legal(job, configs, Start(configs, start), schedule)
    requires
      var s := Run(job, configs, Start(configs, start), schedule);
      Enabled(configs, s, e) && Apply(job, configs, s, e).commits != s.commits
    ensures
      var s := Run(job, configs, Start(configs, start), schedule);
      var before, after := CursorOf(s.db), CursorOf(Apply(job, configs, s, e).db);
      after.Some? && (before.Some? ==> job.keyOf(before.value) < job.keyOf(after.value))
  {
    StartInv(job, configs, start);
    RunKeepsInv(job, configs, start, Start(configs, start), schedule);
    StepDb(job, configs, start, Run(job, configs, Start(configs, start), schedule), e);
  }

  /** As long as one run is not over, some run can take its next step. */
  lemma NoDeadlock(job: Job, configs: seq<Config>, start: Target, schedule: seq<Event>, i: nat)
    requires WellFormed(job, start)
    requires Legal(job, configs, Start(configs, start), schedule) && i < |configs|
    requires
      var s := Run(job, configs, Start(configs, start), schedule);
      |s.pcs| == |configs| && !s.pcs[i].Over?
    ensures
      var s := Run(job, configs, Start(configs, start), schedule);
      Enabled(configs, s, Step(i)) || (s.owner.Some? && Enabled(configs, s, Step(s.owner.value)))
  {
    StartInv(job, configs, start);
    RunKeepsInv(job, configs, start, Start(configs, start), schedule);
    var s := Run(job, configs, Start(configs, start), schedule);
    if !Enabled(configs, s, Step(i)) {
      OwnerIsARun(job, configs, start, Start(configs, start), schedule);
      assert s.pcs[s.owner.value].Holds();
    }
  }

  lemma {:induction false} OwnerIsARun(job: Job, configs: seq<Config>, start: Target, s: State, schedule: seq<Event>)
    requires Legal(job, configs, s, schedule) && (s.owner.Some? ==> s.owner.value < |configs|)
    ensures
      var end := Run(job, configs, s, schedule);
      end.owner.Some? ==> end.owner.value < |configs|
    decreases schedule
  {
    hide Fetch, InsertAll, BatchAgrees, Advanced, Ensured;
    if schedule != [] {
      OwnerIsARun(job, configs, start, Apply(job, configs, s, schedule[0]), schedule[1..]);
    }
  }

  ghost predicate SameBatch(configs: seq<Config>, batch: nat) {
    forall i | 0 <= i < |configs| :: configs[i].batch == batch
  }

  ghost predicate Counted(job: Job, s: State, batch: nat) {
    && 0 <= CopiedOf(s.db) <= |job.source| && CopiedOf(s.db) == Next(job, 0, s.commits * batch)
    && (s.commits > 0 ==> (s.commits - 1) * batch < |job.source|)
  }

  lemma CountStep(job: Job, s: State, s': State, batch: nat)
    requires Counted(job, s, batch) && s'.commits == s.commits + 1
    requires CopiedOf(s'.db) == Next(job, CopiedOf(s.db), batch) > CopiedOf(s.db)
    ensures Counted(job, s', batch)
  {
    assert s'.commits * batch == s.commits * batch + batch;
    assert (s'.commits - 1) * batch == s.commits * batch;
  }

  lemma {:induction false} RunCounts(job: Job, configs: seq<Config>, start: Target, s: State,
                                     schedule: seq<Event>, batch: nat)
    requires WellFormed(job, start) && SameBatch(configs, batch)
    requires Inv(job, configs, start, s) && Counted(job, s, batch) && Legal(job, configs, s, schedule)
    ensures Counted(job, Run(job, configs, s, schedule), batch)
    decreases schedule
  {
    hide Inv, WellFormed, Apply, Next;
    if schedule != [] {
      var s' := Apply(job, configs, s, schedule[0]);
      StepKeepsInv(job, configs, start, s, schedule[0]);
      StepDb(job, configs, start, s, schedule[0]);
      if s'.commits != s.commits {
        CountStep(job, s, s', batch);
      }
      RunCounts(job, configs, start, s', schedule[1..], batch);
    }
  }

  lemma CountedIff(job: Job, s: State, batch: nat)
    requires Counted(job, s, batch) && batch > 0
    ensures s.commits <= CeilDiv(|job.source|, batch)
    ensures CopiedOf(s.db) == |job.source| <==> s.commits == CeilDiv(|job.source|, batch)
  {
    CeilDivCovers(|job.source|, batch);
    CeilBounds(|job.source|, batch, s.commits, CeilDiv(|job.source|, batch));
  }

  /** However the batches are spread over runs, and whatever fails in between: k committed
      batches have copied min(n, k * batch) rows, so ceil(n / batch) of them, and never more,
      copy everything. */
  lemma CommittedBatchesCover(job: Job, configs: seq<Config>, start: Target, schedule: seq<Event>, batch: nat)
    requires WellFormed(job, start) && SameBatch(configs, batch) && batch > 0
    requires Legal(job, configs, Start(configs, start), schedule)
    ensures
      var end := Run(job, configs, Start(configs, start), schedule);
      && CopiedOf(end.db) == Next(job, 0, end.commits * batch)
      && end.commits <= CeilDiv(|job.source|, batch)
      && (CopiedOf(end.db) == |job.source| <==> end.commits == CeilDiv(|job.source|, batch))
  {
    StartInv(job, configs, start);
    RunCounts(job, configs, start, Start(configs, start), schedule, batch);
    CountedIff(job, Run(job, configs, Start(configs, start), schedule), batch);
  }
}
