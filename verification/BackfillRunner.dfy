/** The staged copy as it runs: the contract check, the loop over batches, and the full
    comparison of the two tables afterwards. */
module BackfillRunner {
  import opened Common
  import opened Backfill

  // ---------------------------------------------------------------------------------------
  // The contract
  // ---------------------------------------------------------------------------------------

  datatype Contract = Contract(source: string, target: string, columns: seq<string>, keys: seq<string>,
                               reviewReference: string, tenantMapping: string)

  predicate Identifier(s: string) {
    && s != "" && ('a' <= s[0] <= 'z' || s[0] == '_')
    && forall i | 0 <= i < |s| :: 'a' <= s[i] <= 'z' || '0' <= s[i] <= '9' || s[i] == '_'
  }

  predicate Distinct(names: seq<string>) {
    forall i, j | 0 <= i < j < |names| :: names[i] != names[j]
  }

  predicate Acceptable(c: Contract) {
    && Identifier(c.source) && Identifier(c.target) && c.source != c.target
    && c.columns != [] && Distinct(c.columns) && (forall x | x in c.columns :: Identifier(x))
    && c.keys != [] && Distinct(c.keys) && (forall x | x in c.keys :: x in c.columns)
    && c.reviewReference != "" && c.tenantMapping != ""
  }

  /** Non-empty, without repetition, and simple identifiers. */
  method ValidateNames(names: seq<string>) returns (ok: bool)
    ensures ok <==> names != [] && Distinct(names) && forall x | x in names :: Identifier(x)
  {
    var seen: set<string> := {};
    if names == [] {
      return false;
    }
    for i := 0 to |names|
      invariant seen == set j | 0 <= j < i :: names[j]
      invariant Distinct(names[..i]) && forall j | 0 <= j < i :: Identifier(names[j])
    {
      if names[i] in seen {
        return false;
      }
      if !Identifier(names[i]) {
        return false;
      }
      seen := seen + {names[i]};
    }
    assert names[..|names|] == names;
    return true;
  }

  method ValidateContract(c: Contract) returns (ok: bool)
    ensures ok <==> Acceptable(c)
  {
    if !Identifier(c.source) || !Identifier(c.target) || c.source == c.target {
      return false;
    }
    var columns := ValidateNames(c.columns);
    if !columns {
      return false;
    }
    var keys := ValidateNames(c.keys);
    if !keys {
      return false;
    }
    var keySet, columnSet := set x | x in c.keys, set x | x in c.columns;
    assert forall x :: (x in keySet <==> x in c.keys) && (x in columnSet <==> x in c.columns);
    return keySet <= columnSet && c.reviewReference != "" && c.tenantMapping != "";
  }

  // ---------------------------------------------------------------------------------------
  // One run
  // ---------------------------------------------------------------------------------------

  datatype Outcome = Invalid | DryRun(sampleRows: nat) | NotExhausted | CopyExhausted(copied: int) | BatchMismatch

  /** The rest of a run with `left` batches allowed. */
  function RunFrom(job: Job, db: Db, batch: nat, left: nat): (Db, Outcome)
    decreases left
  {
    if left == 0 then (db, NotExhausted)
    else
      match Batch(job, db, batch)
      case Copied(next) => RunFrom(job, next, batch, left - 1)
      case Exhausted(end, copied) => (end, CopyExhausted(copied))
      case Mismatch => (db, BatchMismatch)
  }

  lemma {:induction false} CeilStep(m: nat, batch: nat)
    requires 0 < batch && 0 < m
    ensures CeilDiv(if m < batch then 0 else m - batch, batch) == CeilDiv(m, batch) - 1
  {
    hide CeilDiv;
    var m' := if m < batch then 0 else m - batch;
    CeilDivCovers(m, batch);
    CeilDivCovers(m', batch);
    if m < batch {
      CeilBounds(m', batch, 0, CeilDiv(m', batch));
      CeilBounds(m, batch, 1, CeilDiv(m, batch));
    } else {
      var k := CeilDiv(m', batch) + 1;
      assert k * batch == CeilDiv(m', batch) * batch + batch;
      CeilBounds(m, batch, k, CeilDiv(m, batch));
    }
  }

  /**
   A run from r copied rows. Without conflicting rows it copies as many as its batches allow and
   reports the copy as exhausted exactly when it was allowed a batch more than was needed; with
   one, everything committed before it stays.
   */
  lemma {:induction false} RunCopies(job: Job, start: Target, db: Db, r: nat, batch: nat, left: nat) returns (e: nat)
    requires WellFormed(job, start) && At(job, start, db, r) && batch > 0
    ensures r <= e && At(job, start, RunFrom(job, db, batch, left).0, e)
    ensures
      var outcome := RunFrom(job, db, batch, left).1;
      && (outcome.CopyExhausted? ==> outcome.copied == e == |job.source|)
      && (outcome.BatchMismatch? ==> !NoConflict(job, start, e, |job.source|))
      && (NoConflict(job, start, r, |job.source|) ==>
            !outcome.BatchMismatch? && (outcome.CopyExhausted? <==> CeilDiv(|job.source| - r, batch) < left))
    decreases left
  {
    hide At, Batch, WellFormed, Conflict, TellsApart;
    e := r;
    if left > 0 {
      BatchFrom(job, start, db, r, batch);
      match Batch(job, db, batch) {
        case Copied(next) =>
          hide CeilDiv;
          e := RunCopies(job, start, next, Next(job, r, batch), batch, left - 1);
          CeilStep(|job.source| - r, batch);
        case Exhausted(_, _) =>
        case Mismatch =>
      }
    }
  }

  class Copier {
    const job: Job
    var db: Db

    constructor (job: Job, db: Db)
      ensures this.job == job && this.db == db
    {
      this.job, this.db := job, db;
    }

    method Run(contract: Contract, batchSize: int, maxBatches: int, execute: bool) returns (outcome: Outcome)
      modifies this
      ensures outcome == Invalid <==> !Acceptable(contract) || !(1 <= batchSize <= 10000 && 1 <= maxBatches <= 1000)
      ensures outcome.Invalid? || !execute ==> db == old(db)
      ensures !outcome.Invalid? && !execute ==> outcome == DryRun(|Fetch(job, None, batchSize)|)
      ensures !outcome.Invalid? && execute ==> (db, outcome) == RunFrom(job, old(db), batchSize, maxBatches)
    {
      hide Batch, Fetch;
      var ok := ValidateContract(contract);
      if !ok || !(1 <= batchSize <= 10000 && 1 <= maxBatches <= 1000) {
        return Invalid;
      }
      if !execute {
        return DryRun(|Fetch(job, None, batchSize)|);
      }
      for i := 0 to maxBatches
        invariant RunFrom(job, old(db), batchSize, maxBatches) == RunFrom(job, db, batchSize, maxBatches - i)
      {
        outcome := Transaction(batchSize);
        if !outcome.NotExhausted? {
          return;
        }
      }
      return NotExhausted;
    }

    /** One batch in its own transaction; NotExhausted means it was committed. */
    method Transaction(batch: nat) returns (outcome: Outcome)
      modifies this
      ensures match Batch(job, old(db), batch)
              case Copied(next) => db == next && outcome == NotExhausted
              case Exhausted(end, copied) => db == end && outcome == CopyExhausted(copied)
              case Mismatch => db == old(db) && outcome == BatchMismatch
    {
      hide FirstAbove, InsertAll, Reread, Lines;
      var target, progress := db.target, if db.progress.Some? then db.progress.value else FRESH;
      var rows := Fetch(job, progress.cursor, batch);
      if rows == [] {
        db := Db(target, Some(progress));
        return CopyExhausted(progress.copied);
      }
      target := Insert(target, rows);
      var actual := ReadBack(target, rows);
      var expectedHash, actualHash := job.hash(Lines(rows)), job.hash(Lines(actual));
      if |actual| != |rows| || expectedHash != actualHash {
        return BatchMismatch;
      }
      db := Db(target, Some(Progress(Some(rows[|rows| - 1]), progress.copied + |rows|, Some(expectedHash))));
      return NotExhausted;
    }

    method Insert(target: Target, rows: seq<string>) returns (result: Target)
      ensures result == InsertAll(job.keyOf, target, rows, |rows|)
    {
      result := target;
      for i := 0 to |rows|
        invariant result == InsertAll(job.keyOf, target, rows, i)
      {
        if job.keyOf(rows[i]) !in result {
          result := result[job.keyOf(rows[i]) := rows[i]];
        }
      }
    }

    method ReadBack(target: Target, rows: seq<string>) returns (actual: seq<string>)
      ensures actual == Reread(job.keyOf, target, rows, |rows|)
    {
      actual := [];
      for i := 0 to |rows|
        invariant actual == Reread(job.keyOf, target, rows, i)
      {
        if job.keyOf(rows[i]) in target {
          actual := actual + [target[job.keyOf(rows[i])]];
        }
      }
    }
  }

  // ---------------------------------------------------------------------------------------
  // The full comparison
  // ---------------------------------------------------------------------------------------

  /** The text fed to the digest after n rows. */
  function Streamed(rows: seq<string>, n: nat): string
    requires n <= |rows|
  {
    if n == 0 then "" else Streamed(rows, n - 1) + rows[n - 1] + ['\n']
  }

  predicate SameDigests(hash: string -> string, source: seq<string>, target: seq<string>) {
    |source| == |target| && hash(Streamed(source, |source|)) == hash(Streamed(target, |target|))
  }

  method Digest(hash: string -> string, rows: seq<string>) returns (count: nat, digest: string)
    ensures count == |rows| && digest == hash(Streamed(rows, |rows|))
  {
    var text := "";
    count := 0;
    while count < |rows|
      invariant count <= |rows| && text == Streamed(rows, count)
    {
      text := text + rows[count] + ['\n'];
      count := count + 1;
    }
    digest := hash(text);
  }

  method ValidateCopy(hash: string -> string, source: seq<string>, target: seq<string>, batchSize: int)
    returns (ok: Result<bool, ()>)
    ensures ok.Failure? <==> !(1 <= batchSize <= 10000)
    ensures ok.Success? ==> (ok.value <==> SameDigests(hash, source, target))
  {
    if !(1 <= batchSize <= 10000) {
      return Failure(());
    }
    var count, digest := Digest(hash, source);
    var targetCount, targetDigest := Digest(hash, target);
    return Success(count == targetCount && digest == targetDigest);
  }

  lemma {:induction false} StreamedFrom(rows: seq<string>, n: nat)
    requires 0 < n <= |rows|
    ensures Streamed(rows, n) == rows[0] + ['\n'] + Streamed(rows[1..], n - 1)
  {
    if n > 1 {
      StreamedFrom(rows, n - 1);
      assert rows[1..][n - 2] == rows[n - 1];
    }
  }

  lemma {:induction false} StreamedInjective(a: seq<string>, b: seq<string>)
    requires |a| == |b| && Streamed(a, |a|) == Streamed(b, |b|)
    requires forall i | 0 <= i < |a| :: OneLine(a[i]) && OneLine(b[i])
    ensures a == b
    decreases |a|
  {
    if a != [] {
      StreamedFrom(a, |a|);
      StreamedFrom(b, |b|);
      FirstLine(a[0], Streamed(a[1..], |a| - 1), b[0], Streamed(b[1..], |b| - 1));
      StreamedInjective(a[1..], b[1..]);
      assert a == [a[0]] + a[1..] && b == [b[0]] + b[1..];
    }
  }

  /** A table read in key order. */
  ghost predicate Listing(keyOf: string -> int, rows: seq<string>, table: Target) {
    && KeyOrdered(keyOf, rows)
    && (forall i | 0 <= i < |rows| :: keyOf(rows[i]) in table && table[keyOf(rows[i])] == rows[i])
    && forall k | k in table :: exists i :: 0 <= i < |rows| && keyOf(rows[i]) == k
  }

  lemma LastIsGreatest(keyOf: string -> int, rows: seq<string>, table: Target, k: int)
    requires Listing(keyOf, rows, table) && k in table
    ensures rows != [] && k <= keyOf(rows[|rows| - 1])
  {
    var i :| 0 <= i < |rows| && keyOf(rows[i]) == k;
  }

  lemma WithoutLast(keyOf: string -> int, rows: seq<string>, table: Target)
    requires Listing(keyOf, rows, table) && rows != []
    ensures Listing(keyOf, rows[..|rows| - 1], table - {keyOf(rows[|rows| - 1])})
  {
    var init, rest := rows[..|rows| - 1], table - {keyOf(rows[|rows| - 1])};
    forall i | 0 <= i < |init| ensures keyOf(init[i]) in rest && rest[keyOf(init[i])] == init[i] {
      assert keyOf(rows[i]) < keyOf(rows[|rows| - 1]);
    }
    forall k | k in rest ensures exists i :: 0 <= i < |init| && keyOf(init[i]) == k {
      var i :| 0 <= i < |rows| && keyOf(rows[i]) == k;
      assert keyOf(init[i]) == k;
    }
  }

  lemma LastIsThere(keyOf: string -> int, rows: seq<string>, table: Target)
    requires Listing(keyOf, rows, table) && rows != []
    ensures keyOf(rows[|rows| - 1]) in table && table[keyOf(rows[|rows| - 1])] == rows[|rows| - 1]
  {
  }

  lemma NoRowsNoKeys(keyOf: string -> int, table: Target)
    requires Listing(keyOf, [], table)
    ensures forall k :: k !in table
  {
  }

  /** A table has one listing. */
  lemma {:induction false} ListingUnique(keyOf: string -> int, a: seq<string>, b: seq<string>, table: Target)
    requires Listing(keyOf, a, table) && Listing(keyOf, b, table)
    ensures a == b
    decreases |a|
  {
    hide Listing;
    if a == [] {
      NoRowsNoKeys(keyOf, table);
      if b != [] {
        LastIsThere(keyOf, b, table);
      }
    } else {
      var k := keyOf(a[|a| - 1]);
      LastIsThere(keyOf, a, table);
      LastIsGreatest(keyOf, b, table, k);
      LastIsThere(keyOf, b, table);
      LastIsGreatest(keyOf, a, table, keyOf(b[|b| - 1]));
      WithoutLast(keyOf, a, table);
      WithoutLast(keyOf, b, table);
      ListingUnique(keyOf, a[..|a| - 1], b[..|b| - 1], table - {k});
      assert a == a[..|a| - 1] + [a[|a| - 1]] && b == b[..|b| - 1] + [b[|b| - 1]];
    }
  }

  /** The rows that were there before are rows of the source. */
  ghost predicate Contained(job: Job, start: Target) {
    forall k | k in start ::
      exists i :: 0 <= i < |job.source| && job.keyOf(job.source[i]) == k && job.source[i] == start[k]
  }

  lemma ContainedAgrees(job: Job, start: Target)
    requires WellFormed(job, start) && Contained(job, start)
    ensures NoConflict(job, start, 0, |job.source|)
  {
    forall i | 0 <= i < |job.source| ensures !Conflict(job, start, i) {
      var k := job.keyOf(job.source[i]);
      if k in start {
        var j :| 0 <= j < |job.source| && job.keyOf(job.source[j]) == k && job.source[j] == start[k];
        assert i == j;
      }
    }
  }

  lemma CopiedListing(job: Job, start: Target, db: Db)
    requires WellFormed(job, start) && At(job, start, db, |job.source|) && Contained(job, start)
    ensures Listing(job.keyOf, job.source, db.target)
  {
    ContainedAgrees(job, start);
    AtMeans(job, start, db, |job.source|);
    UncontradictedRows(job, start, db, |job.source|);
  }

  lemma ListingLines(job: Job, start: Target, db: Db, listing: seq<string>, i: nat)
    requires WellFormed(job, start) && At(job, start, db, |job.source|)
    requires Listing(job.keyOf, listing, db.target) && i < |listing|
    ensures OneLine(listing[i])
  {
    hide OneLine;
    AtMeans(job, start, db, |job.source|);
    var k := job.keyOf(listing[i]);
    if k in start {
      assert OneLine(start[k]);
    } else {
      var j :| 0 <= j < |job.source| && job.keyOf(job.source[j]) == k;
      assert OneLine(job.source[j]);
    }
  }

  /** The digest tells the two streams apart if they differ. */
  predicate TellsStreamsApart(hash: string -> string, a: seq<string>, b: seq<string>) {
    hash(Streamed(a, |a|)) == hash(Streamed(b, |b|)) ==> Streamed(a, |a|) == Streamed(b, |b|)
  }

  /** After a whole copy, the full comparison passes if the target held nothing to begin with but
      rows of the source; and only then, if the digest tells the two streams apart. */
  lemma ValidationAfterCopyIff(job: Job, start: Target, db: Db, listing: seq<string>)
    requires WellFormed(job, start) && At(job, start, db, |job.source|) && Listing(job.keyOf, listing, db.target)
    ensures Contained(job, start) ==> SameDigests(job.hash, job.source, listing)
    ensures TellsStreamsApart(job.hash, job.source, listing) ==>
              (SameDigests(job.hash, job.source, listing) <==> Contained(job, start))
  {
    if Contained(job, start) {
      CopiedListing(job, start, db);
      ListingUnique(job.keyOf, job.source, listing, db.target);
    } else if TellsStreamsApart(job.hash, job.source, listing) && SameDigests(job.hash, job.source, listing) {
      forall i | 0 <= i < |listing| ensures OneLine(job.source[i]) && OneLine(listing[i]) {
        ListingLines(job, start, db, listing, i);
      }
      StreamedInjective(job.source, listing);
      NotContained(job, start, db, listing);
    }
  }

  lemma NotContained(job: Job, start: Target, db: Db, listing: seq<string>)
    requires WellFormed(job, start) && At(job, start, db, |job.source|)
    requires Listing(job.keyOf, listing, db.target) && listing == job.source
    ensures Contained(job, start)
  {
    AtMeans(job, start, db, |job.source|);
    forall k | k in start
      ensures exists i :: 0 <= i < |job.source| && job.keyOf(job.source[i]) == k && job.source[i] == start[k]
    {
      var i :| 0 <= i < |listing| && job.keyOf(listing[i]) == k;
      assert listing[i] == db.target[k] == start[k];
    }
  }

  /** From an empty position, a run that is allowed one batch more than it needs copies the whole
      table, and the comparison then passes, if the target held only rows of the source. */
  lemma RunThenValidate(job: Job, start: Target, batch: nat, left: nat, listing: seq<string>)
    requires WellFormed(job, start) && Contained(job, start)
    requires batch > 0 && left > CeilDiv(|job.source|, batch)
    requires Listing(job.keyOf, listing, RunFrom(job, Db(start, None), batch, left).0.target)
    ensures RunFrom(job, Db(start, None), batch, left).1 == CopyExhausted(|job.source|)
    ensures SameDigests(job.hash, job.source, listing)
  {
    StartsAt(job, start);
    ContainedAgrees(job, start);
    var e := RunCopies(job, start, Db(start, None), 0, batch, left);
    ValidationAfterCopyIff(job, start, RunFrom(job, Db(start, None), batch, left).0, listing);
  }
}
