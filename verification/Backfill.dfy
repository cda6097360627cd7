/**
 The staged copy of one table into another: batches in key order, each checked against what
 the target then holds, with the position kept beside the copy.

 A row is its JSON text; `keyOf` reads its key. The keys of a table are distinct, and stand as
 integers for their order.
 */
module Backfill {
  import opened Common

  datatype Job = Job(source: seq<string>, keyOf: string -> int, hash: string -> string)

  type Target = map<int, string>

  /** The row kept for this copy: the last row copied, and how many there were. */
  datatype Progress = Progress(cursor: Option<string>, copied: int, batchHash: Option<string>)

  datatype Db = Db(target: Target, progress: Option<Progress>)

  const FRESH := Progress(None, 0, None)

  predicate OneLine(s: string) {
    forall i | 0 <= i < |s| :: s[i] != '\n'
  }

  predicate KeyOrdered(keyOf: string -> int, rows: seq<string>) {
    forall i, j | 0 <= i < j < |rows| :: keyOf(rows[i]) < keyOf(rows[j])
  }

  /** The source is read in key order; no JSON text holds a line break. */
  ghost predicate WellFormed(job: Job, start: Target) {
    && KeyOrdered(job.keyOf, job.source)
    && (forall i | 0 <= i < |job.source| :: OneLine(job.source[i]))
    && forall k | k in start :: OneLine(start[k]) && job.keyOf(start[k]) == k
  }

  // ---------------------------------------------------------------------------------------
  // One batch
  // ---------------------------------------------------------------------------------------

  /** From index i on, the first row above the cursor. */
  function FirstAbove(job: Job, cursor: Option<string>, i: nat): (p: nat)
    requires i <= |job.source|
    ensures i <= p <= |job.source|
    decreases |job.source| - i
  {
    if i == |job.source| || cursor.None? || job.keyOf(job.source[i]) > job.keyOf(cursor.value) then i
    else FirstAbove(job, cursor, i + 1)
  }

  /** The next rows in key order above the cursor, at most `batch` of them. */
  function Fetch(job: Job, cursor: Option<string>, batch: nat): seq<string> {
    var p := FirstAbove(job, cursor, 0);
    job.source[p..if p + batch < |job.source| then p + batch else |job.source|]
  }

  /** Inserts the first n rows, leaving rows that are already there. */
  function InsertAll(keyOf: string -> int, target: Target, rows: seq<string>, n: nat): Target
    requires n <= |rows|
  {
    if n == 0 then target
    else
      var t := InsertAll(keyOf, target, rows, n - 1);
      if keyOf(rows[n - 1]) in t then t else t[keyOf(rows[n - 1]) := rows[n - 1]]
  }

  /** What the target holds under the keys of the first n rows, in key order. */
  function Reread(keyOf: string -> int, target: Target, rows: seq<string>, n: nat): seq<string>
    requires n <= |rows|
  {
    if n == 0 then []
    else
      Reread(keyOf, target, rows, n - 1)
      + if keyOf(rows[n - 1]) in target then [target[keyOf(rows[n - 1])]] else []
  }

  function Lines(rows: seq<string>): string {
    if rows == [] then "" else if |rows| == 1 then rows[0] else rows[0] + ['\n'] + Lines(rows[1..])
  }

  /** The count and checksum comparison of a batch. */
  predicate BatchAgrees(job: Job, target: Target, rows: seq<string>) {
    var actual := Reread(job.keyOf, target, rows, |rows|);
    |actual| == |rows| && job.hash(Lines(rows)) == job.hash(Lines(actual))
  }

  function Ensured(db: Db): Db {
    if db.progress.Some? then db else db.(progress := Some(FRESH))
  }

  function Advanced(job: Job, p: Progress, rows: seq<string>): Progress
    requires rows != []
  {
    Progress(Some(rows[|rows| - 1]), p.copied + |rows|, Some(job.hash(Lines(rows))))
  }

  datatype BatchResult = Copied(db: Db) | Exhausted(db: Db, copied: int) | Mismatch

  /** One transaction: copied and committed, found nothing more, or rolled back. */
  function Batch(job: Job, db: Db, batch: nat): BatchResult {
    var tx := Ensured(db);
    var rows := Fetch(job, tx.progress.value.cursor, batch);
    if rows == [] then Exhausted(tx, tx.progress.value.copied)
    else
      var target := InsertAll(job.keyOf, tx.target, rows, |rows|);
      if BatchAgrees(job, target, rows) then Copied(Db(target, Some(Advanced(job, tx.progress.value, rows))))
      else Mismatch
  }

  // ---------------------------------------------------------------------------------------
  // What the database holds after r rows
  // ---------------------------------------------------------------------------------------

  /** The target after the first r rows of the source: nothing that was there has changed. */
  function Overlay(job: Job, start: Target, r: nat): Target
    requires r <= |job.source|
  {
    if r == 0 then start
    else
      var t, row := Overlay(job, start, r - 1), job.source[r - 1];
      if job.keyOf(row) in start then t else t[job.keyOf(row) := row]
  }

  function CursorAt(job: Job, r: nat): Option<string>
    requires r <= |job.source|
  {
    if r == 0 then None else Some(job.source[r - 1])
  }

  /** The row found in the place of source row i. */
  function Seen(job: Job, start: Target, i: nat): string
    requires i < |job.source|
  {
    if job.keyOf(job.source[i]) in start then start[job.keyOf(job.source[i])] else job.source[i]
  }

  /** A row of the source that a row already in the target contradicts. */
  predicate Conflict(job: Job, start: Target, i: nat)
    requires i < |job.source|
  {
    job.keyOf(job.source[i]) in start && start[job.keyOf(job.source[i])] != job.source[i]
  }

  ghost predicate NoConflict(job: Job, start: Target, from: nat, upTo: nat)
    requires upTo <= |job.source|
  {
    forall i | from <= i < upTo :: !Conflict(job, start, i)
  }

  /** The first r rows have been copied onto `start`, and r is what the position says. */
  ghost predicate At(job: Job, start: Target, db: Db, r: nat) {
    && r <= |job.source|
    && db.target == Overlay(job, start, r)
    && Ensured(db).progress.value.cursor == CursorAt(job, r)
    && Ensured(db).progress.value.copied == r
  }

  lemma {:induction false} OverlayKeeps(job: Job, start: Target, r: nat, k: int)
    requires r <= |job.source| && k in start
    ensures k in Overlay(job, start, r) && Overlay(job, start, r)[k] == start[k]
  {
    if r > 0 {
      OverlayKeeps(job, start, r - 1, k);
    }
  }

  lemma {:induction false} OverlayHas(job: Job, start: Target, r: nat, i: nat)
    requires i < r <= |job.source| && KeyOrdered(job.keyOf, job.source)
    ensures
      var k := job.keyOf(job.source[i]);
      k in Overlay(job, start, r) && Overlay(job, start, r)[k] == if k in start then start[k] else job.source[i]
  {
    var k := job.keyOf(job.source[i]);
    if k in start {
      OverlayKeeps(job, start, r, k);
    } else if i < r - 1 {
      OverlayHas(job, start, r - 1, i);
    }
  }

  lemma {:induction false} OverlayOnly(job: Job, start: Target, r: nat, k: int)
    requires r <= |job.source| && k in Overlay(job, start, r) && k !in start
    ensures exists i :: 0 <= i < r && job.keyOf(job.source[i]) == k
  {
    if job.keyOf(job.source[r - 1]) != k {
      OverlayOnly(job, start, r - 1, k);
    }
  }

  /**
   In words: every pre-existing row is as it was; each of the first r source rows has a row of
   its key in the target, its own copy unless one was there before; nothing else is there; and r
   counts the rows up to the cursor.
   */
  lemma AtMeans(job: Job, start: Target, db: Db, r: nat)
    requires WellFormed(job, start) && At(job, start, db, r)
    ensures forall k | k in start :: k in db.target && db.target[k] == start[k]
    ensures forall i | 0 <= i < r ::
              job.keyOf(job.source[i]) in db.target && db.target[job.keyOf(job.source[i])] == Seen(job, start, i)
    ensures forall k | k in db.target && k !in start :: exists i :: 0 <= i < r && job.keyOf(job.source[i]) == k
    ensures r > 0 ==>
              && CursorAt(job, r).Some? && db.progress.Some? && db.progress.value.cursor == CursorAt(job, r)
              && forall i | 0 <= i < |job.source| ::
                   i < r <==> job.keyOf(job.source[i]) <= job.keyOf(CursorAt(job, r).value)
  {
    forall k | k in start ensures k in db.target && db.target[k] == start[k] {
      OverlayKeeps(job, start, r, k);
    }
    forall i | 0 <= i < r
      ensures job.keyOf(job.source[i]) in db.target && db.target[job.keyOf(job.source[i])] == Seen(job, start, i)
    {
      OverlayHas(job, start, r, i);
    }
    forall k | k in db.target && k !in start ensures exists i :: 0 <= i < r && job.keyOf(job.source[i]) == k {
      OverlayOnly(job, start, r, k);
    }
  }

  /** Where nothing contradicts them, the rows are there with all their fields. */
  lemma UncontradictedRows(job: Job, start: Target, db: Db, r: nat)
    requires WellFormed(job, start) && At(job, start, db, r) && NoConflict(job, start, 0, r)
    ensures forall i | 0 <= i < r ::
              job.keyOf(job.source[i]) in db.target && db.target[job.keyOf(job.source[i])] == job.source[i]
  {
    AtMeans(job, start, db, r);
    forall i | 0 <= i < r ensures Seen(job, start, i) == job.source[i] {
      assert !Conflict(job, start, i);
    }
  }

  // ---------------------------------------------------------------------------------------
  // A batch from r rows
  // ---------------------------------------------------------------------------------------

  lemma {:induction false} FirstAboveIs(job: Job, r: nat, i: nat)
    requires KeyOrdered(job.keyOf, job.source) && i <= r <= |job.source|
    ensures r == 0 || i < r ==> FirstAbove(job, CursorAt(job, r), i) == r
    ensures i == r ==> FirstAbove(job, CursorAt(job, r), i) == r
    decreases r - i
  {
    if i < r {
      FirstAboveIs(job, r, i + 1);
    }
  }

  function Next(job: Job, r: nat, batch: nat): (e: nat)
    requires r <= |job.source|
    ensures r <= e <= |job.source|
  {
    if r + batch < |job.source| then r + batch else |job.source|
  }

  lemma FetchFrom(job: Job, r: nat, batch: nat)
    requires KeyOrdered(job.keyOf, job.source) && r <= |job.source|
    ensures Fetch(job, CursorAt(job, r), batch) == job.source[r..Next(job, r, batch)]
  {
    FirstAboveIs(job, r, 0);
  }

  lemma {:induction false} InsertIsOverlay(job: Job, start: Target, r: nat, e: nat, n: nat)
    requires KeyOrdered(job.keyOf, job.source) && r <= r + n <= e <= |job.source|
    ensures InsertAll(job.keyOf, Overlay(job, start, r), job.source[r..e], n) == Overlay(job, start, r + n)
  {
    if n > 0 {
      InsertIsOverlay(job, start, r, e, n - 1);
      var t, row := Overlay(job, start, r + n - 1), job.source[r + n - 1];
      assert job.source[r..e][n - 1] == row;
      var k := job.keyOf(row);
      if k in start {
        OverlayKeeps(job, start, r + n - 1, k);
      } else if k in t {
        OverlayOnly(job, start, r + n - 1, k);
        assert false;
      }
    }
  }

  lemma {:induction false} RereadSees(job: Job, start: Target, r: nat, e: nat, n: nat)
    requires KeyOrdered(job.keyOf, job.source) && r <= r + n <= e <= |job.source|
    ensures
      var actual := Reread(job.keyOf, Overlay(job, start, e), job.source[r..e], n);
      |actual| == n && forall i | 0 <= i < n :: actual[i] == Seen(job, start, r + i)
  {
    if n > 0 {
      RereadSees(job, start, r, e, n - 1);
      assert job.source[r..e][n - 1] == job.source[r + n - 1];
      OverlayHas(job, start, e, r + n - 1);
    }
  }

  function FirstBreak(s: string): nat {
    if s == "" || s[0] == '\n' then 0 else 1 + FirstBreak(s[1..])
  }

  lemma {:induction false} FirstBreakOf(a: string, x: string)
    requires OneLine(a)
    ensures FirstBreak(a + ['\n'] + x) == |a|
  {
    if a != "" {
      assert (a + ['\n'] + x)[1..] == a[1..] + ['\n'] + x;
      FirstBreakOf(a[1..], x);
    }
  }

  lemma FirstLine(a: string, x: string, b: string, y: string)
    requires OneLine(a) && OneLine(b) && a + ['\n'] + x == b + ['\n'] + y
    ensures a == b && x == y
  {
    FirstBreakOf(a, x);
    FirstBreakOf(b, y);
    var s := a + ['\n'] + x;
    assert a == s[..|a|] && b == s[..|b|];
    assert x == s[|a| + 1..] && y == s[|b| + 1..];
  }

  /** Joined lines tell lists of the same length apart. */
  lemma {:induction false} LinesInjective(a: seq<string>, b: seq<string>)
    requires |a| == |b| && Lines(a) == Lines(b)
    requires forall i | 0 <= i < |a| :: OneLine(a[i]) && OneLine(b[i])
    ensures a == b
    decreases |a|
  {
    if |a| == 1 {
      assert a == [a[0]] && b == [b[0]];
    } else if |a| > 1 {
      FirstLine(a[0], Lines(a[1..]), b[0], Lines(b[1..]));
      LinesInjective(a[1..], b[1..]);
      assert a == [a[0]] + a[1..] && b == [b[0]] + b[1..];
    }
  }

  lemma WellFormedIsOrdered(job: Job, start: Target)
    requires WellFormed(job, start)
    ensures KeyOrdered(job.keyOf, job.source)
  {
  }

  function SeenRows(job: Job, start: Target, r: nat, e: nat): seq<string>
    requires r <= e <= |job.source|
  {
    Reread(job.keyOf, Overlay(job, start, e), job.source[r..e], e - r)
  }

  lemma SeenIsOneLine(job: Job, start: Target, i: nat)
    requires WellFormed(job, start) && i < |job.source|
    ensures OneLine(Seen(job, start, i))
  {
    hide OneLine;
    var k := job.keyOf(job.source[i]);
    if k in start {
      assert OneLine(start[k]);
    } else {
      assert OneLine(job.source[i]);
    }
  }

  lemma SeenRowsIff(job: Job, start: Target, r: nat, e: nat)
    requires WellFormed(job, start) && r <= e <= |job.source|
    ensures |SeenRows(job, start, r, e)| == e - r
    ensures SeenRows(job, start, r, e) == job.source[r..e] <==> NoConflict(job, start, r, e)
    ensures forall j | 0 <= j < e - r :: OneLine(SeenRows(job, start, r, e)[j])
  {
    hide Reread, Overlay, OneLine, KeyOrdered;
    RereadSees(job, start, r, e, e - r);
    var rows, actual := job.source[r..e], SeenRows(job, start, r, e);
    forall j | 0 <= j < e - r ensures OneLine(actual[j]) && (actual[j] == rows[j] <==> !Conflict(job, start, r + j)) {
      assert actual[j] == Seen(job, start, r + j);
      SeenIsOneLine(job, start, r + j);
    }
    if actual == rows {
      forall i | r <= i < e ensures !Conflict(job, start, i) {
        assert actual[i - r] == rows[i - r];
      }
    }
    if NoConflict(job, start, r, e) {
      forall j | 0 <= j < e - r ensures actual[j] == rows[j] {
        assert !Conflict(job, start, r + j);
      }
    }
  }

  /** The digest tells each stretch of rows from what lies in its place, if that differs. */
  ghost predicate TellsApart(job: Job, start: Target) {
    forall r: nat, e: nat | r <= e <= |job.source| ::
      job.hash(Lines(job.source[r..e])) == job.hash(Lines(SeenRows(job, start, r, e)))
      ==> Lines(job.source[r..e]) == Lines(SeenRows(job, start, r, e))
  }

  /** A batch that nothing contradicts passes its check; where the digest tells rows apart, no
      other does. */
  lemma BatchAgreesIff(job: Job, start: Target, r: nat, e: nat)
    requires WellFormed(job, start) && r <= e <= |job.source|
    ensures NoConflict(job, start, r, e) ==> BatchAgrees(job, Overlay(job, start, e), job.source[r..e])
    ensures TellsApart(job, start) ==>
              (BatchAgrees(job, Overlay(job, start, e), job.source[r..e]) <==> NoConflict(job, start, r, e))
  {
    hide Reread, Overlay, NoConflict, OneLine, KeyOrdered, Lines;
    SeenRowsIff(job, start, r, e);
    var rows, actual := job.source[r..e], SeenRows(job, start, r, e);
    assert |rows| == e - r;
    if Lines(rows) == Lines(actual) {
      LinesInjective(rows, actual);
    }
  }

  /**
   One transaction, from r rows: it finds nothing more exactly when r is all. It is rolled back
   only when a row already there contradicts the batch, and always then if the digest tells rows
   apart. Else it commits the next rows, at least one, and moves the position past them.
   */
  lemma BatchFrom(job: Job, start: Target, db: Db, r: nat, batch: nat)
    requires WellFormed(job, start) && At(job, start, db, r) && batch > 0
    ensures Batch(job, db, batch).Exhausted? <==> r == |job.source|
    ensures Batch(job, db, batch).Exhausted? ==>
              Batch(job, db, batch).copied == |job.source| && At(job, start, Batch(job, db, batch).db, r)
    ensures Batch(job, db, batch).Mismatch? ==> !NoConflict(job, start, r, Next(job, r, batch))
    ensures TellsApart(job, start) ==>
              (Batch(job, db, batch).Mismatch? <==> !NoConflict(job, start, r, Next(job, r, batch)))
    ensures Batch(job, db, batch).Copied? ==>
              r < Next(job, r, batch) && At(job, start, Batch(job, db, batch).db, Next(job, r, batch))
  {
    hide Fetch, InsertAll, BatchAgrees, Overlay, Lines, Conflict, WellFormed, TellsApart;
    var e := Next(job, r, batch);
    assert KeyOrdered(job.keyOf, job.source) by { WellFormedIsOrdered(job, start); }
    FetchFrom(job, r, batch);
    if r < e {
      InsertIsOverlay(job, start, r, e, e - r);
      BatchAgreesIff(job, start, r, e);
    }
  }

  // ---------------------------------------------------------------------------------------
  // Many batches, over any number of runs
  // ---------------------------------------------------------------------------------------

  /** Batches of the given sizes, one after the other, until one fails. */
  function Batches(job: Job, db: Db, sizes: seq<nat>): Result<Db, ()>
    decreases |sizes|
  {
    if sizes == [] then Success(db)
    else
      match Batch(job, db, sizes[0])
      case Copied(next) => Batches(job, next, sizes[1..])
      case Exhausted(next, _) => Batches(job, next, sizes[1..])
      case Mismatch => Failure(())
  }

  function Total(sizes: seq<nat>): nat {
    if sizes == [] then 0 else sizes[0] + Total(sizes[1..])
  }

  /** Without conflicts, batches of any sizes cover as many rows as their sizes add up to. */
  lemma {:induction false} BatchesCover(job: Job, start: Target, db: Db, r: nat, sizes: seq<nat>)
    requires WellFormed(job, start) && At(job, start, db, r)
    requires NoConflict(job, start, 0, |job.source|) && forall i | 0 <= i < |sizes| :: sizes[i] > 0
    ensures Batches(job, db, sizes).Success?
    ensures At(job, start, Batches(job, db, sizes).value, Next(job, r, Total(sizes)))
    decreases |sizes|
  {
    hide At, Batch, WellFormed, Conflict, TellsApart;
    if sizes != [] {
      BatchFrom(job, start, db, r, sizes[0]);
      var b := Batch(job, db, sizes[0]);
      assert NoConflict(job, start, r, Next(job, r, sizes[0]));
      BatchesCover(job, start, b.db, Next(job, r, sizes[0]), sizes[1..]);
    }
  }

  function Repeat(size: nat, n: nat): (s: seq<nat>)
    ensures |s| == n
    ensures forall i | 0 <= i < n :: s[i] == size
  {
    if n == 0 then [] else [size] + Repeat(size, n - 1)
  }

  lemma {:induction false} TotalRepeat(size: nat, n: nat)
    ensures Total(Repeat(size, n)) == n * size
  {
    if n > 0 {
      TotalRepeat(size, n - 1);
      assert Repeat(size, n)[1..] == Repeat(size, n - 1);
      assert n * size == size + (n - 1) * size;
    }
  }

  function CeilDiv(n: nat, d: nat): nat
    requires d > 0
  {
    (n + d - 1) / d
  }

  lemma CeilDivCovers(n: nat, d: nat)
    requires d > 0
    ensures n <= CeilDiv(n, d) * d < n + d
  {
    var q := CeilDiv(n, d);
    assert (n + d - 1) == q * d + (n + d - 1) % d;
  }

  /** The least number of batches that covers n rows is one number only. */
  lemma {:induction false} CeilBounds(n: nat, batch: nat, k: nat, q: nat)
    requires batch > 0 && n <= q * batch < n + batch && (k > 0 ==> (k - 1) * batch < n)
    ensures k <= q
    ensures k * batch >= n <==> k == q
  {
    if k > q {
      MulMonotone(q, k - 1, batch);
    } else if k < q {
      MulMonotone(k, q - 1, batch);
    }
  }

  lemma {:induction false} MulMonotone(a: nat, b: nat, c: nat)
    requires a <= b
    ensures a * c <= b * c && (b + 1) * c == b * c + c
    decreases b
  {
    if a < b {
      MulMonotone(a, b - 1, c);
    }
  }

  /** ceil(n / b) batches of size b copy all n rows, and not one batch fewer does; the fetch
      after them reports the copy as exhausted, with n rows copied. */
  lemma CeilBatchesExhaust(job: Job, start: Target, batch: nat)
    requires WellFormed(job, start) && batch > 0
    requires NoConflict(job, start, 0, |job.source|)
    ensures
      var n, m := |job.source|, CeilDiv(|job.source|, batch);
      var end := Batches(job, Db(start, None), Repeat(batch, m));
      && end.Success? && At(job, start, end.value, n)
      && Batch(job, end.value, batch).Exhausted? && Batch(job, end.value, batch).copied == n
      && (m > 0 ==>
            var short := Batches(job, Db(start, None), Repeat(batch, m - 1));
            short.Success? && Batch(job, short.value, batch).Copied?)
  {
    hide At, Batch, Batches, WellFormed, TellsApart, Conflict, Total, Repeat, CeilDiv;
    var n, m := |job.source|, CeilDiv(|job.source|, batch);
    var db := Db(start, None);
    StartsAt(job, start);
    CeilDivCovers(n, batch);
    TotalRepeat(batch, m);
    BatchesCover(job, start, db, 0, Repeat(batch, m));
    BatchFrom(job, start, Batches(job, db, Repeat(batch, m)).value, n, batch);
    if m > 0 {
      TotalRepeat(batch, m - 1);
      var r := (m - 1) * batch;
      assert r == m * batch - batch;
      BatchesCover(job, start, db, 0, Repeat(batch, m - 1));
      assert Next(job, 0, r) == r < n;
      assert NoConflict(job, start, r, Next(job, r, batch));
      BatchFrom(job, start, Batches(job, db, Repeat(batch, m - 1)).value, r, batch);
    }
  }

  lemma StartsAt(job: Job, start: Target)
    ensures At(job, start, Db(start, None), 0)
  {
  }
}
