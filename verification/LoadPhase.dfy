/**
 The load phase of a benchmark: one first-in first-out queue with every record and then one
 sentinel for each worker, and workers that send records until they meet a sentinel.
 */
module LoadPhase {
  import opened Common

  const RETRYABLE_STATUSES := {429, 503}
  const SUCCESS_STATUSES := {200, 201, 202}

  datatype Body = NotJson | JsonObject(accepted: bool) | OtherJson

  /** What one attempt to post a record meets. */
  datatype Reply = Response(status: int, body: Body) | Raised

  /** A body that is JSON but no object makes reading the answer fail, like a failed call. */
  predicate Broken(r: Reply) {
    r.Raised? || r.body.OtherJson?
  }

  /** An attempt that is followed by another if there is one left. */
  predicate Retryable(r: Reply) {
    Broken(r) || (r.status in RETRYABLE_STATUSES && r.status !in SUCCESS_STATUSES)
  }

  datatype Metric = Metric(record: nat, status: Option<int>, accepted: bool, attempts: nat)

  function MetricOf(record: nat, r: Reply, attempt: nat): Metric {
    if Broken(r) then Metric(record, None, false, attempt)
    else Metric(record, Some(r.status), r.body == JsonObject(true), attempt)
  }

  /** What sending a record gives, when `reply` tells what each attempt meets: the metric is about
      the first attempt that is not retryable, or about the last one allowed. */
  ghost predicate Sent(maxRetries: int, reply: nat -> Reply, m: Metric) {
    var k := m.attempts;
    && 1 <= k <= maxRetries && m == MetricOf(m.record, reply(k), k)
    && (forall j | 1 <= j < k :: Retryable(reply(j)))
    && (Retryable(reply(k)) ==> k == maxRetries)
  }

  /**
   Sends one record. The metric is about the first attempt that is not retryable, or about the
   last one allowed; with no attempt allowed there is none.
   */
  method SendRecord(record: nat, maxRetries: int, reply: nat -> Reply) returns (m: Option<Metric>)
    ensures m.None? <==> maxRetries < 1
    ensures m.Some? ==> m.value.record == record && Sent(maxRetries, reply, m.value)
  {
    var attempt := 1;
    while attempt <= maxRetries
      invariant 1 <= attempt && (maxRetries >= 1 ==> attempt <= maxRetries)
      invariant forall j | 1 <= j < attempt :: Retryable(reply(j))
    {
      var r := reply(attempt);
      if Broken(r) {
        if attempt < maxRetries {
          attempt := attempt + 1;
          continue;
        }
        return Some(Metric(record, None, false, attempt));
      }
      var accepted := r.body.JsonObject? && r.body.accepted;
      if r.status in SUCCESS_STATUSES {
        return Some(Metric(record, Some(r.status), accepted, attempt));
      }
      if r.status in RETRYABLE_STATUSES && attempt < maxRetries {
        attempt := attempt + 1;
        continue;
      }
      return Some(Metric(record, Some(r.status), accepted, attempt));
    }
    return None;
  }

  // ---------------------------------------------------------------------------------------
  // Workers on the queue
  // ---------------------------------------------------------------------------------------

  datatype Item = Rec(index: nat) | Sentinel

  datatype Worker = Idle | Sending(record: nat, attempt: nat) | Reporting(metric: Metric) | Exited

  datatype State = State(queue: seq<Item>, workers: seq<Worker>, metrics: seq<Metric>)

  /** Worker i takes its next step; a sending worker's attempt meets a reply. */
  datatype Event = Event(i: nat, reply: Reply)

  predicate Enabled(s: State, e: Event) {
    && e.i < |s.workers| && !s.workers[e.i].Exited?
    && (s.workers[e.i].Idle? ==> s.queue != [])
  }

  function NextWorker(maxRetries: nat, s: State, e: Event): Worker
    requires Enabled(s, e)
  {
    match s.workers[e.i]
    case Idle => if s.queue[0].Sentinel? then Exited else Sending(s.queue[0].index, 1)
    case Sending(record, attempt) =>
      if Retryable(e.reply) && attempt < maxRetries then Sending(record, attempt + 1)
      else Reporting(MetricOf(record, e.reply, attempt))
    case Reporting(_) => Idle
    case Exited => Exited
  }

  function Apply(maxRetries: nat, s: State, e: Event): State
    requires Enabled(s, e)
  {
    State(if s.workers[e.i].Idle? then s.queue[1..] else s.queue,
          s.workers[e.i := NextWorker(maxRetries, s, e)],
          if s.workers[e.i].Reporting? then s.metrics + [s.workers[e.i].metric] else s.metrics)
  }

  predicate Legal(maxRetries: nat, s: State, schedule: seq<Event>)
    decreases schedule
  {
    schedule == [] || (Enabled(s, schedule[0]) && Legal(maxRetries, Apply(maxRetries, s, schedule[0]), schedule[1..]))
  }

  function Run(maxRetries: nat, s: State, schedule: seq<Event>): State
    requires Legal(maxRetries, s, schedule)
    decreases schedule
  {
    if schedule == [] then s else Run(maxRetries, Apply(maxRetries, s, schedule[0]), schedule[1..])
  }

  /** The records from one index on, then sentinels: what the queue always looks like. */
  function Queue(next: nat, records: nat, sentinels: nat): (q: seq<Item>)
    requires next <= records
    ensures |q| == records - next + sentinels
    ensures forall k | 0 <= k < |q| :: q[k] == if k < records - next then Rec(next + k) else Sentinel
  {
    seq(records - next + sentinels, k requires k >= 0 => if k < records - next then Rec(next + k) else Sentinel)
  }

  function Start(records: nat, concurrency: nat): State {
    State(Queue(0, records, concurrency), seq(concurrency, _ => Idle), [])
  }

  // ---------------------------------------------------------------------------------------
  // Where each record is
  // ---------------------------------------------------------------------------------------

  /** A count over the first n workers. */
  function Sum(ws: seq<Worker>, n: nat, f: Worker -> nat): nat
    requires n <= |ws|
  {
    if n == 0 then 0 else Sum(ws, n - 1, f) + f(ws[n - 1])
  }

  lemma {:induction false} SumUpdate(ws: seq<Worker>, i: nat, w: Worker, n: nat, f: Worker -> nat)
    requires i < |ws| && n <= |ws|
    ensures Sum(ws[i := w], n, f) + (if i < n then f(ws[i]) else 0) == Sum(ws, n, f) + (if i < n then f(w) else 0)
  {
    if n > 0 {
      SumUpdate(ws, i, w, n - 1, f);
    }
  }

  lemma {:induction false} SumOfOne(ws: seq<Worker>, n: nat, f: Worker -> nat) returns (i: nat)
    requires n <= |ws| && Sum(ws, n, f) > 0
    ensures i < n && f(ws[i]) > 0
  {
    if f(ws[n - 1]) > 0 {
      i := n - 1;
    } else {
      i := SumOfOne(ws, n - 1, f);
    }
  }

  lemma {:induction false} SumOfNone(ws: seq<Worker>, n: nat, f: Worker -> nat, i: nat)
    requires i < n <= |ws| && Sum(ws, n, f) == 0
    ensures f(ws[i]) == 0
  {
    if i < n - 1 {
      SumOfNone(ws, n - 1, f, i);
    }
  }

  lemma {:induction false} SumOfSame(ws: seq<Worker>, n: nat, f: Worker -> nat, each: nat)
    requires n <= |ws| && forall i | 0 <= i < n :: f(ws[i]) == each
    ensures Sum(ws, n, f) == n * each
  {
    if n > 0 {
      SumOfSame(ws, n - 1, f, each);
      assert n * each == (n - 1) * each + each;
    }
  }

  function Active(w: Worker): nat {
    if w.Exited? then 0 else 1
  }

  function Busy(w: Worker): nat {
    if w.Sending? || w.Reporting? then 1 else 0
  }

  /** Whether a worker has record k in hand. */
  function Holding(k: nat): Worker -> nat {
    (w: Worker) => if (w.Sending? && w.record == k) || (w.Reporting? && w.metric.record == k) then 1 else 0
  }

  function InFlight(s: State, k: nat): nat {
    Sum(s.workers, |s.workers|, Holding(k))
  }

  /** How many of the metrics are about record k. */
  function Reported(ms: seq<Metric>, k: nat): nat {
    if ms == [] then 0 else Reported(ms[..|ms| - 1], k) + if ms[|ms| - 1].record == k then 1 else 0
  }

  /** Every record taken from the queue is with exactly one worker or in exactly one metric. */
  ghost predicate Conserved(s: State, taken: nat) {
    && Sum(s.workers, |s.workers|, Busy) + |s.metrics| == taken
    && forall k: nat :: InFlight(s, k) + Reported(s.metrics, k) == if k < taken then 1 else 0
  }

  /** The queue holds the other records in order, and a sentinel for every worker still there. */
  ghost predicate Shaped(records: nat, concurrency: nat, s: State, taken: nat) {
    && taken <= records && |s.workers| == concurrency
    && s.queue == Queue(taken, records, Sum(s.workers, concurrency, Active))
    && (taken < records ==> Sum(s.workers, concurrency, Active) == concurrency)
  }

  predicate AttemptsBounded(maxRetries: nat, w: Worker) {
    && (w.Sending? ==> 1 <= w.attempt <= maxRetries)
    && (w.Reporting? ==> 1 <= w.metric.attempts <= maxRetries)
  }

  ghost predicate Bounded(maxRetries: nat, s: State) {
    && (forall i | 0 <= i < |s.workers| :: AttemptsBounded(maxRetries, s.workers[i]))
    && forall i | 0 <= i < |s.metrics| :: 1 <= s.metrics[i].attempts <= maxRetries
  }

  ghost predicate Inv(records: nat, concurrency: nat, maxRetries: nat, s: State, taken: nat) {
    Shaped(records, concurrency, s, taken) && Conserved(s, taken) && Bounded(maxRetries, s)
  }

  /** How many records are out of the queue after a step. */
  function TakenAfter(s: State, e: Event, taken: nat): nat
    requires Enabled(s, e)
  {
    if s.workers[e.i].Idle? && s.queue[0].Rec? then taken + 1 else taken
  }

  lemma StepShaped(records: nat, concurrency: nat, maxRetries: nat, s: State, e: Event, taken: nat)
    requires Shaped(records, concurrency, s, taken) && Enabled(s, e)
    ensures Shaped(records, concurrency, Apply(maxRetries, s, e), TakenAfter(s, e, taken))
    ensures s.workers[e.i].Idle? && s.queue[0].Rec? ==> s.queue[0] == Rec(taken)
  {
    hide MetricOf, Retryable;
    SumUpdate(s.workers, e.i, NextWorker(maxRetries, s, e), |s.workers|, Active);
    if s.workers[e.i].Idle? {
      var left := Sum(Apply(maxRetries, s, e).workers, concurrency, Active);
      assert s.queue[1..] == Queue(TakenAfter(s, e, taken), records, left);
    }
  }

  lemma StepCounts(maxRetries: nat, s: State, e: Event, taken: nat, k: nat)
    requires Conserved(s, taken) && Enabled(s, e)
    requires s.workers[e.i].Idle? && s.queue[0].Rec? ==> s.queue[0] == Rec(taken)
    ensures
      var s' := Apply(maxRetries, s, e);
      InFlight(s', k) + Reported(s'.metrics, k) == if k < TakenAfter(s, e, taken) then 1 else 0
  {
    hide Retryable;
    var w := s.workers[e.i];
    SumUpdate(s.workers, e.i, NextWorker(maxRetries, s, e), |s.workers|, Holding(k));
    if w.Reporting? {
      assert (s.metrics + [w.metric])[..|s.metrics|] == s.metrics;
    }
  }

  lemma StepConserved(maxRetries: nat, s: State, e: Event, taken: nat)
    requires Conserved(s, taken) && Enabled(s, e)
    requires s.workers[e.i].Idle? && s.queue[0].Rec? ==> s.queue[0] == Rec(taken)
    ensures Conserved(Apply(maxRetries, s, e), TakenAfter(s, e, taken))
  {
    hide Retryable, InFlight, Reported;
    SumUpdate(s.workers, e.i, NextWorker(maxRetries, s, e), |s.workers|, Busy);
    forall k: nat
      ensures InFlight(Apply(maxRetries, s, e), k) + Reported(Apply(maxRetries, s, e).metrics, k)
           == if k < TakenAfter(s, e, taken) then 1 else 0
    {
      StepCounts(maxRetries, s, e, taken, k);
    }
  }

  lemma StepBounded(maxRetries: nat, s: State, e: Event)
    requires Bounded(maxRetries, s) && Enabled(s, e) && maxRetries >= 1
    ensures Bounded(maxRetries, Apply(maxRetries, s, e))
  {
    hide Retryable;
    assert AttemptsBounded(maxRetries, s.workers[e.i]);
  }

  lemma StartInv(records: nat, concurrency: nat, maxRetries: nat)
    ensures Inv(records, concurrency, maxRetries, Start(records, concurrency), 0)
  {
    var s := Start(records, concurrency);
    SumOfSame(s.workers, concurrency, Active, 1);
    SumOfSame(s.workers, concurrency, Busy, 0);
    forall k: nat ensures InFlight(s, k) == 0 {
      SumOfSame(s.workers, concurrency, Holding(k), 0);
    }
  }

  lemma {:induction false} RunInv(records: nat, concurrency: nat, maxRetries: nat, s: State,
                                  schedule: seq<Event>, taken: nat)
    returns (end: nat)
    requires Inv(records, concurrency, maxRetries, s, taken) && Legal(maxRetries, s, schedule) && maxRetries >= 1
    ensures Inv(records, concurrency, maxRetries, Run(maxRetries, s, schedule), end)
    decreases schedule
  {
    hide Shaped, Conserved, Bounded, Apply;
    end := taken;
    if schedule != [] {
      StepShaped(records, concurrency, maxRetries, s, schedule[0], taken);
      StepConserved(maxRetries, s, schedule[0], taken);
      StepBounded(maxRetries, s, schedule[0]);
      end := RunInv(records, concurrency, maxRetries, Apply(maxRetries, s, schedule[0]), schedule[1..],
                    TakenAfter(s, schedule[0], taken));
    }
  }

  // ---------------------------------------------------------------------------------------
  // No deadlock, an end, and what is there at the end
  // ---------------------------------------------------------------------------------------

  /** As long as one worker has not left, some worker can take its next step. */
  lemma SomeoneMoves(records: nat, concurrency: nat, maxRetries: nat, schedule: seq<Event>, i: nat)
    returns (e: Event)
    requires maxRetries >= 1 && Legal(maxRetries, Start(records, concurrency), schedule)
    requires
      var s := Run(maxRetries, Start(records, concurrency), schedule);
      i < |s.workers| && !s.workers[i].Exited?
    ensures Enabled(Run(maxRetries, Start(records, concurrency), schedule), e)
  {
    StartInv(records, concurrency, maxRetries);
    var taken := RunInv(records, concurrency, maxRetries, Start(records, concurrency), schedule, 0);
    var s := Run(maxRetries, Start(records, concurrency), schedule);
    if Sum(s.workers, concurrency, Active) == 0 {
      SumOfNone(s.workers, concurrency, Active, i);
    }
    e := Event(i, Raised);
  }

  /**
   However the workers interleave and whatever the replies are: when all have exited, the queue
   is empty -- each has taken one sentinel -- and the metrics hold exactly one entry for each
   record, made in at most `maxRetries` attempts.
   */
  lemma EveryRecordOnce(records: nat, concurrency: nat, maxRetries: nat, schedule: seq<Event>)
    requires concurrency >= 1 && maxRetries >= 1
    requires Legal(maxRetries, Start(records, concurrency), schedule)
    requires forall w | w in Run(maxRetries, Start(records, concurrency), schedule).workers :: w.Exited?
    ensures
      var end := Run(maxRetries, Start(records, concurrency), schedule);
      && end.queue == [] && |end.workers| == concurrency && |end.metrics| == records
      && (forall k: nat :: Reported(end.metrics, k) == if k < records then 1 else 0)
      && forall i | 0 <= i < |end.metrics| :: 1 <= end.metrics[i].attempts <= maxRetries
  {
    StartInv(records, concurrency, maxRetries);
    var taken := RunInv(records, concurrency, maxRetries, Start(records, concurrency), schedule, 0);
    var end := Run(maxRetries, Start(records, concurrency), schedule);
    SumOfSame(end.workers, concurrency, Active, 0);
    SumOfSame(end.workers, concurrency, Busy, 0);
    forall k: nat ensures Reported(end.metrics, k) == if k < records then 1 else 0 {
      SumOfSame(end.workers, concurrency, Holding(k), 0);
      assert InFlight(end, k) == 0;
    }
  }

  /** Mid-run: no record is with two workers, or with one and already reported, or reported
      twice; and none that left the queue is lost. */
  lemma NoRecordTwice(records: nat, concurrency: nat, maxRetries: nat, schedule: seq<Event>, k: nat)
    requires maxRetries >= 1 && Legal(maxRetries, Start(records, concurrency), schedule)
    ensures
      var s := Run(maxRetries, Start(records, concurrency), schedule);
      InFlight(s, k) + Reported(s.metrics, k) == if k < records && Rec(k) !in s.queue then 1 else 0
  {
    StartInv(records, concurrency, maxRetries);
    var taken := RunInv(records, concurrency, maxRetries, Start(records, concurrency), schedule, 0);
    var s := Run(maxRetries, Start(records, concurrency), schedule);
    hide InFlight, Reported;
    assert InFlight(s, k) + Reported(s.metrics, k) == if k < taken then 1 else 0;
    if taken <= k < records {
      assert s.queue[k - taken] == Rec(k);
    }
  }

  function Effort(maxRetries: nat): Worker -> nat {
    (w: Worker) => match w
      case Sending(_, attempt) => if attempt <= maxRetries then maxRetries - attempt + 2 else 2
      case Reporting(_) => 1
      case _ => 0
  }

  /** Steps that may still come. */
  function Work(maxRetries: nat, s: State): nat {
    |s.queue| * (maxRetries + 2) + Sum(s.workers, |s.workers|, Effort(maxRetries))
  }

  lemma StepWorks(maxRetries: nat, s: State, e: Event)
    requires Enabled(s, e) && maxRetries >= 1
    ensures Work(maxRetries, Apply(maxRetries, s, e)) < Work(maxRetries, s)
  {
    hide Retryable, MetricOf;
    SumUpdate(s.workers, e.i, NextWorker(maxRetries, s, e), |s.workers|, Effort(maxRetries));
    if s.workers[e.i].Idle? {
      assert |s.queue| * (maxRetries + 2) == (|s.queue| - 1) * (maxRetries + 2) + (maxRetries + 2);
    }
  }

  lemma {:induction false} RunIsBounded(maxRetries: nat, s: State, schedule: seq<Event>)
    requires Legal(maxRetries, s, schedule) && maxRetries >= 1
    ensures |schedule| + Work(maxRetries, Run(maxRetries, s, schedule)) <= Work(maxRetries, s)
    decreases schedule
  {
    hide Work, Apply;
    if schedule != [] {
      StepWorks(maxRetries, s, schedule[0]);
      RunIsBounded(maxRetries, Apply(maxRetries, s, schedule[0]), schedule[1..]);
    }
  }

  /** No schedule is longer than this: the phase ends, whatever the order and the replies. */
  lemma PhaseEnds(records: nat, concurrency: nat, maxRetries: nat, schedule: seq<Event>)
    requires maxRetries >= 1 && Legal(maxRetries, Start(records, concurrency), schedule)
    ensures |schedule| <= (records + concurrency) * (maxRetries + 2)
  {
    RunIsBounded(maxRetries, Start(records, concurrency), schedule);
    SumOfSame(Start(records, concurrency).workers, concurrency, Effort(maxRetries), 0);
  }

  // ---------------------------------------------------------------------------------------
  // What is reported is what sending the record gives
  // ---------------------------------------------------------------------------------------

  /** The replies met in a schedule are those of `replies`, by record and attempt. */
  predicate Meets(maxRetries: nat, s: State, schedule: seq<Event>, replies: nat -> nat -> Reply)
    requires Legal(maxRetries, s, schedule)
    decreases schedule
  {
    schedule != [] ==>
      var e, w := schedule[0], s.workers[schedule[0].i];
      && (w.Sending? ==> e.reply == replies(w.record)(w.attempt))
      && Meets(maxRetries, Apply(maxRetries, s, e), schedule[1..], replies)
  }

  ghost predicate Faithful(maxRetries: nat, replies: nat -> nat -> Reply, w: Worker) {
    match w
    case Sending(record, attempt) =>
      1 <= attempt <= maxRetries && forall j | 1 <= j < attempt :: Retryable(replies(record)(j))
    case Reporting(m) => Sent(maxRetries, replies(m.record), m)
    case _ => true
  }

  ghost predicate AllFaithful(maxRetries: nat, replies: nat -> nat -> Reply, s: State) {
    && (forall i | 0 <= i < |s.workers| :: Faithful(maxRetries, replies, s.workers[i]))
    && forall i | 0 <= i < |s.metrics| :: Sent(maxRetries, replies(s.metrics[i].record), s.metrics[i])
  }

  lemma StepFaithful(maxRetries: nat, replies: nat -> nat -> Reply, s: State, e: Event)
    requires AllFaithful(maxRetries, replies, s) && Enabled(s, e) && maxRetries >= 1
    requires s.workers[e.i].Sending? ==> e.reply == replies(s.workers[e.i].record)(s.workers[e.i].attempt)
    ensures AllFaithful(maxRetries, replies, Apply(maxRetries, s, e))
  {
    hide Retryable;
    assert Faithful(maxRetries, replies, s.workers[e.i]);
  }

  lemma {:induction false} RunFaithful(maxRetries: nat, replies: nat -> nat -> Reply, s: State, schedule: seq<Event>)
    requires AllFaithful(maxRetries, replies, s) && maxRetries >= 1
    requires Legal(maxRetries, s, schedule) && Meets(maxRetries, s, schedule, replies)
    ensures AllFaithful(maxRetries, replies, Run(maxRetries, s, schedule))
    decreases schedule
  {
    hide AllFaithful, Apply;
    if schedule != [] {
      StepFaithful(maxRetries, replies, s, schedule[0]);
      RunFaithful(maxRetries, replies, Apply(maxRetries, s, schedule[0]), schedule[1..]);
    }
  }

  /** At every moment of every interleaving, each metric is the one that sending its record alone
      would give, whatever each attempt for each record meets. */
  lemma MetricsAreSent(records: nat, concurrency: nat, maxRetries: nat, replies: nat -> nat -> Reply,
                       schedule: seq<Event>)
    requires maxRetries >= 1 && Legal(maxRetries, Start(records, concurrency), schedule)
    requires Meets(maxRetries, Start(records, concurrency), schedule, replies)
    ensures
      var metrics := Run(maxRetries, Start(records, concurrency), schedule).metrics;
      forall i | 0 <= i < |metrics| :: Sent(maxRetries, replies(metrics[i].record), metrics[i])
  {
    RunFaithful(maxRetries, replies, Start(records, concurrency), schedule);
  }
}
