/**
 Any number of uploads against one store, interleaved call by call, with nobody deleting.
 A schedule says who moves and what the provider answers; a kill stops an upload anywhere.
 */
module Uploads {
  import opened ObjectStore

  datatype Event = Call(i: nat, answer: Answer) | Kill(i: nat)

  datatype State = State(store: Store, pcs: seq<Pc>)

  /** The digest, whether errors that enter the fallback can occur, and the uploads taking part. */
  datatype World = World(h: Hash, fallbackErrors: bool, requests: seq<Request>)

  function Start(w: World, store: Store): State {
    State(store, seq(|w.requests|, _ => Begin))
  }

  predicate Enabled(w: World, s: State, e: Event) {
    && |s.pcs| == |w.requests| && e.i < |s.pcs| && !s.pcs[e.i].Over()
    && (e.Call? ==> Possible(w.fallbackErrors, s.store, w.requests[e.i], s.pcs[e.i], e.answer))
  }

  function Apply(w: World, s: State, e: Event): State
    requires Enabled(w, s, e)
  {
    match e
    case Call(i, answer) =>
      State(NextStore(w.h, s.store, w.requests[i], s.pcs[i], answer),
            s.pcs[i := NextPc(w.h, s.store, w.requests[i], s.pcs[i], answer)])
    case Kill(i) => s.(pcs := s.pcs[i := Killed])
  }

  predicate Legal(w: World, s: State, schedule: seq<Event>)
    decreases schedule
  {
    schedule == [] || (Enabled(w, s, schedule[0]) && Legal(w, Apply(w, s, schedule[0]), schedule[1..]))
  }

  function Run(w: World, s: State, schedule: seq<Event>): (end: State)
    requires Legal(w, s, schedule)
    ensures |end.pcs| == |s.pcs|
    decreases schedule
  {
    if schedule == [] then s else Run(w, Apply(w, s, schedule[0]), schedule[1..])
  }

  lemma {:induction false} RunAppend(w: World, s: State, a: seq<Event>, b: seq<Event>)
    requires Legal(w, s, a) && Legal(w, Run(w, s, a), b)
    ensures Legal(w, s, a + b) && Run(w, s, a + b) == Run(w, Run(w, s, a), b)
    decreases a
  {
    if a == [] {
      assert a + b == b;
    } else {
      assert (a + b)[1..] == a[1..] + b;
      RunAppend(w, Apply(w, s, a[0]), a[1..], b);
    }
  }

  // ---------------------------------------------------------------------------------------
  // Uploads without errors that enter the fallback
  // ---------------------------------------------------------------------------------------

  /** What an upload knows while no call enters the fallback. */
  ghost predicate CleanPc(h: Hash, store: Store, r: Request, pc: Pc) {
    match pc
    case RaceHead(error) => !error.EntersFallback()
    case FallbackHead => false
    case PlainPut => false
    case FinalHead(mode) => mode.Conditional? && r.key in store && store[r.key] == ObjectOf(h, r.body)
    case Done(outcome) => outcome != Failed ==> outcome != Uploaded(Preflight) && Matches(h, store, r)
    case _ => true
  }

  ghost predicate Clean(w: World, s: State) {
    && |s.pcs| == |w.requests|
    && forall i | 0 <= i < |s.pcs| :: CleanPc(w.h, s.store, w.requests[i], s.pcs[i])
  }

  ghost predicate Keeps(before: Store, after: Store) {
    forall k | k in before :: k in after && after[k] == before[k]
  }

  lemma CleanStep(w: World, s: State, e: Event)
    requires !w.fallbackErrors && Clean(w, s) && Enabled(w, s, e)
    ensures Clean(w, Apply(w, s, e)) && Keeps(s.store, Apply(w, s, e).store)
  {
    assert CleanPc(w.h, s.store, w.requests[e.i], s.pcs[e.i]);
    assert Keeps(s.store, Apply(w, s, e).store);
    forall j | 0 <= j < |s.pcs| && j != e.i
      ensures CleanPc(w.h, Apply(w, s, e).store, w.requests[j], s.pcs[j])
    {
      assert CleanPc(w.h, s.store, w.requests[j], s.pcs[j]);
    }
  }

  lemma {:induction false} CleanRun(w: World, s: State, schedule: seq<Event>)
    requires !w.fallbackErrors && Clean(w, s) && Legal(w, s, schedule)
    ensures Clean(w, Run(w, s, schedule)) && Keeps(s.store, Run(w, s, schedule).store)
    decreases schedule
  {
    if schedule != [] {
      CleanStep(w, s, schedule[0]);
      CleanRun(w, Apply(w, s, schedule[0]), schedule[1..]);
    }
  }

  /** Whatever the uploads do from any moment on, an object that is there stays as it is. */
  lemma ObjectsNeverChange(w: World, store: Store, before: seq<Event>, after: seq<Event>)
    requires !w.fallbackErrors
    requires Legal(w, Start(w, store), before) && Legal(w, Run(w, Start(w, store), before), after)
    ensures
      var mid := Run(w, Start(w, store), before);
      Keeps(store, mid.store) && Keeps(mid.store, Run(w, mid, after).store)
  {
    CleanRun(w, Start(w, store), before);
    CleanRun(w, Run(w, Start(w, store), before), after);
  }

  // ---------------------------------------------------------------------------------------
  // The fallback
  // ---------------------------------------------------------------------------------------

  /** Every upload that has reported success stored, or found, what is there now. */
  ghost predicate Agreement(w: World, s: State) {
    && |s.pcs| == |w.requests|
    && forall i | 0 <= i < |s.pcs| :: s.pcs[i].Succeeded() ==> Matches(w.h, s.store, w.requests[i])
  }

  predicate SameFingerprint(h: Hash, a: Bytes, b: Bytes) {
    |a| == |b| && h(a) == h(b)
  }

  /** Non-empty uploads to one absent key carry the same size and digest. */
  ghost predicate NoRivals(w: World, store: Store) {
    forall i, j | 0 <= i < |w.requests| && 0 <= j < |w.requests| ::
      Rivals(w, store, i, j) ==> SameFingerprint(w.h, w.requests[i].body, w.requests[j].body)
  }

  predicate Rivals(w: World, store: Store, i: nat, j: nat)
    requires i < |w.requests| && j < |w.requests|
  {
    && w.requests[i].key == w.requests[j].key && w.requests[i].key !in store
    && w.requests[i].body != [] && w.requests[j].body != []
  }

  ghost predicate AgreedPc(h: Hash, start: Store, store: Store, r: Request, pc: Pc) {
    && (pc.Succeeded() ==> Matches(h, store, r))
    && (pc != Begin && !pc.Over() ==> r.body != [])
    && (r.key in start ==> (pc.Begin? || pc.FirstHead? || pc.Over()) && r.key in store && store[r.key] == start[r.key])
    && (r.key !in start && r.body != [] && r.key in store ==> Matches(h, store, r))
  }

  ghost predicate Agreed(w: World, start: Store, s: State) {
    && |s.pcs| == |w.requests|
    && forall i | 0 <= i < |s.pcs| :: AgreedPc(w.h, start, s.store, w.requests[i], s.pcs[i])
  }

  lemma AgreedStep(w: World, start: Store, s: State, e: Event)
    requires NoRivals(w, start) && Agreed(w, start, s) && Enabled(w, s, e)
    ensures Agreed(w, start, Apply(w, s, e))
  {
    assert AgreedPc(w.h, start, s.store, w.requests[e.i], s.pcs[e.i]);
    forall j | 0 <= j < |s.pcs| && j != e.i
      ensures AgreedPc(w.h, start, Apply(w, s, e).store, w.requests[j], s.pcs[j])
    {
      assert AgreedPc(w.h, start, s.store, w.requests[j], s.pcs[j]);
      assert Rivals(w, start, e.i, j) ==> SameFingerprint(w.h, w.requests[e.i].body, w.requests[j].body);
    }
  }

  lemma {:induction false} AgreedRun(w: World, start: Store, s: State, schedule: seq<Event>)
    requires NoRivals(w, start) && Agreed(w, start, s) && Legal(w, s, schedule)
    ensures Agreed(w, start, Run(w, s, schedule))
    decreases schedule
  {
    if schedule != [] {
      AgreedStep(w, start, s, schedule[0]);
      AgreedRun(w, start, Apply(w, s, schedule[0]), schedule[1..]);
    }
  }

  // ---------------------------------------------------------------------------------------
  // Two uploads that both succeed with different content
  // ---------------------------------------------------------------------------------------

  /** A connection dropped before the PUT took effect. */
  const REFUSED := PutFailed(DROPPED, false)

  /** An upload finds the key absent, twice, and is about to write without a condition. */
  function Approach(i: nat): seq<Event> {
    [Call(i, Fine), Call(i, Fine), Call(i, REFUSED), Call(i, Fine)]
  }

  function WriteAndCheck(i: nat): seq<Event> {
    [Call(i, Fine), Call(i, Fine)]
  }

  lemma Approaches(w: World, s: State, i: nat)
    requires w.fallbackErrors && i < |s.pcs| == |w.requests| && s.pcs[i] == Begin
    requires w.requests[i].key !in s.store && w.requests[i].body != []
    ensures Legal(w, s, Approach(i)) && Run(w, s, Approach(i)) == State(s.store, s.pcs[i := PlainPut])
  {
    var s1, s2 := State(s.store, s.pcs[i := FirstHead]), State(s.store, s.pcs[i := ConditionalPut]);
    var s3, s4 := State(s.store, s.pcs[i := FallbackHead]), State(s.store, s.pcs[i := PlainPut]);
    var e := Call(i, Fine);
    assert Apply(w, s, e) == s1 && Apply(w, s1, e) == s2;
    assert Apply(w, s2, Call(i, REFUSED)) == s3 && Apply(w, s3, e) == s4;
    OneStep(w, s3, e);
    MoreSteps(w, s2, Call(i, REFUSED), [e]);
    MoreSteps(w, s1, e, [Call(i, REFUSED), e]);
    MoreSteps(w, s, e, [e, Call(i, REFUSED), e]);
  }

  lemma OneStep(w: World, s: State, e: Event)
    requires Enabled(w, s, e)
    ensures Legal(w, s, [e]) && Run(w, s, [e]) == Apply(w, s, e)
  {
  }

  lemma MoreSteps(w: World, s: State, e: Event, rest: seq<Event>)
    requires Enabled(w, s, e) && Legal(w, Apply(w, s, e), rest)
    ensures Legal(w, s, [e] + rest) && Run(w, s, [e] + rest) == Run(w, Apply(w, s, e), rest)
  {
    assert ([e] + rest)[1..] == rest;
  }

  lemma WritesAndChecks(w: World, s: State, i: nat)
    requires i < |s.pcs| == |w.requests| && s.pcs[i] == PlainPut
    ensures Legal(w, s, WriteAndCheck(i))
    ensures
      var r := w.requests[i];
      Run(w, s, WriteAndCheck(i))
        == State(s.store[r.key := ObjectOf(w.h, r.body)], s.pcs[i := Done(Uploaded(Preflight))])
  {
    var r := w.requests[i];
    var s1 := State(s.store[r.key := ObjectOf(w.h, r.body)], s.pcs[i := FinalHead(Preflight)]);
    var e := Call(i, Fine);
    assert Apply(w, s, e) == s1;
    OneStep(w, s1, e);
    MoreSteps(w, s, e, [e]);
  }

  /** Two rivals can both pass their own final check: the first is checked before the second
      writes over it. */
  lemma RivalsBothSucceed(w: World, store: Store, i: nat, j: nat) returns (schedule: seq<Event>)
    requires w.fallbackErrors && i < |w.requests| && j < |w.requests| && Rivals(w, store, i, j)
    requires !SameFingerprint(w.h, w.requests[i].body, w.requests[j].body)
    ensures Legal(w, Start(w, store), schedule)
    ensures
      var end := Run(w, Start(w, store), schedule);
      && end.pcs[i].Succeeded() && end.pcs[j].Succeeded()
      && Matches(w.h, end.store, w.requests[j]) && !Matches(w.h, end.store, w.requests[i])
  {
    var s := Start(w, store);
    Approaches(w, s, i);
    var s1 := Run(w, s, Approach(i));
    Approaches(w, s1, j);
    var s2 := Run(w, s1, Approach(j));
    WritesAndChecks(w, s2, i);
    var s3 := Run(w, s2, WriteAndCheck(i));
    WritesAndChecks(w, s3, j);
    RunAppend(w, s2, WriteAndCheck(i), WriteAndCheck(j));
    RunAppend(w, s1, Approach(j), WriteAndCheck(i) + WriteAndCheck(j));
    RunAppend(w, s, Approach(i), Approach(j) + (WriteAndCheck(i) + WriteAndCheck(j)));
    schedule := Approach(i) + (Approach(j) + (WriteAndCheck(i) + WriteAndCheck(j)));
  }

  // ---------------------------------------------------------------------------------------
  // When success can be trusted
  // ---------------------------------------------------------------------------------------

  ghost predicate AlwaysAgrees(w: World, store: Store) {
    forall schedule | Legal(w, Start(w, store), schedule) :: Agreement(w, Run(w, Start(w, store), schedule))
  }

  /**
   A reported success stays true in every interleaving -- the stored object has the size and
   digest that were uploaded -- exactly when no error can occur that enters the fallback, or no
   two uploads bring different content to one absent key. So the final exact HEAD alone does not
   turn every concurrent mismatched write into a visible failure.
   */
  lemma SuccessIsLastingIff(w: World, store: Store)
    ensures AlwaysAgrees(w, store) <==> !w.fallbackErrors || NoRivals(w, store)
  {
    if !w.fallbackErrors || NoRivals(w, store) {
      forall schedule | Legal(w, Start(w, store), schedule)
        ensures Agreement(w, Run(w, Start(w, store), schedule))
      {
        if w.fallbackErrors {
          AgreedRun(w, store, Start(w, store), schedule);
        } else {
          CleanRun(w, Start(w, store), schedule);
        }
      }
    } else {
      var i: nat, j: nat :| i < |w.requests| && j < |w.requests| && Rivals(w, store, i, j)
                            && !SameFingerprint(w.h, w.requests[i].body, w.requests[j].body);
      var schedule := RivalsBothSucceed(w, store, i, j);
      assert !Agreement(w, Run(w, Start(w, store), schedule));
    }
  }

  /** No answer is an error that enters the fallback. */
  predicate NoFallback(schedule: seq<Event>) {
    forall n | 0 <= n < |schedule| ::
      schedule[n].Call? && schedule[n].answer.PutFailed? ==> !schedule[n].answer.error.EntersFallback()
  }

  lemma {:induction false} NoFallbackIsClean(w: World, s: State, schedule: seq<Event>)
    requires Legal(w, s, schedule) && NoFallback(schedule)
    ensures
      var clean := w.(fallbackErrors := false);
      Legal(clean, s, schedule) && Run(clean, s, schedule) == Run(w, s, schedule)
    decreases schedule
  {
    hide NextPc, NextStore;
    if schedule != [] {
      var rest := schedule[1..];
      assert forall n | 0 <= n < |rest| :: rest[n] == schedule[n + 1];
      assert schedule[0].Call? ==> schedule[0] == schedule[0];
      NoFallbackIsClean(w, Apply(w, s, schedule[0]), rest);
    }
  }

  /** As long as no such error has occurred, whatever the provider: every success holds, and
      nothing that was stored has changed. */
  lemma SuccessHoldsSoFar(w: World, store: Store, schedule: seq<Event>)
    requires Legal(w, Start(w, store), schedule) && NoFallback(schedule)
    ensures
      var end := Run(w, Start(w, store), schedule);
      Agreement(w, end) && Keeps(store, end.store)
  {
    NoFallbackIsClean(w, Start(w, store), schedule);
    CleanRun(w.(fallbackErrors := false), Start(w, store), schedule);
  }

  /** In such a world, all successes on one key carried the same size and digest. */
  lemma SuccessesAgree(w: World, store: Store, schedule: seq<Event>, i: nat, j: nat)
    requires !w.fallbackErrors || NoRivals(w, store)
    requires Legal(w, Start(w, store), schedule) && i < |w.requests| && j < |w.requests|
    requires
      var end := Run(w, Start(w, store), schedule);
      end.pcs[i].Succeeded() && end.pcs[j].Succeeded()
    requires w.requests[i].key == w.requests[j].key
    ensures SameFingerprint(w.h, w.requests[i].body, w.requests[j].body)
  {
    SuccessIsLastingIff(w, store);
  }

  /** Without errors that enter the fallback, an upload that wrote its object never fails its final
      check. */
  lemma FinalCheckPasses(w: World, store: Store, schedule: seq<Event>, i: nat)
    requires !w.fallbackErrors && Legal(w, Start(w, store), schedule) && i < |w.requests|
    requires
      var end := Run(w, Start(w, store), schedule);
      end.pcs[i].FinalHead?
    ensures
      var end := Run(w, Start(w, store), schedule);
      NextPc(w.h, end.store, w.requests[i], end.pcs[i], Fine) == Done(Uploaded(Conditional))
  {
    CleanRun(w, Start(w, store), schedule);
    var end := Run(w, Start(w, store), schedule);
    assert CleanPc(w.h, end.store, w.requests[i], end.pcs[i]);
  }

  /** Even with the fallback, if every writer of a key brings the same bytes and the key starts
      absent or with them, nothing else is ever stored there. */
  lemma {:induction false} OneContent(w: World, s: State, schedule: seq<Event>, key: string, body: Bytes)
    requires Legal(w, s, schedule)
    requires forall i | 0 <= i < |w.requests| :: w.requests[i].key == key ==> w.requests[i].body == body
    requires key in s.store ==> s.store[key].body == body
    ensures key in Run(w, s, schedule).store ==> Run(w, s, schedule).store[key].body == body
    decreases schedule
  {
    if schedule != [] {
      OneContent(w, Apply(w, s, schedule[0]), schedule[1..], key, body);
    }
  }

  /** Every success was preceded, within that upload, by a HEAD whose answer matched. */
  lemma {:induction false} SuccessWasSeen(w: World, s: State, schedule: seq<Event>, i: nat) returns (n: nat)
    requires Legal(w, s, schedule) && i < |s.pcs| == |w.requests| && !s.pcs[i].Succeeded()
    requires
      var end := Run(w, s, schedule);
      end.pcs[i].Succeeded()
    ensures n < |schedule| && Legal(w, s, schedule[..n]) && schedule[n] == Call(i, Fine)
    ensures
      var at := Run(w, s, schedule[..n]);
      at.pcs[i].IsHead() && Matches(w.h, at.store, w.requests[i])
    decreases schedule
  {
    var s' := Apply(w, s, schedule[0]);
    if s'.pcs[i].Succeeded() {
      n := 0;
      assert schedule[..0] == [];
    } else {
      var m := SuccessWasSeen(w, s', schedule[1..], i);
      n := m + 1;
      assert schedule[..n] == [schedule[0]] + schedule[1..][..m];
      MoreSteps(w, s, schedule[0], schedule[1..][..m]);
    }
  }

  // ---------------------------------------------------------------------------------------
  // When an upload succeeds
  // ---------------------------------------------------------------------------------------

  predicate NotBy(schedule: seq<Event>, i: nat) {
    forall n | 0 <= n < |schedule| :: schedule[n].i != i
  }

  lemma {:induction false} OthersMove(w: World, s: State, schedule: seq<Event>, i: nat)
    requires Legal(w, s, schedule) && NotBy(schedule, i) && i < |s.pcs|
    ensures Run(w, s, schedule).pcs[i] == s.pcs[i]
    decreases schedule
  {
    hide NextPc, NextStore;
    if schedule != [] {
      assert schedule[0].i != i;
      assert forall n | 0 <= n < |schedule| - 1 :: schedule[1..][n] == schedule[n + 1];
      OthersMove(w, Apply(w, s, schedule[0]), schedule[1..], i);
    }
  }

  /**
   A conditional PUT that is answered a conflict, or an error that enters the fallback, is followed
   by a HEAD, whatever others do in between. If that HEAD finds an object, the upload is over:
   idempotent if the object matches, and failed if not. If it finds none, the upload goes on in
   the fallback or has failed, as the error says.
   */
  lemma HeadAfterError(w: World, s: State, i: nat, error: PutError, applied: bool, others: seq<Event>)
    requires i < |s.pcs| && s.pcs[i] == ConditionalPut
    requires || error.code in {"409", "412", "ConditionalRequestConflict", "PreconditionFailed"}
             || error.code in {"NotImplemented", "NotImplementedException"}
             || error.typeName in {"ConnectionClosedError", "SSLError"}
    requires Enabled(w, s, Call(i, PutFailed(error, applied))) && NotBy(others, i)
    requires Legal(w, Apply(w, s, Call(i, PutFailed(error, applied))), others)
    ensures
      var r, at := w.requests[i], Run(w, Apply(w, s, Call(i, PutFailed(error, applied))), others);
      && Enabled(w, at, Call(i, Fine))
      && Apply(w, at, Call(i, Fine)).pcs[i]
         == if r.key in at.store then Done(if Matches(w.h, at.store, r) then Idempotent else Failed)
            else if !error.EntersFallback() then Done(Failed)
            else if error.IsConflict() then FallbackHead else PlainPut
  {
    OthersMove(w, Apply(w, s, Call(i, PutFailed(error, applied))), others, i);
  }

  /** What ends an upload in failure while all writers of its key bring the same bytes: a HEAD or a
      PUT that fails, other than by a conflict or an error that enters the fallback, and a
      conflict over an object that is then not there. */
  predicate Spoils(w: World, s: State, e: Event, i: nat)
    requires i < |s.pcs| == |w.requests|
  {
    && e.Call? && e.i == i
    && match s.pcs[i]
       case ConditionalPut =>
         e.answer.PutFailed? && !e.answer.error.IsConflict() && !e.answer.error.EntersFallback()
       case PlainPut => e.answer.PutFailed?
       case RaceHead(error) => e.answer.HeadError? || (w.requests[i].key !in s.store && !error.EntersFallback())
       case _ => e.answer.HeadError?
  }

  predicate Spoiled(w: World, s: State, schedule: seq<Event>, i: nat)
    requires i < |s.pcs| == |w.requests| && Legal(w, s, schedule)
    decreases schedule
  {
    schedule != [] && (Spoils(w, s, schedule[0], i) || Spoiled(w, Apply(w, s, schedule[0]), schedule[1..], i))
  }

  /** What the writers of one key have stored is what each of them brings. */
  ghost predicate Shared(w: World, store: Store, i: nat)
    requires i < |w.requests|
  {
    && (forall j | 0 <= j < |w.requests| && w.requests[j].key == w.requests[i].key ::
          w.requests[j].body == w.requests[i].body)
    && w.requests[i].body != []
    && (w.requests[i].key in store ==> Matches(w.h, store, w.requests[i]))
  }

  /** An upload that has written checks an object that is there. */
  ghost predicate Going(w: World, s: State, i: nat)
    requires i < |s.pcs| == |w.requests|
  {
    s.pcs[i].FinalHead? ==> w.requests[i].key in s.store
  }

  lemma SharedStep(w: World, s: State, e: Event, i: nat)
    requires i < |s.pcs| && Enabled(w, s, e) && Shared(w, s.store, i) && Going(w, s, i)
    ensures
      var s' := Apply(w, s, e);
      && Shared(w, s'.store, i) && Going(w, s', i)
      && (Spoils(w, s, e, i) ==> s'.pcs[i] == Done(Failed))
      && (!Spoils(w, s, e, i) && s'.pcs[i] == Done(Failed) ==> s.pcs[i] == Done(Failed))
  {
  }

  lemma {:induction false} OverStays(w: World, s: State, schedule: seq<Event>, i: nat)
    requires i < |s.pcs| == |w.requests| && Legal(w, s, schedule) && s.pcs[i].Over()
    ensures Run(w, s, schedule).pcs[i] == s.pcs[i] && !Spoiled(w, s, schedule, i)
    decreases schedule
  {
    hide NextPc, NextStore;
    if schedule != [] {
      OverStays(w, Apply(w, s, schedule[0]), schedule[1..], i);
    }
  }

  /**
   With writers of the same bytes only, in every interleaving: an upload has failed exactly if one
   of its own calls spoiled it. In particular an upload that meets only conflicts, and finds an
   object after each, succeeds once it is over, unless it is killed.
   */
  lemma {:induction false} FailsIffSpoiled(w: World, s: State, schedule: seq<Event>, i: nat)
    requires i < |s.pcs| == |w.requests| && Legal(w, s, schedule) && Shared(w, s.store, i) && Going(w, s, i)
    requires s.pcs[i] != Done(Failed)
    ensures Run(w, s, schedule).pcs[i] == Done(Failed) <==> Spoiled(w, s, schedule, i)
    decreases schedule
  {
    hide NextPc, NextStore, Shared, Going, Spoils;
    if schedule != [] {
      var s' := Apply(w, s, schedule[0]);
      SharedStep(w, s, schedule[0], i);
      if s'.pcs[i] == Done(Failed) {
        OverStays(w, s', schedule[1..], i);
      } else {
        FailsIffSpoiled(w, s', schedule[1..], i);
      }
    }
  }
}
