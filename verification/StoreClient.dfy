/** The storage helpers as they run against a store nobody else touches during the call: the
    verified upload and the verified download. */
module StoreClient {
  import opened Common
  import opened ObjectStore
  import opened Uploads

  /** What goes wrong on the way: which HEADs fail, and which PUTs report an error, and whether
      such a PUT takes effect all the same. */
  datatype Network = Network(headFails: Pc -> bool, putFails: Pc -> Option<(PutError, bool)>)

  function AnswerTo(net: Network, store: Store, r: Request, pc: Pc): Answer {
    if pc.IsHead() then if net.headFails(pc) then HeadError else Fine
    else if pc.ConditionalPut? && r.key in store then
      PutFailed(if net.putFails(pc).Some? then net.putFails(pc).value.0 else CONFLICT, false)
    else if (pc.ConditionalPut? || pc.PlainPut?) && net.putFails(pc).Some? then
      PutFailed(net.putFails(pc).value.0, net.putFails(pc).value.1)
    else Fine
  }

  function Rank(pc: Pc): nat {
    match pc
    case Begin => 7
    case FirstHead => 6
    case ConditionalPut => 5
    case RaceHead(_) => 4
    case FallbackHead => 3
    case PlainPut => 2
    case FinalHead(_) => 1
    case _ => 0
  }

  /** The upload carried on from a call to its end. */
  function Complete(h: Hash, store: Store, r: Request, pc: Pc, net: Network): (Store, Outcome)
    requires !pc.Killed?
    decreases Rank(pc)
  {
    if pc.Done? then (store, pc.outcome)
    else
      var answer := AnswerTo(net, store, r, pc);
      Complete(h, NextStore(h, store, r, pc, answer), r, NextPc(h, store, r, pc, answer), net)
  }

  /** An upload left alone is one of the interleavings, the one of a single upload. */
  lemma {:induction false} CompleteIsRun(h: Hash, store: Store, r: Request, pc: Pc, net: Network)
    returns (schedule: seq<Event>)
    requires !pc.Killed?
    ensures
      var w, s := World(h, true, [r]), State(store, [pc]);
      && Legal(w, s, schedule)
      && Run(w, s, schedule) == State(Complete(h, store, r, pc, net).0, [Done(Complete(h, store, r, pc, net).1)])
    decreases Rank(pc)
  {
    schedule := [];
    if !pc.Done? {
      var w, s, answer := World(h, true, [r]), State(store, [pc]), AnswerTo(net, store, r, pc);
      var s' := State(NextStore(h, store, r, pc, answer), [NextPc(h, store, r, pc, answer)]);
      var rest := CompleteIsRun(h, s'.store, r, s'.pcs[0], net);
      assert Enabled(w, s, Call(0, answer)) && Apply(w, s, Call(0, answer)) == s';
      MoreSteps(w, s, Call(0, answer), rest);
      schedule := [Call(0, answer)] + rest;
    }
  }

  lemma {:induction false} CompleteWrites(h: Hash, store: Store, r: Request, pc: Pc, net: Network)
    requires !pc.Killed? && (pc.Done? && !pc.outcome.Failed? ==> Matches(h, store, r))
    ensures
      var (end, outcome) := Complete(h, store, r, pc, net);
      && end in {store, store[r.key := ObjectOf(h, r.body)]}
      && (!outcome.Failed? ==> Matches(h, end, r))
    decreases Rank(pc)
  {
    if !pc.Done? {
      var answer := AnswerTo(net, store, r, pc);
      CompleteWrites(h, NextStore(h, store, r, pc, answer), r, NextPc(h, store, r, pc, answer), net);
    }
  }

  /**
   An upload touches no other key and never an object that is already there; if it reports
   success, the object under its key has the size and digest of the file.
   */
  lemma UploadOutcome(h: Hash, store: Store, r: Request, net: Network)
    ensures
      var (end, outcome) := Complete(h, store, r, Begin, net);
      && (end == store || (r.key !in store && end == store[r.key := ObjectOf(h, r.body)]))
      && (!outcome.Failed? ==> Matches(h, end, r) && r.body != [])
  {
    CompleteWrites(h, store, r, Begin, net);
    if r.key in store && r.body != [] {
      var pc := NextPc(h, store, r, FirstHead, AnswerTo(net, store, r, FirstHead));
      assert Complete(h, store, r, Begin, net) == Complete(h, store, r, FirstHead, net);
      assert Complete(h, store, r, FirstHead, net) == Complete(h, store, r, pc, net);
    }
  }

  ghost predicate Quiet(net: Network) {
    forall pc :: !net.headFails(pc) && net.putFails(pc).None?
  }

  /** With nothing going wrong, the outcome is decided by what is under the key. */
  lemma QuietUpload(h: Hash, store: Store, r: Request, net: Network)
    requires Quiet(net) && r.body != []
    ensures Complete(h, store, r, Begin, net)
         == if r.key !in store then (store[r.key := ObjectOf(h, r.body)], Uploaded(Conditional))
            else (store, if Matches(h, store, r) then Idempotent else Failed)
  {
    assert Complete(h, store, r, Begin, net) == Complete(h, store, r, FirstHead, net);
    if r.key !in store {
      var end := store[r.key := ObjectOf(h, r.body)];
      assert Complete(h, store, r, FirstHead, net) == Complete(h, store, r, ConditionalPut, net);
      assert Complete(h, store, r, ConditionalPut, net) == Complete(h, end, r, FinalHead(Conditional), net);
    } else {
      var pc := NextPc(h, store, r, FirstHead, Fine);
      assert Complete(h, store, r, FirstHead, net) == Complete(h, store, r, pc, net);
    }
  }

  ghost predicate HeadsWork(net: Network) {
    forall pc :: !net.headFails(pc)
  }

  /** The store after a PUT that was answered an error, or not. */
  function Put(h: Hash, store: Store, r: Request, failure: Option<(PutError, bool)>): Store {
    if failure.None? || failure.value.1 then store[r.key := ObjectOf(h, r.body)] else store
  }

  /** What becomes of an upload to a free key, as its PUTs are answered. */
  function FreeKeyOutcome(first: Option<(PutError, bool)>, second: Option<(PutError, bool)>): Outcome {
    if first.None? then Uploaded(Conditional)
    else
      var (error, applied) := first.value;
      if !error.IsConflict() && !error.EntersFallback() then Failed
      else if applied then Idempotent
      else if !error.EntersFallback() then Failed
      else if second.None? then Uploaded(Preflight)
      else Failed
  }

  lemma StepsOn(h: Hash, store: Store, r: Request, pc: Pc, net: Network)
    requires !pc.Over()
    ensures
      var answer := AnswerTo(net, store, r, pc);
      Complete(h, store, r, pc, net)
        == Complete(h, NextStore(h, store, r, pc, answer), r, NextPc(h, store, r, pc, answer), net)
  {
  }

  lemma DoneIs(h: Hash, store: Store, r: Request, outcome: Outcome, net: Network)
    ensures Complete(h, store, r, Done(outcome), net) == (store, outcome)
  {
  }

  /** In the fallback: a PUT without a condition if the key is still free. */
  lemma FallbackUpload(h: Hash, store: Store, r: Request, net: Network)
    requires HeadsWork(net)
    ensures
      var second := net.putFails(PlainPut);
      Complete(h, store, r, FallbackHead, net)
        == if r.key in store then (store, if Matches(h, store, r) then Idempotent else Failed)
           else (Put(h, store, r, second), if second.None? then Uploaded(Preflight) else Failed)
  {
    hide Complete;
    StepsOn(h, store, r, FallbackHead, net);
    if r.key !in store {
      StepsOn(h, store, r, PlainPut, net);
      var end := store[r.key := ObjectOf(h, r.body)];
      StepsOn(h, end, r, FinalHead(Preflight), net);
      DoneIs(h, end, r, Uploaded(Preflight), net);
      DoneIs(h, Put(h, store, r, net.putFails(PlainPut)), r, Failed, net);
    } else {
      DoneIs(h, store, r, if Matches(h, store, r) then Idempotent else Failed, net);
    }
  }

  /**
   While its HEADs work, the outcome of an upload is decided by what is under the key and by how
   its PUTs are answered. In particular a PUT that took effect and was answered a conflict, or an
   error that enters the fallback, is an idempotent success.
   */
  lemma {:induction false} UploadDecided(h: Hash, store: Store, r: Request, net: Network)
    requires HeadsWork(net) && r.body != []
    ensures r.key in store ==>
              Complete(h, store, r, Begin, net) == (store, if Matches(h, store, r) then Idempotent else Failed)
    ensures r.key !in store ==>
              Complete(h, store, r, Begin, net).1
                == FreeKeyOutcome(net.putFails(ConditionalPut), net.putFails(PlainPut))
  {
    hide Complete;
    var outcome := if Matches(h, store, r) then Idempotent else Failed;
    StepsOn(h, store, r, Begin, net);
    StepsOn(h, store, r, FirstHead, net);
    DoneIs(h, store, r, outcome, net);
    if r.key !in store {
      var first := net.putFails(ConditionalPut);
      var mid := Put(h, store, r, first);
      StepsOn(h, store, r, ConditionalPut, net);
      FallbackUpload(h, mid, r, net);
      DoneIs(h, mid, r, Failed, net);
      DoneIs(h, mid, r, Idempotent, net);
      DoneIs(h, mid, r, Uploaded(Conditional), net);
      if first.None? {
        StepsOn(h, mid, r, FinalHead(Conditional), net);
      } else if first.value.0.IsConflict() {
        StepsOn(h, mid, r, RaceHead(first.value.0), net);
      }
    }
  }

  // ---------------------------------------------------------------------------------------
  // Downloads
  // ---------------------------------------------------------------------------------------

  datatype DownloadError = HeadBroke | Missing | NoChecksum | Unavailable | SizeMismatch | ChecksumMismatch

  /** A download reads the metadata from one state of the store and the bytes from a later one. */
  function DownloadVerified(h: Hash, atHead: Store, atGet: Store, key: string): Result<Bytes, DownloadError> {
    if key !in atHead then Failure(Missing)
    else if atHead[key].sha256.None? || |atHead[key].sha256.value| != 64 then Failure(NoChecksum)
    else if key !in atGet then Failure(Unavailable)
    else if |atGet[key].body| != |atHead[key].body| then Failure(SizeMismatch)
    else if h(atGet[key].body) != atHead[key].sha256.value then Failure(ChecksumMismatch)
    else Success(atGet[key].body)
  }

  /** No other content with the digest and size of `body` is around. */
  predicate NoCollision(h: Hash, a: Bytes, b: Bytes) {
    |a| == |b| && h(a) == h(b) ==> a == b
  }

  /** The metadata of an object is about its own bytes. */
  predicate Honest(h: Hash, store: Store, key: string) {
    key in store ==> store[key].sha256 == Some(h(store[key].body))
  }

  /** What was uploaded with success is what any later reader gets, as long as the object stays:
      the bytes themselves, not only their digest. */
  lemma UploadThenDownload(h: Hash, store: Store, r: Request, net: Network, atHead: Store, atGet: Store)
    requires Honest(h, store, r.key) && (r.key in store ==> NoCollision(h, store[r.key].body, r.body))
    requires |h(r.body)| == 64
    requires
      var (end, outcome) := Complete(h, store, r, Begin, net);
      !outcome.Failed? && Keeps(end, atHead) && Keeps(end, atGet)
    ensures DownloadVerified(h, atHead, atGet, r.key) == Success(r.body)
  {
    UploadOutcome(h, store, r, net);
  }

  /** The same among any number of concurrent uploads, none of which enters the fallback: once one has
      reported success, its bytes are what every later download of the key returns. */
  lemma SuccessThenDownload(w: World, store: Store, before: seq<Event>, after: seq<Event>, i: nat)
    requires !w.fallbackErrors && i < |w.requests|
    requires Legal(w, Start(w, store), before) && Legal(w, Run(w, Start(w, store), before), after)
    requires Run(w, Start(w, store), before).pcs[i].Succeeded()
    requires |w.h(w.requests[i].body)| == 64
    requires
      var r, mid := w.requests[i], Run(w, Start(w, store), before).store;
      Honest(w.h, mid, r.key) && (r.key in mid ==> NoCollision(w.h, mid[r.key].body, r.body))
    ensures
      var mid := Run(w, Start(w, store), before);
      DownloadVerified(w.h, mid.store, Run(w, mid, after).store, w.requests[i].key) == Success(w.requests[i].body)
  {
    ObjectsNeverChange(w, store, before, after);
    SuccessIsLastingIff(w, store);
    assert Agreement(w, Run(w, Start(w, store), before));
  }

  // ---------------------------------------------------------------------------------------
  // The client
  // ---------------------------------------------------------------------------------------

  class Client {
    const h: Hash
    var objects: Store

    constructor (h: Hash, objects: Store)
      ensures this.h == h && this.objects == objects
    {
      this.h, this.objects := h, objects;
    }

    /** The object under a key, if the call succeeds. */
    method Head(key: string, fails: bool) returns (r: Result<Option<Object>, ()>)
      ensures r == if fails then Failure(()) else Success(if key in objects then Some(objects[key]) else None)
    {
      if fails {
        return Failure(());
      }
      return Success(if key in objects then Some(objects[key]) else None);
    }

    /** Compares the size and the digest in the metadata. Given the answer to a HEAD of an upload's
        key, and the upload's size and digest, this says whether the stored object matches it. */
    method VerifyHead(head: Option<Object>, size: nat, digest: string) returns (ok: bool)
      ensures forall store: Store, r: Request ::
                && head == (if r.key in store then Some(store[r.key]) else None)
                && size == |r.body| && digest == h(r.body)
                ==> (ok <==> Matches(h, store, r))
      ensures ok <==> head.Some? && |head.value.body| == size && head.value.sha256 == Some(digest)
    {
      return head.Some? && |head.value.body| == size && head.value.sha256 == Some(digest);
    }

    method PutObject(key: string, value: Object, ifNoneMatch: bool, failure: Option<(PutError, bool)>)
      returns (error: Option<PutError>)
      modifies this
      ensures error == if ifNoneMatch && key in old(objects) && failure.None? then Some(CONFLICT)
                       else if failure.Some? then Some(failure.value.0) else None
      ensures objects == if (ifNoneMatch && key in old(objects)) || (failure.Some? && !failure.value.1)
                         then old(objects) else old(objects)[key := value]
    {
      if ifNoneMatch && key in objects {
        return Some(if failure.Some? then failure.value.0 else CONFLICT);
      }
      if failure.None? || failure.value.1 {
        objects := objects[key := value];
      }
      return if failure.Some? then Some(failure.value.0) else None;
    }

    method UploadFileVerified(r: Request, net: Network) returns (outcome: Outcome)
      modifies this
      ensures (objects, outcome) == Complete(h, old(objects), r, Begin, net)
    {
      if r.body == [] {
        return Failed;
      }
      ghost var goal := Complete(h, objects, r, Begin, net);
      var digest, size := h(r.body), |r.body|;
      assert goal == Complete(h, objects, r, FirstHead, net);
      var existing := Head(r.key, net.headFails(FirstHead));
      if existing.Failure? {
        return Failed;
      }
      if existing.value.Some? {
        var same := VerifyHead(existing.value, size, digest);
        return if same then Idempotent else Failed;
      }
      assert goal == Complete(h, objects, r, ConditionalPut, net);
      var error := PutObject(r.key, ObjectOf(h, r.body), true, net.putFails(ConditionalPut));
      if error.None? {
        assert goal == Complete(h, objects, r, FinalHead(Conditional), net);
        outcome := FinalCheck(r, Conditional, net);
        return;
      }
      if error.value.IsConflict() {
        assert goal == Complete(h, objects, r, RaceHead(error.value), net);
        var raced := Head(r.key, net.headFails(RaceHead(error.value)));
        if raced.Failure? {
          return Failed;
        }
        if raced.value.Some? {
          var same := VerifyHead(raced.value, size, digest);
          return if same then Idempotent else Failed;
        }
      }
      if !error.value.EntersFallback() {
        return Failed;
      }
      assert goal == Complete(h, objects, r, FallbackHead, net);
      var raced := Head(r.key, net.headFails(FallbackHead));
      if raced.Failure? {
        return Failed;
      }
      if raced.value.Some? {
        var same := VerifyHead(raced.value, size, digest);
        return if same then Idempotent else Failed;
      }
      assert goal == Complete(h, objects, r, PlainPut, net);
      var failure := PutObject(r.key, ObjectOf(h, r.body), false, net.putFails(PlainPut));
      if failure.Some? {
        return Failed;
      }
      assert goal == Complete(h, objects, r, FinalHead(Preflight), net);
      outcome := FinalCheck(r, Preflight, net);
    }

    method FinalCheck(r: Request, mode: WriteMode, net: Network) returns (outcome: Outcome)
      ensures (objects, outcome) == Complete(h, objects, r, FinalHead(mode), net)
    {
      var head := Head(r.key, net.headFails(FinalHead(mode)));
      if head.Failure? {
        return Failed;
      }
      var same := VerifyHead(head.value, |r.body|, h(r.body));
      return if same then Uploaded(mode) else Failed;
    }

    /** The metadata is read now, the bytes from the store as it is then; either call may fail. */
    method DownloadFileVerified(key: string, headFails: bool, later: Store, getFails: bool)
      returns (r: Result<Bytes, DownloadError>)
      ensures r == Failure(HeadBroke) <==> headFails
      ensures !headFails && !getFails ==> r == DownloadVerified(h, objects, later, key)
      ensures !headFails && getFails ==>
                r == match DownloadVerified(h, objects, objects, key)
                     case Failure(Missing) => Failure(Missing)
                     case Failure(NoChecksum) => Failure(NoChecksum)
                     case _ => Failure(Unavailable)
      ensures r.Success? ==> key in later && key in objects && r.value == later[key].body
                             && |r.value| == |objects[key].body| && objects[key].sha256 == Some(h(r.value))
    {
      var head := Head(key, headFails);
      if head.Failure? {
        return Failure(HeadBroke);
      }
      if head.value.None? {
        return Failure(Missing);
      }
      var expected := head.value.value.sha256;
      if expected.None? || |expected.value| != 64 {
        return Failure(NoChecksum);
      }
      if getFails || key !in later {
        return Failure(Unavailable);
      }
      var body := later[key].body;
      var ok := VerifyHead(head.value, |body|, expected.value);
      if !ok {
        return Failure(SizeMismatch);
      }
      if h(body) != expected.value {
        return Failure(ChecksumMismatch);
      }
      return Success(body);
    }
  }
}
