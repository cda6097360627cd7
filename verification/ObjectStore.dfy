/**
 One verified upload against an object store, call by call. The digest is a parameter: any
 function of the bytes. A conditional PUT (`If-None-Match: *`, section 13.1.2 of RFC 9110)
 takes effect only while the key is absent, but a PUT that takes effect may still be reported
 as an error.
 */
module ObjectStore {
  import opened Common

  type Bytes = seq<bv8>

  type Hash = Bytes -> string

  /** A stored object and the digest in its metadata, if it carries one. */
  datatype Object = Object(body: Bytes, sha256: Option<string>)

  type Store = map<string, Object>

  datatype Request = Request(key: string, body: Bytes)

  datatype WriteMode = Conditional | Preflight

  datatype Outcome = Uploaded(mode: WriteMode) | Idempotent | Failed

  /** An error of a PUT: the name of its type, and the code in its response, or nothing. */
  datatype PutError = PutError(typeName: string, code: string)
  {
    /** The key was taken meanwhile, or is being written. */
    predicate IsConflict() {
      code in {"409", "412", "ConditionalRequestConflict", "PreconditionFailed"}
    }

    /** The errors taken to mean that the provider does not know conditional PUTs. A connection
        that is merely dropped is one of them. */
    predicate EntersFallback() {
      typeName in {"ConnectionClosedError", "SSLError"} || code in {"NotImplemented", "NotImplementedException"}
    }
  }

  const CONFLICT := PutError("ClientError", "PreconditionFailed")

  const DROPPED := PutError("ConnectionClosedError", "")

  datatype Answer = Fine | HeadError | PutFailed(error: PutError, applied: bool)

  /** The call an upload makes next. */
  datatype Pc =
    | Begin
    | FirstHead
    | ConditionalPut
    | RaceHead(error: PutError)
    | FallbackHead
    | PlainPut
    | FinalHead(mode: WriteMode)
    | Done(outcome: Outcome)
    | Killed
  {
    predicate Over() {
      Done? || Killed?
    }

    predicate Succeeded() {
      Done? && !outcome.Failed?
    }

    predicate IsHead() {
      FirstHead? || RaceHead? || FallbackHead? || FinalHead?
    }
  }

  function ObjectOf(h: Hash, body: Bytes): Object {
    Object(body, Some(h(body)))
  }

  /** What a HEAD can compare: the size and the digest in the metadata. */
  predicate Matches(h: Hash, store: Store, r: Request) {
    r.key in store && |store[r.key].body| == |r.body| && store[r.key].sha256 == Some(h(r.body))
  }

  function Verified(h: Hash, store: Store, r: Request, outcome: Outcome): Pc {
    if Matches(h, store, r) then Done(outcome) else Done(Failed)
  }

  /** Where the answer to its next call takes an upload. */
  function NextPc(h: Hash, store: Store, r: Request, pc: Pc, answer: Answer): Pc {
    match pc
    case Begin => if r.body == [] then Done(Failed) else FirstHead
    case FirstHead =>
      if answer.HeadError? then Done(Failed)
      else if r.key in store then Verified(h, store, r, Idempotent)
      else ConditionalPut
    case ConditionalPut =>
      if !answer.PutFailed? then FinalHead(Conditional)
      else if answer.error.IsConflict() then RaceHead(answer.error)
      else if answer.error.EntersFallback() then FallbackHead
      else Done(Failed)
    case RaceHead(error) =>
      if answer.HeadError? then Done(Failed)
      else if r.key in store then Verified(h, store, r, Idempotent)
      else if error.EntersFallback() then FallbackHead
      else Done(Failed)
    case FallbackHead =>
      if answer.HeadError? then Done(Failed)
      else if r.key in store then Verified(h, store, r, Idempotent)
      else PlainPut
    case PlainPut => if answer.PutFailed? then Done(Failed) else FinalHead(Preflight)
    case FinalHead(mode) => if answer.HeadError? then Done(Failed) else Verified(h, store, r, Uploaded(mode))
    case Done(_) => pc
    case Killed => pc
  }

  function NextStore(h: Hash, store: Store, r: Request, pc: Pc, answer: Answer): Store {
    if (pc.ConditionalPut? || pc.PlainPut?) && (answer.PutFailed? ==> answer.applied)
    then store[r.key := ObjectOf(h, r.body)]
    else store
  }

  /** The answers there can be. `fallbackErrors` says whether a conditional PUT can fail with an
      error that enters the fallback; a conditional PUT takes effect only on an absent key. */
  predicate Possible(fallbackErrors: bool, store: Store, r: Request, pc: Pc, answer: Answer) {
    match pc
    case Begin => answer.Fine?
    case ConditionalPut =>
      && !answer.HeadError?
      && (answer.Fine? || answer.applied ==> r.key !in store)
      && (answer.PutFailed? && answer.error.EntersFallback() ==> fallbackErrors)
    case PlainPut => !answer.HeadError?
    case Done(_) => false
    case Killed => false
    case _ => !answer.PutFailed?
  }
}
