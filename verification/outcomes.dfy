/**
 Results, failures and futures of one algorithm invocation, and the step that
 turns the invocation's completion into what its caller sees: a plain value,
 a raised `exception_list`, or a future that holds either until `get()`.
 */
module Outcomes {
  import opened Policies

  datatype Option<T> = None | Some(value: T)

  /** The exception types that reach a caller: what a callback throws, the
      error `get()` raises on a future with no shared state, and the
      `exception_list` the algorithms wrap every callback failure in. */
  datatype Exception =
    | RuntimeError(what: string)
    | NoState
    | ExceptionList(items: seq<Exception>)

  /** How the work of one invocation ended, before it is shown to the caller:
      with a value, or with the failures its callbacks raised. */
  datatype Completion<R> = Done(value: R) | Raised(errors: seq<Exception>)

  /** `hpx::future<R>`: default-constructed ones have no shared state. */
  datatype Future<R> = Invalid | Shared(state: Completion<R>)

  /** What an algorithm call hands back when it returns normally. */
  datatype AlgorithmResult<R> = Plain(value: R) | Handle(future: Future<R>)

  /** What an algorithm call does: return, or throw at the call itself. */
  datatype CallOutcome<R> = Returned(result: AlgorithmResult<R>) | Threw(error: Exception)

  /** What `get()` on a future does: yield a value or throw. */
  datatype Observed<R> = Value(value: R) | Caught(error: Exception)

  /** The failure a caller sees for a failed completion: always one
      `exception_list` holding the callbacks' failures. */
  function Aggregate(errors: seq<Exception>): (e: Exception)
    ensures e.ExceptionList? && e.items == errors
  {
    ExceptionList(errors)
  }

  /** `future::get()`. */
  function Get<R>(f: Future<R>): (r: Observed<R>)
    ensures r.Value? <==> f.Shared? && f.state.Done?
    ensures r.Value? ==> r.value == f.state.value
    ensures f.Shared? && f.state.Raised? ==> r == Caught(ExceptionList(f.state.errors))
    ensures f.Invalid? ==> r == Caught(NoState)
  {
    match f
    case Invalid => Caught(NoState)
    case Shared(Done(v)) => Value(v)
    case Shared(Raised(es)) => Caught(Aggregate(es))
  }

  /** The result-composition step every algorithm ends with. A concrete
      non-task policy surfaces the completion at the call; a task policy
      wraps it in a future; the erased wrapper runs the algorithm with the
      policy it holds and calls `get()` itself when that gave a future. */
  function Surface<R>(p: ExecutionPolicy, body: Completion<R>): (r: CallOutcome<R>)
    ensures r.Threw? <==> body.Raised? && ShapeOf(p) == Eager
    ensures r.Threw? ==> r.error == ExceptionList(body.errors)
    ensures r.Returned? ==> (r.result.Handle? <==> ShapeOf(p) == Deferred)
    ensures r.Returned? && r.result.Plain? ==> body == Done(r.result.value)
    ensures r.Returned? && r.result.Handle? ==> r.result.future == Shared(body)
    decreases p.Erased?
  {
    match p
    case Static(b) =>
      if b.task then Returned(Handle(Shared(body)))
      else (match body
            case Done(v) => Returned(Plain(v))
            case Raised(es) => Threw(Aggregate(es)))
    case Erased(b) =>
      match Surface(Static(b), body)
      case Returned(Handle(f)) =>
        (match Get(f)
         case Value(v) => Returned(Plain(v))
         case Caught(e) => Threw(e))
      case other => other
  }

  /** The caller's side of the exchange: take what the call did, and call
      `get()` when it handed back a future. */
  function Await<R>(o: CallOutcome<R>): Observed<R> {
    match o
    case Threw(e) => Caught(e)
    case Returned(Plain(v)) => Value(v)
    case Returned(Handle(f)) => Get(f)
  }

  /** Whatever the policy, the caller ends up with the same thing: the value,
      or one `exception_list` holding exactly the callbacks' failures. Only
      the moment it surfaces depends on the policy. */
  lemma SurfacingPreservesCompletion<R>(p: ExecutionPolicy, body: Completion<R>)
    ensures body.Done? ==> Await(Surface(p, body)) == Value(body.value)
    ensures body.Raised? ==> Await(Surface(p, body)) == Caught(ExceptionList(body.errors))
  {
  }

  /** Wrapping a policy in the erased `execution_policy` makes any failure
      surface at the call, exactly as under the non-task policy of the same
      mode, even when the wrapped policy is a task policy. */
  lemma ErasedBehavesAsEager<R>(b: BasePolicy, body: Completion<R>)
    ensures Surface(Erased(b), body) == Surface(Static(b.(task := false)), body)
  {
  }
}
