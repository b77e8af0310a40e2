/**
 The host `default_executor`: a placeholder executor that declares every
 executor capability but whose operations do no work. Each operation reports,
 besides its result, the list of work items it actually ran `f` on, so that
 "never invokes `f`" is a statement about its result.
 */
module HostExecutor {
  import opened Outcomes

  /** The executor keeps no state: the target it is built from is dropped. */
  datatype DefaultExecutor = DefaultExecutor

  /** The execution categories an executor can declare. */
  datatype ExecutionCategory = SequencedExecution | ParallelExecution | UnsequencedExecution

  /** The static description of an executor: the four capability traits and
      its execution category. */
  datatype Capabilities = Capabilities(
    oneWay: bool,
    twoWay: bool,
    bulkOneWay: bool,
    bulkTwoWay: bool,
    category: ExecutionCategory)

  /** What an operation hands back, and the work items `f` was run on. */
  datatype Effect<R, W> = Effect(result: R, ran: seq<W>)

  /** Builds the executor from a compute target, which it does not keep. */
  function Make<Target>(target: Target): DefaultExecutor {
    DefaultExecutor
  }

  /** `operator==`. */
  function Equal(a: DefaultExecutor, b: DefaultExecutor): (r: bool)
    ensures r
  {
    true
  }

  /** `operator!=`, the negation of `operator==`. */
  function NotEqual(a: DefaultExecutor, b: DefaultExecutor): (r: bool)
    ensures r <==> !Equal(a, b)
    ensures !r
  {
    !Equal(a, b)
  }

  /** `==` is an equivalence relation and `!=` its complement, for executors
      built from any targets. */
  lemma EqualityIsEquivalence<Target>(s: Target, t: Target, u: Target)
    ensures Equal(Make(s), Make(s))
    ensures Equal(Make(s), Make(t)) == Equal(Make(t), Make(s))
    ensures Equal(Make(s), Make(t)) && Equal(Make(t), Make(u)) ==> Equal(Make(s), Make(u))
    ensures NotEqual(Make(s), Make(t)) == !Equal(Make(s), Make(t))
  {
  }

  /** `context()`: the executor itself. */
  function Context(e: DefaultExecutor): (r: DefaultExecutor)
    ensures r == e && Equal(r, e)
  {
    e
  }

  /** `post(f, ts...)`: fire and forget. Runs nothing. */
  function PostOp<A, R>(e: DefaultExecutor, f: A -> R, args: A): (r: Effect<(), A>)
    ensures r.ran == []
  {
    Effect((), [])
  }

  /** `async_execute(f, ts...)`: hands back a default-constructed future,
      which has no shared state. Runs nothing. */
  function AsyncExecuteOp<A, R>(e: DefaultExecutor, f: A -> R, args: A): (r: Effect<Future<()>, A>)
    ensures r.ran == []
    ensures r.result == Invalid
    ensures Get(r.result) == Caught(NoState)
  {
    Effect(Invalid, [])
  }

  /** `sync_execute(f, ts...)`. Runs nothing. */
  function SyncExecuteOp<A, R>(f: A -> R, args: A): (r: Effect<(), A>)
    ensures r.ran == []
  {
    Effect((), [])
  }

  /** `bulk_async_execute(f, shape, ts...)`: hands back no futures at all,
      whatever the shape. Runs nothing. */
  function BulkAsyncExecuteOp<S, A, R>(f: (S, A) -> R, shape: seq<S>, args: A): (r: Effect<seq<Future<()>>, S>)
    ensures r.result == [] && r.ran == []
  {
    Effect([], [])
  }

  /** `bulk_sync_execute(f, shape, ts...)`. Runs nothing. */
  function BulkSyncExecuteOp<S, A, R>(f: (S, A) -> R, shape: seq<S>, args: A): (r: Effect<(), S>)
    ensures r.ran == []
  {
    Effect((), [])
  }

  /** The operations never call the callable: what they hand back is the same
      whichever callable they are given. */
  lemma OperationsIgnoreTheCallable<S, A, R>(e: DefaultExecutor, f1: A -> R, f2: A -> R,
                                             b1: (S, A) -> R, b2: (S, A) -> R, shape: seq<S>, args: A)
    ensures PostOp(e, f1, args) == PostOp(e, f2, args)
    ensures AsyncExecuteOp(e, f1, args) == AsyncExecuteOp(e, f2, args)
    ensures SyncExecuteOp(f1, args) == SyncExecuteOp(f2, args)
    ensures BulkAsyncExecuteOp(b1, shape, args) == BulkAsyncExecuteOp(b2, shape, args)
    ensures BulkSyncExecuteOp(b1, shape, args) == BulkSyncExecuteOp(b2, shape, args)
  {
  }

  /** The trait specialisations for the executor: parallel category, and all
      four capabilities declared. Each is backed by a member operation: one-way
      by `post` and `sync_execute`, two-way by `async_execute`, bulk one-way by
      `bulk_sync_execute`, bulk two-way by `bulk_async_execute`. */
  function Traits(e: DefaultExecutor): (c: Capabilities)
    ensures c.oneWay && c.twoWay && c.bulkOneWay && c.bulkTwoWay
    ensures c.category == ParallelExecution
  {
    Capabilities(true, true, true, true, ParallelExecution)
  }

  /** Although the executor declares the bulk two-way capability, a
      non-empty shape gets neither one future per element nor any work run:
      the operations are placeholders. */
  lemma BulkOperationsRunNoShapeElement<S, A, R>(f: (S, A) -> R, shape: seq<S>, args: A)
    requires |shape| > 0
    ensures |BulkAsyncExecuteOp(f, shape, args).result| != |shape|
    ensures BulkAsyncExecuteOp(f, shape, args).ran != shape
    ensures BulkSyncExecuteOp(f, shape, args).ran != shape
  {
  }
}
