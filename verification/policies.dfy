/**
 The execution policies the parallel algorithms accept: the four concrete
 policy objects `seq`, `par`, `seq(task)` and `par(task)`, and the
 type-erased `execution_policy` wrapper that holds one of them.
 */
module Policies {

  /** Whether the iterations of an algorithm run in the calling thread in order
      or may be spread over worker threads. */
  datatype Mode = Sequenced | Parallel

  /** A concrete policy object; `task` is set for the `(task)` variants, whose
      algorithms hand back a future instead of a plain value. */
  datatype BasePolicy = BasePolicy(mode: Mode, task: bool)

  /** A policy as an algorithm receives it: either a concrete policy object, or
      the type-erased `execution_policy` holding one. */
  datatype ExecutionPolicy = Static(base: BasePolicy) | Erased(base: BasePolicy)

  /** Whether an algorithm call hands back its result directly or as a future. */
  datatype ResultShape = Eager | Deferred

  const SeqPolicy := BasePolicy(Sequenced, false)
  const ParPolicy := BasePolicy(Parallel, false)

  /** `p(task)`: the same scheduling mode, asynchronous result. */
  function WithTask(p: BasePolicy): (r: BasePolicy)
    ensures r.mode == p.mode && r.task
  {
    p.(task := true)
  }

  /** The policies under which an algorithm runs its sequential code path.
      The erased wrapper dispatches on the policy it holds. */
  predicate IsSequentialPolicy(p: ExecutionPolicy) {
    p.base.mode == Sequenced
  }

  /** The result shape is decided by the policy alone: a future exactly for the
      concrete task policies. The erased wrapper waits on the future itself and
      always hands back a plain value. */
  function ShapeOf(p: ExecutionPolicy): (r: ResultShape)
    ensures r == Deferred <==> p.Static? && p.base.task
  {
    match p
    case Static(b) => if b.task then Deferred else Eager
    case Erased(_) => Eager
  }
}
