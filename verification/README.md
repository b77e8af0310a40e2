# Generation algorithms, failure surfacing and the host default executor

This project is a Dafny model of three parts of HPX's parallel-algorithms layer.

- **`generate` and `generate_n`.** These assign the results of a zero-argument generator `f` to a range.
  - `generate(policy, first, last, f)` runs its sequential code path under a sequential policy and its parallel code path otherwise.
  - `generate_n(policy, first, count, f)` first returns `first` untouched when `count` is negative. Otherwise it runs sequentially when the policy is sequential or the iterator is output-only.
  - The sequential path is `std::generate` / `std::generate_n`.
  - The parallel path is a `for_each_n` over the elements, each assigned one result of `f()`.
  - The caller receives the end iterator: directly, or through a future for the task policies.
- **How callback failures reach the caller.** This is fixed by the exception test of `adjacent_difference`.
  - Under `seq` and `par` the call throws an `exception_list`.
  - Under `seq(task)` and `par(task)` the call returns a future, and the `exception_list` is thrown by `get()`.
  - Wrapping any of the four policies in the type-erased `execution_policy` brings the failure back to the call.
- **The host `default_executor`.** It is a placeholder executor. All its objects compare equal, and `context()` is the executor itself. Its five execution operations run nothing. Its traits declare the parallel execution category and all four capabilities.

Modelling choices:

- A range is a `seq<T>` and an iterator is an index into it.
- A generator is a function `g: nat -> T`: the k-th call of `f()` returns `g(k)`. This makes the number of calls, and which call fed which element, observable. Whether a generator call throws is a separate `fails: nat -> Attempt`, indexed by the element the call produces.
- A policy is one of four concrete policy objects, or the erased wrapper around one of them. A concrete policy is a mode (sequenced or parallel) and a task flag.
- What the caller sees is a `CallOutcome`:
  - `Returned(Plain(v))` is a plain value.
  - `Returned(Handle(future))` is a future.
  - `Threw(e)` means the call threw `e`.
- `get()` on a future either yields a value or throws (`Observed`).
- How the parallel path splits and interleaves its work is out of the caller's hands. The model takes it as a parameter, a `Plan`. A plan has two parts:
  - a partition of `[0, n)` into contiguous non-empty chunks;
  - a schedule that visits every element once and keeps each chunk's elements in increasing order.

  Every result about the parallel path holds for every such plan.
- For failures, the model uses a per-element callback that may throw (`f: nat -> Attempt`):
  - The sequential path stops at the first failure.
  - On the parallel path, every chunk runs to its end or to its own first failure. One failure is gathered per failing chunk.
  - The algorithms wrap the failures into one `exception_list`.

Points worth knowing about the modelled code:

- Under `seq`, a callback failure reaches the caller wrapped in an `exception_list`, as the test requires (adjacentdifference_exception.cpp:40-46, 101). Any other exception type fails the test.
- The documentation comment of `generate_n` says it returns `last`. The code returns the iterator `count` past `first`, or `first` for a negative count, and that is what is modelled.
- `generate` and `generate_n` read no chunk-size hint, so the chunking is a parameter of the parallel path. `Partitions.EvenChunks` is one partitioner, for a fixed chunk size.
- The generator may throw. The model states the contents for a generator that does not throw (`Generate.GenerateRange`, `Generate.GenerateN`). It states what reaches the caller for one that does (`Generate.GenerateResult`, `Generate.GenerateNResult`). A throwing generator call fails the algorithm through the same result step as any other callback.

## Model

| member | source | states |
|---|---|---|
| `Generate.Loop` | hpx/parallel/algorithms/generate.hpp:43-47 | The in-order loop assigns call `k + (i - pos)` to each element `i` of `[pos, last)`. It leaves every other element alone, makes `last - pos` calls and ends at `last`. |
| `Generate.SequentialPass` | hpx/parallel/algorithms/generate.hpp:41-47 | The sequential path assigns the k-th generator result to `first + k` for every `k < n`. It makes exactly `n` calls and returns the iterator `n` past `first`. Shared by `generate` and `generate_n`. |
| `Generate.VisitWrites` | hpx/parallel/algorithms/generate.hpp:55-61 | When visits never repeat an element, each visited element ends up holding the result of the call made at its visit, and unvisited elements are unchanged. |
| `Generate.ParallelPass` | hpx/parallel/algorithms/generate.hpp:49-62 | The parallel path covers exactly the `n` elements from `first`, one call each. The j-th visit of the plan receives `g(j)`, elements outside `[first, first + n)` are unchanged, the pass ends at `first + n`, and the generator is called `n` times, as counted by the visits themselves. |
| `Generate.ParallelElement` | hpx/parallel/algorithms/generate.hpp:55-61 | Each element of `[first, first + n)` is visited by the plan, and after the parallel path it holds the result of the call made at that visit. |
| `Generate.ConstantGeneratorAgrees` | hpx/parallel/algorithms/generate.hpp:51-61 | For every admissible plan, a constant generator leaves the same contents on the parallel path as on the sequential path. |
| `Generate.InOrderPlanIsSequential` | hpx/parallel/algorithms/generate.hpp:124-132 | The in-order interleaving is admissible for any partition. With it, the parallel path equals the sequential path for any generator. |
| `Generate.GenerateRange` | hpx/parallel/algorithms/generate.hpp:141-162 | `generate` requires at least a forward iterator. It takes the sequential path iff the policy is sequential and makes exactly `last - first` calls. It fills in order on the sequential path and per the plan otherwise, touches nothing outside `[first, last)`, and returns `last`: as a plain value, or in a future for task policies. The generator does not throw here. |
| `Generate.GenerateN` | hpx/parallel/algorithms/generate.hpp:255-288 | `generate_n` requires a forward or output iterator. A negative count makes no call, changes nothing and returns `first`. Otherwise it takes the sequential path iff the policy is sequential or the iterator is output-only, makes exactly `count` calls and returns `first + count`, plain or in a future according to the policy. |
| `Generate.ZeroCountIsNoOp` | hpx/parallel/algorithms/generate.hpp:176-181 | With a zero count, on either path, nothing is called or written, and waiting on the result yields `first`. |
| `Generate.ConstantGeneratorFills` | hpx/parallel/algorithms/generate.hpp:124-132 | With a constant generator, `generate` under any policy and plan leaves the in-order result. |
| `Generate.SequentialSevens` | hpx/parallel/algorithms/generate.hpp:124-126 | Under `seq`, generating 7s over five zeros leaves five 7s and returns the end iterator as a plain value. |
| `Generate.NegativeCountOnOutputIterator` | hpx/parallel/algorithms/generate.hpp:274-278 | `generate_n` with count -3 on an output iterator writes nothing, never calls the generator and returns `first`. |
| `Generate.ParallelOnes` | hpx/parallel/algorithms/generate.hpp:128-139 | Under `par`, generating 1s over a thousand zeros leaves a thousand 1s, for every chunking and interleaving, and returns `last`. |
| `Generate.ConstantGeneratorPolicyIndependent` | hpx/parallel/algorithms/generate.hpp:124-132 | With a constant generator, `generate` leaves identical contents under any two policies and plans, with the constant throughout `[first, last)`. |
| `Generate.GenerateAlwaysYieldsLast` | hpx/parallel/algorithms/generate.hpp:134-139 | With a generator that does not throw, under every policy, a caller that waits on what `generate` hands back obtains `last`. |
| `Generate.FallibleBody` | hpx/parallel/algorithms/generate.hpp:41-62 | With a generator that may throw, a pass fails iff some call throws. Its failures are exactly those of the sequential path (first throwing call) or of the parallel path (each failing chunk's first failure and nothing else, one per failing chunk), whichever runs. Every reported exception was thrown by one of the `n` calls. Otherwise it ends at the end iterator. |
| `Generate.GenerateResult` | hpx/parallel/algorithms/generate.hpp:141-162 | With a generator that may throw, `generate` throws at the call iff the policy is eager and some call throws, and what it throws is a non-empty `exception_list` each of whose items was thrown by one of the `last - first` calls. Under a task policy it returns a future. A plain result is `last`. |
| `Generate.GenerateNResult` | hpx/parallel/algorithms/generate.hpp:255-288 | With a generator that may throw, `generate_n` throws at the call iff the policy is eager, the count is non-negative and one of the `count` calls throws. It throws a non-empty `exception_list` each of whose items was thrown by one of the `count` calls. A plain result is `first + count`, or `first` for a negative count. |
| `Generate.GenerateFailsIffGeneratorThrows` | hpx/parallel/algorithms/generate.hpp:141-162 | Under every policy, a caller that waits on what `generate` hands back ends with an `exception_list` iff some generator call throws, and with `last` otherwise. Every item of that list was thrown by a generator call. |
| `Generate.GenerateNFailsIffGeneratorThrows` | hpx/parallel/algorithms/generate.hpp:255-288 | Under every policy, a caller that waits on what `generate_n` hands back ends with an `exception_list` iff the count is non-negative and one of the `count` calls throws, and every item of that list was thrown by one of those calls. Otherwise it ends with `first + count`, or with `first` for a negative count. |
| `Generate.DeferredGenerateFailureMatchesEager` | hpx/parallel/algorithms/generate.hpp:134-138 | Under `seq(task)` or `par(task)`, a throwing generator does not fail the call. `get()` on the future it returns yields exactly what the call under `seq` or `par` yields, the same `exception_list` included. |
| `Generate.NonThrowingGenerateAgrees` | hpx/parallel/algorithms/generate.hpp:141-162 | With a generator that never throws, the fallible model of `generate` hands the caller exactly what the infallible one does. |
| `Generate.NonThrowingGenerateNAgrees` | hpx/parallel/algorithms/generate.hpp:255-288 | With a generator that never throws, the fallible model of `generate_n` hands the caller exactly what the infallible one does. |
| `Generate.EvenChunksInOrderIsValid` | hpx/parallel/algorithms/generate.hpp:55-57 | Fixed-size chunks, visited in order, form a plan the parallel path may run. |
| `Policies.WithTask` | tests/unit/parallel/algorithms/adjacentdifference_exception.cpp:104-105 | `p(task)` keeps the scheduling mode of `p` and sets the task flag. |
| `Policies.IsSequentialPolicy` | hpx/parallel/algorithms/generate.hpp:72-74 | `is_sequential_execution_policy`: the sequential path runs for `seq` and `seq(task)`. The erased wrapper dispatches on the policy it holds. |
| `Policies.ShapeOf` | hpx/parallel/algorithms/generate.hpp:134-138 | The result is a future exactly for the concrete task policies. It is a plain value for `seq`, `par` and anything wrapped in the erased policy. |
| `Outcomes.Aggregate` | tests/unit/parallel/algorithms/adjacentdifference_exception.cpp:40-46 | The failure shown to a caller is always an `exception_list` holding exactly the gathered callback failures. |
| `Outcomes.Get` | tests/unit/parallel/algorithms/adjacentdifference_exception.cpp:77-83 | `get()` yields a value iff the future holds a completed value. A failed completion throws its `exception_list`. A future with no shared state throws `NoState`. |
| `Outcomes.Surface` | tests/unit/parallel/algorithms/adjacentdifference_exception.cpp:29-90 | The call throws iff the work failed and the policy's result shape is eager, and what it throws is the `exception_list` of the failures. A returned result is a future iff the shape is deferred. A plain result is the completed value, and a future holds the completion unchanged. |
| `Outcomes.Await` | tests/unit/parallel/algorithms/adjacentdifference_exception.cpp:64-83 | The caller's side: an exception thrown at the call is caught, a plain result is taken as is, and a returned future is waited on with `get()`. |
| `Outcomes.SurfacingPreservesCompletion` | tests/unit/parallel/algorithms/adjacentdifference_exception.cpp:77-83 | Whatever the policy, the call followed by `get()` (when a future came back) yields the completed value, or throws the same `exception_list`. Only the moment of surfacing differs. |
| `Outcomes.ErasedBehavesAsEager` | tests/unit/parallel/algorithms/adjacentdifference_exception.cpp:107-111 | A policy wrapped in the erased `execution_policy` behaves exactly like the non-task policy of the same mode, even when the wrapped policy is a task policy. |
| `Partitions.ChunksFrom` | hpx/parallel/algorithms/generate.hpp:55-57 | Cutting `[start, n)` into chunks of at most `size` gives adjacent non-empty chunks from `start` to `n`. All chunks but the last have exactly `size` elements. |
| `Partitions.EvenChunks` | hpx/parallel/algorithms/generate.hpp:55-57 | Fixed-size chunking of the `distance(first, last)` offsets is a partition of `[0, n)`. |
| `Partitions.ChunkContaining` | hpx/parallel/algorithms/generate.hpp:55-57 | Every offset below `n` lies in some chunk of a partition of `[0, n)`. |
| `Partitions.ChunksWithin` | hpx/parallel/algorithms/generate.hpp:55-57 | No chunk of a partition of `[0, n)` reaches past `n`. |
| `Partitions.InOrderIsAdmissible` | hpx/parallel/algorithms/generate.hpp:124-126 | The in-order visit is a schedule of `[0, n)` that respects every partition. |
| `ExceptionSurfacing.ThrowTest` | tests/unit/parallel/algorithms/adjacentdifference_exception.cpp:33-37 | The test's callback throws at every element. |
| `ExceptionSurfacing.FirstFailure` | tests/unit/parallel/algorithms/adjacentdifference_exception.cpp:29-37 | An in-order visit of `[lo, hi)` stops with a failure iff some element throws. The failure it reports is that of the earliest throwing element. |
| `ExceptionSurfacing.SequentialBody` | tests/unit/parallel/algorithms/adjacentdifference_exception.cpp:29-46 | The sequential path fails iff the callback throws at some element. It then reports exactly one failure: the exception of the earliest throwing element. Otherwise it completes with `n`. |
| `ExceptionSurfacing.Gather` | tests/unit/parallel/algorithms/adjacentdifference_exception.cpp:40-43 | Gathering the chunks' reports keeps every reported failure and adds nothing that was not reported. |
| `ExceptionSurfacing.GatherCount` | tests/unit/parallel/algorithms/adjacentdifference_exception.cpp:40-43 | Gathering yields exactly as many failures as there are reports: none is dropped and none is duplicated. |
| `ExceptionSurfacing.ChunkFailures` | tests/unit/parallel/algorithms/adjacentdifference_exception.cpp:40-43 | Each failing chunk's first failure is gathered and nothing else, at most `|chunks|` in all, and exactly `|chunks|` when every chunk fails. So nothing is gathered iff no chunk fails. |
| `ExceptionSurfacing.FailureCountIsFailingChunks` | tests/unit/parallel/algorithms/adjacentdifference_exception.cpp:40-43 | Exactly one failure is gathered per failing chunk. |
| `ExceptionSurfacing.ParallelBody` | tests/unit/parallel/algorithms/adjacentdifference_exception.cpp:40-43 | The parallel path fails iff some chunk fails, and otherwise completes with `n`. Its failures are each failing chunk's first failure and nothing else, exactly one per failing chunk. |
| `ExceptionSurfacing.ParallelFailuresWereThrown` | tests/unit/parallel/algorithms/adjacentdifference_exception.cpp:29-46 | Every failure the parallel path reports was thrown by the callback at one of the `n` elements. |
| `ExceptionSurfacing.SequentialFailureWasThrown` | tests/unit/parallel/algorithms/adjacentdifference_exception.cpp:29-46 | The failure the sequential path reports was thrown by the callback at one of the `n` elements. |
| `ExceptionSurfacing.ParallelFailsIffSomeElementThrows` | tests/unit/parallel/algorithms/adjacentdifference_exception.cpp:101-102 | For every partition, the parallel path fails iff some element throws, and so iff the sequential path fails. Chunking loses no failure. |
| `ExceptionSurfacing.AlwaysThrowingFailsEveryChunk` | tests/unit/parallel/algorithms/adjacentdifference_exception.cpp:33-37 | A callback that always throws makes every chunk report a failure. The parallel path then fails with exactly those failures. |
| `ExceptionSurfacing.Call` | tests/unit/parallel/algorithms/adjacentdifference_exception.cpp:29-38 | An invocation that throws at the call throws a non-empty `exception_list`. A plain result is the end of the work. |
| `ExceptionSurfacing.CallFailsIffSomeElementThrows` | tests/unit/parallel/algorithms/adjacentdifference_exception.cpp:29-90 | For every policy, the call (plus `get()` on a returned future) ends in an `exception_list` iff the callback throws somewhere. Otherwise it yields `n`. |
| `ExceptionSurfacing.EagerTestFailures` | tests/unit/parallel/algorithms/adjacentdifference_exception.cpp:28-48 | The eager test fails no check iff the call throws an `exception_list`. Returning normally or throwing another type fails checks. |
| `ExceptionSurfacing.AsyncTestFailures` | tests/unit/parallel/algorithms/adjacentdifference_exception.cpp:61-90 | The asynchronous test fails no check iff the call returns and `get()` then throws an `exception_list`. |
| `ExceptionSurfacing.SuiteFailures` | tests/unit/parallel/algorithms/adjacentdifference_exception.cpp:93-112 | The failed checks of the eight calls: eager test under `seq` and `par`, asynchronous test under `seq(task)` and `par(task)`, and eager test under the four policies wrapped in `execution_policy`. |
| `ExceptionSurfacing.EagerPolicyThrowsAtCall` | tests/unit/parallel/algorithms/adjacentdifference_exception.cpp:29-46 | Under an eager policy, the call itself throws iff the callback throws somewhere, and what it throws is an `exception_list`. With a throwing callback the call never returns normally. |
| `ExceptionSurfacing.TaskPolicyDefersFailure` | tests/unit/parallel/algorithms/adjacentdifference_exception.cpp:65-90 | Under `seq(task)` and `par(task)`, the call always returns a future without throwing. `get()` on that future throws an `exception_list` iff the callback throws somewhere, and then yields no value. |
| `ExceptionSurfacing.SuitePassesIffCallbackThrows` | tests/unit/parallel/algorithms/adjacentdifference_exception.cpp:93-112 | The eight calls of the test pass, for any forward-derived iterator category, iff the callback throws at some element. A callback that never throws fails the test. |
| `ExceptionSurfacing.AdjacentDifferenceExceptionTestPasses` | tests/unit/parallel/algorithms/adjacentdifference_exception.cpp:114-118 | With its always-throwing callback, 10007 elements and so 10006 callback applications, the test passes for both the random-access and the forward category, however the elements are chunked. |
| `HostExecutor.Make` | libs/compute/include/hpx/compute/host/default_executor.hpp:23-26 | The constructor takes a target and keeps nothing of it. |
| `HostExecutor.Equal` | libs/compute/include/hpx/compute/host/default_executor.hpp:29-32 | Any two executors compare equal. |
| `HostExecutor.NotEqual` | libs/compute/include/hpx/compute/host/default_executor.hpp:34-37 | `!=` is the negation of `==`, and so it is always false. |
| `HostExecutor.EqualityIsEquivalence` | libs/compute/include/hpx/compute/host/default_executor.hpp:23-37 | For executors built from any targets, `==` is reflexive, symmetric and transitive, and `!=` is its complement. |
| `HostExecutor.Context` | libs/compute/include/hpx/compute/host/default_executor.hpp:39-42 | `context()` is the executor itself. |
| `HostExecutor.PostOp` | libs/compute/include/hpx/compute/host/default_executor.hpp:45-48 | `post` runs `f` on nothing. |
| `HostExecutor.AsyncExecuteOp` | libs/compute/include/hpx/compute/host/default_executor.hpp:50-54 | `async_execute` runs nothing and returns a default-constructed future. That future has no shared state, so `get()` on it throws rather than yielding a value. |
| `HostExecutor.SyncExecuteOp` | libs/compute/include/hpx/compute/host/default_executor.hpp:56-59 | `sync_execute` runs `f` on nothing. |
| `HostExecutor.BulkAsyncExecuteOp` | libs/compute/include/hpx/compute/host/default_executor.hpp:61-66 | `bulk_async_execute` returns an empty collection of futures and runs nothing, whatever the shape. |
| `HostExecutor.BulkSyncExecuteOp` | libs/compute/include/hpx/compute/host/default_executor.hpp:68-71 | `bulk_sync_execute` runs nothing, whatever the shape. |
| `HostExecutor.OperationsIgnoreTheCallable` | libs/compute/include/hpx/compute/host/default_executor.hpp:45-71 | Each of the five operations hands back the same thing whatever callable it is given, so none of them calls it. |
| `HostExecutor.Traits` | libs/compute/include/hpx/compute/host/default_executor.hpp:79-105 | The executor's category is parallel, and the one-way, two-way, bulk one-way and bulk two-way capabilities are all declared. |
| `HostExecutor.BulkOperationsRunNoShapeElement` | libs/compute/include/hpx/compute/host/default_executor.hpp:61-71 | Despite the declared bulk capabilities, a non-empty shape gets neither one future per element nor any element run. |

## Left out

- Segmented `generate_`: only its declaration is part of this model, not its body. `generate` is modelled for non-segmented ranges only.
- The bodies of `for_each_n`, `algorithm_result`, `detail::algorithm::call` and `is_negative` are not part of this model.
  - The parallel path is modelled by what `generate` relies on: each of the `n` elements gets one call, in some interleaving of in-order chunks.
  - The result step is modelled by the value-or-future rule.
  - `count` is an unbounded `int`. An unsigned `Size` is simply never negative, and the `std::size_t` conversion of a non-negative count is the identity.
- Threads, worker pools, scheduling and futures as synchronisation objects are abstracted away. The interleaving is a parameter (`Plan`), and a future is the completion it will deliver. Final contents are those after all work has settled.
- Under a task policy, the writes happen asynchronously. The model reports the contents after the future's work has completed.
- Fallback synthesis of missing executor capabilities is not modelled. Neither is the choice of operation for chunk submission: that code is not part of this model.
- `Policies.IsSequentialPolicy`: at generate.hpp:72-74 `is_sequential_execution_policy` is a trait of the policy's type, and the type-erased `execution_policy` is not a sequential policy type. That the erased wrapper runs the path of the policy it holds is an assumption about `detail::algorithm::call`, whose body is not part of this model.
- `ExceptionSurfacing.ChunkFailures`: states which failures are gathered and bounds their number; the exact count, one per failing chunk, is `ExceptionSurfacing.FailureCountIsFailingChunks`, kept out of this contract because it is costly to prove alongside the others. The per-chunk exception counts the test checks come from a helper that is not part of this model.
- `ExceptionSurfacing.ParallelBody`: does not say which failing chunk each position of the list belongs to. The order of the gathered failures is chunk order. With real threads the insertion order is unspecified; only the set of failures is meaningful.
- `ExceptionSurfacing.Call`: the algorithm under test is `adjacent_difference`. It is modelled only as `n` callback applications, each of which may throw. For `adjacent_difference`, `n` is the number of adjacent pairs, one less than the element count, so the test's 10007 elements give 10006 applications. Its arithmetic and output writes are not modelled, and the iterator category does not influence its model.
- `HostExecutor.AsyncExecuteOp`: that `get()` on a future with no shared state throws follows HPX's future semantics. The future header is not part of this model.
- The target the executor is constructed from is dropped, as in the source, where the member that would hold it is commented out.
- `Generate.ParallelPass`: numbers the generator calls in one sequence across all chunks, as if every call went to one shared generator. The source calls a by-value copy of `f` (the lambdas at generate.hpp:58 and :195), and `for_each_n` may copy it again per chunk. Such a copy cannot change its own state through the lambda's const call operator, except through `mutable` members or state it refers to. A generator with per-copy state is not modelled. The constant-generator results do not depend on this.
- `Generate.GenerateRange`: the generator does not throw here. A throwing generator is modelled by `Generate.GenerateResult`, which states what reaches the caller. It does not state the contents left behind by the calls made before or beside the failing one.
- `Generate.GenerateN`: the generator does not throw here; `Generate.GenerateNResult` covers a throwing one, without the contents left behind. Iterators are indices into a finite sequence, and `first + count` must fit in it. An appending output iterator such as `std::back_inserter`, which the static_assert at generate.hpp:265-272 accepts, is not modelled.
- `Generate.GenerateAlwaysYieldsLast`: holds for a generator that does not throw. For one that may throw, `Generate.GenerateFailsIffGeneratorThrows` gives the outcome.
- `Policies.ShapeOf`: `vector_execution_policy` is not modelled. Under it, a callback failure calls `std::terminate` (adjacentdifference_exception.cpp:98-100), and nothing reaches the caller.
- `HostExecutor.Context`: `context()` returns a reference to the executor itself. The model has values only, and `DefaultExecutor` has a single value, so the reference identity is not represented.
- Plugin loading (`concrete_factory.hpp`, `plugin_wrapper.hpp`) is not modelled: it is dynamic-library loading and a deprecation shim.
- The test's `hpx_main` and `main` are not modelled: they are runtime bootstrap, option parsing, random seeding and console output.
