/**
 The generation algorithms `generate(policy, first, last, f)` and
 `generate_n(policy, first, count, f)`.

 A range is a `seq<T>` and an iterator is an index into it. The generator is
 a function `g: nat -> T` read as "the k-th call of `f()` returns `g(k)`", so
 which call fed which element, and how many calls were made, is observable.
 A run reports the final contents of the sequence, the number of calls, the
 code path taken and what the call handed back to its caller.
 */
module Generate {
  import opened Policies
  import opened Iterators
  import opened Outcomes
  import opened Partitions
  import opened ExceptionSurfacing

  /** The reference result: element `first + k` holds `g(k)` for every `k < n`,
      every other element is untouched. */
  function Filled<T>(out: seq<T>, first: nat, n: nat, g: nat -> T): seq<T>
    requires first + n <= |out|
  {
    seq(|out|, i requires 0 <= i < |out| => if first <= i < first + n then g(i - first) else out[i])
  }

  /** The output sequence after some assignments, how many times the
      generator has been called, and the iterator the pass ends at. */
  datatype Pass<T> = Pass(contents: seq<T>, calls: nat, end: nat)

  /** The loop of `std::generate` from `pos` to `last`, the generator having
      been called `k` times already: assign the next result to `*pos`, advance. */
  function Loop<T>(out: seq<T>, pos: nat, last: nat, g: nat -> T, k: nat): (r: Pass<T>)
    requires pos <= last <= |out|
    ensures |r.contents| == |out| && r.calls == k + (last - pos) && r.end == last
    ensures forall i :: 0 <= i < |out| ==>
      r.contents[i] == (if pos <= i < last then g(k + (i - pos)) else out[i])
    decreases last - pos
  {
    if pos == last then Pass(out, k, last)
    else Loop(out[pos := g(k)], pos + 1, last, g, k + 1)
  }

  /** The sequential code path of both algorithms (`std::generate` over
      `[first, last)`, `std::generate_n` over `count` elements): the k-th call
      goes to `first + k`, in order, and the pass ends `n` past `first`. */
  function SequentialPass<T>(out: seq<T>, first: nat, n: nat, g: nat -> T): (r: Pass<T>)
    requires first + n <= |out|
    ensures r.contents == Filled(out, first, n, g)
    ensures r.calls == n && r.end == first + n
  {
    Loop(out, first, first + n, g, 0)
  }

  /** The output sequence after a series of element visits, and how many
      times the generator has been called by then. */
  datatype Visits<T> = Visits(contents: seq<T>, calls: nat)

  /** Performs the element visits listed in `order` (offsets from `first`);
      the j-th visit makes call `k + j` and assigns its result. */
  function Visit<T>(out: seq<T>, first: nat, order: seq<nat>, g: nat -> T, k: nat): (r: Visits<T>)
    requires forall j :: 0 <= j < |order| ==> first + order[j] < |out|
    ensures |r.contents| == |out|
    ensures r.calls == k + |order|
    decreases |order|
  {
    if |order| == 0 then Visits(out, k)
    else Visit(out[first + order[0] := g(k)], first, order[1..], g, k + 1)
  }

  /** With no offset visited twice, the visit of `order[j]` holds the result
      of call `k + j` in the end, and nothing unvisited changes. */
  lemma {:induction false} VisitWrites<T>(out: seq<T>, first: nat, order: seq<nat>, g: nat -> T, k: nat)
    requires forall j :: 0 <= j < |order| ==> first + order[j] < |out|
    requires Distinct(order)
    ensures forall j :: 0 <= j < |order| ==> Visit(out, first, order, g, k).contents[first + order[j]] == g(k + j)
    ensures forall i :: 0 <= i < |out| && !(first <= i && i - first in order) ==>
      Visit(out, first, order, g, k).contents[i] == out[i]
    decreases |order|
  {
    if |order| > 0 {
      var out' := out[first + order[0] := g(k)];
      var rest := order[1..];
      assert forall b :: 0 <= b < |rest| ==> rest[b] == order[b + 1];
      VisitWrites(out', first, rest, g, k + 1);
      var r := Visit(out, first, order, g, k).contents;
      assert r == Visit(out', first, rest, g, k + 1).contents;
      assert order[0] !in rest;
      forall j | 0 <= j < |order|
        ensures r[first + order[j]] == g(k + j)
      {
        if j > 0 {
          assert order[j] == rest[j - 1];
        }
      }
    }
  }

  /** How the executor runs a parallel loop: the partition into chunks and
      the interleaving of their element visits. */
  datatype Plan = Plan(chunks: seq<Chunk>, order: seq<nat>)

  /** A plan the executor may pick for `n` elements: a partition of `[0, n)`
      and a schedule visiting every element once, in order within a chunk. */
  predicate ValidPlan(plan: Plan, n: nat) {
    && ValidPartition(plan.chunks, n)
    && IsSchedule(plan.order, n)
    && RespectsChunks(plan.order, plan.chunks)
  }

  /** The parallel code path of both algorithms: `for_each_n` over the `n`
      elements from `first`, each element assigned the result of one call;
      calls are numbered in the order the plan performs the visits. */
  function ParallelPass<T>(out: seq<T>, first: nat, n: nat, g: nat -> T, plan: Plan): (r: Pass<T>)
    requires first + n <= |out| && ValidPlan(plan, n)
    ensures |r.contents| == |out| && r.calls == n && r.end == first + n
    ensures forall j :: 0 <= j < n ==> r.contents[first + plan.order[j]] == g(j)
    ensures forall i :: 0 <= i < |out| && !(first <= i < first + n) ==> r.contents[i] == out[i]
  {
    VisitWrites(out, first, plan.order, g, 0);
    var visits := Visit(out, first, plan.order, g, 0);
    Pass(visits.contents, visits.calls, first + n)
  }

  /** Each element of `[first, first + n)` holds the result of the call made
      at its visit in the plan. */
  lemma ParallelElement<T>(out: seq<T>, first: nat, n: nat, g: nat -> T, plan: Plan, i: nat) returns (j: nat)
    requires first + n <= |out| && ValidPlan(plan, n)
    requires first <= i < first + n
    ensures j < n && plan.order[j] == i - first
    ensures ParallelPass(out, first, n, g, plan).contents[i] == g(j)
  {
    var off: nat := i - first;
    assert off in plan.order;
    j :| 0 <= j < |plan.order| && plan.order[j] == off;
  }

  /** Whatever the plan, the parallel path with a generator that always
      returns the same value leaves the same contents as the sequential path. */
  lemma ConstantGeneratorAgrees<T>(out: seq<T>, first: nat, n: nat, g: nat -> T, v: T, plan: Plan)
    requires first + n <= |out| && ValidPlan(plan, n)
    requires forall k :: g(k) == v
    ensures ParallelPass(out, first, n, g, plan).contents == SequentialPass(out, first, n, g).contents
  {
    var par := ParallelPass(out, first, n, g, plan).contents;
    var sq := SequentialPass(out, first, n, g).contents;
    forall i | 0 <= i < |out|
      ensures par[i] == sq[i]
    {
      if first <= i < first + n {
        var j := ParallelElement(out, first, n, g, plan, i);
        assert par[i] == g(j) == v;
        assert sq[i] == g(i - first) == v;
      }
    }
  }

  /** The in-order schedule is one the parallel path may pick, and with it the
      parallel path gives exactly the sequential result, for any generator. */
  lemma InOrderPlanIsSequential<T>(out: seq<T>, first: nat, n: nat, g: nat -> T, chunks: seq<Chunk>)
    requires first + n <= |out| && ValidPartition(chunks, n)
    ensures ValidPlan(Plan(chunks, InOrder(n)), n)
    ensures ParallelPass(out, first, n, g, Plan(chunks, InOrder(n))).contents == SequentialPass(out, first, n, g).contents
  {
    InOrderIsAdmissible(n, chunks);
    var plan := Plan(chunks, InOrder(n));
    var par := ParallelPass(out, first, n, g, plan).contents;
    var sq := SequentialPass(out, first, n, g).contents;
    forall i | 0 <= i < |out|
      ensures par[i] == sq[i]
    {
      if first <= i < first + n {
        var j := ParallelElement(out, first, n, g, plan, i);
        assert par[i] == g(i - first) == sq[i];
      }
    }
  }

  /** Which implementation an invocation ran, if any. */
  datatype Path = NoWork | SequentialPath | ParallelPath

  /** One invocation: final contents, number of generator calls, code path,
      and what the call handed back (the end iterator, plain or in a future). */
  datatype Run<T> = Run(contents: seq<T>, calls: nat, path: Path, outcome: CallOutcome<nat>)

  /** `generate(policy, first, last, f)` on a non-segmented range. The
      iterator must be at least forward; the sequential path is taken exactly
      for sequential policies. The generator here never throws, so the
      caller gets `last`, directly or through a future; `GenerateResult`
      covers a generator that throws. */
  function GenerateRange<T>(policy: ExecutionPolicy, cat: Category, out: seq<T>, first: nat, last: nat,
                            g: nat -> T, plan: Plan): (r: Run<T>)
    requires IsForward(cat)
    requires first <= last <= |out|
    requires ValidPlan(plan, last - first)
    ensures r.path == SequentialPath <==> IsSequentialPolicy(policy)
    ensures r.path == ParallelPath <==> !IsSequentialPolicy(policy)
    ensures r.calls == last - first
    ensures |r.contents| == |out|
    ensures IsSequentialPolicy(policy) ==> r.contents == Filled(out, first, last - first, g)
    ensures !IsSequentialPolicy(policy) ==>
      forall j :: 0 <= j < last - first ==> r.contents[first + plan.order[j]] == g(j)
    ensures forall i :: 0 <= i < |out| && !(first <= i < last) ==> r.contents[i] == out[i]
    ensures ShapeOf(policy) == Eager ==> r.outcome == Returned(Plain(last))
    ensures ShapeOf(policy) == Deferred ==> r.outcome == Returned(Handle(Shared(Done(last))))
  {
    var n := last - first;
    var pass := if IsSequentialPolicy(policy) then SequentialPass(out, first, n, g)
                else ParallelPass(out, first, n, g, plan);
    Run(pass.contents, pass.calls,
        if IsSequentialPolicy(policy) then SequentialPath else ParallelPath,
        Surface(policy, Done(pass.end)))
  }

  /** `generate_n(policy, first, count, f)`. A negative count returns `first`
      without calling `f`; otherwise the sequential path is taken for a
      sequential policy or an output-only iterator, and the caller gets the
      iterator `count` past `first`. */
  function GenerateN<T>(policy: ExecutionPolicy, cat: Category, out: seq<T>, first: nat, count: int,
                        g: nat -> T, plan: Plan): (r: Run<T>)
    requires IsForwardOrOutput(cat)
    requires count >= 0 ==> first + count <= |out| && ValidPlan(plan, count)
    ensures count < 0 ==> r.contents == out && r.calls == 0 && r.path == NoWork
    ensures count >= 0 ==> r.calls == count
    ensures |r.contents| == |out|
    ensures count >= 0 ==> (r.path == SequentialPath <==> IsSequentialPolicy(policy) || IsOutputOnly(cat))
    ensures count >= 0 ==> (r.path == ParallelPath <==> !IsSequentialPolicy(policy) && !IsOutputOnly(cat))
    ensures count >= 0 && r.path == SequentialPath ==> r.contents == Filled(out, first, count, g)
    ensures count >= 0 && r.path == ParallelPath ==>
      forall j :: 0 <= j < count ==> r.contents[first + plan.order[j]] == g(j)
    ensures count >= 0 ==>
      forall i :: 0 <= i < |out| && !(first <= i < first + count) ==> r.contents[i] == out[i]
    ensures ShapeOf(policy) == Eager ==>
      r.outcome == Returned(Plain(if count < 0 then first else first + count))
    ensures ShapeOf(policy) == Deferred ==>
      r.outcome == Returned(Handle(Shared(Done(if count < 0 then first else first + count))))
  {
    if count < 0 then
      Run(out, 0, NoWork, Surface(policy, Done(first)))
    else
      var isSeq := IsSequentialPolicy(policy) || IsOutputOnly(cat);
      var pass := if isSeq then SequentialPass(out, first, count, g)
                  else ParallelPass(out, first, count, g, plan);
      Run(pass.contents, pass.calls, if isSeq then SequentialPath else ParallelPath,
          Surface(policy, Done(pass.end)))
  }

  /** A zero count is a no-op too, on either path: nothing is called or
      written and `first` comes back. */
  lemma ZeroCountIsNoOp<T>(policy: ExecutionPolicy, cat: Category, out: seq<T>, first: nat,
                                              g: nat -> T, plan: Plan)
    requires IsForwardOrOutput(cat)
    requires first <= |out| && ValidPlan(plan, 0)
    ensures GenerateN(policy, cat, out, first, 0, g, plan).contents == out
    ensures GenerateN(policy, cat, out, first, 0, g, plan).calls == 0
    ensures Await(GenerateN(policy, cat, out, first, 0, g, plan).outcome) == Value(first)
  {
  }

  /** With a generator that always returns `v`, `generate` under any policy
      and plan leaves what the sequential path leaves. */
  lemma ConstantGeneratorFills<T>(p: ExecutionPolicy, cat: Category, out: seq<T>, first: nat, last: nat,
                                                   g: nat -> T, v: T, plan: Plan)
    requires IsForward(cat)
    requires first <= last <= |out|
    requires ValidPlan(plan, last - first)
    requires forall k :: g(k) == v
    ensures GenerateRange(p, cat, out, first, last, g, plan).contents == Filled(out, first, last - first, g)
  {
    if !IsSequentialPolicy(p) {
      ConstantGeneratorAgrees(out, first, last - first, g, v, plan);
    }
  }

  /** With a generator that always returns `v`, `generate` leaves the same
      contents under every policy and every plan: `v` throughout
      `[first, last)`, everything else untouched. */
  lemma ConstantGeneratorPolicyIndependent<T>(p: ExecutionPolicy, q: ExecutionPolicy, cat: Category,
                                                               out: seq<T>, first: nat, last: nat, g: nat -> T, v: T,
                                                               plan: Plan, plan': Plan)
    requires IsForward(cat)
    requires first <= last <= |out|
    requires ValidPlan(plan, last - first) && ValidPlan(plan', last - first)
    requires forall k :: g(k) == v
    ensures GenerateRange(p, cat, out, first, last, g, plan).contents
         == GenerateRange(q, cat, out, first, last, g, plan').contents
    ensures forall i :: first <= i < last ==> GenerateRange(p, cat, out, first, last, g, plan).contents[i] == v
  {
    ConstantGeneratorFills(p, cat, out, first, last, g, v, plan);
    ConstantGeneratorFills(q, cat, out, first, last, g, v, plan');
    var filled := Filled(out, first, last - first, g);
    forall i | first <= i < last
      ensures filled[i] == v
    {
      assert filled[i] == g(i - first);
    }
  }

  /** With a generator that never throws, a caller that waits on whatever
      `generate` hands back obtains `last`, whatever the policy. */
  lemma GenerateAlwaysYieldsLast<T>(policy: ExecutionPolicy, cat: Category, out: seq<T>,
                                                     first: nat, last: nat, g: nat -> T, plan: Plan)
    requires IsForward(cat)
    requires first <= last <= |out|
    requires ValidPlan(plan, last - first)
    ensures Await(GenerateRange(policy, cat, out, first, last, g, plan).outcome) == Value(last)
  {
  }

  /** The completion of a pass whose generator may throw, ending at `end`
      when no call throws: `fails(i)` says what the call that produces the
      element at offset `i` does. The sequential path stops at the first
      throwing call; on the parallel path every chunk runs to its end or to
      its own first throwing call, and one failure is gathered per failing
      chunk. */
  function FallibleBody(sequential: bool, fails: nat -> Attempt, n: nat, chunks: seq<Chunk>, end: nat): (r: Completion<nat>)
    requires ValidPartition(chunks, n)
    ensures r.Raised? <==> exists i :: 0 <= i < n && fails(i).Throws?
    ensures r.Done? ==> r.value == end
    ensures r.Raised? ==> 0 < |r.errors|
    ensures r.Raised? ==> forall e :: e in r.errors ==> exists i :: 0 <= i < n && fails(i) == Throws(e)
    ensures sequential && r.Raised? ==> r == SequentialBody(fails, n)
    ensures !sequential && r.Raised? ==> r == ParallelBody(fails, n, chunks)
  {
    ParallelFailsIffSomeElementThrows(fails, n, chunks);
    if sequential then
      SequentialFailureWasThrown(fails, n);
      var body := SequentialBody(fails, n);
      if body.Done? then Done(end) else body
    else
      ParallelFailuresWereThrown(fails, n, chunks);
      var body := ParallelBody(fails, n, chunks);
      if body.Done? then Done(end) else body
  }

  /** What the caller of `generate(policy, first, last, f)` sees when `f`
      may throw. A throwing call reaches the caller as one `exception_list`:
      at the call under an eager policy, on `get()` under a task policy.
      Without a throwing call the caller gets `last`. */
  function GenerateResult(policy: ExecutionPolicy, cat: Category, first: nat, last: nat,
                          fails: nat -> Attempt, chunks: seq<Chunk>): (r: CallOutcome<nat>)
    requires IsForward(cat)
    requires first <= last
    requires ValidPartition(chunks, last - first)
    ensures r.Threw? <==> ShapeOf(policy) == Eager && exists i :: 0 <= i < last - first && fails(i).Throws?
    ensures r.Threw? ==> r.error.ExceptionList? && |r.error.items| > 0
    ensures r.Threw? ==> forall e :: e in r.error.items ==> exists i :: 0 <= i < last - first && fails(i) == Throws(e)
    ensures ShapeOf(policy) == Deferred ==> r.Returned? && r.result.Handle?
    ensures r.Returned? && r.result.Plain? ==> r.result.value == last
  {
    Surface(policy, FallibleBody(IsSequentialPolicy(policy), fails, last - first, chunks, last))
  }

  /** What the caller of `generate_n(policy, first, count, f)` sees when `f`
      may throw. A negative count calls nothing and cannot fail; otherwise a
      throwing call reaches the caller as one `exception_list`, at the call or
      on `get()` according to the policy. */
  function GenerateNResult(policy: ExecutionPolicy, cat: Category, first: nat, count: int,
                           fails: nat -> Attempt, chunks: seq<Chunk>): (r: CallOutcome<nat>)
    requires IsForwardOrOutput(cat)
    requires count >= 0 ==> ValidPartition(chunks, count)
    ensures r.Threw? <==> ShapeOf(policy) == Eager && count >= 0 && exists i :: 0 <= i < count && fails(i).Throws?
    ensures r.Threw? ==> r.error.ExceptionList? && |r.error.items| > 0
    ensures r.Threw? ==> forall e :: e in r.error.items ==> exists i :: 0 <= i < count && fails(i) == Throws(e)
    ensures ShapeOf(policy) == Deferred ==> r.Returned? && r.result.Handle?
    ensures r.Returned? && r.result.Plain? ==> r.result.value == if count < 0 then first else first + count
  {
    if count < 0 then Surface(policy, Done(first))
    else
      var isSeq := IsSequentialPolicy(policy) || IsOutputOnly(cat);
      Surface(policy, FallibleBody(isSeq, fails, count, chunks, first + count))
  }

  /** Whatever the policy, a caller that waits on what `generate` hands back
      obtains an `exception_list` exactly when some generator call throws,
      and `last` otherwise. */
  lemma GenerateFailsIffGeneratorThrows(policy: ExecutionPolicy, cat: Category, first: nat, last: nat,
                                        fails: nat -> Attempt, chunks: seq<Chunk>)
    requires IsForward(cat)
    requires first <= last
    requires ValidPartition(chunks, last - first)
    ensures Await(GenerateResult(policy, cat, first, last, fails, chunks)).Caught?
        <==> exists i :: 0 <= i < last - first && fails(i).Throws?
    ensures Await(GenerateResult(policy, cat, first, last, fails, chunks)).Caught? ==>
      Await(GenerateResult(policy, cat, first, last, fails, chunks)).error.ExceptionList?
    ensures Await(GenerateResult(policy, cat, first, last, fails, chunks)).Caught? ==>
      forall e :: e in Await(GenerateResult(policy, cat, first, last, fails, chunks)).error.items ==>
        exists i :: 0 <= i < last - first && fails(i) == Throws(e)
    ensures Await(GenerateResult(policy, cat, first, last, fails, chunks)).Value? ==>
      Await(GenerateResult(policy, cat, first, last, fails, chunks)).value == last
  {
    SurfacingPreservesCompletion(policy, FallibleBody(IsSequentialPolicy(policy), fails, last - first, chunks, last));
  }

  /** The same for `generate_n`: the caller ends with an `exception_list`
      exactly when one of the `count` calls throws, and otherwise with the
      iterator `count` past `first`, or `first` for a negative count. */
  lemma GenerateNFailsIffGeneratorThrows(policy: ExecutionPolicy, cat: Category, first: nat, count: int,
                                         fails: nat -> Attempt, chunks: seq<Chunk>)
    requires IsForwardOrOutput(cat)
    requires count >= 0 ==> ValidPartition(chunks, count)
    ensures Await(GenerateNResult(policy, cat, first, count, fails, chunks)).Caught?
        <==> count >= 0 && exists i :: 0 <= i < count && fails(i).Throws?
    ensures Await(GenerateNResult(policy, cat, first, count, fails, chunks)).Caught? ==>
      Await(GenerateNResult(policy, cat, first, count, fails, chunks)).error.ExceptionList?
    ensures Await(GenerateNResult(policy, cat, first, count, fails, chunks)).Caught? ==>
      forall e :: e in Await(GenerateNResult(policy, cat, first, count, fails, chunks)).error.items ==>
        exists i :: 0 <= i < count && fails(i) == Throws(e)
    ensures Await(GenerateNResult(policy, cat, first, count, fails, chunks)).Value? ==>
      Await(GenerateNResult(policy, cat, first, count, fails, chunks)).value
        == if count < 0 then first else first + count
  {
    if count < 0 {
      SurfacingPreservesCompletion(policy, Done(first));
    } else {
      var isSeq := IsSequentialPolicy(policy) || IsOutputOnly(cat);
      SurfacingPreservesCompletion(policy, FallibleBody(isSeq, fails, count, chunks, first + count));
    }
  }

  /** Cutting the elements into chunks of a fixed size and visiting them in
      order is a plan the parallel path may run. */
  lemma EvenChunksInOrderIsValid(n: nat, size: nat)
    requires size > 0
    ensures ValidPlan(Plan(EvenChunks(n, size), InOrder(n)), n)
  {
    InOrderIsAdmissible(n, EvenChunks(n, size));
  }

  /** Under `seq(task)` or `par(task)` a throwing generator does not fail the
      call: a future comes back, and `get()` on it yields exactly what the
      same call under `seq` or `par` yields at once, the same
      `exception_list` included. */
  lemma DeferredGenerateFailureMatchesEager(b: BasePolicy, cat: Category, first: nat, last: nat,
                                            fails: nat -> Attempt, chunks: seq<Chunk>)
    requires IsForward(cat)
    requires first <= last
    requires ValidPartition(chunks, last - first)
    ensures GenerateResult(Static(WithTask(b)), cat, first, last, fails, chunks).Returned?
    ensures Get(GenerateResult(Static(WithTask(b)), cat, first, last, fails, chunks).result.future)
         == Await(GenerateResult(Static(b.(task := false)), cat, first, last, fails, chunks))
  {
  }

  /** With a generator that never throws, the fallible model hands the caller
      exactly what `generate` hands back. */
  lemma NonThrowingGenerateAgrees<T>(policy: ExecutionPolicy, cat: Category, out: seq<T>, first: nat, last: nat,
                                     g: nat -> T, fails: nat -> Attempt, plan: Plan)
    requires IsForward(cat)
    requires first <= last <= |out|
    requires ValidPlan(plan, last - first)
    requires forall i :: fails(i).Returns?
    ensures GenerateResult(policy, cat, first, last, fails, plan.chunks)
         == GenerateRange(policy, cat, out, first, last, g, plan).outcome
  {
  }

  /** With a generator that never throws, the fallible model hands the caller
      exactly what `generate_n` hands back. */
  lemma NonThrowingGenerateNAgrees<T>(policy: ExecutionPolicy, cat: Category, out: seq<T>, first: nat, count: int,
                                      g: nat -> T, fails: nat -> Attempt, plan: Plan)
    requires IsForwardOrOutput(cat)
    requires count >= 0 ==> first + count <= |out| && ValidPlan(plan, count)
    requires forall i :: fails(i).Returns?
    ensures GenerateNResult(policy, cat, first, count, fails, plan.chunks)
         == GenerateN(policy, cat, out, first, count, g, plan).outcome
  {
  }

  /** Generators that always return the same value. */
  function Seven(k: nat): int { 7 }
  function One(k: nat): int { 1 }

  /** `generate(seq, it(0), it(5), f)` with `f` returning 7, on five zeros:
      all sevens, and the call returns `it(5)`, whatever plan is at hand. */
  lemma SequentialSevens(plan: Plan)
    requires ValidPlan(plan, 5)
    ensures GenerateRange(Static(SeqPolicy), RandomAccess, [0, 0, 0, 0, 0], 0, 5, Seven, plan).contents == [7, 7, 7, 7, 7]
    ensures GenerateRange(Static(SeqPolicy), RandomAccess, [0, 0, 0, 0, 0], 0, 5, Seven, plan).outcome == Returned(Plain(5))
  {
  }

  /** `generate_n(seq, it, -3, f)` on an output iterator: nothing written,
      `f` never called, `it` returned. */
  lemma NegativeCountOnOutputIterator<T>(out: seq<T>, first: nat, g: nat -> T, plan: Plan)
    ensures GenerateN(Static(SeqPolicy), Output, out, first, -3, g, plan).contents == out
    ensures GenerateN(Static(SeqPolicy), Output, out, first, -3, g, plan).calls == 0
    ensures GenerateN(Static(SeqPolicy), Output, out, first, -3, g, plan).outcome == Returned(Plain(first))
  {
  }

  /** `generate(par, it(0), it(1000), f)` with `f` returning 1, on a thousand
      zeros: all ones however the elements are chunked and interleaved, and
      the call returns `it(1000)`. */
  lemma ParallelOnes(plan: Plan)
    requires ValidPlan(plan, 1000)
    ensures GenerateRange(Static(ParPolicy), RandomAccess, seq(1000, _ => 0), 0, 1000, One, plan).contents
         == seq(1000, _ => 1)
    ensures GenerateRange(Static(ParPolicy), RandomAccess, seq(1000, _ => 0), 0, 1000, One, plan).outcome
         == Returned(Plain(1000))
  {
    var zeros := seq(1000, _ => 0);
    ConstantGeneratorFills(Static(ParPolicy), RandomAccess, zeros, 0, 1000, One, 1, plan);
    var filled := Filled(zeros, 0, 1000, One);
    forall i | 0 <= i < 1000
      ensures filled[i] == 1
    {
      assert filled[i] == One(i);
    }
  }
}
