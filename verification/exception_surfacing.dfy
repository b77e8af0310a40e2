/**
 How a failing callback reaches the caller of a parallel algorithm, as the
 exception test of `adjacent_difference` fixes it. The callback is applied
 once per element and may throw; `f(i)` says what it does at element `i`.

 The sequential path visits the elements in order and stops at the first
 failure. The parallel path runs every chunk to its end or to its own first
 failure, without cancelling the others, and gathers one failure per failing
 chunk. Either way the failures reach the caller as one `exception_list`,
 at the call or on `get()` according to the policy.
 */
module ExceptionSurfacing {
  import opened Policies
  import opened Iterators
  import opened Outcomes
  import opened Partitions

  /** What the callback does at one element: return normally or throw. */
  datatype Attempt = Returns | Throws(error: Exception)

  /** The failure that stops an in-order visit of `[lo, hi)`, if any. */
  function FirstFailure(f: nat -> Attempt, lo: nat, hi: nat): (r: Option<Exception>)
    requires lo <= hi
    ensures r.None? <==> forall i :: lo <= i < hi ==> f(i).Returns?
    ensures r.Some? ==> exists i :: lo <= i < hi && f(i) == Throws(r.value) &&
                                    forall j :: lo <= j < i ==> f(j).Returns?
    decreases hi - lo
  {
    if lo == hi then None
    else if f(lo).Throws? then Some(f(lo).error)
    else FirstFailure(f, lo + 1, hi)
  }

  /** The sequential path over `n` elements: on a failure the visit stops and
      the work ends with that single failure. */
  function SequentialBody(f: nat -> Attempt, n: nat): (r: Completion<nat>)
    ensures r.Raised? <==> exists i :: 0 <= i < n && f(i).Throws?
    ensures r.Raised? ==> |r.errors| == 1
    ensures r.Raised? ==> exists i :: 0 <= i < n && f(i) == Throws(r.errors[0]) &&
                                      forall j :: 0 <= j < i ==> f(j).Returns?
    ensures r.Done? ==> r.value == n
  {
    match FirstFailure(f, 0, n)
    case None => Done(n)
    case Some(e) => Raised([e])
  }

  /** The failure that stops one chunk's in-order run, if any. */
  function ChunkFailure(f: nat -> Attempt, chunk: Chunk): Option<Exception> {
    FirstFailure(f, chunk.start, chunk.End())
  }

  /** The `Some` entries of `s`, in order: each reported failure once, and
      nothing else (`GatherCount` states the count). */
  function Gather(s: seq<Option<Exception>>): (r: seq<Exception>)
    ensures |r| <= |s|
    ensures |r| == 0 <==> forall c :: 0 <= c < |s| ==> s[c].None?
    ensures (forall c :: 0 <= c < |s| ==> s[c].Some?) ==> |r| == |s|
    ensures forall c :: 0 <= c < |s| && s[c].Some? ==> s[c].value in r
    ensures forall e :: e in r ==> Some(e) in s
  {
    if |s| == 0 then []
    else
      var rest := Gather(s[1..]);
      assert forall c :: 0 < c < |s| ==> s[1..][c - 1] == s[c];
      if s[0].Some? then [s[0].value] + rest else rest
  }

  /** The positions of `s` that hold a report. */
  function SomeIndexes(s: seq<Option<Exception>>): set<nat> {
    set c: nat | c < |s| && s[c].Some?
  }

  /** Every position of `t`, one further on. */
  function Shift(t: set<nat>): set<nat> {
    set c | c in t :: c + 1
  }

  /** Shifting keeps the number of positions. */
  lemma {:induction false} ShiftSize(t: set<nat>)
    ensures |Shift(t)| == |t|
    decreases |t|
  {
    if t != {} {
      var x :| x in t;
      var t' := t - {x};
      ShiftSize(t');
      forall y | y in Shift(t)
        ensures y in Shift(t') + {x + 1}
      {
        var c :| c in t && y == c + 1;
        if c != x {
          assert c in t';
        }
      }
      forall y | y in Shift(t') + {x + 1}
        ensures y in Shift(t)
      {
        if y != x + 1 {
          var c :| c in t' && y == c + 1;
          assert c in t;
        }
      }
      assert Shift(t) == Shift(t') + {x + 1};
      assert x + 1 !in Shift(t');
    }
  }

  /** The reports after the first, renumbered, are the reports at positions
      other than the first. */
  lemma TailIndexes(s: seq<Option<Exception>>)
    requires |s| > 0
    ensures Shift(SomeIndexes(s[1..])) == SomeIndexes(s) - {0}
  {
    var tail := s[1..];
    forall c | c in SomeIndexes(s) - {0}
      ensures c in Shift(SomeIndexes(tail))
    {
      assert tail[c - 1] == s[c];
      assert c - 1 in SomeIndexes(tail);
    }
    forall c | c in Shift(SomeIndexes(tail))
      ensures c in SomeIndexes(s) - {0}
    {
      var d :| d in SomeIndexes(tail) && c == d + 1;
      assert tail[d] == s[c];
    }
  }

  /** Gathering yields exactly one failure per report: none is dropped and
      none is repeated. */
  lemma {:induction false} GatherCount(s: seq<Option<Exception>>)
    ensures |Gather(s)| == |SomeIndexes(s)|
    decreases |s|
  {
    if |s| == 0 {
      assert SomeIndexes(s) == {};
    } else {
      var tail := s[1..];
      GatherCount(tail);
      ShiftSize(SomeIndexes(tail));
      TailIndexes(s);
      var rest := SomeIndexes(s) - {0};
      assert |rest| == |Gather(tail)|;
      if s[0].Some? {
        assert SomeIndexes(s) == rest + {0};
        assert Gather(s) == [s[0].value] + Gather(tail);
      } else {
        assert SomeIndexes(s) == rest;
        assert Gather(s) == Gather(tail);
      }
    }
  }

  /** What each chunk reports when it settles: its first failure, if any. */
  function Reports(f: nat -> Attempt, chunks: seq<Chunk>): (r: seq<Option<Exception>>)
    ensures |r| == |chunks|
    ensures forall c :: 0 <= c < |chunks| ==> r[c] == ChunkFailure(f, chunks[c])
  {
    seq(|chunks|, c requires 0 <= c < |chunks| => ChunkFailure(f, chunks[c]))
  }

  /** The failures the chunks report, in chunk order: each chunk that fails
      contributes its own first failure, and nothing else is gathered. */
  function ChunkFailures(f: nat -> Attempt, chunks: seq<Chunk>): (r: seq<Exception>)
    ensures |r| <= |chunks|
    ensures (forall c :: 0 <= c < |chunks| ==> ChunkFailure(f, chunks[c]).Some?) ==>
      |r| == |chunks|
    ensures forall c :: 0 <= c < |chunks| && ChunkFailure(f, chunks[c]).Some? ==>
      ChunkFailure(f, chunks[c]).value in r
    ensures forall e :: e in r ==>
      exists c :: 0 <= c < |chunks| && ChunkFailure(f, chunks[c]) == Some(e)
  {
    Gather(Reports(f, chunks))
  }

  /** The chunks that fail. */
  function FailingChunks(f: nat -> Attempt, chunks: seq<Chunk>): set<nat> {
    set c: nat | c < |chunks| && ChunkFailure(f, chunks[c]).Some?
  }

  /** Exactly one failure is gathered per failing chunk. */
  lemma FailureCountIsFailingChunks(f: nat -> Attempt, chunks: seq<Chunk>)
    ensures |ChunkFailures(f, chunks)| == |FailingChunks(f, chunks)|
  {
    var reports := Reports(f, chunks);
    GatherCount(reports);
    assert SomeIndexes(reports) == FailingChunks(f, chunks);
  }

  /** The parallel path: all chunks settle, then the work ends with the
      gathered failures if there are any. */
  function ParallelBody(f: nat -> Attempt, n: nat, chunks: seq<Chunk>): (r: Completion<nat>)
    requires ValidPartition(chunks, n)
    ensures r.Raised? <==> exists c :: 0 <= c < |chunks| && ChunkFailure(f, chunks[c]).Some?
    ensures r.Done? ==> r.value == n
    ensures r.Raised? ==> 0 < |r.errors| <= |chunks|
    ensures r.Raised? ==> |r.errors| == |FailingChunks(f, chunks)|
    ensures r.Raised? ==> forall c :: 0 <= c < |chunks| && ChunkFailure(f, chunks[c]).Some? ==>
      ChunkFailure(f, chunks[c]).value in r.errors
    ensures r.Raised? ==> forall e :: e in r.errors ==>
      exists c :: 0 <= c < |chunks| && ChunkFailure(f, chunks[c]) == Some(e)
  {
    var errors := ChunkFailures(f, chunks);
    assert |errors| > 0 ==> errors[0] in errors;
    FailureCountIsFailingChunks(f, chunks);
    if |errors| == 0 then Done(n) else Raised(errors)
  }

  /** A chunk of a partition of `[0, n)` that fails has a throwing element
      below `n`. */
  lemma FailingChunkHasThrowingElement(f: nat -> Attempt, n: nat, chunks: seq<Chunk>, c: nat)
    requires ValidPartition(chunks, n) && c < |chunks|
    requires ChunkFailure(f, chunks[c]).Some?
    ensures exists i :: 0 <= i < n && f(i).Throws?
  {
    ChunksWithin(chunks, n);
    var i :| chunks[c].start <= i < chunks[c].End() && f(i).Throws?;
    assert i < n;
  }

  /** The failure the sequential path reports was thrown by the callback at
      one of the `n` elements. */
  lemma SequentialFailureWasThrown(f: nat -> Attempt, n: nat)
    ensures SequentialBody(f, n).Raised? ==>
      forall e :: e in SequentialBody(f, n).errors ==> exists i :: 0 <= i < n && f(i) == Throws(e)
  {
    var r := SequentialBody(f, n);
    if r.Raised? {
      var i :| 0 <= i < n && f(i) == Throws(r.errors[0]) && forall j :: 0 <= j < i ==> f(j).Returns?;
      assert forall e :: e in r.errors ==> e == r.errors[0];
    }
  }

  /** A chunk's failure was thrown by the callback at one of its elements. */
  lemma ChunkFailureWasThrown(f: nat -> Attempt, chunk: Chunk, e: Exception) returns (i: nat)
    requires ChunkFailure(f, chunk) == Some(e)
    ensures chunk.start <= i < chunk.End() && f(i) == Throws(e)
  {
    i :| chunk.start <= i < chunk.End() && f(i) == Throws(e);
  }

  /** Every failure the parallel path gathers was thrown by the callback at
      one of the `n` elements. */
  lemma ParallelFailuresWereThrown(f: nat -> Attempt, n: nat, chunks: seq<Chunk>)
    requires ValidPartition(chunks, n)
    ensures ParallelBody(f, n, chunks).Raised? ==>
      forall e :: e in ParallelBody(f, n, chunks).errors ==> exists i :: 0 <= i < n && f(i) == Throws(e)
  {
    var errors := ChunkFailures(f, chunks);
    ChunksWithin(chunks, n);
    forall e | e in errors
      ensures exists i :: 0 <= i < n && f(i) == Throws(e)
    {
      var c :| 0 <= c < |chunks| && ChunkFailure(f, chunks[c]) == Some(e);
      var i := ChunkFailureWasThrown(f, chunks[c], e);
      assert chunks[c].End() <= n;
    }
    assert ParallelBody(f, n, chunks).Raised? ==> ParallelBody(f, n, chunks).errors == errors;
  }

  /** The parallel path fails exactly when the sequential one does: when the
      callback throws at some element. No failure is lost to the chunking. */
  lemma ParallelFailsIffSomeElementThrows(f: nat -> Attempt, n: nat, chunks: seq<Chunk>)
    requires ValidPartition(chunks, n)
    ensures ParallelBody(f, n, chunks).Raised? <==> exists i :: 0 <= i < n && f(i).Throws?
    ensures ParallelBody(f, n, chunks).Raised? <==> SequentialBody(f, n).Raised?
  {
    var errors := ChunkFailures(f, chunks);
    assert ParallelBody(f, n, chunks).Raised? <==> |errors| > 0;
    if |errors| > 0 {
      assert errors[0] in errors;
      var c :| 0 <= c < |chunks| && ChunkFailure(f, chunks[c]) == Some(errors[0]);
      FailingChunkHasThrowingElement(f, n, chunks, c);
    }
    if i :| 0 <= i < n && f(i).Throws? {
      var c := ChunkContaining(chunks, n, i);
      assert ChunkFailure(f, chunks[c]).Some?;
      assert ChunkFailure(f, chunks[c]).value in errors;
    }
  }

  /** A callback that throws at every element makes every chunk fail. */
  lemma AlwaysThrowingFailsEveryChunk(f: nat -> Attempt, n: nat, chunks: seq<Chunk>)
    requires ValidPartition(chunks, n)
    requires forall i :: f(i).Throws?
    ensures n > 0 ==> ParallelBody(f, n, chunks) == Raised(ChunkFailures(f, chunks))
    ensures |ChunkFailures(f, chunks)| == |chunks|
  {
    forall c | 0 <= c < |chunks|
      ensures ChunkFailure(f, chunks[c]).Some?
    {
      assert chunks[c].start < chunks[c].End();
    }
  }

  /** The algorithm under test, one invocation: the code path its policy
      selects, then the result-composition step. */
  function Call(p: ExecutionPolicy, f: nat -> Attempt, n: nat, chunks: seq<Chunk>): (r: CallOutcome<nat>)
    requires ValidPartition(chunks, n)
    ensures r.Threw? ==> r.error.ExceptionList? && |r.error.items| > 0
    ensures r.Returned? && r.result.Plain? ==> r.result.value == n
  {
    Surface(p, if IsSequentialPolicy(p) then SequentialBody(f, n) else ParallelBody(f, n, chunks))
  }

  /** Whatever the policy, the call (together with `get()` on a returned
      future) ends in an `exception_list` exactly when the callback throws at
      some element, and otherwise yields `n`. */
  lemma CallFailsIffSomeElementThrows(p: ExecutionPolicy, f: nat -> Attempt, n: nat, chunks: seq<Chunk>)
    requires ValidPartition(chunks, n)
    ensures (exists i :: 0 <= i < n && f(i).Throws?) <==> Await(Call(p, f, n, chunks)).Caught?
    ensures Await(Call(p, f, n, chunks)).Caught? ==> Await(Call(p, f, n, chunks)).error.ExceptionList?
    ensures Await(Call(p, f, n, chunks)).Value? ==> Await(Call(p, f, n, chunks)).value == n
  {
    ParallelFailsIffSomeElementThrows(f, n, chunks);
    var body := if IsSequentialPolicy(p) then SequentialBody(f, n) else ParallelBody(f, n, chunks);
    SurfacingPreservesCompletion(p, body);
  }

  /** The checks of the eager test that fail for one call: the call must
      throw, and what it throws must be an `exception_list`. */
  function EagerTestFailures(o: CallOutcome<nat>): (failed: nat)
    ensures failed == 0 <==> o.Threw? && o.error.ExceptionList?
  {
    match o
    case Returned(_) => 2
    case Threw(ExceptionList(_)) => 0
    case Threw(_) => 2
  }

  /** The checks of the asynchronous test that fail for one call, whose result
      has the type of a future: the call must return, and `get()` must then
      throw an `exception_list`. */
  function AsyncTestFailures(o: CallOutcome<nat>): (failed: nat)
    requires !(o.Returned? && o.result.Plain?)
    ensures failed == 0 <==> o.Returned? && Get(o.result.future).Caught? && Get(o.result.future).error.ExceptionList?
  {
    match o
    case Threw(ExceptionList(_)) => 1
    case Threw(_) => 3
    case Returned(Handle(fut)) =>
      match Get(fut)
      case Value(_) => 2
      case Caught(ExceptionList(_)) => 0
      case Caught(_) => 2
  }

  /** The failed checks of the test run for one iterator category: the eager
      test under `seq` and `par`, the asynchronous test under `seq(task)` and
      `par(task)`, and the eager test under each of the four wrapped in the
      erased `execution_policy`. */
  function SuiteFailures(cat: Category, f: nat -> Attempt, n: nat, chunks: seq<Chunk>): nat
    requires IsForward(cat) && ValidPartition(chunks, n)
  {
    var seqTask := Static(WithTask(SeqPolicy));
    var parTask := Static(WithTask(ParPolicy));
    assert Call(seqTask, f, n, chunks).Returned? && Call(parTask, f, n, chunks).Returned?;
    EagerTestFailures(Call(Static(SeqPolicy), f, n, chunks))
    + EagerTestFailures(Call(Static(ParPolicy), f, n, chunks))
    + AsyncTestFailures(Call(seqTask, f, n, chunks))
    + AsyncTestFailures(Call(parTask, f, n, chunks))
    + EagerTestFailures(Call(Erased(SeqPolicy), f, n, chunks))
    + EagerTestFailures(Call(Erased(ParPolicy), f, n, chunks))
    + EagerTestFailures(Call(Erased(WithTask(SeqPolicy)), f, n, chunks))
    + EagerTestFailures(Call(Erased(WithTask(ParPolicy)), f, n, chunks))
  }

  /** Under an eager policy the call itself throws exactly when the callback
      throws somewhere, and what it throws is an `exception_list`; with a
      throwing callback it never returns normally. */
  lemma EagerPolicyThrowsAtCall(p: ExecutionPolicy, f: nat -> Attempt, n: nat, chunks: seq<Chunk>)
    requires ValidPartition(chunks, n) && ShapeOf(p) == Eager
    ensures Call(p, f, n, chunks).Threw? <==> exists i :: 0 <= i < n && f(i).Throws?
    ensures Call(p, f, n, chunks).Threw? ==> Call(p, f, n, chunks).error.ExceptionList?
  {
    CallFailsIffSomeElementThrows(p, f, n, chunks);
  }

  /** Under `seq(task)` and `par(task)` the call always returns a future
      without throwing; `get()` on it throws an `exception_list` exactly when
      the callback throws somewhere, and then yields no value. */
  lemma TaskPolicyDefersFailure(b: BasePolicy, f: nat -> Attempt, n: nat, chunks: seq<Chunk>)
    requires ValidPartition(chunks, n)
    ensures Call(Static(WithTask(b)), f, n, chunks).Returned?
    ensures Call(Static(WithTask(b)), f, n, chunks).result.Handle?
    ensures Get(Call(Static(WithTask(b)), f, n, chunks).result.future).Caught?
        <==> exists i :: 0 <= i < n && f(i).Throws?
    ensures Get(Call(Static(WithTask(b)), f, n, chunks).result.future).Caught? ==>
      Get(Call(Static(WithTask(b)), f, n, chunks).result.future).error.ExceptionList?
  {
    CallFailsIffSomeElementThrows(Static(WithTask(b)), f, n, chunks);
  }

  /** The test passes, for either iterator category it is run with, exactly
      when the callback throws at some element: a callback that never throws
      is caught out by every one of the eight calls. */
  lemma SuitePassesIffCallbackThrows(cat: Category, f: nat -> Attempt, n: nat, chunks: seq<Chunk>)
    requires IsForward(cat) && ValidPartition(chunks, n)
    ensures SuiteFailures(cat, f, n, chunks) == 0 <==> exists i :: 0 <= i < n && f(i).Throws?
  {
    EagerPolicyThrowsAtCall(Static(SeqPolicy), f, n, chunks);
    EagerPolicyThrowsAtCall(Static(ParPolicy), f, n, chunks);
    TaskPolicyDefersFailure(SeqPolicy, f, n, chunks);
    TaskPolicyDefersFailure(ParPolicy, f, n, chunks);
    EagerPolicyThrowsAtCall(Erased(SeqPolicy), f, n, chunks);
    EagerPolicyThrowsAtCall(Erased(ParPolicy), f, n, chunks);
    EagerPolicyThrowsAtCall(Erased(WithTask(SeqPolicy)), f, n, chunks);
    EagerPolicyThrowsAtCall(Erased(WithTask(ParPolicy)), f, n, chunks);
  }

  /** The callback of the test, which throws `std::runtime_error("test")`
      whatever elements it is given. */
  function ThrowTest(i: nat): (a: Attempt)
    ensures a.Throws?
  {
    Throws(RuntimeError("test"))
  }

  /** The number of elements the test's sequences hold. */
  const TestSize: nat := 10007

  /** The number of callback applications: one per adjacent pair. */
  const TestCalls: nat := TestSize - 1

  /** The test as written passes, with the random-access and with the forward
      iterator category, however the parallel path chunks the elements. */
  lemma AdjacentDifferenceExceptionTestPasses(chunks: seq<Chunk>)
    requires ValidPartition(chunks, TestCalls)
    ensures SuiteFailures(RandomAccess, ThrowTest, TestCalls, chunks) == 0
    ensures SuiteFailures(Forward, ThrowTest, TestCalls, chunks) == 0
  {
  }
}
