/**
 How a parallel loop over `count` elements is split and interleaved: a
 partition of the offsets `[0, count)` into contiguous, non-empty chunks, and
 a schedule, the order in which the element visits of all chunks happen. Each
 chunk visits its own elements in increasing order; visits of different
 chunks may interleave arbitrarily.
 */
module Partitions {

  /** The offsets `[start, start + size)`. */
  datatype Chunk = Chunk(start: nat, size: nat) {
    function End(): nat {
      start + size
    }

    predicate Contains(i: nat) {
      start <= i < End()
    }
  }

  /** The chunks are non-empty, adjacent, start at 0 and end at `n`. */
  predicate ValidPartition(chunks: seq<Chunk>, n: nat) {
    && (forall c :: 0 <= c < |chunks| ==> chunks[c].size > 0)
    && (forall c :: 0 < c < |chunks| ==> chunks[c].start == chunks[c - 1].End())
    && (if |chunks| == 0 then n == 0 else chunks[0].start == 0 && chunks[|chunks| - 1].End() == n)
  }

  /** The partition that cuts `[start, n)` into chunks of `size` elements,
      the last one possibly shorter. */
  function ChunksFrom(start: nat, n: nat, size: nat): (r: seq<Chunk>)
    requires start <= n && size > 0
    ensures forall c :: 0 <= c < |r| ==> 0 < r[c].size <= size
    ensures forall c :: 0 < c < |r| ==> r[c].start == r[c - 1].End()
    ensures forall c :: 0 <= c < |r| - 1 ==> r[c].size == size
    ensures |r| == 0 <==> start == n
    ensures |r| > 0 ==> r[0].start == start && r[|r| - 1].End() == n
    decreases n - start
  {
    if start == n then []
    else
      var width := if n - start < size then n - start else size;
      [Chunk(start, width)] + ChunksFrom(start + width, n, size)
  }

  /** Chunking by a fixed chunk size yields a partition of `[0, n)`. */
  function EvenChunks(n: nat, size: nat): (r: seq<Chunk>)
    requires size > 0
    ensures ValidPartition(r, n)
    ensures forall c :: 0 <= c < |r| ==> r[c].size <= size
  {
    ChunksFrom(0, n, size)
  }

  /** Every offset below `n` lies in some chunk of a partition of `[0, n)`. */
  lemma {:induction false} ChunkContaining(chunks: seq<Chunk>, n: nat, i: nat) returns (c: nat)
    requires ValidPartition(chunks, n) && i < n
    ensures c < |chunks| && chunks[c].Contains(i)
    decreases |chunks|
  {
    var last := |chunks| - 1;
    if chunks[last].start <= i {
      c := last;
    } else {
      var prefix := chunks[..last];
      assert last > 0;
      assert ValidPartition(prefix, chunks[last].start) by {
        assert prefix[last - 1].End() == chunks[last].start;
      }
      c := ChunkContaining(prefix, chunks[last].start, i);
    }
  }

  /** Every chunk of a partition of `[0, n)` lies inside `[0, n)`. */
  lemma {:induction false} ChunksWithin(chunks: seq<Chunk>, n: nat)
    requires ValidPartition(chunks, n)
    ensures forall c :: 0 <= c < |chunks| ==> chunks[c].End() <= n
    decreases |chunks|
  {
    if |chunks| > 1 {
      var last := |chunks| - 1;
      var prefix := chunks[..last];
      assert ValidPartition(prefix, chunks[last].start) by {
        assert prefix[last - 1].End() == chunks[last].start;
      }
      ChunksWithin(prefix, chunks[last].start);
      forall c | 0 <= c < |chunks|
        ensures chunks[c].End() <= n
      {
        if c < last {
          assert chunks[c] == prefix[c];
        }
      }
    }
  }

  /** No two positions of `s` hold the same offset. */
  predicate Distinct(s: seq<nat>) {
    forall a, b :: 0 <= a < b < |s| ==> s[a] != s[b]
  }

  /** `order` visits every offset of `[0, n)` exactly once. */
  predicate IsSchedule(order: seq<nat>, n: nat) {
    && |order| == n
    && (forall j :: 0 <= j < |order| ==> order[j] < n)
    && (forall i :: 0 <= i < n ==> i in order)
    && Distinct(order)
  }

  /** Within each chunk, `order` visits the elements in increasing order. */
  predicate RespectsChunks(order: seq<nat>, chunks: seq<Chunk>) {
    forall a, b, c ::
      (0 <= a < b < |order| && 0 <= c < |chunks| &&
       chunks[c].Contains(order[a]) && chunks[c].Contains(order[b])) ==> order[a] < order[b]
  }

  /** The in-order visit of `[0, n)`: the schedule of the sequential loop. */
  function InOrder(n: nat): (r: seq<nat>)
    ensures |r| == n && forall j :: 0 <= j < n ==> r[j] == j
  {
    seq(n, j => j)
  }

  /** Running the whole range in order is one admissible interleaving of any
      partition. */
  lemma InOrderIsAdmissible(n: nat, chunks: seq<Chunk>)
    ensures IsSchedule(InOrder(n), n)
    ensures RespectsChunks(InOrder(n), chunks)
  {
    var r := InOrder(n);
    forall i | 0 <= i < n
      ensures i in r
    {
      assert r[i] == i;
    }
  }
}
