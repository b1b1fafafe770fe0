/** Replaying commits in batches of `chunk_size` (core.py:642-653 and
    core.py:776-784): `items[i : i + size]` for `i` in
    `range(0, len(items), size)`. */
module Chunks {
  import opened Seqs

  /** The batches, oldest first: every batch but the last is full. */
  function Chunks<T>(xs: seq<T>, size: nat): (r: seq<seq<T>>)
    requires size > 0
    ensures forall k :: 0 <= k < |r| ==> 0 < |r[k]| <= size
    ensures forall k :: 0 <= k < |r| - 1 ==> |r[k]| == size
    decreases |xs|
  {
    if |xs| == 0 then []
    else if |xs| <= size then [xs]
    else [xs[..size]] + Chunks(xs[size..], size)
  }

  /** The batches put back together are the original list. */
  lemma {:induction false} ChunksFlatten<T>(xs: seq<T>, size: nat)
    requires size > 0
    ensures Flatten(Chunks(xs, size)) == xs
    decreases |xs|
  {
    if |xs| > size {
      ChunksFlatten(xs[size..], size);
      assert Chunks(xs, size)[1..] == Chunks(xs[size..], size);
      assert xs == xs[..size] + xs[size..];
    }
  }

  /** There are `ceil(len / size)` batches: just enough to hold every item,
      and one fewer would not be. */
  lemma {:induction false} ChunksCount<T>(xs: seq<T>, size: nat)
    requires size > 0
    ensures |xs| <= |Chunks(xs, size)| * size
    ensures |xs| > 0 ==> (|Chunks(xs, size)| - 1) * size < |xs|
    decreases |xs|
  {
    if |xs| > size {
      ChunksCount(xs[size..], size);
      var n := |Chunks(xs[size..], size)|;
      assert |Chunks(xs, size)| == n + 1;
      assert (n + 1) * size == n * size + size;
    }
  }

  /** Batch `k` is Python's slice `xs[k*size : k*size + size]`. */
  lemma {:induction false} ChunkAt<T>(xs: seq<T>, size: nat, k: nat)
    requires size > 0 && k < |Chunks(xs, size)|
    ensures k * size < |xs|
    ensures Chunks(xs, size)[k] == xs[k * size..if k * size + size <= |xs| then k * size + size else |xs|]
    decreases k
  {
    if k > 0 {
      var rest := xs[size..];
      var lo := (k - 1) * size;
      assert k * size == lo + size by {
        MulStep(k, size);
      }
      var hi := if lo + size <= |rest| then lo + size else |rest|;
      assert Chunks(xs, size)[k] == Chunks(rest, size)[k - 1];
      assert lo < |rest| && Chunks(rest, size)[k - 1] == rest[lo..hi] by {
        ChunkAt(rest, size, k - 1);
      }
      SliceShift(xs, size, lo, hi);
    }
  }

  /** Slicing after dropping `d` items is slicing the original `d` further on. */
  lemma SliceShift<T>(xs: seq<T>, d: nat, lo: nat, hi: nat)
    requires d <= |xs| && lo <= hi <= |xs| - d
    ensures xs[d..][lo..hi] == xs[lo + d..hi + d]
  {
  }

  /** One more batch is `size` more items. */
  lemma MulStep(k: nat, size: nat)
    requires k > 0
    ensures k * size == (k - 1) * size + size
  {
  }

  /** The batches `rebase_skip_merged` replays: one batch per `chunk_size`
      commits when a positive size is given, else all commits at once. */
  function ReplayBatches<T>(xs: seq<T>, chunkSize: int): (r: seq<seq<T>>)
    ensures chunkSize <= 0 ==> |r| == 1
  {
    if chunkSize > 0 then Chunks(xs, chunkSize) else [xs]
  }

  /** Whatever the size, the replayed batches cover the commits in order. */
  lemma ReplayBatchesCover<T>(xs: seq<T>, chunkSize: int)
    ensures Flatten(ReplayBatches(xs, chunkSize)) == xs
  {
    if chunkSize > 0 {
      ChunksFlatten(xs, chunkSize);
    }
  }

  /** The batches `chunked_replay` cherry-picks, or nothing when the base is
      missing, there are no commits or the size is not positive. */
  function ChunkedReplayBatches(base: string, commits: seq<string>, chunkSize: int): (r: seq<seq<string>>)
    ensures r != [] <==> base != "" && commits != [] && chunkSize > 0
  {
    if base == "" || commits == [] || chunkSize <= 0 then []
    else Chunks(commits, chunkSize)
  }
}
