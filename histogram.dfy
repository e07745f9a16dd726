/**
 * The shared histogram of src/main.cxx and the four ways of filling it. The program runs its
 * blocks on concurrent threads; here the blocks' merges happen one after another, in an order
 * the caller chooses, and the synchronisation around each addition is left out.
 */
module Histogram {
  import opened Bitmaps
  import opened Classifier
  import opened Workers
  import opened Counting

  /** The strategies compared by the benchmark. */
  datatype Algorithm = Sequential | TransactionalMemory | Atomic | Mutex

  /**
   * The tally of the pixels with index in [start, end), counted into a private array.
   */
  method CalculateUpdates(b: Bitmap, start: nat, end: nat) returns (updates: Counts)
    requires b.Valid()
    requires start < end ==> end <= b.size
    ensures forall k :: 0 <= k < BucketCount ==>
      updates[k] == |set i | start <= i < end && Bucket(b.pixels[i]) == k|
    ensures start < end ==> updates == Tally(b.pixels[start..end])
    ensures end <= start ==> updates == Zeros()
    ensures Total(updates) == if start < end then end - start else 0
  {
    var px := b.Pixels();
    var counts := new int[BucketCount](_ => 0);
    assert counts[..] == Zeros();
    var i := start;
    while i < end
      invariant start < end ==> start <= i <= end && counts[..] == Tally(px[start..i])
      invariant end <= start ==> i == start && counts[..] == Zeros()
    {
      if i == start {
        assert Tally(px[start..i]) == Zeros();
      }
      var bucket := Bucket(px[i]);
      ghost var before := px[start..i];
      assert px[start..i + 1] == before + [px[i]];
      TallySnoc(before, px[i]);
      counts[bucket] := counts[bucket] + 1;
      i := i + 1;
    }
    updates := counts[..];
    if start < end {
      TotalTally(px[start..end]);
    } else {
      TotalTally([]);
      assert Tally([]) == Zeros();
    }
    forall k | 0 <= k < BucketCount
      ensures updates[k] == |set i | start <= i < end && Bucket(px[i]) == k|
    {
      if start < end {
        CountIsCardinality(px[..], start, end, k);
        assert px[..][start..end] == px[start..end];
        assert updates[k] == Count(px[start..end], k);
        assert (set i | start <= i < end && Bucket(px[..][i]) == k)
            == (set i | start <= i < end && Bucket(px[i]) == k);
      }
    }
  }

  /**
   * The block loop of histogram_parallel: w - 1 blocks of n / w pixels, advancing the block
   * start each time, then the last block up to n.
   */
  method PartitionBlocks(n: nat, numThreads: nat) returns (blocks: seq<Block>)
    requires numThreads >= 1
    ensures blocks == Blocks(n, numThreads)
  {
    var blockSize := n / numThreads;
    ghost var spec := Blocks(n, numThreads);
    blocks := [];
    var blockStart := 0;
    for i := 0 to numThreads - 1
      invariant blockStart == i * blockSize
      invariant blocks == spec[..i]
    {
      var blockEnd := blockStart + blockSize;
      MulStep(i, blockSize);
      blocks := blocks + [Block(blockStart, blockEnd)];
      blockStart := blockEnd;
    }
    blocks := blocks + [Block(blockStart, n)];
  }

  /** The process-wide array of 256 counters. */
  class HistogramStore {
    const buckets: array<int>

    predicate Valid()
    {
      buckets.Length == BucketCount
    }

    /** A store with every counter at zero, as a static array starts. */
    constructor ()
      ensures Valid() && fresh(buckets)
      ensures buckets[..] == Zeros()
    {
      buckets := new int[BucketCount](_ => 0);
    }

    /** The counters as a value. */
    function Snapshot(): (h: Counts)
      requires Valid()
      reads buckets
    {
      buckets[..]
    }

    /** Sets every counter to zero (the loop at the start of run_experiment). */
    method Reset()
      requires Valid()
      modifies buckets
      ensures Snapshot() == Zeros()
    {
      for i := 0 to BucketCount
        invariant forall k :: 0 <= k < i ==> buckets[k] == 0
      {
        buckets[i] := 0;
      }
    }

    /** histogram_sequential: classifies every pixel and adds one to its bucket. */
    method Sequential(b: Bitmap)
      requires Valid() && b.Valid()
      modifies buckets
      ensures Snapshot() == Merged(old(Snapshot()), Tally(b.pixels[..]))
    {
      var n := b.Size();
      var px := b.Pixels();
      for i := 0 to n
        invariant buckets[..] == Merged(old(Snapshot()), Tally(px[..i]))
      {
        var bucket := Bucket(px[i]);
        assert px[..i + 1] == px[..i] + [px[i]];
        TallySnoc(px[..i], px[i]);
        buckets[bucket] := buckets[bucket] + 1;
      }
      assert px[..n] == px[..];
    }

    /**
     * histogram_mutex, histogram_atomic and histogram_transactional: add each non-zero update to
     * its counter. They differ only in how that one addition is made exclusive, which a
     * sequential model does not see.
     */
    method Merge(alg: Algorithm, updates: Counts)
      requires Valid() && !alg.Sequential?
      modifies buckets
      ensures Snapshot() == Merged(old(Snapshot()), updates)
      ensures forall k :: 0 <= k < BucketCount && updates[k] == 0 ==> buckets[k] == old(buckets[k])
    {
      for i := 0 to BucketCount
        invariant forall k :: 0 <= k < i ==> buckets[k] == old(buckets[k]) + updates[k]
        invariant forall k :: i <= k < BucketCount ==> buckets[k] == old(buckets[k])
      {
        if updates[i] != 0 {
          match alg
          case Mutex =>                // under the lock of bucket i
            buckets[i] := buckets[i] + updates[i];
          case Atomic =>               // one fetch-and-add
            buckets[i] := buckets[i] + updates[i];
          case TransactionalMemory =>  // inside one memory transaction
            buckets[i] := buckets[i] + updates[i];
        }
      }
    }

    /**
     * histogram_parallel: computes the blocks step by step as the source does, then lets the
     * task of block order[j] tally and merge its block as the j-th one.
     */
    method Parallel(b: Bitmap, nthreads: nat, alg: Algorithm, order: seq<nat>)
      requires Valid() && b.Valid() && !alg.Sequential?
      requires b.size >= 1
      requires IsSchedule(order, NumThreads(b.size, nthreads))
      modifies buckets
      ensures Snapshot() == MergeAll(old(Snapshot()),
        Scheduled(BlockTallies(b.pixels[..], Blocks(b.size, NumThreads(b.size, nthreads))), order))
    {
      var n := b.Size();
      var numThreads := NumThreads(n, nthreads);
      var blocks := PartitionBlocks(n, numThreads);

      ghost var tallies := BlockTallies(b.pixels[..], blocks);
      assert |order| == numThreads by {
        assert |order| == |multiset(order)| == |multiset(Indices(numThreads))| == numThreads;
      }
      for j := 0 to |order|
        invariant buckets[..] == MergeAll(old(Snapshot()), Scheduled(tallies, order[..j]))
      {
        var block := blocks[order[j]];
        var updates := CalculateUpdates(b, block.start, block.end);
        assert updates == tallies[order[j]] by {
          assert b.pixels[..][block.start..block.end] == b.pixels[block.start..block.end];
        }
        MergeScheduledSnoc(old(Snapshot()), tallies, order, j);
        Merge(alg, updates);
      }
      assert order[..|order|] == order;
    }

    /**
     * run_experiment without its timer: resets the store, then fills it with the chosen
     * algorithm. Every algorithm leaves the histogram of the whole bitmap.
     */
    method RunExperiment(b: Bitmap, nthreads: nat, alg: Algorithm, order: seq<nat>)
      requires Valid() && b.Valid()
      requires !alg.Sequential? ==> b.size >= 1 && IsSchedule(order, NumThreads(b.size, nthreads))
      modifies buckets
      ensures Snapshot() == Tally(b.pixels[..])
      ensures Total(Snapshot()) == b.size
    {
      Reset();
      match alg {
        case Sequential =>
          Sequential(b);
          forall k | 0 <= k < BucketCount
            ensures buckets[k] == Tally(b.pixels[..])[k]
          {
          }
        case _ =>
          Parallel(b, nthreads, alg, order);
          ParallelMatchesSequential(b.pixels[..], NumThreads(b.size, nthreads), order);
      }
      TotalTally(b.pixels[..]);
    }
  }
}
