/**
 * Per-bucket counts of pixels: what calculate_updates produces for one block, what the
 * updaters add into the shared histogram, and why the order of those additions does not matter.
 */
module Counting {
  import opened Bitmaps
  import opened Classifier
  import opened Workers

  /** One counter per bucket, like the source's HistUpdateArray. */
  type Counts = s: seq<int> | |s| == BucketCount witness seq(BucketCount, _ => 0)

  /** The histogram right after a reset: no pixel counted yet. */
  function Zeros(): (z: Counts)
    ensures Total(z) == 0
  {
    TotalZeros(BucketCount);
    seq(BucketCount, _ => 0)
  }

  /** The number of pixels of `px` that fall into bucket `k`. */
  function Count(px: seq<Pixel>, k: int): (c: nat)
    ensures c <= |px|
  {
    if px == [] then 0
    else Count(px[..|px| - 1], k) + (if Bucket(px[|px| - 1]) == k then 1 else 0)
  }

  /** The histogram of `px`: bucket k holds Count(px, k). */
  function Tally(px: seq<Pixel>): Counts
  {
    seq(BucketCount, k requires 0 <= k < BucketCount => Count(px, k))
  }

  /** The sum of all counters. */
  function Total(h: seq<int>): int
  {
    if h == [] then 0 else Total(h[..|h| - 1]) + h[|h| - 1]
  }

  /** The effect of one updater call: every counter grows by its update. */
  function Merged(h: Counts, u: Counts): (r: Counts)
  {
    seq(BucketCount, i requires 0 <= i < BucketCount => h[i] + u[i])
  }

  /** The effect of merging the updates `us` into `h`, one after another in the order given. */
  function MergeAll(h: Counts, us: seq<Counts>): Counts
  {
    if us == [] then h else Merged(MergeAll(h, us[..|us| - 1]), us[|us| - 1])
  }

  /** The sum of bucket k over all the updates `us`. */
  function SumAt(us: seq<Counts>, k: int): int
    requires 0 <= k < BucketCount
  {
    if us == [] then 0 else SumAt(us[..|us| - 1], k) + us[|us| - 1][k]
  }

  /** Counting distributes over concatenation. */
  lemma {:induction false} CountAppend(a: seq<Pixel>, b: seq<Pixel>, k: int)
    ensures Count(a + b, k) == Count(a, k) + Count(b, k)
  {
    if b == [] {
      assert a + b == a;
    } else {
      var b' := b[..|b| - 1];
      assert (a + b)[..|a + b| - 1] == a + b';
      CountAppend(a, b', k);
    }
  }

  /**
   * Count(px[lo..hi], k) is the number of indices i in [lo, hi) whose pixel falls into bucket k.
   */
  lemma {:induction false} CountIsCardinality(px: seq<Pixel>, lo: nat, hi: nat, k: int)
    requires lo <= hi <= |px|
    ensures Count(px[lo..hi], k) == |set i | lo <= i < hi && Bucket(px[i]) == k|
    decreases hi - lo
  {
    if lo < hi {
      CountIsCardinality(px, lo, hi - 1, k);
      assert px[lo..hi][..hi - lo - 1] == px[lo..hi - 1];
      CardinalityStep(px, lo, hi, k);
    }
  }

  /** Widening the index range by one adds the last index to the set exactly when its pixel is in bucket k. */
  lemma CardinalityStep(px: seq<Pixel>, lo: nat, hi: nat, k: int)
    requires lo < hi <= |px|
    ensures |set i | lo <= i < hi && Bucket(px[i]) == k|
         == |set i | lo <= i < hi - 1 && Bucket(px[i]) == k| + (if Bucket(px[hi - 1]) == k then 1 else 0)
  {
    var before := set i | lo <= i < hi - 1 && Bucket(px[i]) == k;
    var after := set i | lo <= i < hi && Bucket(px[i]) == k;
    if Bucket(px[hi - 1]) == k {
      assert after == before + {hi - 1};
    } else {
      assert after == before;
    }
  }

  /** Classifying one more pixel adds one to its bucket and changes nothing else. */
  lemma TallySnoc(px: seq<Pixel>, p: Pixel)
    ensures Tally(px + [p]) == Tally(px)[Bucket(p) := Tally(px)[Bucket(p)] + 1]
  {
    assert (px + [p])[..|px|] == px;
  }

  /** The histogram of a concatenation is the merge of the two histograms. */
  lemma TallyAppend(a: seq<Pixel>, b: seq<Pixel>)
    ensures Tally(a + b) == Merged(Tally(a), Tally(b))
  {
    forall k | 0 <= k < BucketCount
      ensures Tally(a + b)[k] == Merged(Tally(a), Tally(b))[k]
    {
      CountAppend(a, b, k);
    }
  }

  /** Adding one to a single counter adds one to the total. */
  lemma {:induction false} TotalIncrement(h: seq<int>, k: nat)
    requires k < |h|
    ensures Total(h[k := h[k] + 1]) == Total(h) + 1
  {
    var n := |h| - 1;
    if k < n {
      assert h[k := h[k] + 1][..n] == h[..n][k := h[k] + 1];
      TotalIncrement(h[..n], k);
    } else {
      assert h[k := h[k] + 1][..n] == h[..n];
    }
  }

  lemma {:induction false} TotalZeros(n: nat)
    ensures Total(seq(n, _ => 0)) == 0
  {
    if n > 0 {
      assert seq(n, _ => 0)[..n - 1] == seq(n - 1, _ => 0);
      TotalZeros(n - 1);
    }
  }

  /** Every pixel is counted exactly once: the counters of Tally(px) add up to |px|. */
  lemma {:induction false} TotalTally(px: seq<Pixel>)
    ensures Total(Tally(px)) == |px|
  {
    if px == [] {
      assert Tally(px) == Zeros();
    } else {
      var init := px[..|px| - 1];
      var p := px[|px| - 1];
      assert px == init + [p];
      TallySnoc(init, p);
      TotalTally(init);
      TotalIncrement(Tally(init), Bucket(p));
    }
  }

  /** Bucket k after merging `us` into `h` is h[k] plus the sum of the k-th updates. */
  lemma {:induction false} MergeAllAt(h: Counts, us: seq<Counts>, k: int)
    requires 0 <= k < BucketCount
    ensures MergeAll(h, us)[k] == h[k] + SumAt(us, k)
  {
    if us != [] {
      MergeAllAt(h, us[..|us| - 1], k);
    }
  }

  lemma {:induction false} SumAtAppend(a: seq<Counts>, b: seq<Counts>, k: int)
    requires 0 <= k < BucketCount
    ensures SumAt(a + b, k) == SumAt(a, k) + SumAt(b, k)
  {
    if b == [] {
      assert a + b == a;
    } else {
      var b' := b[..|b| - 1];
      assert (a + b)[..|a + b| - 1] == a + b';
      SumAtAppend(a, b', k);
    }
  }

  /** Taking element j out of a sequence takes one copy of it out of its multiset. */
  lemma MultisetRemove<T>(vs: seq<T>, j: nat)
    requires j < |vs|
    ensures multiset(vs[..j] + vs[j + 1..]) == multiset(vs) - multiset{vs[j]}
  {
    assert vs == vs[..j] + [vs[j]] + vs[j + 1..];
  }

  /** Taking update j out of `vs` takes its k-th counter out of the sum. */
  lemma SumAtRemove(vs: seq<Counts>, j: nat, k: int)
    requires j < |vs| && 0 <= k < BucketCount
    ensures SumAt(vs, k) == SumAt(vs[..j] + vs[j + 1..], k) + vs[j][k]
  {
    assert vs == vs[..j] + ([vs[j]] + vs[j + 1..]);
    SumAtAppend(vs[..j], [vs[j]] + vs[j + 1..], k);
    SumAtAppend([vs[j]], vs[j + 1..], k);
    SumAtAppend(vs[..j], vs[j + 1..], k);
    assert [vs[j]][..0] == [];
  }

  /** The per-bucket sum does not depend on the order of the updates. */
  lemma {:induction false} SumAtPermutation(us: seq<Counts>, vs: seq<Counts>, k: int)
    requires multiset(us) == multiset(vs)
    requires 0 <= k < BucketCount
    ensures SumAt(us, k) == SumAt(vs, k)
    decreases |us|
  {
    if us == [] {
      assert |vs| == |multiset(vs)| == 0;
    } else {
      var n := |us| - 1;
      var x := us[n];
      assert x in multiset(vs);
      var j :| 0 <= j < |vs| && vs[j] == x;
      MultisetRemove(us, n);
      MultisetRemove(vs, j);
      assert us[..n] + us[n + 1..] == us[..n];
      SumAtPermutation(us[..n], vs[..j] + vs[j + 1..], k);
      SumAtRemove(vs, j, k);
    }
  }

  /** Merging the same updates in any order gives the same histogram. */
  lemma MergeAllPermutation(h: Counts, us: seq<Counts>, vs: seq<Counts>)
    requires multiset(us) == multiset(vs)
    ensures MergeAll(h, us) == MergeAll(h, vs)
  {
    forall k | 0 <= k < BucketCount
      ensures MergeAll(h, us)[k] == MergeAll(h, vs)[k]
    {
      MergeAllAt(h, us, k);
      MergeAllAt(h, vs, k);
      SumAtPermutation(us, vs, k);
    }
  }

  /** The indices 0, 1, ..., w - 1 in order. */
  function Indices(w: nat): seq<nat>
  {
    seq(w, i requires 0 <= i < w => i)
  }

  /**
   * An order in which the w tasks of one run complete their merges:
   * every index below w, each exactly once.
   */
  predicate IsSchedule(order: seq<nat>, w: nat)
  {
    && (forall j :: 0 <= j < |order| ==> order[j] < w)
    && multiset(order) == multiset(Indices(w))
  }

  /** The updates `us` rearranged in the order `order`. */
  function Scheduled(us: seq<Counts>, order: seq<nat>): seq<Counts>
    requires forall j :: 0 <= j < |order| ==> order[j] < |us|
  {
    seq(|order|, j requires 0 <= j < |order| => us[order[j]])
  }

  /** Dropping position j of the order drops position j of the rearranged updates. */
  lemma ScheduledRemove(us: seq<Counts>, o: seq<nat>, j: nat)
    requires forall i :: 0 <= i < |o| ==> o[i] < |us|
    requires j < |o|
    ensures Scheduled(us, o[..j] + o[j + 1..]) == Scheduled(us, o)[..j] + Scheduled(us, o)[j + 1..]
  {
  }

  /** Adding back one copy of an element that was taken out restores a multiset. */
  lemma MultisetRestore<T>(a: multiset<T>, b: multiset<T>, y: T)
    requires y in a && y in b
    requires a - multiset{y} == b - multiset{y}
    ensures a == b
  {
    assert a == (a - multiset{y}) + multiset{y};
    assert b == (b - multiset{y}) + multiset{y};
  }

  /** Two orders that name the same indices the same number of times rearrange into the same multiset. */
  lemma {:induction false} ScheduledMultiset(us: seq<Counts>, o1: seq<nat>, o2: seq<nat>)
    requires forall j :: 0 <= j < |o1| ==> o1[j] < |us|
    requires forall j :: 0 <= j < |o2| ==> o2[j] < |us|
    requires multiset(o1) == multiset(o2)
    ensures multiset(Scheduled(us, o1)) == multiset(Scheduled(us, o2))
    decreases |o1|
  {
    if o1 == [] {
      assert |o2| == |multiset(o2)| == 0;
    } else {
      var n := |o1| - 1;
      var x := o1[n];
      assert x in multiset(o2);
      var j :| 0 <= j < |o2| && o2[j] == x;
      MultisetRemove(o1, n);
      MultisetRemove(o2, j);
      ScheduledMultiset(us, o1[..n] + o1[n + 1..], o2[..j] + o2[j + 1..]);
      var s1, s2 := Scheduled(us, o1), Scheduled(us, o2);
      ScheduledRemove(us, o1, n);
      ScheduledRemove(us, o2, j);
      MultisetRemove(s1, n);
      MultisetRemove(s2, j);
      assert s1[n] == us[x] == s2[j];
      MultisetRestore(multiset(s1), multiset(s2), us[x]);
    }
  }

  /** A schedule of all the updates is a rearrangement of them. */
  lemma ScheduledPermutes(us: seq<Counts>, order: seq<nat>)
    requires IsSchedule(order, |us|)
    ensures multiset(Scheduled(us, order)) == multiset(us)
  {
    ScheduledMultiset(us, order, Indices(|us|));
    assert Scheduled(us, Indices(|us|)) == us;
  }

  /** Extending a schedule by one more task merges that task's updates last. */
  lemma MergeScheduledSnoc(h: Counts, us: seq<Counts>, order: seq<nat>, j: nat)
    requires forall i :: 0 <= i < |order| ==> order[i] < |us|
    requires j < |order|
    ensures MergeAll(h, Scheduled(us, order[..j + 1])) == Merged(MergeAll(h, Scheduled(us, order[..j])), us[order[j]])
  {
    var s := Scheduled(us, order[..j + 1]);
    assert s[..j] == Scheduled(us, order[..j]);
  }

  /** The updates calculate_updates produces for each block of `bs`, in block order. */
  function BlockTallies(px: seq<Pixel>, bs: seq<Block>): (r: seq<Counts>)
    requires forall j :: 0 <= j < |bs| ==> bs[j].start <= bs[j].end <= |px|
    ensures |r| == |bs|
  {
    seq(|bs|, j requires 0 <= j < |bs| => Tally(px[bs[j].start..bs[j].end]))
  }

  /** The tallies of a chain of blocks from lo to hi add up, bucket by bucket, to the count of px[lo..hi]. */
  lemma {:induction false} ChainSum(px: seq<Pixel>, bs: seq<Block>, lo: nat, hi: nat, k: int)
    requires Contiguous(bs, lo, hi) && lo <= hi <= |px|
    requires 0 <= k < BucketCount
    ensures SumAt(BlockTallies(px, bs), k) == Count(px[lo..hi], k)
  {
    var n := |bs| - 1;
    var ts := BlockTallies(px, bs);
    if n == 0 {
      assert ts[..0] == [];
    } else {
      var prefix := bs[..n];
      var mid := bs[n - 1].end;
      ChainPrefix(bs, hi, n);
      assert ts[..n] == BlockTallies(px, prefix);
      ChainSum(px, prefix, lo, mid, k);
      assert px[lo..hi] == px[lo..mid] + px[mid..hi];
      CountAppend(px[lo..mid], px[mid..hi], k);
    }
  }

  /**
   * Merging the tallies of a partition of the whole buffer into a reset histogram,
   * in any order, gives the histogram of the whole buffer.
   */
  lemma PartitionMerge(px: seq<Pixel>, bs: seq<Block>, us: seq<Counts>)
    requires Contiguous(bs, 0, |px|)
    requires multiset(us) == multiset(BlockTallies(px, bs))
    ensures MergeAll(Zeros(), us) == Tally(px)
  {
    MergeAllPermutation(Zeros(), us, BlockTallies(px, bs));
    forall k | 0 <= k < BucketCount
      ensures MergeAll(Zeros(), BlockTallies(px, bs))[k] == Tally(px)[k]
    {
      MergeAllAt(Zeros(), BlockTallies(px, bs), k);
      ChainSum(px, bs, 0, |px|, k);
      assert px[0..|px|] == px;
    }
  }

  /**
   * The headline property: resetting, tallying every block of histogram_parallel and merging
   * the tallies in any schedule gives exactly the histogram of the whole buffer, whose total is
   * the number of pixels.
   */
  lemma ParallelMatchesSequential(px: seq<Pixel>, w: nat, order: seq<nat>)
    requires w >= 1
    requires IsSchedule(order, w)
    ensures MergeAll(Zeros(), Scheduled(BlockTallies(px, Blocks(|px|, w)), order)) == Tally(px)
    ensures Total(MergeAll(Zeros(), Scheduled(BlockTallies(px, Blocks(|px|, w)), order))) == |px|
  {
    var ts := BlockTallies(px, Blocks(|px|, w));
    ScheduledPermutes(ts, order);
    PartitionMerge(px, Blocks(|px|, w), Scheduled(ts, order));
    TotalTally(px);
  }
}
