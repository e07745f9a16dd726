/**
 * How src/main.cxx divides the pixel indices [0, N) among worker threads:
 * the worker count of get_num_threads and the blocks of histogram_parallel.
 */
module Workers {

  /** No thread is started for fewer than this many pixels. */
  const MinPerThread: nat := 200

  /** The number of threads asked for when the request is 0. */
  const DefaultThreads: nat := 2

  /**
   * The worker count for `n` pixels: the request (2 when the request is 0),
   * capped at ceil(n / MinPerThread).
   */
  function NumThreads(n: nat, requested: nat): (w: nat)
    ensures w <= (if requested == 0 then DefaultThreads else requested)
    ensures w == 0 || (w - 1) * MinPerThread < n
    ensures w == (if requested == 0 then DefaultThreads else requested) || w * MinPerThread >= n
    ensures n == 0 <==> w == 0
  {
    var maxThreads := (n + MinPerThread - 1) / MinPerThread;
    var wanted := if requested != 0 then requested else DefaultThreads;
    if wanted < maxThreads then wanted else maxThreads
  }

  /** The half-open index range [start, end) that one task classifies. */
  datatype Block = Block(start: nat, end: nat)

  /**
   * Consecutive blocks, each ending where the next begins, all inside [0, hi).
   */
  predicate Chained(bs: seq<Block>, hi: nat)
  {
    && |bs| >= 1
    && (forall j :: 0 <= j < |bs| ==> bs[j].start <= bs[j].end <= hi)
    && (forall j :: 0 <= j < |bs| - 1 ==> bs[j].end == bs[j + 1].start)
  }

  /** A chain of blocks that starts at `lo` and stops at `hi`. */
  predicate Contiguous(bs: seq<Block>, lo: nat, hi: nat)
  {
    Chained(bs, hi) && bs[0].start == lo && bs[|bs| - 1].end == hi
  }

  /**
   * The blocks of histogram_parallel for `n` pixels and `w` workers:
   * w - 1 blocks of n / w pixels, then a last block that takes the rest.
   */
  function Blocks(n: nat, w: nat): (bs: seq<Block>)
    requires w >= 1
    ensures |bs| == w
    ensures Contiguous(bs, 0, n)
    ensures forall j :: 0 <= j < w - 1 ==> bs[j].end - bs[j].start == n / w
    ensures bs[w - 1].end - bs[w - 1].start == n / w + n % w
  {
    var size := n / w;
    var bs := seq(w, j requires 0 <= j < w => Block(j * size, if j < w - 1 then (j + 1) * size else n));
    BlocksShape(n, w, bs);
    bs
  }

  /** The shape of the blocks that start at multiples of n / w. */
  lemma BlocksShape(n: nat, w: nat, bs: seq<Block>)
    requires w >= 1 && |bs| == w
    requires forall j :: 0 <= j < w ==>
      bs[j] == Block(j * (n / w), if j < w - 1 then (j + 1) * (n / w) else n)
    ensures Contiguous(bs, 0, n)
    ensures forall j :: 0 <= j < w - 1 ==> bs[j].end - bs[j].start == n / w
    ensures bs[w - 1].end - bs[w - 1].start == n / w + n % w
  {
    var size := n / w;
    LastBlock(n, w);
    forall j | 0 <= j < w
      ensures bs[j].start <= bs[j].end <= n
      ensures j < w - 1 ==> bs[j].end - bs[j].start == size
    {
      MulMonotone(j, w - 1, size);
      if j < w - 1 {
        MulStep(j, size);
        MulMonotone(j + 1, w - 1, size);
      }
    }
  }

  lemma MulStep(a: nat, c: nat)
    ensures (a + 1) * c == a * c + c
  {
  }

  lemma MulMonotone(a: nat, b: nat, c: nat)
    requires a <= b
    ensures a * c <= b * c
  {
  }

  /** The last block starts at (w - 1) * (n / w) and holds n / w + n % w pixels. */
  lemma LastBlock(n: nat, w: nat)
    requires w >= 1
    ensures (w - 1) * (n / w) + n / w + n % w == n
  {
    MulStep(w - 1, n / w);
  }

  /** Earlier blocks of a chain end no later than later blocks start. */
  lemma {:induction false} ChainOrdered(bs: seq<Block>, hi: nat, i: nat, j: nat)
    requires Chained(bs, hi)
    requires i < j < |bs|
    ensures bs[i].end <= bs[j].start
    decreases j - i
  {
    if j > i + 1 {
      ChainOrdered(bs, hi, i, j - 1);
    }
  }

  /** The first n blocks of a chain form a chain from its start to the end of block n - 1. */
  lemma ChainPrefix(bs: seq<Block>, hi: nat, n: nat)
    requires Chained(bs, hi)
    requires 1 <= n <= |bs|
    ensures bs[0].start <= bs[n - 1].end
    ensures Contiguous(bs[..n], bs[0].start, bs[n - 1].end)
  {
    forall j | 0 <= j < n - 1
      ensures bs[j].end <= bs[n - 1].end
    {
      ChainOrdered(bs, hi, j, n - 1);
    }
    if n > 1 {
      ChainOrdered(bs, hi, 0, n - 1);
    }
  }

  /** Two different blocks of a chain share no index. */
  lemma BlocksDisjoint(bs: seq<Block>, hi: nat, x: nat, i: nat, j: nat)
    requires Chained(bs, hi)
    requires i < |bs| && j < |bs|
    requires bs[i].start <= x < bs[i].end && bs[j].start <= x < bs[j].end
    ensures i == j
  {
    if i < j {
      ChainOrdered(bs, hi, i, j);
    } else if j < i {
      ChainOrdered(bs, hi, j, i);
    }
  }

  /** Every index of [lo, hi) lies in some block of a contiguous chain from lo to hi. */
  lemma {:induction false} BlocksCover(bs: seq<Block>, lo: nat, hi: nat, x: nat)
    requires Contiguous(bs, lo, hi)
    requires lo <= x < hi
    ensures exists j :: 0 <= j < |bs| && bs[j].start <= x < bs[j].end
  {
    var last := |bs| - 1;
    if bs[last].start <= x {
      assert bs[last].start <= x < bs[last].end;
    } else {
      var prefix := bs[..last];
      ChainPrefix(bs, hi, last);
      BlocksCover(prefix, lo, bs[last - 1].end, x);
      var j :| 0 <= j < |prefix| && prefix[j].start <= x < prefix[j].end;
      assert bs[j] == prefix[j];
    }
  }

  /**
   * The blocks of histogram_parallel partition [0, n): each index lies in exactly one block.
   */
  lemma BlocksPartition(n: nat, w: nat, x: nat)
    requires w >= 1 && x < n
    ensures exists j :: 0 <= j < w && Blocks(n, w)[j].start <= x < Blocks(n, w)[j].end
    ensures forall i, j ::
      (0 <= i < w && 0 <= j < w
       && Blocks(n, w)[i].start <= x < Blocks(n, w)[i].end
       && Blocks(n, w)[j].start <= x < Blocks(n, w)[j].end) ==> i == j
  {
    var bs := Blocks(n, w);
    BlocksCover(bs, 0, n, x);
    forall i, j | 0 <= i < w && 0 <= j < w && bs[i].start <= x < bs[i].end && bs[j].start <= x < bs[j].end
      ensures i == j
    {
      BlocksDisjoint(bs, n, x, i, j);
    }
  }
}
