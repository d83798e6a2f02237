/**
  The split of N records into T contiguous blocks, one per worker: every block
  has N / T records and the first N % T blocks one more.
 */
module Partitioner {

  /** The number of workers: the processor count, capped at the number of records. */
  function WorkerCount(cpuCount: int, n: nat): (t: int)
    ensures t <= n && t <= cpuCount
    ensures t == n || t == cpuCount
    ensures n >= 1 && cpuCount >= 1 ==> t >= 1
  {
    if cpuCount > n then n else cpuCount
  }

  /** The size of block `i`. */
  function BlockSize(n: nat, t: nat, i: nat): (size: nat)
    requires t >= 1
    ensures n / t <= size <= n / t + 1
    ensures size == n / t + 1 <==> i < n % t
  {
    n / t + (if i < n % t then 1 else 0)
  }

  /** Where block `i` starts: after `i` blocks of N / T or N / T + 1 records each. */
  function BlockStart(n: nat, t: nat, i: nat): (s: nat)
    requires t >= 1
    ensures i * (n / t) <= s <= i * (n / t) + i
  {
    if i == 0 then 0
    else
      assert i * (n / t) == (i - 1) * (n / t) + n / t;
      BlockStart(n, t, i - 1) + BlockSize(n, t, i - 1)
  }

  /** Block `i` starts after `i` base-size blocks and one extra record for each earlier block below N % T. */
  lemma {:induction false} BlockStartClosedForm(n: nat, t: nat, i: nat)
    requires t >= 1
    ensures BlockStart(n, t, i) == i * (n / t) + (if i < n % t then i else n % t)
  {
    if i > 0 {
      BlockStartClosedForm(n, t, i - 1);
      assert i * (n / t) == (i - 1) * (n / t) + n / t;
    }
  }

  /** The last block ends at N. */
  lemma LastBlockEnd(n: nat, t: nat)
    requires t >= 1
    ensures BlockStart(n, t, t) == n
  {
    BlockStartClosedForm(n, t, t);
    assert n % t < t;
  }

  /** Blocks come in order. */
  lemma {:induction false} BlockMonotone(n: nat, t: nat, i: nat, j: nat)
    requires t >= 1 && i <= j
    ensures BlockStart(n, t, i) <= BlockStart(n, t, j)
    decreases j - i
  {
    if i < j {
      BlockMonotone(n, t, i, j - 1);
    }
  }

  /** Every block lies within `[0, N]`. */
  lemma BlockBounds(n: nat, t: nat, i: nat, j: nat)
    requires t >= 1 && i <= j <= t
    ensures BlockStart(n, t, i) <= BlockStart(n, t, j) <= n
  {
    BlockMonotone(n, t, i, j);
    BlockMonotone(n, t, j, t);
    LastBlockEnd(n, t);
  }

  /** Every block is non-empty when there are no more workers than records. */
  lemma BlocksNonEmpty(n: nat, t: nat, i: nat)
    requires 1 <= t <= n
    ensures BlockSize(n, t, i) >= 1
  {
  }

  /** A worker's index range `[start, end)`. */
  datatype Range = Range(start: nat, end: nat)

  /** Ranges laid end to end from 0, each within `[0, n]`. */
  predicate Chain(blocks: seq<Range>, n: nat) {
    && (|blocks| >= 1 ==> blocks[0].start == 0)
    && (forall i :: 0 <= i < |blocks| ==> blocks[i].start <= blocks[i].end <= n)
    && (forall i :: 0 <= i < |blocks| - 1 ==> blocks[i].end == blocks[i + 1].start)
  }

  /** Where a chain of ranges ends (0 when there are none). */
  function End(blocks: seq<Range>): nat {
    if blocks == [] then 0 else blocks[|blocks| - 1].end
  }

  /** A chain that ends at `n` covers `[0, n)` exactly once. */
  predicate Tiles(blocks: seq<Range>, n: nat) {
    Chain(blocks, n) && End(blocks) == n
  }

  /** The ranges `[BlockStart(i), BlockStart(i + 1))` of the T workers tile `[0, N)`. */
  lemma BlockRangesTile(n: nat, t: nat, blocks: seq<Range>)
    requires t >= 1 && |blocks| == t
    requires forall i :: 0 <= i < t ==> blocks[i] == Range(BlockStart(n, t, i), BlockStart(n, t, i + 1))
    ensures Tiles(blocks, n)
  {
    forall i | 0 <= i < t ensures blocks[i].start <= blocks[i].end <= n {
      BlockBounds(n, t, i, i + 1);
      BlockBounds(n, t, i + 1, t);
    }
    forall i | 0 <= i < t - 1 ensures blocks[i].end == blocks[i + 1].start {
      assert blocks[i + 1] == Range(BlockStart(n, t, i + 1), BlockStart(n, t, i + 2));
    }
    assert blocks[0] == Range(BlockStart(n, t, 0), BlockStart(n, t, 1));
    LastBlockEnd(n, t);
  }

  /** Every prefix of a chain is a chain. */
  lemma ChainPrefix(blocks: seq<Range>, n: nat, j: nat)
    requires Chain(blocks, n) && j <= |blocks|
    ensures Chain(blocks[..j], n)
  {
    var p := blocks[..j];
    assert forall i :: 0 <= i < |p| ==> p[i] == blocks[i];
  }

  /** The elements of `xs` in the ranges of `blocks`, range after range. */
  function Joined<T>(xs: seq<T>, blocks: seq<Range>): seq<T>
    requires Chain(blocks, |xs|)
    decreases |blocks|
  {
    if blocks == [] then []
    else
      var last := blocks[|blocks| - 1];
      ChainPrefix(blocks, |xs|, |blocks| - 1);
      Joined(xs, blocks[..|blocks| - 1]) + xs[last.start..last.end]
  }

  /** A chain of ranges picks out, in order, exactly the elements before the point where it ends. */
  lemma {:induction false} JoinedPrefix<T>(xs: seq<T>, blocks: seq<Range>)
    requires Chain(blocks, |xs|)
    ensures End(blocks) <= |xs| && Joined(xs, blocks) == xs[..End(blocks)]
    decreases |blocks|
  {
    if blocks != [] {
      var init, last := blocks[..|blocks| - 1], blocks[|blocks| - 1];
      ChainPrefix(blocks, |xs|, |blocks| - 1);
      JoinedPrefix(xs, init);
      if init != [] {
        assert init[|init| - 1] == blocks[|blocks| - 2];
      }
      assert xs[..last.start] + xs[last.start..last.end] == xs[..last.end];
    }
  }

  /** Ranges that tile `[0, N)` hand every record to exactly one worker, in order. */
  lemma JoinedAll<T>(xs: seq<T>, blocks: seq<Range>)
    requires Tiles(blocks, |xs|)
    ensures Joined(xs, blocks) == xs
  {
    JoinedPrefix(xs, blocks);
    assert xs[..|xs|] == xs;
  }

  /**
    The partition loop: the ranges handed to the T workers are contiguous,
    start at 0, end at N, have the sizes above and are non-empty when T <= N.
   */
  method Partition(n: nat, t: nat) returns (blocks: seq<Range>)
    requires t >= 1
    ensures |blocks| == t
    ensures blocks[0].start == 0 && blocks[t - 1].end == n
    ensures forall i :: 0 <= i < t - 1 ==> blocks[i].end == blocks[i + 1].start
    ensures forall i :: 0 <= i < t ==>
      blocks[i].start <= blocks[i].end && blocks[i].end - blocks[i].start == BlockSize(n, t, i)
    ensures forall i :: 0 <= i < t ==> blocks[i] == Range(BlockStart(n, t, i), BlockStart(n, t, i + 1))
    ensures t <= n ==> forall i :: 0 <= i < t ==> blocks[i].start < blocks[i].end
    ensures Tiles(blocks, n)
  {
    var recordsPerThread := n / t;
    var remainingRecords := n % t;
    var start := 0;
    blocks := [];
    for i := 0 to t
      invariant |blocks| == i && start == BlockStart(n, t, i)
      invariant forall j :: 0 <= j < i ==> blocks[j] == Range(BlockStart(n, t, j), BlockStart(n, t, j + 1))
    {
      var end := start + recordsPerThread + (if i < remainingRecords then 1 else 0);
      assert end == BlockStart(n, t, i + 1);
      blocks := blocks + [Range(start, end)];
      start := end;
    }
    LastBlockEnd(n, t);
    assert blocks[t - 1] == Range(BlockStart(n, t, t - 1), BlockStart(n, t, t));
    assert blocks[0] == Range(BlockStart(n, t, 0), BlockStart(n, t, 1));
    forall i | 0 <= i < t - 1 ensures blocks[i].end == blocks[i + 1].start {
      assert blocks[i + 1] == Range(BlockStart(n, t, i + 1), BlockStart(n, t, i + 2));
    }
    forall i | 0 <= i < t
      ensures blocks[i].end == blocks[i].start + BlockSize(n, t, i)
      ensures t <= n ==> blocks[i].start < blocks[i].end
    {
      assert BlockStart(n, t, i + 1) == BlockStart(n, t, i) + BlockSize(n, t, i);
      if t <= n {
        BlocksNonEmpty(n, t, i);
      }
    }
    BlockRangesTile(n, t, blocks);
  }
}
