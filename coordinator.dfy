/**
  The coordinator of `main`, run sequentially: choose the worker count,
  partition the records, run each worker's range in worker order against one
  shared table of capacity N, and hand the finished table on.
 */
module Coordinator {
  import opened SensorStats
  import opened Aggregation
  import opened Partitioner
  import opened StatsTable

  /**
    The table after the workers of `blocks` have each walked their range with
    `step`, one after another: the same as one walk over the records up to
    where the chain of ranges ends.
   */
  function RunBlocks(step: StepFn, s: seq<MonthlyStats>, recs: seq<Record>, blocks: seq<Range>): (t: seq<MonthlyStats>)
    requires Chain(blocks, |recs|)
    ensures End(blocks) <= |recs| && t == Walk(step, s, recs, 0, End(blocks))
    decreases |blocks|
  {
    if blocks == [] then s
    else
      var init, last := blocks[..|blocks| - 1], blocks[|blocks| - 1];
      ChainPrefix(blocks, |recs|, |blocks| - 1);
      assert init != [] ==> init[|init| - 1] == blocks[|blocks| - 2];
      WalkSplit(step, s, recs, 0, last.start, last.end);
      Walk(step, RunBlocks(step, s, recs, init), recs, last.start, last.end)
  }

  /**
    Worker `i` continues from where the earlier workers left the table, and the
    table it leaves has at most one entry per record covered so far.
   */
  lemma NextBlock(recs: seq<Record>, blocks: seq<Range>, i: nat)
    requires Chain(blocks, |recs|) && i < |blocks|
    ensures Chain(blocks[..i], |recs|) && Chain(blocks[..i + 1], |recs|)
    ensures RunBlocks(Step, [], recs, blocks[..i + 1]) ==
      Worker(RunBlocks(Step, [], recs, blocks[..i]), recs, blocks[i].start, blocks[i].end)
    ensures |RunBlocks(Step, [], recs, blocks[..i + 1])| <= |recs|
  {
    ChainPrefix(blocks, |recs|, i);
    ChainPrefix(blocks, |recs|, i + 1);
    var done := blocks[..i + 1];
    assert done[..i] == blocks[..i] && done[i] == blocks[i];
    assert RunBlocks(Step, [], recs, done) == Worker([], recs, 0, End(done));
  }

  /** Running ranges that tile `[0, N)` in worker order gives the same table as one loop over all records. */
  lemma BlocksEqualOnePass(s: seq<MonthlyStats>, recs: seq<Record>, blocks: seq<Range>)
    requires Tiles(blocks, |recs|)
    ensures RunBlocks(Step, s, recs, blocks) == Aggregate(s, recs)
  {
    WorkerIsAggregate(s, recs, 0, |recs|);
    assert recs[0..|recs|] == recs;
  }

  /** The finished table does not depend on how the records were split across workers. */
  lemma SplitIrrelevant(recs: seq<Record>, b1: seq<Range>, b2: seq<Range>)
    requires Tiles(b1, |recs|) && Tiles(b2, |recs|)
    ensures RunBlocks(Step, [], recs, b1) == RunBlocks(Step, [], recs, b2)
  {
    BlocksEqualOnePass([], recs, b1);
    BlocksEqualOnePass([], recs, b2);
  }

  /**
    The aggregation half of `main`: with no records the table stays empty;
    otherwise the workers run their ranges in order and the table ends as one
    sequential pass over all records, within its capacity of N entries.
   */
  method Run(records: seq<Record>, cpuCount: int) returns (table: Table)
    requires |records| > 0 ==> cpuCount >= 1
    ensures fresh(table) && fresh(table.results) && table.Valid()
    ensures table.results.Length == |records|
    ensures table.Contents() == Aggregate([], records)
  {
    var n := |records|;
    table := new Table(n);
    if n == 0 {
      return;
    }
    var t := WorkerCount(cpuCount, n);
    var blocks := Partition(n, t);
    for i := 0 to t
      invariant table.Valid() && fresh(table) && fresh(table.results) && table.results.Length == n
      invariant Chain(blocks[..i], n)
      invariant table.Contents() == RunBlocks(Step, [], records, blocks[..i])
    {
      NextBlock(records, blocks, i);
      table.ProcessRecords(records, blocks[i].start, blocks[i].end);
    }
    assert blocks[..t] == blocks;
    BlocksEqualOnePass([], records, blocks);
  }
}
