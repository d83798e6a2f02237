/**
  The shared statistics table as the program keeps it: an array of entries
  allocated with a fixed capacity and a fill counter, updated in place, with
  `initialize_stats`, `find_or_add_stats`, `process_record` and the worker
  loop of `process_records` run sequentially.
 */
module StatsTable {
  import opened SensorStats
  import opened Aggregation

  class Table {
    /** The entries; only the first `resultCount` are in use. */
    var results: array<MonthlyStats>
    /** The fill counter. */
    var resultCount: nat

    ghost predicate Valid()
      reads this, results
    {
      resultCount <= results.Length && TableValid(results[..resultCount])
    }

    /** The entries in use, in insertion order. */
    ghost function Contents(): seq<MonthlyStats>
      reads this, results
      requires Valid()
    {
      results[..resultCount]
    }

    /** An empty table with room for `capacity` entries. */
    constructor (capacity: nat)
      ensures Valid() && fresh(results)
      ensures results.Length == capacity && Contents() == []
    {
      results := new MonthlyStats[capacity];
      resultCount := 0;
    }

    /** `initialize_stats`: overwrite slot `at` with the fresh entry for the key. */
    method InitializeStats(at: nat, device: string, year: int, month: int)
      requires at < results.Length
      modifies results
      ensures results[at] == Initial(Key(device, year, month))
      ensures forall j :: 0 <= j < results.Length && j != at ==> results[j] == old(results[j])
    {
      var mx: seq<Ext>, mn: seq<Ext>, sm: seq<real>, ct: seq<int> := [], [], [], [];
      for c := 0 to NumSensors
        invariant |mx| == c && |mn| == c && |sm| == c && |ct| == c
        invariant forall j :: 0 <= j < c ==> mx[j] == NegInf && mn[j] == PosInf && sm[j] == 0.0 && ct[j] == 0
      {
        mx, mn, sm, ct := mx + [NegInf], mn + [PosInf], sm + [0.0], ct + [0];
      }
      results[at] := MonthlyStats(device, year, month, mx, mn, sm, ct);
      assert results[at].max == Initial(Key(device, year, month)).max;
      assert results[at].min == Initial(Key(device, year, month)).min;
      assert results[at].sum == Initial(Key(device, year, month)).sum;
      assert results[at].count == Initial(Key(device, year, month)).count;
    }

    /**
      `find_or_add_stats`: the index of the entry for the key, appending a fresh
      entry when there is none. The source writes the new entry past the end of
      the array when it is full, so callers must leave room for an absent key.
     */
    method FindOrAdd(device: string, year: int, month: int) returns (index: nat)
      requires Valid()
      requires Has(Contents(), Key(device, year, month)) || resultCount < results.Length
      modifies this, results
      ensures Valid() && results == old(results)
      ensures (Contents(), index) == Resolve(old(Contents()), Key(device, year, month))
      ensures index < resultCount && KeyOf(results[index]) == Key(device, year, month)
      ensures old(Has(Contents(), Key(device, year, month))) ==>
        resultCount == old(resultCount) && Contents() == old(Contents())
      ensures !old(Has(Contents(), Key(device, year, month))) ==>
        resultCount == old(resultCount) + 1 && Contents() == old(Contents()) + [Initial(Key(device, year, month))]
    {
      var key := Key(device, year, month);
      var i := 0;
      while i < resultCount
        invariant 0 <= i <= resultCount
        invariant forall j :: 0 <= j < i ==> KeyOf(results[j]) != key
      {
        if results[i].device == device && results[i].year == year && results[i].month == month {
          IndexOfUnique(Contents(), key, i);
          return i;
        }
        i := i + 1;
      }
      IndexOfUnique(Contents(), key, resultCount);
      ghost var before := Contents();
      ResolveValid(before, key);
      InitializeStats(resultCount, device, year, month);
      resultCount := resultCount + 1;
      assert Contents() == before + [Initial(key)];
      index := resultCount - 1;
    }

    /** `process_record`: fold the record's readings into entry `index`, channel by channel. */
    method ProcessRecord(index: nat, record: Record)
      requires Valid() && index < resultCount
      modifies results
      ensures Valid()
      ensures Contents() == old(Contents())[index := FoldRecord(old(results[index]), record.values)]
    {
      ghost var before := Contents();
      var stats := results[index];
      ghost var e0 := stats;
      for c := 0 to NumSensors
        invariant results[index] == stats && KeyOf(stats) == KeyOf(e0)
        invariant forall j :: 0 <= j < c ==>
          stats.max[j] == RaiseMax(e0.max[j], record.values[j]) &&
          stats.min[j] == LowerMin(e0.min[j], record.values[j]) &&
          stats.sum[j] == e0.sum[j] + record.values[j] &&
          stats.count[j] == e0.count[j] + 1
        invariant forall j :: c <= j < NumSensors ==>
          stats.max[j] == e0.max[j] && stats.min[j] == e0.min[j] &&
          stats.sum[j] == e0.sum[j] && stats.count[j] == e0.count[j]
        invariant forall j :: 0 <= j < results.Length && j != index ==> results[j] == old(results[j])
      {
        var x := record.values[c];
        var mx := if Above(x, stats.max[c]) then Fin(x) else stats.max[c];
        var mn := if Below(x, stats.min[c]) then Fin(x) else stats.min[c];
        stats := stats.(
          max := stats.max[c := mx], min := stats.min[c := mn],
          sum := stats.sum[c := stats.sum[c] + x], count := stats.count[c := stats.count[c] + 1]);
        results[index] := stats;
      }
      FoldedChannels(e0, record.values, stats);
      assert before[index] == e0;
      FoldRecordWellFormed(e0, record.values);
      ReplaceValid(before, index, stats);
      assert results[..resultCount] == before[index := stats];
    }

    /**
      `process_records` run sequentially over `[start, end)`: the table ends as
      the walk of those records from the old table. The
      capacity must hold every entry the run creates.
     */
    method ProcessRecords(records: seq<Record>, start: nat, end: nat)
      requires Valid() && start <= end <= |records|
      requires |Worker(Contents(), records, start, end)| <= results.Length
      modifies this, results
      ensures Valid() && results == old(results)
      ensures Contents() == Worker(old(Contents()), records, start, end)
    {
      ghost var c0 := Contents();
      var i := start;
      while i < end
        invariant start <= i <= end
        invariant Valid() && results == old(results)
        invariant Contents() == Worker(c0, records, start, i)
      {
        var record := records[i];
        WorkerRoom(c0, records, start, i, end, results.Length);
        var index := FindOrAdd(record.device, record.year, record.month);
        ghost var found := Contents();
        WorkerNext(c0, records, start, i, found, index);
        assert found[index] == results[index];
        ProcessRecord(index, record);
        assert Contents() == found[index := FoldRecord(found[index], record.values)];
        i := i + 1;
      }
    }
  }
}
