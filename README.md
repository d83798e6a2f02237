# Monthly sensor statistics: a verified model of the aggregation core

The program reads sensor records (a device name, a date and six readings:
temperature, humidity, luminosity, noise, eCO2, eTVOC). It keeps only
records dated March 2024 or later. It splits them into one contiguous block
per worker thread. Each worker folds its records into a shared table holding
one entry per (device, year, month). Every entry keeps a running max, min,
sum and count for each of the six channels. The report then prints max,
average and min for every channel with at least one reading.

This project models that aggregation core in Dafny and proves what it
computes. The model has six modules:

- `SensorStats` (`sensor_stats.dfy`) defines the table entry and its start
  state from `initialize_stats`. It defines the fold of one record's
  readings into an entry (`process_record`) and the per-channel invariant
  that folding keeps. It also defines the average the report prints.
- `Aggregation` (`aggregation.dfy`) treats the table as a value: a sequence
  of entries in insertion order. It defines the linear lookup-or-append of
  `find_or_add_stats`, one worker step (lookup, then fold) and the
  sequential aggregation of a run of records. Its lemmas cover unique keys,
  counts, sums and bounds.
- `StatsTable` (`stats_table.dfy`) is the table as the program keeps it. It
  is a class with an array of entries and a fill counter, updated in place
  by `initialize_stats`, `find_or_add_stats`, `process_record` and
  `process_records`. Each method is proved against the value model.
- `Partitioner` (`partition.dfy`) covers the worker count and the split of
  N records into T blocks. Each block has N / T records, and the first
  N % T blocks have one more.
- `Coordinator` (`coordinator.dfy`) is the aggregation half of `main`. It
  runs the workers block by block, in worker order, over one table of
  capacity N. It proves that this gives the same table as one pass over all
  records, whatever the split.
- `Cutoff` (`cutoff.dfy`) is the date filter of the loader, with its
  keep-or-drop loop.

A C `double` is modelled as a `real`. The `-INFINITY` and `INFINITY`
sentinels that `initialize_stats` stores are the `NegInf` and `PosInf`
bounds of `Ext`. The C comparisons against those sentinels are `Above` and
`Below`.

## Model

| member | source | states |
|---|---|---|
| SensorStats.Above | main.c:114 | the test `reading > max` against a possibly infinite bound holds iff the reading is not at or below the bound (always true against -INFINITY, never against +INFINITY) |
| SensorStats.Below | main.c:117 | the test `reading < min` holds iff the bound is not at or below the reading (always true against +INFINITY, never against -INFINITY) |
| SensorStats.RaiseMax | main.c:114-116 | the new max is at or above both the old max and the reading, and is one of the two |
| SensorStats.LowerMin | main.c:117-119 | the new min is at or below both the old min and the reading, and is one of the two |
| SensorStats.Initial | main.c:85-96 | the fresh entry has the requested key, count 0 and sum 0 on every channel, and is well formed (sentinel max/min) |
| SensorStats.FoldRecord | main.c:112-123 | folding a record keeps the entry's key |
| SensorStats.FoldRecordSpec | main.c:112-123 | folding raises every channel's count by exactly 1 and its sum by exactly the reading; max never falls and ends at or above the reading; min never rises and ends at or below it |
| SensorStats.FoldChannelOk | main.c:113-122 | one channel stays consistent: once it has readings, min <= max and min*count <= sum <= max*count; with none it holds the sentinels and a zero sum |
| SensorStats.FoldRecordWellFormed | main.c:112-123 | folding a record into a well-formed entry gives a well-formed entry: all six counts stay equal and every channel stays consistent |
| SensorStats.Average | main.c:155-156 | for a channel the report prints (count > 0), the average times the count is the sum, and the average lies between min and max |
| SensorStats.FoldAll | main.c:128-139 | folding a list of readings into an entry keeps its key and raises every count by the list's length |
| SensorStats.FoldAllWellFormed | main.c:128-139 | folding any list of readings keeps an entry well formed and adds the list's length to its count |
| SensorStats.FoldAllSum | main.c:120 | folding adds exactly the readings' total to each channel's sum |
| SensorStats.FoldAllBounds | main.c:114-119 | after folding, max is above the old max and every reading, min below the old min and every reading, and each is the old bound or one of the readings |
| Aggregation.IndexOf | main.c:99-105 | the scan returns an index no larger than the table size, and an index below the size carries the key |
| Aggregation.IndexOfFirst | main.c:99-105 | the scan returns the first match: no earlier entry has the key |
| Aggregation.HasIff | main.c:99-105 | the scan finds the key iff some entry of the table carries it |
| Aggregation.IndexOfUnique | main.c:99-105 | any index that carries the key with no earlier match is the index the scan returns |
| Aggregation.Resolve | main.c:98-110 | the returned index is below the new count and its entry has the key; the old entries are kept as a prefix; the table grows by exactly one entry iff the key was absent, and that entry is the fresh one |
| Aggregation.ResolveValid | main.c:98-110 | lookup-or-append keeps keys unique and entries well formed |
| Aggregation.ReplaceValid | main.c:138 | overwriting an entry with a well-formed one of the same key keeps the table invariant |
| Aggregation.Step | main.c:128-139 | one iteration never removes an entry and adds at most one |
| Aggregation.StepShape | main.c:128-139 | one iteration appends iff the record's key was absent, keeps every existing key in place, and leaves the record's key in the table |
| Aggregation.StepValid | main.c:128-139 | one iteration keeps keys unique and entries well formed |
| Aggregation.FoldLength | main.c:128-139 | a loop whose step adds at most one entry adds at most one entry per record |
| Aggregation.FoldConcat | main.c:128-139 | looping over a + b equals looping over a and then over b |
| Aggregation.WalkIsFold | main.c:128-139 | walking records lo .. hi-1 by index is looping over the slice recs[lo..hi] |
| Aggregation.WalkSplit | main.c:128-139 | walking [lo, hi) equals walking [lo, mid) and then [mid, hi) |
| Aggregation.WalkGrows | main.c:128-139 | along a walk the table only grows, by at most one entry per record |
| Aggregation.Aggregate | main.c:128-139 | the reference pass over a run of records grows the table by at most the run's length |
| Aggregation.AggregateConcat | main.c:128-139 | aggregating two consecutive runs one after the other equals aggregating their concatenation |
| Aggregation.AggregateKeepsEntries | main.c:128-139 | entries are never removed or moved: every entry before a run keeps its key and position |
| Aggregation.AggregateValid | main.c:128-139 | a whole run keeps keys unique and entries well formed |
| Aggregation.Worker | main.c:128-139 | a worker's range [lo, hi) grows the table by at most hi - lo entries |
| Aggregation.WorkerIsAggregate | main.c:128-139 | walking a range by index equals the reference aggregation of the records in it |
| Aggregation.WorkerNext | main.c:134-138 | after the lookup for record i, folding it into the found entry gives the table one record further on |
| Aggregation.WorkerRoom | main.c:107-108 | inside a walk whose result fits the capacity, every record either finds its key or has room to append it |
| Aggregation.StepHas | main.c:98-110 | after one iteration a key is present iff it was present before or it is the record's key |
| Aggregation.AggregateHas | main.c:128-139 | after a run a key is present iff it was present before or some record of the run has it |
| Aggregation.EntryFor | main.c:98-110 | the entry for a key carries that key, is well formed in a valid table, and is the fresh entry when the key is absent |
| Aggregation.StepEntry | main.c:128-139 | one iteration changes only the entry of the record's own key, by folding that record into it |
| Aggregation.MatchingLength | main.c:128-139 | the number of readings folded into a key's entry is the number of records with that key |
| Aggregation.AggregateEntry | main.c:128-139 | after a run, the entry for a key is the old entry with exactly the run's readings for that key folded in, in order; other records have no effect on it |
| Aggregation.WorkerCounts | main.c:120-121 | after a run, every channel's count for a key grows by the number of records with that key, and its sum by those records' total |
| Aggregation.FromEmpty | main.c:128-139 | from an empty table, a key's entry has one reading per matching record and their exact sum; its max and min bound every such reading and are attained by one |
| StatsTable.Table.constructor | main.c:278-279 | an empty table with capacity for N entries |
| StatsTable.Table.InitializeStats | main.c:85-96 | the slot becomes the fresh entry for the key and no other slot changes |
| StatsTable.Table.FindOrAdd | main.c:98-110 | the scan returns the existing index with the table unchanged, or appends the fresh entry and returns the new last index; in both cases the result is the lookup-or-append of the value model, and keys stay unique |
| StatsTable.Table.ProcessRecord | main.c:112-123 | the channel loop leaves the table equal to the old one with this entry replaced by the folded entry, and keeps the table invariant |
| StatsTable.Table.ProcessRecords | main.c:125-142 | the worker loop over [start, end) leaves the table equal to the reference walk of those records from the old table |
| Partitioner.WorkerCount | main.c:271-274 | the worker count is the processor count capped at the number of records, and positive when both are |
| Partitioner.BlockSize | main.c:284-291 | every block has N / T or N / T + 1 records, and the larger size exactly for the first N % T blocks |
| Partitioner.BlockStart | main.c:286-296 | the start offset advanced block by block: block i starts between i * (N / T) and i * (N / T) + i |
| Partitioner.BlockStartClosedForm | main.c:286-296 | block i starts at i * (N / T) + min(i, N % T) |
| Partitioner.LastBlockEnd | main.c:288-296 | the last block ends at N |
| Partitioner.BlockMonotone | main.c:288-296 | block starts never decrease |
| Partitioner.BlockBounds | main.c:288-296 | every block lies within [0, N] |
| Partitioner.BlocksNonEmpty | main.c:284-291 | with no more workers than records, every block is non-empty |
| Partitioner.BlockRangesTile | main.c:288-296 | the T block ranges start at 0, meet end to end and end at N |
| Partitioner.JoinedPrefix | main.c:288-296 | ranges laid end to end from 0 pick out, in order, exactly the records before their end |
| Partitioner.JoinedAll | main.c:288-296 | ranges that tile [0, N) hand every record to exactly one worker, in order |
| Partitioner.Partition | main.c:283-296 | the loop yields T ranges: starting at 0, ending at N, contiguous, of the sizes above, non-empty when T <= N |
| Coordinator.RunBlocks | main.c:288-304 | running the workers of a chain of ranges one after the other, each over its own range, equals one walk over the records up to where the chain ends |
| Coordinator.NextBlock | main.c:298 | worker i continues from where workers 0 .. i-1 left the table, and the table never exceeds N entries |
| Coordinator.BlocksEqualOnePass | main.c:288-304 | running ranges that tile [0, N) in worker order gives the same table as one pass over all records |
| Coordinator.SplitIrrelevant | main.c:284-296 | the final table does not depend on how the records are split into blocks |
| Coordinator.Run | main.c:264-304 | with no records the table stays empty; otherwise the workers fill a table of capacity N with exactly the one-pass aggregation of all records, keeping its invariant |
| Cutoff.KeptByCutoff | main.c:242-246 | for calendar months, a record is kept iff its month is March 2024 or later in chronological order |
| Cutoff.CutoffBoundary | main.c:242 | 2024-03 is kept, 2024-02 and every 2023 month are dropped, every 2025 month is kept |
| Cutoff.Surviving | main.c:238-246 | the surviving rows are exactly the input rows that pass the cutoff, no more of them than the input |
| Cutoff.SurvivingCounts | main.c:238-246 | each row that passes the cutoff survives exactly as many times as it occurs in the input, and a row that fails it never survives |
| Cutoff.SurvivingConcat | main.c:200-247 | the filter keeps input order: the survivors of a + b are the survivors of a followed by those of b |
| Cutoff.KeepFromCutoff | main.c:200-247 | the keep-or-drop loop ends with exactly the surviving rows, in order, and the record count equal to their number |

## Left out

- Threads and the mutex: the workers are run one after another, in worker order. In the C, only `find_or_add_stats` holds the mutex. `process_record` updates an entry without it, so two workers that share a key can race on that entry's sums and counts. The model proves the race-free, intended result, and says nothing about interleavings.
- `get_cpu_count`: the processor count is a parameter of `Coordinator.Run`.
- Coordinator.Run: requires a positive processor count when there are records. The C divides by the worker count and does not guard against a processor query that returns 0 or -1.
- The "No records found" message, `printf` in general, and `free`/`malloc` failures are not modelled. For an empty input, `Coordinator.Run` returns an empty table.
- File I/O is not modelled: `read_csv`'s line counting, `fgets`, the `strtok` field split and `atof`. `Cutoff.KeepFromCutoff` starts from rows already parsed into records.
- Cutoff.KeepFromCutoff: the C parses each line into slot `index` and overwrites that slot with the next line when the row is dropped. The model collects the kept rows in a sequence instead, so it has the same contents but does not model the slot reuse.
- `parse_date` (`sscanf` with `%d-%d`) is not modelled: records carry their year and month already parsed. A date that fails to parse, which leaves them unset in the C, is not modelled.
- Strings are compared whole: the 50-byte device buffer, the truncation to 49 characters by `strncpy`, the 10-character date and the 1024-byte line limit are not modelled.
- Floating point: readings and sums are reals. Rounding is not modelled, nor the order dependence of floating-point sums, nor NaN (a NaN reading fails both comparisons in the C).
- `int` counts are unbounded integers; a table of N records has counts at most N, so the 32-bit limit does not matter here.
- `write_results_to_csv`: only the average it computes is modelled (`SensorStats.Average`). The file, the `%.2f` formatting and the sensor names are not.
- StatsTable.Table.FindOrAdd: requires room for an absent key. The C writes past the end of the array when it is full. `Coordinator.Run` proves that a table of capacity N is never written past its end during a run: every append finds a free slot. With N distinct keys the table ends exactly full.
- StatsTable.Table.ProcessRecords: requires the capacity to hold every entry the run creates, for the same reason. `Coordinator.Run` discharges this requirement with capacity N.
