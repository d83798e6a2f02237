/**
  The statistics table as a value: a sequence of entries in insertion order,
  the linear lookup-or-append of `find_or_add_stats`, one worker step
  (resolve, then fold) and the sequential aggregation of a run of records.
 */
module Aggregation {
  import opened SensorStats

  /** The first index whose entry has key `k`, or `|s|` when there is none (the linear scan). */
  function IndexOf(s: seq<MonthlyStats>, k: Key): (i: nat)
    ensures i <= |s|
    ensures i < |s| ==> KeyOf(s[i]) == k
  {
    if s == [] then 0
    else if KeyOf(s[0]) == k then 0
    else 1 + IndexOf(s[1..], k)
  }

  /** The scan stops at the first match: no entry before the index it returns has the key. */
  lemma {:induction false} IndexOfFirst(s: seq<MonthlyStats>, k: Key)
    ensures forall j :: 0 <= j < IndexOf(s, k) ==> KeyOf(s[j]) != k
  {
    if s != [] && KeyOf(s[0]) != k {
      IndexOfFirst(s[1..], k);
      assert forall j :: 1 <= j < IndexOf(s, k) ==> s[j] == s[1..][j - 1];
    }
  }

  predicate Has(s: seq<MonthlyStats>, k: Key) {
    IndexOf(s, k) < |s|
  }

  /** The scan finds a key exactly when some entry carries it. */
  lemma HasIff(s: seq<MonthlyStats>, k: Key)
    ensures Has(s, k) <==> exists j :: 0 <= j < |s| && KeyOf(s[j]) == k
  {
    IndexOfFirst(s, k);
  }

  /** The scan's result is the only index with the scan's two properties. */
  lemma {:induction false} IndexOfUnique(s: seq<MonthlyStats>, k: Key, i: nat)
    requires i <= |s|
    requires i < |s| ==> KeyOf(s[i]) == k
    requires forall j :: 0 <= j < i ==> KeyOf(s[j]) != k
    ensures IndexOf(s, k) == i
  {
    if i > 0 {
      assert KeyOf(s[0]) != k;
      assert forall j :: 0 <= j < i - 1 ==> s[1..][j] == s[j + 1];
      IndexOfUnique(s[1..], k, i - 1);
    }
  }

  /** No two entries share a key. */
  predicate UniqueKeys(s: seq<MonthlyStats>) {
    forall i, j :: 0 <= i < j < |s| ==> KeyOf(s[i]) != KeyOf(s[j])
  }

  /** The table invariant: unique keys and well-formed entries. */
  predicate TableValid(s: seq<MonthlyStats>) {
    UniqueKeys(s) && forall i :: 0 <= i < |s| ==> WellFormed(s[i])
  }

  /**
    `find_or_add_stats`: the table after the lookup and the index it returns.
    The index is below the new size and its entry has the requested key; an
    absent key is appended fresh. `ResolveValid` shows the table invariant is kept.
   */
  function Resolve(s: seq<MonthlyStats>, k: Key): (r: (seq<MonthlyStats>, nat))
    ensures r.1 < |r.0| && KeyOf(r.0[r.1]) == k
    ensures |s| <= |r.0| <= |s| + 1 && r.0[..|s|] == s
    ensures |r.0| == |s| + 1 <==> !Has(s, k)
    ensures |r.0| == |s| + 1 ==> r.0[|s|] == Initial(k)
  {
    if Has(s, k) then (s, IndexOf(s, k)) else (s + [Initial(k)], |s|)
  }

  /** The lookup keeps keys unique and entries well formed. */
  lemma ResolveValid(s: seq<MonthlyStats>, k: Key)
    requires TableValid(s)
    ensures TableValid(Resolve(s, k).0)
  {
    if !Has(s, k) {
      HasIff(s, k);
    }
  }

  /** Replacing an entry by a well-formed one with the same key keeps the table invariant. */
  lemma ReplaceValid(s: seq<MonthlyStats>, i: nat, e: MonthlyStats)
    requires TableValid(s) && i < |s| && KeyOf(e) == KeyOf(s[i]) && WellFormed(e)
    ensures TableValid(s[i := e])
  {
    var t := s[i := e];
    assert forall j :: 0 <= j < |s| ==> KeyOf(t[j]) == KeyOf(s[j]);
  }

  /** One iteration of the worker loop: resolve the record's entry, then fold the record in. */
  function Step(s: seq<MonthlyStats>, rec: Record): (t: seq<MonthlyStats>)
    ensures |s| <= |t| <= |s| + 1
  {
    var r := Resolve(s, RecordKey(rec));
    r.0[r.1 := FoldRecord(r.0[r.1], rec.values)]
  }

  /**
    A step appends exactly when the record's key is absent, keeps the key of
    every existing entry, and leaves the record's key in the table.
   */
  lemma StepShape(s: seq<MonthlyStats>, rec: Record)
    ensures |Step(s, rec)| == |s| + 1 <==> !Has(s, RecordKey(rec))
    ensures forall j :: 0 <= j < |s| ==> KeyOf(Step(s, rec)[j]) == KeyOf(s[j])
    ensures Has(Step(s, rec), RecordKey(rec))
  {
    var r := Resolve(s, RecordKey(rec));
    var t := Step(s, rec);
    assert KeyOf(t[r.1]) == RecordKey(rec);
    IndexOfFirst(t, RecordKey(rec));
    assert forall j :: 0 <= j < |s| ==> KeyOf(t[j]) == KeyOf(r.0[j]);
  }

  /** Each step keeps the table invariant. */
  lemma StepValid(s: seq<MonthlyStats>, rec: Record)
    requires TableValid(s)
    ensures TableValid(Step(s, rec))
  {
    var r := Resolve(s, RecordKey(rec));
    ResolveValid(s, RecordKey(rec));
    FoldRecordWellFormed(r.0[r.1], rec.values);
  }

  /** A per-record step of the worker loop, as a function value. */
  type StepFn = (seq<MonthlyStats>, Record) -> seq<MonthlyStats>

  /** A step that never removes an entry and appends at most one. */
  ghost predicate AddsAtMostOne(step: StepFn) {
    forall t, r :: |t| <= |step(t, r)| <= |t| + 1
  }

  lemma StepAddsAtMostOne()
    ensures AddsAtMostOne(Step)
  {
  }

  /** A sequential loop of `step` over a run of records, starting from table `s`. */
  function Fold(step: StepFn, s: seq<MonthlyStats>, recs: seq<Record>): seq<MonthlyStats>
    decreases |recs|
  {
    if recs == [] then s
    else step(Fold(step, s, recs[..|recs| - 1]), recs[|recs| - 1])
  }

  /** A loop of a step that adds at most one entry adds at most one entry per record. */
  lemma {:induction false} FoldLength(step: StepFn, s: seq<MonthlyStats>, recs: seq<Record>)
    requires AddsAtMostOne(step)
    ensures |s| <= |Fold(step, s, recs)| <= |s| + |recs|
    decreases |recs|
  {
    if recs != [] {
      var init := recs[..|recs| - 1];
      FoldLength(step, s, init);
      var p := Fold(step, s, init);
      assert |p| <= |step(p, recs[|recs| - 1])| <= |p| + 1;
    }
  }

  /** Running two consecutive stretches one after the other equals running their concatenation. */
  lemma {:induction false} FoldConcat(step: StepFn, s: seq<MonthlyStats>, a: seq<Record>, b: seq<Record>)
    ensures Fold(step, s, a + b) == Fold(step, Fold(step, s, a), b)
    decreases |b|
  {
    if b == [] {
      assert a + b == a;
    } else {
      var b' := b[..|b| - 1];
      assert (a + b)[..|a + b| - 1] == a + b';
      FoldConcat(step, s, a, b');
    }
  }

  /** The same loop as it walks the records by index: records `lo .. hi - 1` of `recs`, in order. */
  function Walk(step: StepFn, s: seq<MonthlyStats>, recs: seq<Record>, lo: nat, hi: nat): seq<MonthlyStats>
    requires lo <= hi <= |recs|
    decreases hi - lo
  {
    if hi == lo then s else step(Walk(step, s, recs, lo, hi - 1), recs[hi - 1])
  }

  /** Walking `[lo, hi)` by index is looping over the records in that range. */
  lemma {:induction false} WalkIsFold(step: StepFn, s: seq<MonthlyStats>, recs: seq<Record>, lo: nat, hi: nat)
    requires lo <= hi <= |recs|
    ensures Walk(step, s, recs, lo, hi) == Fold(step, s, recs[lo..hi])
    decreases hi - lo
  {
    if hi == lo {
      assert recs[lo..hi] == [];
    } else {
      WalkIsFold(step, s, recs, lo, hi - 1);
      var run := recs[lo..hi];
      assert run[..|run| - 1] == recs[lo..hi - 1];
      assert run[|run| - 1] == recs[hi - 1];
    }
  }

  /** Walking `[lo, hi)` is walking `[lo, mid)`, then `[mid, hi)` from where that left the table. */
  lemma {:induction false} WalkSplit(step: StepFn, s: seq<MonthlyStats>, recs: seq<Record>, lo: nat, mid: nat, hi: nat)
    requires lo <= mid <= hi <= |recs|
    ensures Walk(step, s, recs, lo, hi) == Walk(step, Walk(step, s, recs, lo, mid), recs, mid, hi)
    decreases hi - mid
  {
    if hi > mid {
      WalkSplit(step, s, recs, lo, mid, hi - 1);
    }
  }

  /** With a step that adds at most one entry, the table only grows along the walk, by at most one entry per record. */
  lemma {:induction false} WalkGrows(step: StepFn, s: seq<MonthlyStats>, recs: seq<Record>, lo: nat, i: nat, hi: nat)
    requires AddsAtMostOne(step) && lo <= i <= hi <= |recs|
    ensures |Walk(step, s, recs, lo, i)| <= |Walk(step, s, recs, lo, hi)|
    ensures |Walk(step, s, recs, lo, hi)| <= |Walk(step, s, recs, lo, i)| + (hi - i)
    decreases hi - i
  {
    if i < hi {
      WalkGrows(step, s, recs, lo, i, hi - 1);
      var p := Walk(step, s, recs, lo, hi - 1);
      assert |p| <= |step(p, recs[hi - 1])| <= |p| + 1;
    }
  }

  /** The reference semantics: one sequential worker loop over a run of records, starting from table `s`. */
  function Aggregate(s: seq<MonthlyStats>, recs: seq<Record>): (t: seq<MonthlyStats>)
    ensures |s| <= |t| <= |s| + |recs|
  {
    StepAddsAtMostOne();
    FoldLength(Step, s, recs);
    Fold(Step, s, recs)
  }

  /** The last record of a run is the last step. */
  lemma AggregateLast(s: seq<MonthlyStats>, recs: seq<Record>)
    requires recs != []
    ensures Aggregate(s, recs) == Step(Aggregate(s, recs[..|recs| - 1]), recs[|recs| - 1])
  {
  }

  /** Running two consecutive stretches one after the other equals running their concatenation. */
  lemma AggregateConcat(s: seq<MonthlyStats>, a: seq<Record>, b: seq<Record>)
    ensures Aggregate(s, a + b) == Aggregate(Aggregate(s, a), b)
  {
    FoldConcat(Step, s, a, b);
  }

  /** Entries are never removed or moved: every entry present before a run keeps its key and position. */
  lemma {:induction false} AggregateKeepsEntries(s: seq<MonthlyStats>, recs: seq<Record>)
    ensures forall j :: 0 <= j < |s| ==> KeyOf(Aggregate(s, recs)[j]) == KeyOf(s[j])
    decreases |recs|
  {
    if recs != [] {
      var init := recs[..|recs| - 1];
      AggregateKeepsEntries(s, init);
      AggregateLast(s, recs);
      StepShape(Aggregate(s, init), recs[|recs| - 1]);
    }
  }

  /** The whole run keeps the table invariant. */
  lemma {:induction false} AggregateValid(s: seq<MonthlyStats>, recs: seq<Record>)
    requires TableValid(s)
    ensures TableValid(Aggregate(s, recs))
    decreases |recs|
  {
    if recs != [] {
      var init := recs[..|recs| - 1];
      AggregateValid(s, init);
      AggregateLast(s, recs);
      StepValid(Aggregate(s, init), recs[|recs| - 1]);
    }
  }

  /**
    The worker loop of `process_records` as it walks its range by index: the
    table after processing records `lo .. hi - 1` of `recs`, one step each.
   */
  function Worker(s: seq<MonthlyStats>, recs: seq<Record>, lo: nat, hi: nat): (t: seq<MonthlyStats>)
    requires lo <= hi <= |recs|
    ensures |s| <= |t| <= |s| + (hi - lo)
  {
    StepAddsAtMostOne();
    WalkGrows(Step, s, recs, lo, lo, hi);
    Walk(Step, s, recs, lo, hi)
  }

  /** Walking a range by index is the reference aggregation of the records in it. */
  lemma WorkerIsAggregate(s: seq<MonthlyStats>, recs: seq<Record>, lo: nat, hi: nat)
    requires lo <= hi <= |recs|
    ensures Worker(s, recs, lo, hi) == Aggregate(s, recs[lo..hi])
  {
    WalkIsFold(Step, s, recs, lo, hi);
  }

  /**
    One iteration of the walk: after the lookup of record `i`'s key has
    produced table `found` and index `index`, folding the record into that
    entry gives the table of the walk one record further.
   */
  lemma WorkerNext(s: seq<MonthlyStats>, recs: seq<Record>, lo: nat, i: nat, found: seq<MonthlyStats>, index: nat)
    requires lo <= i < |recs|
    requires (found, index) == Resolve(Worker(s, recs, lo, i), RecordKey(recs[i]))
    ensures index < |found|
    ensures Worker(s, recs, lo, i + 1) == found[index := FoldRecord(found[index], recs[i].values)]
  {
    assert Worker(s, recs, lo, i + 1) == Step(Worker(s, recs, lo, i), recs[i]);
  }

  /**
    Within a walk whose final table fits in `capacity` entries, record `i`
    either finds its key or has room to append it.
   */
  lemma WorkerRoom(s: seq<MonthlyStats>, recs: seq<Record>, lo: nat, i: nat, hi: nat, capacity: nat)
    requires lo <= i < hi <= |recs| && |Worker(s, recs, lo, hi)| <= capacity
    ensures Has(Worker(s, recs, lo, i), RecordKey(recs[i])) || |Worker(s, recs, lo, i)| < capacity
  {
    StepAddsAtMostOne();
    WalkGrows(Step, s, recs, lo, i + 1, hi);
    assert Worker(s, recs, lo, i + 1) == Step(Worker(s, recs, lo, i), recs[i]);
    StepShape(Worker(s, recs, lo, i), recs[i]);
  }

  /** A key is in the table after one step iff it was before or it is the record's key. */
  lemma StepHas(s: seq<MonthlyStats>, rec: Record, k: Key)
    ensures Has(Step(s, rec), k) <==> Has(s, k) || RecordKey(rec) == k
  {
    var t := Step(s, rec);
    StepShape(s, rec);
    HasIff(s, k);
    HasIff(t, k);
    if Has(t, k) && !Has(s, k) {
      var j :| 0 <= j < |t| && KeyOf(t[j]) == k;
      assert j >= |s|;
      var (s', i) := Resolve(s, RecordKey(rec));
      assert KeyOf(t[j]) == KeyOf(s'[j]);
    }
    if Has(s, k) {
      var j := IndexOf(s, k);
      assert KeyOf(t[j]) == k;
    }
  }

  /** A key is in the table after a run iff it was before or some record of the run has it. */
  lemma {:induction false} AggregateHas(s: seq<MonthlyStats>, recs: seq<Record>, k: Key)
    ensures Has(Aggregate(s, recs), k) <==> Has(s, k) || k in KeysOf(recs)
    decreases |recs|
  {
    if recs != [] {
      var init, last := recs[..|recs| - 1], recs[|recs| - 1];
      var p := Aggregate(s, init);
      AggregateLast(s, recs);
      AggregateHas(s, init, k);
      StepHas(p, last, k);
      KeysOfLast(recs);
    }
  }

  /** The entry the table holds for `k`, or the fresh entry when it holds none. */
  function EntryFor(s: seq<MonthlyStats>, k: Key): (e: MonthlyStats)
    ensures KeyOf(e) == k
    ensures TableValid(s) ==> WellFormed(e)
    ensures !Has(s, k) ==> e == Initial(k)
  {
    if Has(s, k) then s[IndexOf(s, k)] else Initial(k)
  }

  /** One step changes only the entry of the record's own key, by folding the record into it. */
  lemma StepEntry(s: seq<MonthlyStats>, rec: Record, k: Key)
    ensures EntryFor(Step(s, rec), k) ==
      if RecordKey(rec) == k then FoldRecord(EntryFor(s, k), rec.values) else EntryFor(s, k)
  {
    var key := RecordKey(rec);
    var (s', i) := Resolve(s, key);
    var t := Step(s, rec);
    StepShape(s, rec);
    IndexOfFirst(s, k);
    assert t == s'[i := FoldRecord(s'[i], rec.values)];
    if key == k {
      IndexOfUnique(t, k, i);
      if Has(s, k) {
        assert s'[i] == EntryFor(s, k);
      } else {
        assert s'[i] == Initial(k);
      }
    } else {
      assert KeyOf(t[i]) != k;
      if Has(s, k) {
        var j := IndexOf(s, k);
        assert KeyOf(t[j]) == k;
        IndexOfUnique(t, k, j);
        assert j != i;
        assert t[j] == s[j];
      } else {
        assert forall j :: 0 <= j < |t| ==> KeyOf(t[j]) != k;
        IndexOfUnique(t, k, |t|);
      }
    }
  }

  /** The readings of the records in `recs` whose key is `k`, in order. */
  function Matching(recs: seq<Record>, k: Key): seq<Readings>
    decreases |recs|
  {
    if recs == [] then []
    else Matching(recs[..|recs| - 1], k)
         + (if RecordKey(recs[|recs| - 1]) == k then [recs[|recs| - 1].values] else [])
  }

  /**
    The entry for `k` after a run is the entry before it with exactly the
    readings of the run's records for `k` folded in, in order: the rest of the
    run has no effect on it.
   */
  lemma {:induction false} AggregateEntry(s: seq<MonthlyStats>, recs: seq<Record>, k: Key)
    ensures EntryFor(Aggregate(s, recs), k) == FoldAll(EntryFor(s, k), Matching(recs, k))
    decreases |recs|
  {
    if recs != [] {
      var init := recs[..|recs| - 1];
      var last := recs[|recs| - 1];
      AggregateEntry(s, init, k);
      AggregateLast(s, recs);
      StepEntry(Aggregate(s, init), last, k);
      if RecordKey(last) == k {
        var m := Matching(recs, k);
        assert m == Matching(init, k) + [last.values];
        assert m[..|m| - 1] == Matching(init, k);
      } else {
        assert Matching(recs, k) == Matching(init, k);
      }
    }
  }

  /** The keys of a run of records, in order. */
  function KeysOf(recs: seq<Record>): (ks: seq<Key>)
    ensures |ks| == |recs| && forall j :: 0 <= j < |recs| ==> ks[j] == RecordKey(recs[j])
  {
    seq(|recs|, j requires 0 <= j < |recs| => RecordKey(recs[j]))
  }

  lemma KeysOfLast(recs: seq<Record>)
    requires recs != []
    ensures KeysOf(recs) == KeysOf(recs[..|recs| - 1]) + [RecordKey(recs[|recs| - 1])]
  {
    var a, b := KeysOf(recs), KeysOf(recs[..|recs| - 1]) + [RecordKey(recs[|recs| - 1])];
    assert |a| == |b|;
    forall j | 0 <= j < |a| ensures a[j] == b[j] {
      if j < |recs| - 1 {
        assert recs[..|recs| - 1][j] == recs[j];
      }
    }
  }

  /** How many records of the run carry key `k`. */
  function Occurrences(recs: seq<Record>, k: Key): nat {
    multiset(KeysOf(recs))[k]
  }

  lemma {:induction false} MatchingLength(recs: seq<Record>, k: Key)
    ensures |Matching(recs, k)| == Occurrences(recs, k)
    decreases |recs|
  {
    if recs != [] {
      var init := recs[..|recs| - 1];
      MatchingLength(init, k);
      KeysOfLast(recs);
    }
  }

  /**
    Counts match the records seen: after a run, the entry for every key has
    grown by exactly the number of the run's records with that key, on every
    channel, and each channel's sum by exactly their readings' total.
   */
  lemma WorkerCounts(s: seq<MonthlyStats>, recs: seq<Record>, k: Key, c: nat)
    requires TableValid(s) && c < NumSensors
    ensures WellFormed(EntryFor(Aggregate(s, recs), k))
    ensures EntryFor(Aggregate(s, recs), k).count[c] == EntryFor(s, k).count[c] + Occurrences(recs, k)
    ensures EntryFor(Aggregate(s, recs), k).sum[c] == EntryFor(s, k).sum[c] + Total(Matching(recs, k), c)
  {
    AggregateEntry(s, recs, k);
    MatchingLength(recs, k);
    FoldAllWellFormed(EntryFor(s, k), Matching(recs, k));
    FoldAllSum(EntryFor(s, k), Matching(recs, k), c);
  }

  /**
    From an empty table: the entry for `k` has one reading per record with key
    `k`, the exact sum of their readings, and a max and min that bound every
    such reading and are attained by one of them.
   */
  lemma FromEmpty(recs: seq<Record>, k: Key, c: nat)
    requires c < NumSensors
    ensures var e := EntryFor(Aggregate([], recs), k);
      && WellFormed(e)
      && e.count[c] == Occurrences(recs, k)
      && e.sum[c] == Total(Matching(recs, k), c)
      && (forall x :: x in Matching(recs, k) ==> ExtLe(Fin(x[c]), e.max[c]) && ExtLe(e.min[c], Fin(x[c])))
      && (Occurrences(recs, k) > 0 ==> exists x :: x in Matching(recs, k) && e.max[c] == Fin(x[c]))
      && (Occurrences(recs, k) > 0 ==> exists x :: x in Matching(recs, k) && e.min[c] == Fin(x[c]))
  {
    var m := Matching(recs, k);
    WorkerCounts([], recs, k, c);
    AggregateEntry([], recs, k);
    FoldAllBounds(Initial(k), m, c);
    var e := EntryFor(Aggregate([], recs), k);
    MatchingLength(recs, k);
    if |m| > 0 {
      assert e.max[c] != NegInf && e.min[c] != PosInf;
      var j :| 0 <= j < |m| && e.max[c] == Fin(m[j][c]);
      assert m[j] in m;
      var j' :| 0 <= j' < |m| && e.min[c] == Fin(m[j'][c]);
      assert m[j'] in m;
    }
  }
}
