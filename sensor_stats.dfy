/**
  Per-(device, year, month) running statistics of the six sensor channels:
  the entry value stored in the statistics table, its fresh state and the fold
  of one record's readings into it.
 */
module SensorStats {

  /** The fixed number of sensor channels: temperature, humidity, luminosity, noise, eCO2, eTVOC. */
  const NumSensors: nat := 6

  /** One reading per channel, as carried by a record. */
  type Readings = v: seq<real> | |v| == NumSensors witness [0.0, 0.0, 0.0, 0.0, 0.0, 0.0]

  /** A channel bound: a reading, or one of the two infinities the entry starts from. */
  datatype Ext = NegInf | Fin(v: real) | PosInf

  type ExtRow = v: seq<Ext> | |v| == NumSensors witness [NegInf, NegInf, NegInf, NegInf, NegInf, NegInf]
  type RealRow = v: seq<real> | |v| == NumSensors witness [0.0, 0.0, 0.0, 0.0, 0.0, 0.0]
  type IntRow = v: seq<int> | |v| == NumSensors witness [0, 0, 0, 0, 0, 0]

  /** The order on extended bounds. */
  predicate ExtLe(a: Ext, b: Ext) {
    a.NegInf? || b.PosInf? || (a.Fin? && b.Fin? && a.v <= b.v)
  }

  /** `x > b` as the C comparison evaluates it against a possibly infinite bound. */
  predicate Above(x: real, b: Ext)
    ensures Above(x, b) <==> !ExtLe(Fin(x), b)
  {
    match b
    case NegInf => true
    case Fin(v) => x > v
    case PosInf => false
  }

  /** `x < b` as the C comparison evaluates it against a possibly infinite bound. */
  predicate Below(x: real, b: Ext)
    ensures Below(x, b) <==> !ExtLe(b, Fin(x))
  {
    match b
    case NegInf => false
    case Fin(v) => x < v
    case PosInf => true
  }

  /** The new maximum after reading `x`: the least bound above both `m` and `x`. */
  function RaiseMax(m: Ext, x: real): (r: Ext)
    ensures ExtLe(m, r) && ExtLe(Fin(x), r)
    ensures r == m || r == Fin(x)
  {
    if Above(x, m) then Fin(x) else m
  }

  /** The new minimum after reading `x`: the greatest bound below both `m` and `x`. */
  function LowerMin(m: Ext, x: real): (r: Ext)
    ensures ExtLe(r, m) && ExtLe(r, Fin(x))
    ensures r == m || r == Fin(x)
  {
    if Below(x, m) then Fin(x) else m
  }

  /** The identity of a table entry. */
  datatype Key = Key(device: string, year: int, month: int)

  /** A sensor record whose date has already been split into year and month. */
  datatype Record = Record(device: string, year: int, month: int, values: Readings)

  function RecordKey(r: Record): Key {
    Key(r.device, r.year, r.month)
  }

  /** One entry of the statistics table: a key and four parallel per-channel rows. */
  datatype MonthlyStats = MonthlyStats(
    device: string, year: int, month: int,
    max: ExtRow, min: ExtRow, sum: RealRow, count: IntRow)

  function KeyOf(e: MonthlyStats): Key {
    Key(e.device, e.year, e.month)
  }

  /** The count of an entry (all six channel counts agree in a well-formed entry). */
  function Count(e: MonthlyStats): int {
    e.count[0]
  }

  /**
    What one channel of an entry satisfies: with no readings it holds the
    sentinels and a zero sum; otherwise both bounds are readings, min <= max,
    and the sum lies between min*count and max*count.
   */
  predicate ChannelOk(mx: Ext, mn: Ext, sm: real, n: int) {
    && n >= 0
    && (n == 0 ==> mx == NegInf && mn == PosInf && sm == 0.0)
    && (n > 0 ==> mx.Fin? && mn.Fin? && mn.v <= mx.v
                  && mn.v * (n as real) <= sm <= mx.v * (n as real))
  }

  /** The invariant of every entry: equal counts on all channels, each channel consistent. */
  predicate WellFormed(e: MonthlyStats) {
    && (forall c :: 0 <= c < NumSensors ==> e.count[c] == Count(e))
    && (forall c :: 0 <= c < NumSensors ==> ChannelOk(e.max[c], e.min[c], e.sum[c], e.count[c]))
  }

  /** The entry `initialize_stats` creates for a key. */
  function Initial(k: Key): (e: MonthlyStats)
    ensures KeyOf(e) == k && WellFormed(e) && Count(e) == 0
    ensures forall c :: 0 <= c < NumSensors ==> e.sum[c] == 0.0 && e.count[c] == 0
  {
    MonthlyStats(k.device, k.year, k.month,
      seq(NumSensors, _ => NegInf), seq(NumSensors, _ => PosInf),
      seq(NumSensors, _ => 0.0), seq(NumSensors, _ => 0))
  }

  /** `process_record`: fold one record's readings into an entry, channel by channel. */
  function FoldRecord(e: MonthlyStats, x: Readings): (r: MonthlyStats)
    ensures KeyOf(r) == KeyOf(e)
  {
    MonthlyStats(e.device, e.year, e.month,
      seq(NumSensors, c requires 0 <= c < NumSensors => RaiseMax(e.max[c], x[c])),
      seq(NumSensors, c requires 0 <= c < NumSensors => LowerMin(e.min[c], x[c])),
      seq(NumSensors, c requires 0 <= c < NumSensors => e.sum[c] + x[c]),
      seq(NumSensors, c requires 0 <= c < NumSensors => e.count[c] + 1))
  }

  /**
    What folding a record does to each channel: the count goes up by one, the
    sum by the reading, the max never falls and ends at or above the reading,
    the min never rises and ends at or below it.
   */
  lemma FoldRecordSpec(e: MonthlyStats, x: Readings)
    ensures Count(FoldRecord(e, x)) == Count(e) + 1
    ensures forall c :: 0 <= c < NumSensors ==>
      FoldRecord(e, x).count[c] == e.count[c] + 1 && FoldRecord(e, x).sum[c] == e.sum[c] + x[c]
    ensures forall c :: 0 <= c < NumSensors ==>
      ExtLe(e.max[c], FoldRecord(e, x).max[c]) && ExtLe(Fin(x[c]), FoldRecord(e, x).max[c]) &&
      ExtLe(FoldRecord(e, x).min[c], e.min[c]) && ExtLe(FoldRecord(e, x).min[c], Fin(x[c]))
  {
  }

  /** An entry whose every channel has been folded, one by one, is the folded entry. */
  lemma FoldedChannels(e: MonthlyStats, x: Readings, r: MonthlyStats)
    requires KeyOf(r) == KeyOf(e)
    requires forall j :: 0 <= j < NumSensors ==>
      r.max[j] == RaiseMax(e.max[j], x[j]) && r.min[j] == LowerMin(e.min[j], x[j]) &&
      r.sum[j] == e.sum[j] + x[j] && r.count[j] == e.count[j] + 1
    ensures r == FoldRecord(e, x)
  {
    var f := FoldRecord(e, x);
    assert r.max == f.max && r.min == f.min && r.sum == f.sum && r.count == f.count;
  }

  lemma ScaleLe(a: real, b: real, n: nat)
    requires a <= b
    ensures a * (n as real) <= b * (n as real)
  {
    assert (b - a) * (n as real) >= 0.0;
  }

  /** Folding a reading into a consistent channel leaves it consistent. */
  lemma FoldChannelOk(mx: Ext, mn: Ext, sm: real, n: int, x: real)
    requires ChannelOk(mx, mn, sm, n)
    ensures ChannelOk(RaiseMax(mx, x), LowerMin(mn, x), sm + x, n + 1)
  {
    var mx', mn' := RaiseMax(mx, x), LowerMin(mn, x);
    if n == 0 {
      assert mx' == Fin(x) && mn' == Fin(x);
    } else {
      assert mn'.v <= mn.v && mn'.v <= x && mx.v <= mx'.v && x <= mx'.v;
      ScaleLe(mn'.v, mn.v, n);
      ScaleLe(mx.v, mx'.v, n);
      assert mn'.v * ((n + 1) as real) == mn'.v * (n as real) + mn'.v;
      assert mx'.v * ((n + 1) as real) == mx'.v * (n as real) + mx'.v;
    }
  }

  /** `process_record` keeps an entry well formed. */
  lemma FoldRecordWellFormed(e: MonthlyStats, x: Readings)
    requires WellFormed(e)
    ensures WellFormed(FoldRecord(e, x))
  {
    var r := FoldRecord(e, x);
    forall c | 0 <= c < NumSensors
      ensures ChannelOk(r.max[c], r.min[c], r.sum[c], r.count[c])
    {
      FoldChannelOk(e.max[c], e.min[c], e.sum[c], e.count[c], x[c]);
    }
  }

  lemma DivMul(x: real, n: real)
    requires n > 0.0
    ensures (x / n) * n == x
  {
  }

  lemma CancelPos(a: real, b: real, n: real)
    requires n > 0.0 && a * n <= b * n
    ensures a <= b
  {
  }

  /** The average the report prints for a channel it emits (one with count > 0). */
  function Average(e: MonthlyStats, c: nat): (avg: real)
    requires WellFormed(e) && c < NumSensors && e.count[c] > 0
    ensures e.min[c].Fin? && e.max[c].Fin?
    ensures e.min[c].v <= avg <= e.max[c].v
    ensures avg * (e.count[c] as real) == e.sum[c]
  {
    var n := e.count[c] as real;
    var avg := e.sum[c] / n;
    DivMul(e.sum[c], n);
    CancelPos(e.min[c].v, avg, n);
    CancelPos(avg, e.max[c].v, n);
    avg
  }

  /** Folding a sequence of readings into an entry, in order. */
  function FoldAll(e: MonthlyStats, xs: seq<Readings>): (r: MonthlyStats)
    ensures KeyOf(r) == KeyOf(e)
    ensures forall c :: 0 <= c < NumSensors ==> r.count[c] == e.count[c] + |xs|
    decreases |xs|
  {
    if xs == [] then e else FoldRecord(FoldAll(e, xs[..|xs| - 1]), xs[|xs| - 1])
  }

  /** The exact total of channel `c` over a sequence of readings. */
  function Total(xs: seq<Readings>, c: nat): real
    requires c < NumSensors
    decreases |xs|
  {
    if xs == [] then 0.0 else Total(xs[..|xs| - 1], c) + xs[|xs| - 1][c]
  }

  lemma {:induction false} FoldAllWellFormed(e: MonthlyStats, xs: seq<Readings>)
    requires WellFormed(e)
    ensures WellFormed(FoldAll(e, xs)) && Count(FoldAll(e, xs)) == Count(e) + |xs|
    decreases |xs|
  {
    if xs != [] {
      FoldAllWellFormed(e, xs[..|xs| - 1]);
      FoldRecordWellFormed(FoldAll(e, xs[..|xs| - 1]), xs[|xs| - 1]);
    }
  }

  /** Folding adds exactly the readings' total to each channel's sum. */
  lemma {:induction false} FoldAllSum(e: MonthlyStats, xs: seq<Readings>, c: nat)
    requires c < NumSensors
    ensures FoldAll(e, xs).sum[c] == e.sum[c] + Total(xs, c)
    decreases |xs|
  {
    if xs != [] {
      FoldAllSum(e, xs[..|xs| - 1], c);
    }
  }

  /**
    After folding, a channel's max is an upper bound of the old max and of every
    reading, and is one of them; dually for min.
   */
  lemma {:induction false} FoldAllBounds(e: MonthlyStats, xs: seq<Readings>, c: nat)
    requires c < NumSensors
    ensures ExtLe(e.max[c], FoldAll(e, xs).max[c]) && ExtLe(FoldAll(e, xs).min[c], e.min[c])
    ensures forall j :: 0 <= j < |xs| ==>
      ExtLe(Fin(xs[j][c]), FoldAll(e, xs).max[c]) && ExtLe(FoldAll(e, xs).min[c], Fin(xs[j][c]))
    ensures FoldAll(e, xs).max[c] == e.max[c] || exists j :: 0 <= j < |xs| && FoldAll(e, xs).max[c] == Fin(xs[j][c])
    ensures FoldAll(e, xs).min[c] == e.min[c] || exists j :: 0 <= j < |xs| && FoldAll(e, xs).min[c] == Fin(xs[j][c])
    decreases |xs|
  {
    if xs != [] {
      var init := xs[..|xs| - 1];
      FoldAllBounds(e, init, c);
      var p := FoldAll(e, init);
      var r := FoldAll(e, xs);
      assert r == FoldRecord(p, xs[|xs| - 1]);
      forall j | 0 <= j < |xs|
        ensures ExtLe(Fin(xs[j][c]), r.max[c]) && ExtLe(r.min[c], Fin(xs[j][c]))
      {
        if j < |xs| - 1 {
          assert xs[j] == init[j];
        }
      }
      if r.max[c] != e.max[c] {
        if r.max[c] == p.max[c] {
          var j :| 0 <= j < |init| && p.max[c] == Fin(init[j][c]);
          assert init[j] == xs[j];
        } else {
          assert r.max[c] == Fin(xs[|xs| - 1][c]);
        }
      }
      if r.min[c] != e.min[c] {
        if r.min[c] == p.min[c] {
          var j :| 0 <= j < |init| && p.min[c] == Fin(init[j][c]);
          assert init[j] == xs[j];
        } else {
          assert r.min[c] == Fin(xs[|xs| - 1][c]);
        }
      }
    }
  }
}
