/**
  The date filter applied while loading records: only records from March 2024
  onwards reach the aggregation, in their original order.
 */
module Cutoff {
  import opened SensorStats

  /**
    The loader keeps a record dated (year, month) iff it is March 2024 or
    later; for calendar months that is the chronological order of months.
   */
  predicate KeptByCutoff(year: int, month: int)
    ensures 1 <= month <= 12 ==> (KeptByCutoff(year, month) <==> year * 12 + month >= 2024 * 12 + 3)
  {
    year > 2024 || (year == 2024 && month >= 3)
  }

  /** The boundary: 2024-03 is kept, 2024-02 and every month of 2023 are dropped. */
  lemma CutoffBoundary()
    ensures KeptByCutoff(2024, 3) && !KeptByCutoff(2024, 2)
    ensures forall m :: !KeptByCutoff(2023, m)
    ensures forall m :: KeptByCutoff(2025, m)
  {
  }

  /** The rows that survive the cutoff, in order. */
  function Surviving(rows: seq<Record>): (kept: seq<Record>)
    ensures |kept| <= |rows|
    ensures forall r :: r in kept <==> r in rows && KeptByCutoff(r.year, r.month)
    decreases |rows|
  {
    if rows == [] then []
    else
      var init, last := rows[..|rows| - 1], rows[|rows| - 1];
      assert rows == init + [last];
      Surviving(init) + (if KeptByCutoff(last.year, last.month) then [last] else [])
  }

  /** Every row that passes the cutoff survives as often as it occurs in the input; no other row survives. */
  lemma {:induction false} SurvivingCounts(rows: seq<Record>, r: Record)
    ensures multiset(Surviving(rows))[r] == if KeptByCutoff(r.year, r.month) then multiset(rows)[r] else 0
    decreases |rows|
  {
    if rows != [] {
      var init, last := rows[..|rows| - 1], rows[|rows| - 1];
      assert rows == init + [last];
      SurvivingCounts(init, r);
    }
  }

  /** The filter keeps input order: the survivors of `a + b` are those of `a` followed by those of `b`. */
  lemma {:induction false} SurvivingConcat(a: seq<Record>, b: seq<Record>)
    ensures Surviving(a + b) == Surviving(a) + Surviving(b)
    decreases |b|
  {
    if b == [] {
      assert a + b == a;
    } else {
      var b' := b[..|b| - 1];
      assert (a + b)[..|a + b| - 1] == a + b';
      assert (a + b)[|a + b| - 1] == b[|b| - 1];
      SurvivingConcat(a, b');
    }
  }

  /**
    The keep-or-drop loop of the loader, over rows already parsed: a kept row
    advances `index`, a dropped one shrinks `recordCount`, and the loop stops
    once `index` reaches `recordCount`. In the end the kept rows are exactly
    the surviving ones and `recordCount` is their number.
   */
  method KeepFromCutoff(rows: seq<Record>) returns (kept: seq<Record>, recordCount: nat)
    ensures kept == Surviving(rows)
    ensures recordCount == |kept|
  {
    recordCount := |rows|;
    kept := [];
    var line := 0;
    while line < |rows| && |kept| < recordCount
      invariant 0 <= line <= |rows|
      invariant recordCount + line == |rows| + |kept|
      invariant kept == Surviving(rows[..line])
    {
      var row := rows[line];
      assert rows[..line + 1] == rows[..line] + [row];
      if KeptByCutoff(row.year, row.month) {
        kept := kept + [row];
      } else {
        recordCount := recordCount - 1;
      }
      line := line + 1;
    }
    assert rows[..line] == rows;
  }
}
