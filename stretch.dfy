/** Stretches: consecutive grid ids grouped by hundreds, and the dissolve of a
    year table by stretch that sums one km2 column per group. */
module Stretch {
  import opened Tables

  /** Cells per stretch. */
  const StretchSize: int := 100

  /** np.floor(grid_id / 100): Dafny's division by a positive divisor is
      already the floor. The stretch of an id is the hundred it falls in. */
  function StretchOf(gridId: int): (k: int)
    ensures StretchSize * k <= gridId < StretchSize * k + StretchSize
  {
    gridId / StretchSize
  }

  /** A stretch k >= 1 holds the ids 100k .. 100k + 99; of the positive ids,
      stretch 0 holds 1 .. 99. */
  lemma StretchMembers(gridId: int, k: int)
    ensures StretchOf(gridId) == k <==> StretchSize * k <= gridId < StretchSize * k + StretchSize
  {
  }

  /** Stretch ids never decrease as grid ids increase. */
  lemma StretchMonotone(g: int, g': int)
    requires g <= g'
    ensures StretchOf(g) <= StretchOf(g')
  {
  }

  /** The ids 1..n fall into the stretches 0..n / 100 and no others. */
  lemma StretchesOfIds(n: int, k: int)
    requires n >= 1
    ensures (exists g :: 1 <= g <= n && StretchOf(g) == k) <==> 0 <= k <= n / StretchSize
  {
    if 0 <= k <= n / StretchSize {
      var g := if k == 0 then 1 else StretchSize * k;
      assert StretchOf(g) == k;
    }
  }

  /** The table with the stretch_id column added: only that column changes,
      and each row's stretch is the hundred its grid id falls in. */
  function WithStretchIds(rows: seq<OverlayRow>): (r: seq<OverlayRow>)
    ensures |r| == |rows|
    ensures forall i :: 0 <= i < |r| ==>
      && r[i].(stretchId := rows[i].stretchId) == rows[i]
      && r[i].stretchId.Some?
      && StretchSize * r[i].stretchId.value <= rows[i].gridId < StretchSize * r[i].stretchId.value + StretchSize
  {
    seq(|rows|, i requires 0 <= i < |rows| => rows[i].(stretchId := Some(StretchOf(rows[i].gridId))))
  }

  /** Writes each row's stretch, its grid id divided by 100 and rounded down,
      into the array in place, leaving every other column as it was. */
  method AssignStretchIds(rows: array<OverlayRow>)
    modifies rows
    ensures rows[..] == WithStretchIds(old(rows[..]))
  {
    var i := 0;
    while i < rows.Length
      invariant 0 <= i <= rows.Length
      invariant forall k :: 0 <= k < i ==> rows[k] == old(rows[k]).(stretchId := Some(StretchOf(old(rows[k]).gridId)))
      invariant forall k :: i <= k < rows.Length ==> rows[k] == old(rows[k])
    {
      rows[i] := rows[i].(stretchId := Some(StretchOf(rows[i].gridId)));
      i := i + 1;
    }
  }

  /** The cell of the summed column in a row. */
  function CellOf(r: OverlayRow, col: Column): Option<Num>
  {
    match col
    case ErosionKm2 => r.erosionKm2
    case AccretionKm2 => r.accretionKm2
  }

  /** A table the dissolve can group: every row has a stretch_id and the
      summed column. */
  predicate Groupable(rows: seq<OverlayRow>, col: Column)
  {
    forall i :: 0 <= i < |rows| ==> rows[i].stretchId.Some? && CellOf(rows[i], col).Some?
  }

  /** The group key of a row. Every row of a Groupable table has a stretch
      id, the only tables the dissolve is applied to; the 0 for a row without
      one is reached only outside Groupable, where pandas would raise an
      error instead. */
  function Key(r: OverlayRow): int
  {
    match r.stretchId
    case Some(k) => k
    case None => 0
  }

  /** What a row adds to a sum: its value, or nothing for NaN, as pandas'
      sum skips missing values. */
  function Value(r: OverlayRow, col: Column): real
  {
    match CellOf(r, col)
    case Some(Num(v)) => v
    case _ => 0.0
  }

  /** The stretch ids present in a table. */
  function Keys(rows: seq<OverlayRow>): set<int>
  {
    if rows == [] then {} else Keys(rows[..|rows| - 1]) + {Key(rows[|rows| - 1])}
  }

  /** The sum of the column over the rows of stretch k: the stretch's total. */
  function GroupSum(rows: seq<OverlayRow>, col: Column, k: int): real
  {
    if rows == [] then 0.0
    else GroupSum(rows[..|rows| - 1], col, k) + (if Key(rows[|rows| - 1]) == k then Value(rows[|rows| - 1], col) else 0.0)
  }

  /** The sum of the column over the rows whose stretch lies in [lo, hi). */
  function RangeSum(rows: seq<OverlayRow>, col: Column, lo: int, hi: int): real
  {
    if rows == [] then 0.0
    else RangeSum(rows[..|rows| - 1], col, lo, hi) + (if lo <= Key(rows[|rows| - 1]) < hi then Value(rows[|rows| - 1], col) else 0.0)
  }

  /** The sum of the column over the whole table. */
  function ColumnSum(rows: seq<OverlayRow>, col: Column): real
  {
    if rows == [] then 0.0 else ColumnSum(rows[..|rows| - 1], col) + Value(rows[|rows| - 1], col)
  }

  function MinKey(rows: seq<OverlayRow>): int
    requires |rows| > 0
  {
    if |rows| == 1 then Key(rows[0])
    else var m := MinKey(rows[..|rows| - 1]); var k := Key(rows[|rows| - 1]); if k < m then k else m
  }

  function MaxKey(rows: seq<OverlayRow>): int
    requires |rows| > 0
  {
    if |rows| == 1 then Key(rows[0])
    else var m := MaxKey(rows[..|rows| - 1]); var k := Key(rows[|rows| - 1]); if k > m then k else m
  }

  /** One row per stretch id in [lo, hi) present in the table, in increasing
      order of id, carrying the stretch's total. */
  function Groups(rows: seq<OverlayRow>, col: Column, lo: int, hi: int): seq<StretchRow>
    decreases hi - lo
  {
    if hi <= lo then []
    else
      var last := if hi - 1 in Keys(rows) then [StretchRow(hi - 1, GroupSum(rows, col, hi - 1))] else [];
      Groups(rows, col, lo, hi - 1) + last
  }

  /** fishnet.dissolve(by='stretch_id', aggfunc={col: 'sum'}): one row per
      stretch present in the table, in strictly increasing order of stretch
      id, each with the column's sum over that stretch. */
  function Dissolved(rows: seq<OverlayRow>, col: Column): (d: seq<StretchRow>)
    ensures StrictlyAscending(d)
    ensures forall j :: 0 <= j < |d| ==>
      d[j].stretchId in Keys(rows) && d[j].total == GroupSum(rows, col, d[j].stretchId)
  {
    if |rows| == 0 then []
    else
      GroupsAscending(rows, col, MinKey(rows), MaxKey(rows) + 1);
      GroupsEntries(rows, col, MinKey(rows), MaxKey(rows) + 1);
      Groups(rows, col, MinKey(rows), MaxKey(rows) + 1)
  }

  /** The sum of the totals of a stretch table. */
  function SumTotals(t: seq<StretchRow>): real
  {
    if t == [] then 0.0 else SumTotals(t[..|t| - 1]) + t[|t| - 1].total
  }

  lemma {:induction false} KeysMembership(rows: seq<OverlayRow>, k: int)
    ensures k in Keys(rows) <==> exists i :: 0 <= i < |rows| && Key(rows[i]) == k
  {
    if rows != [] {
      var init := rows[..|rows| - 1];
      KeysMembership(init, k);
      if exists i :: 0 <= i < |rows| && Key(rows[i]) == k {
        var i :| 0 <= i < |rows| && Key(rows[i]) == k;
        if i < |rows| - 1 {
          assert Key(init[i]) == k;
        }
      }
      if exists i :: 0 <= i < |init| && Key(init[i]) == k {
        var i :| 0 <= i < |init| && Key(init[i]) == k;
        assert Key(rows[i]) == k;
      }
    }
  }

  lemma {:induction false} GroupSumAbsent(rows: seq<OverlayRow>, col: Column, k: int)
    requires k !in Keys(rows)
    ensures GroupSum(rows, col, k) == 0.0
  {
    if rows != [] {
      GroupSumAbsent(rows[..|rows| - 1], col, k);
    }
  }

  lemma {:induction false} RangeSumStep(rows: seq<OverlayRow>, col: Column, lo: int, hi: int)
    requires lo < hi
    ensures RangeSum(rows, col, lo, hi) == RangeSum(rows, col, lo, hi - 1) + GroupSum(rows, col, hi - 1)
  {
    if rows != [] {
      RangeSumStep(rows[..|rows| - 1], col, lo, hi);
    }
  }

  lemma {:induction false} RangeSumEmpty(rows: seq<OverlayRow>, col: Column, lo: int, hi: int)
    requires hi <= lo
    ensures RangeSum(rows, col, lo, hi) == 0.0
  {
    if rows != [] {
      RangeSumEmpty(rows[..|rows| - 1], col, lo, hi);
    }
  }

  lemma {:induction false} RangeSumAll(rows: seq<OverlayRow>, col: Column, lo: int, hi: int)
    requires forall i :: 0 <= i < |rows| ==> lo <= Key(rows[i]) < hi
    ensures RangeSum(rows, col, lo, hi) == ColumnSum(rows, col)
  {
    if rows != [] {
      var init := rows[..|rows| - 1];
      assert forall i :: 0 <= i < |init| ==> init[i] == rows[i];
      RangeSumAll(init, col, lo, hi);
    }
  }

  lemma {:induction false} KeyBounds(rows: seq<OverlayRow>)
    requires |rows| > 0
    ensures forall i :: 0 <= i < |rows| ==> MinKey(rows) <= Key(rows[i]) <= MaxKey(rows)
  {
    if |rows| > 1 {
      var init := rows[..|rows| - 1];
      KeyBounds(init);
      assert forall i :: 0 <= i < |init| ==> init[i] == rows[i];
    }
  }

  lemma {:induction false} SumTotalsAppend(t: seq<StretchRow>, u: seq<StretchRow>)
    ensures SumTotals(t + u) == SumTotals(t) + SumTotals(u)
    decreases |u|
  {
    if u == [] {
      assert t + u == t;
    } else {
      var tu := t + u;
      assert tu[..|tu| - 1] == t + u[..|u| - 1];
      assert tu[|tu| - 1] == u[|u| - 1];
      SumTotalsAppend(t, u[..|u| - 1]);
    }
  }

  /** A group over [lo, hi): an id of the range that the table holds, with
      that stretch's group sum. */
  predicate GroupEntry(rows: seq<OverlayRow>, col: Column, lo: int, hi: int, e: StretchRow)
  {
    lo <= e.stretchId < hi && e.stretchId in Keys(rows) && e.total == GroupSum(rows, col, e.stretchId)
  }

  /** Stretch ids strictly increase along the table, so none appears twice. */
  predicate StrictlyAscending(t: seq<StretchRow>)
  {
    forall i, j :: 0 <= i < j < |t| ==> t[i].stretchId < t[j].stretchId
  }

  /** The stretch table has a row for stretch k. */
  predicate HasStretch(t: seq<StretchRow>, k: int)
  {
    exists j :: 0 <= j < |t| && t[j].stretchId == k
  }

  /** Each group over [lo, hi) has an id of the range that the table holds,
      and carries that stretch's group sum. */
  lemma {:induction false} GroupsEntries(rows: seq<OverlayRow>, col: Column, lo: int, hi: int)
    ensures forall j :: 0 <= j < |Groups(rows, col, lo, hi)| ==> GroupEntry(rows, col, lo, hi, Groups(rows, col, lo, hi)[j])
    decreases hi - lo
  {
    if lo < hi {
      var g, g0 := Groups(rows, col, lo, hi), Groups(rows, col, lo, hi - 1);
      GroupsEntries(rows, col, lo, hi - 1);
      if hi - 1 in Keys(rows) {
        var x := StretchRow(hi - 1, GroupSum(rows, col, hi - 1));
        assert g == g0 + [x];
        forall j | 0 <= j < |g|
          ensures lo <= g[j].stretchId < hi && g[j].stretchId in Keys(rows)
          ensures g[j].total == GroupSum(rows, col, g[j].stretchId)
        {
          if j < |g0| { assert g[j] == g0[j]; } else { assert g[j] == x; }
        }
      } else {
        assert g == g0;
      }
    }
  }

  /** The group ids increase strictly. */
  lemma {:induction false} GroupsAscending(rows: seq<OverlayRow>, col: Column, lo: int, hi: int)
    ensures StrictlyAscending(Groups(rows, col, lo, hi))
    decreases hi - lo
  {
    if lo < hi {
      var g, g0 := Groups(rows, col, lo, hi), Groups(rows, col, lo, hi - 1);
      GroupsAscending(rows, col, lo, hi - 1);
      GroupsEntries(rows, col, lo, hi - 1);
      if hi - 1 in Keys(rows) {
        var x := StretchRow(hi - 1, GroupSum(rows, col, hi - 1));
        assert g == g0 + [x];
        forall i, j | 0 <= i < j < |g|
          ensures g[i].stretchId < g[j].stretchId
        {
          assert g[i] == g0[i];
          if j < |g0| { assert g[j] == g0[j]; } else { assert g[j] == x; }
        }
      } else {
        assert g == g0;
      }
    }
  }

  /** Every id of the range that the table holds has a group. */
  lemma {:induction false} GroupsComplete(rows: seq<OverlayRow>, col: Column, lo: int, hi: int, k: int)
    requires lo <= k < hi && k in Keys(rows)
    ensures HasStretch(Groups(rows, col, lo, hi), k)
    decreases hi - lo
  {
    var g, g0 := Groups(rows, col, lo, hi), Groups(rows, col, lo, hi - 1);
    var last := if hi - 1 in Keys(rows) then [StretchRow(hi - 1, GroupSum(rows, col, hi - 1))] else [];
    assert g == g0 + last;
    if k == hi - 1 {
      assert g[|g| - 1].stretchId == k;
    } else {
      GroupsComplete(rows, col, lo, hi - 1, k);
      var j :| 0 <= j < |g0| && g0[j].stretchId == k;
      assert g[j] == g0[j];
    }
  }

  /** The group totals add up to the sum over the rows of the range. */
  lemma {:induction false} GroupsSum(rows: seq<OverlayRow>, col: Column, lo: int, hi: int)
    ensures SumTotals(Groups(rows, col, lo, hi)) == RangeSum(rows, col, lo, hi)
    decreases hi - lo
  {
    if hi <= lo {
      RangeSumEmpty(rows, col, lo, hi);
    } else {
      var g0 := Groups(rows, col, lo, hi - 1);
      var last := if hi - 1 in Keys(rows) then [StretchRow(hi - 1, GroupSum(rows, col, hi - 1))] else [];
      GroupsSum(rows, col, lo, hi - 1);
      SumTotalsAppend(g0, last);
      RangeSumStep(rows, col, lo, hi);
      if hi - 1 !in Keys(rows) {
        GroupSumAbsent(rows, col, hi - 1);
      }
    }
  }

  /** Each dissolved row is the stretch of some row of the table and carries
      the sum of the column over that stretch's rows. */
  lemma DissolvedTotals(rows: seq<OverlayRow>, col: Column)
    ensures forall j :: 0 <= j < |Dissolved(rows, col)| ==>
      var k := Dissolved(rows, col)[j].stretchId;
      (exists i :: 0 <= i < |rows| && Key(rows[i]) == k) && Dissolved(rows, col)[j].total == GroupSum(rows, col, k)
  {
    var d := Dissolved(rows, col);
    forall j | 0 <= j < |d|
      ensures exists i :: 0 <= i < |rows| && Key(rows[i]) == d[j].stretchId
    {
      KeysMembership(rows, d[j].stretchId);
    }
  }

  /** Every row of the table lands in a dissolved row: no row is lost. */
  lemma DissolvedCoversRows(rows: seq<OverlayRow>, col: Column, i: nat)
    requires i < |rows|
    ensures HasStretch(Dissolved(rows, col), Key(rows[i]))
  {
    assert Dissolved(rows, col) == Groups(rows, col, MinKey(rows), MaxKey(rows) + 1);
    KeyBounds(rows);
    KeysMembership(rows, Key(rows[i]));
    GroupsComplete(rows, col, MinKey(rows), MaxKey(rows) + 1, Key(rows[i]));
  }

  /** The stretch totals add up to the column's sum over the whole table. */
  lemma DissolvedSum(rows: seq<OverlayRow>, col: Column)
    ensures SumTotals(Dissolved(rows, col)) == ColumnSum(rows, col)
  {
    if |rows| > 0 {
      var lo, hi := MinKey(rows), MaxKey(rows) + 1;
      GroupsSum(rows, col, lo, hi);
      KeyBounds(rows);
      RangeSumAll(rows, col, lo, hi);
    }
  }

  /** The dissolve as a grouping pass: totals accumulated per stretch id in a
      map, then emitted in increasing order of id. */
  method Dissolve(rows: seq<OverlayRow>, col: Column) returns (out: seq<StretchRow>)
    requires Groupable(rows, col)
    ensures out == Dissolved(rows, col)
  {
    if |rows| == 0 {
      return [];
    }
    var lo, hi := Key(rows[0]), Key(rows[0]);
    var totals: map<int, real> := map[Key(rows[0]) := Value(rows[0], col)];
    assert rows[..1] == [rows[0]];
    var i := 1;
    while i < |rows|
      invariant 1 <= i <= |rows|
      invariant lo == MinKey(rows[..i]) && hi == MaxKey(rows[..i])
      invariant totals.Keys == Keys(rows[..i])
      invariant forall k :: k in totals ==> totals[k] == GroupSum(rows[..i], col, k)
    {
      var k := Key(rows[i]);
      assert rows[..i + 1][..i] == rows[..i];
      assert rows[..i + 1][i] == rows[i];
      if k !in totals {
        GroupSumAbsent(rows[..i], col, k);
      }
      totals := totals[k := (if k in totals then totals[k] else 0.0) + Value(rows[i], col)];
      if k < lo { lo := k; }
      if k > hi { hi := k; }
      i := i + 1;
    }
    assert rows[..i] == rows;
    out := [];
    var k := lo;
    while k <= hi
      invariant lo <= k <= hi + 1
      invariant out == Groups(rows, col, lo, k)
    {
      if k in totals {
        out := out + [StretchRow(k, totals[k])];
      }
      k := k + 1;
    }
  }
}
