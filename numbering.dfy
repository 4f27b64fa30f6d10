/** Numbering of the clipped fishnet: the `grid_id` column 1..N in row order. */
module Numbering {
  import opened Tables

  /** The clipped fishnet with the grid_id column set to range(1, N + 1):
      only that column changes, and every row gets an id. */
  function Numbered(rows: seq<FishnetRow>): (r: seq<FishnetRow>)
    ensures |r| == |rows|
    ensures forall i :: 0 <= i < |r| ==> r[i].(gridId := rows[i].gridId) == rows[i] && r[i].gridId.Some?
  {
    seq(|rows|, i requires 0 <= i < |rows| => rows[i].(gridId := Some(i + 1)))
  }

  /** The grid ids of a numbered table. */
  function GridIdSet(rows: seq<FishnetRow>): set<int>
  {
    set i | 0 <= i < |rows| && rows[i].gridId.Some? :: rows[i].gridId.value
  }

  /** Numbering keeps every row and its clipped geometry, gives each row an
      id, the ids increase strictly with the row, and together they are
      exactly 1..N: no gap, no duplicate. */
  lemma NumberedIds(rows: seq<FishnetRow>)
    ensures var r := Numbered(rows);
      && |r| == |rows|
      && (forall i :: 0 <= i < |r| ==> r[i].clippedArea == rows[i].clippedArea && r[i].gridId.Some?)
      && (forall i, j :: 0 <= i < j < |r| ==> r[i].gridId.value < r[j].gridId.value)
      && (forall k :: k in GridIdSet(r) <==> 1 <= k <= |rows|)
  {
    var r := Numbered(rows);
    forall k | 1 <= k <= |rows|
      ensures k in GridIdSet(r)
    {
      assert r[k - 1].gridId.value == k;
    }
  }

  /** Numbers the rows of the array in place, the first row 1, each next one
      one higher, leaving every other column as it was. */
  method NumberGrids(rows: array<FishnetRow>)
    modifies rows
    ensures rows[..] == Numbered(old(rows[..]))
  {
    var i := 0;
    while i < rows.Length
      invariant 0 <= i <= rows.Length
      invariant forall k :: 0 <= k < i ==> rows[k] == old(rows[k]).(gridId := Some(k + 1))
      invariant forall k :: i <= k < rows.Length ==> rows[k] == old(rows[k])
    {
      rows[i] := rows[i].(gridId := Some(i + 1));
      i := i + 1;
    }
  }
}
