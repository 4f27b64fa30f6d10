/** The erosion and accretion columns: differences of area columns aligned by
    row position, and their conversion from square metres to square
    kilometres. */
module ErosionAccretion {
  import opened Tables

  /** Square metres in a square kilometre: the columns are divided by 1e6. */
  const SquareMetresPerKm2: real := 1000000.0

  /** Series subtraction minuend['area'] - unchanged['unchanged_area'] read at
      row i of the table it is assigned to: pandas aligns by row index, so
      the row has a value only when both operands have a row i. */
  function AlignedDiff(minuend: seq<OverlayRow>, unchangedRows: seq<UnchangedRow>, i: nat): (r: Num)
    ensures r.Num? <==> i < |minuend| && i < |unchangedRows|
    ensures r.Num? ==> r.v + unchangedRows[i].unchangedArea == minuend[i].area
  {
    if i < |minuend| && i < |unchangedRows| then Num(minuend[i].area - unchangedRows[i].unchangedArea) else NaN
  }

  /** Division of a cell by 1e6; NaN stays NaN. */
  function ToKm2(x: Num): (r: Num)
    ensures r.Num? <==> x.Num?
    ensures r.Num? ==> r.v * SquareMetresPerKm2 == x.v
  {
    match x
    case NaN => NaN
    case Num(v) => Num(v / SquareMetresPerKm2)
  }

  /** Year 1 with `erosion` = year 2 area - unchanged area and `erosion_km2`. */
  function WithErosion(year1: seq<OverlayRow>, year2: seq<OverlayRow>, unchangedRows: seq<UnchangedRow>): (r: seq<OverlayRow>)
    ensures |r| == |year1|
    ensures forall i :: 0 <= i < |r| ==>
      r[i].(erosion := year1[i].erosion, erosionKm2 := year1[i].erosionKm2) == year1[i]
  {
    seq(|year1|, i requires 0 <= i < |year1| =>
      year1[i].(erosion := Some(AlignedDiff(year2, unchangedRows, i)),
                erosionKm2 := Some(ToKm2(AlignedDiff(year2, unchangedRows, i)))))
  }

  /** Year 2 with `accretion` = year 1 area - unchanged area and `accretion_km2`. */
  function WithAccretion(year2: seq<OverlayRow>, year1: seq<OverlayRow>, unchangedRows: seq<UnchangedRow>): (r: seq<OverlayRow>)
    ensures |r| == |year2|
    ensures forall i :: 0 <= i < |r| ==>
      r[i].(accretion := year2[i].accretion, accretionKm2 := year2[i].accretionKm2) == year2[i]
  {
    seq(|year2|, i requires 0 <= i < |year2| =>
      year2[i].(accretion := Some(AlignedDiff(year1, unchangedRows, i)),
                accretionKm2 := Some(ToKm2(AlignedDiff(year1, unchangedRows, i)))))
  }

  /** The column assignments of calculate_erosion_accretion, done in place on
      the two year tables. */
  method AddErosionAccretion(year1: array<OverlayRow>, year2: array<OverlayRow>, unchangedRows: seq<UnchangedRow>)
    requires year1 != year2
    modifies year1, year2
    ensures year1[..] == WithErosion(old(year1[..]), old(year2[..]), unchangedRows)
    ensures year2[..] == WithAccretion(old(year2[..]), old(year1[..]), unchangedRows)
  {
    var y1, y2 := year1[..], year2[..];
    var i := 0;
    while i < year1.Length
      invariant 0 <= i <= year1.Length
      invariant year2[..] == y2
      invariant forall k :: 0 <= k < i ==> year1[k] == WithErosion(y1, y2, unchangedRows)[k]
      invariant forall k :: i <= k < year1.Length ==> year1[k] == y1[k]
    {
      var e := AlignedDiff(y2, unchangedRows, i);
      year1[i] := year1[i].(erosion := Some(e), erosionKm2 := Some(ToKm2(e)));
      i := i + 1;
    }
    i := 0;
    while i < year2.Length
      invariant 0 <= i <= year2.Length
      invariant year1[..] == WithErosion(y1, y2, unchangedRows)
      invariant forall k :: 0 <= k < i ==> year2[k] == WithAccretion(y2, y1, unchangedRows)[k]
      invariant forall k :: i <= k < year2.Length ==> year2[k] == y2[k]
    {
      var a := AlignedDiff(y1, unchangedRows, i);
      year2[i] := year2[i].(accretion := Some(a), accretionKm2 := Some(ToKm2(a)));
      i := i + 1;
    }
  }

  /** Adding the erosion columns keeps every row and every other column;
      both columns are present on every row and carry a value exactly at the
      rows where year 2 and the unchanged table both have one. There erosion
      is the year 2 area minus the unchanged area, and erosion_km2 is erosion
      in km²: in square metres plus the unchanged area it gives back the
      year 2 area. */
  lemma ErosionColumns(year1: seq<OverlayRow>, year2: seq<OverlayRow>, unchangedRows: seq<UnchangedRow>, i: nat)
    requires i < |year1|
    ensures var r := WithErosion(year1, year2, unchangedRows);
      && |r| == |year1|
      && r[i].(erosion := year1[i].erosion, erosionKm2 := year1[i].erosionKm2) == year1[i]
      && r[i].erosion.Some? && r[i].erosionKm2.Some?
      && (r[i].erosion.value.Num? <==> i < |year2| && i < |unchangedRows|)
      && (r[i].erosion.value.Num? ==> r[i].erosion.value.v == year2[i].area - unchangedRows[i].unchangedArea)
      && r[i].erosionKm2.value == ToKm2(r[i].erosion.value)
      && (r[i].erosionKm2.value.Num? <==> i < |year2| && i < |unchangedRows|)
      && (r[i].erosionKm2.value.Num? ==>
            r[i].erosionKm2.value.v * SquareMetresPerKm2 + unchangedRows[i].unchangedArea == year2[i].area)
  {
  }

  /** The same for the accretion columns, against the year 1 area. */
  lemma AccretionColumns(year2: seq<OverlayRow>, year1: seq<OverlayRow>, unchangedRows: seq<UnchangedRow>, i: nat)
    requires i < |year2|
    ensures var r := WithAccretion(year2, year1, unchangedRows);
      && |r| == |year2|
      && r[i].(accretion := year2[i].accretion, accretionKm2 := year2[i].accretionKm2) == year2[i]
      && r[i].accretion.Some? && r[i].accretionKm2.Some?
      && (r[i].accretion.value.Num? <==> i < |year1| && i < |unchangedRows|)
      && (r[i].accretion.value.Num? ==> r[i].accretion.value.v == year1[i].area - unchangedRows[i].unchangedArea)
      && r[i].accretionKm2.value == ToKm2(r[i].accretion.value)
      && (r[i].accretionKm2.value.Num? <==> i < |year1| && i < |unchangedRows|)
      && (r[i].accretionKm2.value.Num? ==>
            r[i].accretionKm2.value.v * SquareMetresPerKm2 + unchangedRows[i].unchangedArea == year1[i].area)
  {
  }

  /** Row i of the unchanged table is no larger than row i of either year:
      what an intersection guarantees when the three tables line up. */
  predicate RowsAligned(year1: seq<OverlayRow>, year2: seq<OverlayRow>, unchangedRows: seq<UnchangedRow>)
  {
    forall i :: 0 <= i < |unchangedRows| ==>
      (i < |year1| ==> unchangedRows[i].unchangedArea <= year1[i].area) &&
      (i < |year2| ==> unchangedRows[i].unchangedArea <= year2[i].area)
  }

  /** When the rows line up, no erosion or accretion value is negative. */
  lemma AlignedChangeNonNegative(year1: seq<OverlayRow>, year2: seq<OverlayRow>, unchangedRows: seq<UnchangedRow>)
    requires RowsAligned(year1, year2, unchangedRows)
    ensures forall i :: 0 <= i < |year1| && WithErosion(year1, year2, unchangedRows)[i].erosionKm2.value.Num? ==>
      WithErosion(year1, year2, unchangedRows)[i].erosionKm2.value.v >= 0.0
    ensures forall i :: 0 <= i < |year2| && WithAccretion(year2, year1, unchangedRows)[i].accretionKm2.value.Num? ==>
      WithAccretion(year2, year1, unchangedRows)[i].accretionKm2.value.v >= 0.0
  {
  }

  /** A river extent covering the same ground in both years (each unchanged
      area equal to the aligned year areas) gives zero erosion and accretion
      on every aligned row. */
  lemma UnmovedRiverNoChange(year1: seq<OverlayRow>, year2: seq<OverlayRow>, unchangedRows: seq<UnchangedRow>, i: nat)
    requires i < |year1| && i < |year2| && i < |unchangedRows|
    requires unchangedRows[i].unchangedArea == year1[i].area == year2[i].area
    ensures WithErosion(year1, year2, unchangedRows)[i].erosionKm2 == Some(Num(0.0))
    ensures WithAccretion(year2, year1, unchangedRows)[i].accretionKm2 == Some(Num(0.0))
  {
  }

  /** Alignment is by position, not by grid id: when a cell's river leaves it
      in year 2 the rows shift, the next cell's year 2 row is paired with the
      previous cell's year 1 area, and its accretion is wrong: negative in
      this example, but just as possibly a plausible-looking positive value.
      Year 1's trailing rows get NaN erosion. Here year 1 covers 400 m2 of
      cell 1 and all 900 m2 of cell 2, year 2 only cell 2, and the
      intersection has the one 900 m2 fragment of cell 2. */
  lemma PositionalAlignment()
    ensures var year1 := [OverlayRow(1, 400.0, None, None, None, None, None),
                          OverlayRow(2, 900.0, None, None, None, None, None)];
      var year2 := [OverlayRow(2, 900.0, None, None, None, None, None)];
      var unchangedRows := [UnchangedRow(900.0)];
      && WithAccretion(year2, year1, unchangedRows)[0].gridId == 2
      && WithAccretion(year2, year1, unchangedRows)[0].accretion == Some(Num(-500.0))
      && WithErosion(year1, year2, unchangedRows)[1].erosion == Some(NaN)
  {
  }
}
