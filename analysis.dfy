/** The analysis entry points: the input check of the Start button and the
    chain that turns the two year overlays and their intersection into the
    top-30 stretch tables. */
module Analysis {
  import opened Tables
  import opened ErosionAccretion
  import opened Stretch
  import opened Ranking

  /** A vector layer chosen in one of the dialog's layer boxes, by its source. */
  datatype Layer = Layer(source: string)

  /** The four inputs of a run, all present. */
  datatype Inputs = Inputs(year1: Layer, year2: Layer, studyArea: Layer, outputFolder: string)

  /** Whether a run starts, or stops with the dialog's warning. */
  datatype Launch = Start(inputs: Inputs) | InputError(message: string)

  const MissingInputs: string := "Please fill in all fields!"

  /** The guard of run_analysis: a layer box with no layer, or an empty
      output folder text, stops the run with the warning before anything is
      read or written; otherwise the run starts with exactly these inputs. */
  function CheckInputs(year1: Option<Layer>, year2: Option<Layer>, studyArea: Option<Layer>, outputFolder: string): (r: Launch)
    ensures r.Start? <==> year1.Some? && year2.Some? && studyArea.Some? && outputFolder != ""
    ensures r.Start? ==>
      && Some(r.inputs.year1) == year1 && Some(r.inputs.year2) == year2
      && Some(r.inputs.studyArea) == studyArea && r.inputs.outputFolder == outputFolder
    ensures r.InputError? ==> r.message == MissingInputs
  {
    match (year1, year2, studyArea)
    case (Some(y1), Some(y2), Some(sa)) =>
      if outputFolder == "" then InputError(MissingInputs) else Start(Inputs(y1, y2, sa, outputFolder))
    case _ => InputError(MissingInputs)
  }

  /** calculate_erosion_accretion with the stages it calls: the erosion and
      accretion columns, the stretch ids, the dissolve by stretch and the
      top-30 selection of each year table. */
  method CalculateErosionAccretion(year1: array<OverlayRow>, year2: array<OverlayRow>, unchangedRows: seq<UnchangedRow>)
    returns (topErosion: seq<StretchRow>, topAccretion: seq<StretchRow>)
    requires year1 != year2
    modifies year1, year2
    ensures year1[..] == WithStretchIds(WithErosion(old(year1[..]), old(year2[..]), unchangedRows))
    ensures year2[..] == WithStretchIds(WithAccretion(old(year2[..]), old(year1[..]), unchangedRows))
    ensures topErosion == NLargest(TopCount, Dissolved(year1[..], ErosionKm2))
    ensures topAccretion == NLargest(TopCount, Dissolved(year2[..], AccretionKm2))
  {
    AddErosionAccretion(year1, year2, unchangedRows);
    AssignStretchIds(year1);
    AssignStretchIds(year2);
    var erosionStretches := Dissolve(year1[..], ErosionKm2);
    var accretionStretches := Dissolve(year2[..], AccretionKm2);
    topErosion := NLargest(TopCount, erosionStretches);
    topAccretion := NLargest(TopCount, accretionStretches);
  }

  /** Each top table has at most 30 rows, each a stretch of its year table,
      largest total first; each total is the stretch's sum of the km2 column. */
  lemma TopStretchTables(rows: seq<OverlayRow>, col: Column)
    ensures |NLargest(TopCount, Dissolved(rows, col))| <= TopCount
    ensures forall i :: 0 <= i < |NLargest(TopCount, Dissolved(rows, col))| ==>
      var e := NLargest(TopCount, Dissolved(rows, col))[i];
      (exists r :: 0 <= r < |rows| && Key(rows[r]) == e.stretchId) && e.total == GroupSum(rows, col, e.stretchId)
    ensures forall i, j :: 0 <= i < j < |NLargest(TopCount, Dissolved(rows, col))| ==>
      NLargest(TopCount, Dissolved(rows, col))[i].total >= NLargest(TopCount, Dissolved(rows, col))[j].total
  {
    var d := Dissolved(rows, col);
    NLargestRows(TopCount, d);
    NLargestOrder(TopCount, d);
    DissolvedTotals(rows, col);
    var top := NLargest(TopCount, d);
    forall i | 0 <= i < |top|
      ensures (exists r :: 0 <= r < |rows| && Key(rows[r]) == top[i].stretchId) &&
              top[i].total == GroupSum(rows, col, top[i].stretchId)
    {
      var p := NLargestPositions(TopCount, d)[i];
      assert top[i] == d[p];
    }
  }
}
