/** Records of the tables the analysis builds. Geometry is abstracted away: a
    clipped cell or an overlay fragment is represented by its area only. */
module Tables {

  datatype Option<+T> = None | Some(value: T)

  /** A float64 cell of a table: a real value, or NaN where pandas found no
      value aligned with the row. */
  datatype Num = Num(v: real) | NaN

  /** A row of the clipped fishnet. `gridId` is None until the numbering
      column has been added. */
  datatype FishnetRow = FishnetRow(clippedArea: real, gridId: Option<int>)

  /** A row of a year overlay (numbered fishnet intersected with one year's
      river extent): the `grid_id` inherited from the fishnet, the fragment
      `area`, and the columns added later, each None until it is added. */
  datatype OverlayRow = OverlayRow(
    gridId: int,
    area: real,
    erosion: Option<Num>,
    erosionKm2: Option<Num>,
    accretion: Option<Num>,
    accretionKm2: Option<Num>,
    stretchId: Option<int>)

  /** A row of the intersection of the two year overlays. */
  datatype UnchangedRow = UnchangedRow(unchangedArea: real)

  /** A row of a dissolved stretch table: the group key and the summed column. */
  datatype StretchRow = StretchRow(stretchId: int, total: real)

  /** The column a stretch table sums. */
  datatype Column = ErosionKm2 | AccretionKm2
}
