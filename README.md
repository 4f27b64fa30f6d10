# River bank erosion and accretion: a Dafny model of the bookkeeping

The QGIS plugin RiverBankErosionAndAccretion measures how a river channel moved between two dates. It covers the study area with a 30-unit fishnet and clips the fishnet to the area. It numbers the cells, then intersects the numbered fishnet with the river extent of each year and intersects the two results to get the area that did not change. From each cell's areas it derives erosion and accretion in km². It groups the cells into stretches of 100 ids and reports the 30 stretches with the most erosion and the 30 with the most accretion.

This project models the discrete part of that pipeline, the part that sits around the geometry library. Geometry is reduced to numbers. A clipped cell or an overlay fragment is its area. The clip and overlay results are given as sequences of records, with one field per table column.

- `Utm` (utm.dfy) and `Decimal` (decimal.dfy): `get_utm_crs`. The zone `int((lon + 180) / 6) + 1` uses Python's truncating `int()`. The code is 326zz north of the equator and 327zz south of it. The result is the string `"EPSG:<code>"`.
- `Fishnet` (fishnet.dfy): the cell enumeration of `create_fishnet_grid`. `np.arange` is modelled in exact arithmetic, and the nested comprehension enumerates cells x-major.
- `Numbering` (numbering.dfy): the in-place `grid_id = 1..N` column.
- `ErosionAccretion` (erosion.dfy): the in-place `erosion`, `accretion` and `*_km2` columns. pandas aligns by row position, and a row that an operand lacks gets NaN.
- `Stretch` (stretch.dfy): the in-place `stretch_id = floor(grid_id / 100)` column, and the dissolve that sums a km² column per stretch. The dissolve is a method with a map-accumulation loop and an emission loop in key order. It is proved equal to the specification function `Dissolved`.
- `Ranking` (ranking.dfy): `nlargest(30, col)` with keep='first'. It is modelled as a ranking on (total descending, position ascending), followed by taking the first 30. Which rows are selected matches keep='first'. For a table of at most 30 rows, pandas leaves the order of equal totals to an unstable sort; the model puts them in table order (see Left out).
- `Analysis` (analysis.dfy): the input guard of `run_analysis`, and the chain from `calculate_erosion_accretion` to the two top-30 tables.
- `Tables` (tables.dfy): the row records. An added column is an `Option` field that stays `None` until the column is added. A float cell is `Num(v)` or `NaN`.

Three behaviours of the code that a reader might not expect:
- `np.arange` over a positive span W with step S has ceil(W/S) points, so the unclipped fishnet has `ceil(W/S) * ceil(H/S)` cells (`Fishnet.FishnetCount`).
- A positive span narrower than the cell still gets one step, so a thin study area still gets a row of cells (`Fishnet.NarrowSpanOneCell`).
- Erosion and accretion align the tables by row position, not by `grid_id`. When a cell's river leaves it, the rows shift: the next cell's year-2 row is paired with the previous cell's year-1 area, so its accretion is wrong. It is negative in the example of `ErosionAccretion.PositionalAlignment`, but can just as well be a plausible-looking positive value. Year 1's trailing rows get NaN erosion.

## Model

| member | source | states |
|---|---|---|
| `Utm.Trunc` | riverbank_erosion_accretion_calculator.py:157 | `int()` of a float truncates toward zero: result within one below a non-negative argument, within one above a negative one |
| `Utm.UtmZone` | riverbank_erosion_accretion_calculator.py:157 | the zone `int((lon + 180) / 6) + 1`: at least 1 for every longitude from -180 on, and at most 60 for every longitude below 180; its band is given by `Utm.UtmZoneBand` |
| `Utm.UtmZoneBand` | riverbank_erosion_accretion_calculator.py:157 | for every longitude from -180 on, the zone z is at least 1 and the longitude lies in its 6-degree band [-180 + 6(z-1), -180 + 6z) |
| `Utm.UtmZoneRange` | riverbank_erosion_accretion_calculator.py:157 | for a longitude in [-180, 180) the zone is in 1..60 |
| `Utm.EpsgCode` | riverbank_erosion_accretion_calculator.py:158-161 | the code 32600 + zone at latitude >= 0 and 32700 + zone below: for a zone in 1..60 the last two digits give back the zone, and the hundreds are 326 exactly in the north and 327 exactly in the south |
| `Utm.EpsgCodeRange` | riverbank_erosion_accretion_calculator.py:157-161 | for a longitude in [-180, 180) the code is in 32601..32660 when latitude >= 0 and 32701..32760 otherwise; its last two digits are the zone, and its hundreds are 326 exactly in the north and 327 exactly in the south |
| `Utm.UtmCrs` | riverbank_erosion_accretion_calculator.py:152-162 | the returned identifier starts with "EPSG:", and for a longitude from -180 on the rest is digits that read back as the code |
| `Utm.UtmCrsFormat` | riverbank_erosion_accretion_calculator.py:162 | the returned identifier is ten characters: "EPSG:" and five digits that read back as the code |
| `Decimal.IntToString` | riverbank_erosion_accretion_calculator.py:162 | str() of the code: non-empty; for a non-negative number all digits that read back as the number, for a negative one a minus sign followed by the digits of its absolute value |
| `Decimal.NatToString` | riverbank_erosion_accretion_calculator.py:162 | the decimal rendering of the code is non-empty, all digits, with no leading zero |
| `Decimal.NatToStringRoundTrip` | riverbank_erosion_accretion_calculator.py:162 | reading the rendered digits back gives the number |
| `Utm.UtmZoneAntimeridian` | riverbank_erosion_accretion_calculator.py:157-159 | as written, longitude 180 gives zone 61 and, north of the equator, EPSG code 32661 |
| `Utm.CorrectedUtmZone` | riverbank_erosion_accretion_calculator.py:157 | with longitude 180 assigned to zone 60, every longitude in the closed range [-180, 180] gets a zone in 1..60 whose band contains it, and the zone agrees with the source below 180 |
| `Fishnet.Arange` | riverbank_erosion_accretion_calculator.py:167-168 | `np.arange(start, stop, step)` holds exactly the points start + i*step that lie below stop, in increasing order of i, none below start |
| `Fishnet.NarrowSpanOneCell` | riverbank_erosion_accretion_calculator.py:167-168 | a positive span no wider than the cell size gives exactly one step |
| `Fishnet.Cells` | riverbank_erosion_accretion_calculator.py:170 | the comprehension `[box(x, y, x + s, y + s) for x in xs for y in ys]`, yielding \|xs\| * \|ys\| boxes; their order is given by `Fishnet.CellsAt` |
| `Fishnet.CellsAt` | riverbank_erosion_accretion_calculator.py:170 | box number i*\|ys\| + j is box(xs[i], ys[j], xs[i] + s, ys[j] + s) |
| `Fishnet.CreateFishnet` | riverbank_erosion_accretion_calculator.py:166-170 | the unclipped fishnet over a bounding box has len(x range) * len(y range) cells; which cell is where is given by `Fishnet.FishnetCellAt` |
| `Fishnet.FishnetCount` | riverbank_erosion_accretion_calculator.py:166-170 | the fishnet has ceil(W/s) * ceil(H/s) cells when both spans are positive and none otherwise |
| `Fishnet.Fishnet300` | riverbank_erosion_accretion_calculator.py:166-170 | a 300 by 300 box with the 30-unit cell gives exactly 100 cells |
| `Fishnet.FishnetCellAt` | riverbank_erosion_accretion_calculator.py:166-170 | cell k is the s-by-s square with lower-left corner (minx + (k / ny) s, miny + (k % ny) s), where ny is the number of y steps, and that corner lies in [minx, maxx) x [miny, maxy) |
| `Fishnet.FishnetCovers` | riverbank_erosion_accretion_calculator.py:166-170 | every grid point (minx + i s, miny + j s) inside the box is the lower-left corner of cell i*ny + j |
| `Fishnet.FishnetXMajor` | riverbank_erosion_accretion_calculator.py:170 | along the fishnet the lower-left x never decreases, and among cells of one x the lower-left y never decreases |
| `Numbering.Numbered` | riverbank_erosion_accretion_calculator.py:143 | the table with its grid_id column set: only that column changes and every row gets an id; which ids is given by `Numbering.NumberedIds` |
| `Numbering.NumberedIds` | riverbank_erosion_accretion_calculator.py:143 | numbering keeps every row and its clipped area; the grid ids strictly increase with the row, and the set of ids is exactly 1..N, with no gaps and no duplicates |
| `Numbering.NumberGrids` | riverbank_erosion_accretion_calculator.py:143 | the in-place column assignment leaves the table equal to the numbered table of its old contents |
| `ErosionAccretion.WithErosion` | riverbank_erosion_accretion_calculator.py:228-234 | year 1 with its erosion and erosion_km2 columns set: same rows, every other column kept; the values are given by `ErosionAccretion.ErosionColumns` |
| `ErosionAccretion.WithAccretion` | riverbank_erosion_accretion_calculator.py:231-235 | year 2 with its accretion and accretion_km2 columns set: same rows, every other column kept; the values are given by `ErosionAccretion.AccretionColumns` |
| `ErosionAccretion.AlignedDiff` | riverbank_erosion_accretion_calculator.py:228-231 | an aligned difference has a value exactly when both operands have that row, and that value plus the unchanged area gives back the minuend's area |
| `ErosionAccretion.ToKm2` | riverbank_erosion_accretion_calculator.py:233-235 | conversion to km² keeps NaN as NaN, and the value times 1,000,000 gives back the area in m² |
| `ErosionAccretion.AddErosionAccretion` | riverbank_erosion_accretion_calculator.py:224-235 | after the column assignments, year 1 holds the erosion columns computed from year 2 and the unchanged table, and year 2 holds the accretion columns computed from year 1 |
| `ErosionAccretion.ErosionColumns` | riverbank_erosion_accretion_calculator.py:228-234 | the erosion columns keep every row and every other column and are present on every row; both have a value exactly where year 2 and the unchanged table both have that row; there erosion is the year-2 area minus the unchanged area, and erosion_km2 is erosion / 1e6 (NaN stays NaN), so erosion_km2 times 1e6 plus the unchanged area is the year-2 area |
| `ErosionAccretion.AccretionColumns` | riverbank_erosion_accretion_calculator.py:231-235 | the same for the accretion columns of year 2: accretion is the year-1 area minus the unchanged area where both have the row, NaN elsewhere, and accretion_km2 is accretion / 1e6 |
| `ErosionAccretion.AlignedChangeNonNegative` | riverbank_erosion_accretion_calculator.py:227-231 | when each unchanged row is no larger than the rows it lines up with, no erosion or accretion value is negative |
| `ErosionAccretion.UnmovedRiverNoChange` | riverbank_erosion_accretion_calculator.py:227-235 | where the unchanged area equals both year areas, erosion_km2 and accretion_km2 are 0 |
| `ErosionAccretion.PositionalAlignment` | riverbank_erosion_accretion_calculator.py:228-231 | alignment is positional: an example where cell 1 loses its river gives NaN erosion on year 1's second row and an accretion of -500 on cell 2 |
| `Stretch.StretchOf` | riverbank_erosion_accretion_calculator.py:243-244 | the stretch k of a grid id is the hundred it falls in: 100k <= id < 100k + 100 |
| `Stretch.StretchMembers` | riverbank_erosion_accretion_calculator.py:243 | a grid id belongs to stretch k exactly when 100k <= id < 100k + 100 (both directions) |
| `Stretch.StretchMonotone` | riverbank_erosion_accretion_calculator.py:243 | stretch ids never decrease as grid ids increase |
| `Stretch.StretchesOfIds` | riverbank_erosion_accretion_calculator.py:243 | the ids 1..N fall into exactly the stretches 0..N/100 |
| `Stretch.WithStretchIds` | riverbank_erosion_accretion_calculator.py:243-244 | the table with stretch_id added: same rows, every other column kept, and each row's stretch k satisfies 100k <= grid_id < 100k + 100 |
| `Stretch.AssignStretchIds` | riverbank_erosion_accretion_calculator.py:243-244 | the in-place column assignment leaves every row as it was with stretch_id = floor(grid_id / 100) added |
| `Stretch.Dissolve` | riverbank_erosion_accretion_calculator.py:247-248 | on a table with stretch_id and the summed column, the grouping pass returns exactly the dissolved table |
| `Stretch.Dissolved` | riverbank_erosion_accretion_calculator.py:247-248 | the dissolved table comes in strictly increasing stretch id, so no stretch appears twice; each row is a stretch present in the table and carries the sum of the column over that stretch |
| `Stretch.DissolvedTotals` | riverbank_erosion_accretion_calculator.py:247-248 | each dissolved row is the stretch of some table row, and its total is the sum of the column over that stretch's rows, NaN counting as nothing |
| `Stretch.DissolvedCoversRows` | riverbank_erosion_accretion_calculator.py:247-248 | every table row's stretch has a dissolved row, so no row is lost |
| `Stretch.DissolvedSum` | riverbank_erosion_accretion_calculator.py:247-248 | the stretch totals add up to the column's sum over all rows |
| `Ranking.NLargest` | riverbank_erosion_accretion_calculator.py:256-260 | nlargest(n) returns min(n, #stretches) rows of the table, in descending order of total; which rows, and ties, are given by `Ranking.NLargestRows`, `Ranking.NLargestOrder` and `Ranking.NLargestLeftOut` |
| `Ranking.NLargestRows` | riverbank_erosion_accretion_calculator.py:256-260 | nlargest(n) returns min(n, #stretches) rows, each a row of the input, no input row twice |
| `Ranking.NLargestOrder` | riverbank_erosion_accretion_calculator.py:256-260 | the selected rows come in descending order of total, and the model puts equal totals in input order (for tables of at most n rows this fixes an order pandas leaves open; see Left out) |
| `Ranking.NLargestLeftOut` | riverbank_erosion_accretion_calculator.py:256-260 | every selected total is >= every left-out total, and a left-out row with an equal total comes later in the input (keep='first') |
| `Ranking.NLargestIdempotent` | riverbank_erosion_accretion_calculator.py:256-260 | under the model's table order for equal totals, applying nlargest(n) to its own result gives that result again (pandas guarantees only the same rows with the same totals in order; see Left out) |
| `Analysis.CheckInputs` | riverbank_erosion_accretion_calculator.py:119-122 | the run starts exactly when both year layers, the study area and a non-empty output folder are given, and it starts with those inputs; otherwise it stops with the warning "Please fill in all fields!" |
| `Analysis.CalculateErosionAccretion` | riverbank_erosion_accretion_calculator.py:224-261 | the year tables end with their change and stretch columns, and the two results are the top-30 rows of the tables dissolved by stretch |
| `Analysis.TopStretchTables` | riverbank_erosion_accretion_calculator.py:246-260 | each top-30 table has at most 30 rows in descending order of total, and each row is a stretch of the year table carrying that stretch's sum |

## Findings

| source | as written | input that shows it | evidently intended | confidence | as-written member | corrected member |
|---|---|---|---|---|---|---|
| riverbank_erosion_accretion_calculator.py:157 | `int((lon + 180) / 6) + 1` gives zone 61 at longitude 180 | a study area whose WGS 84 centroid has longitude 180.0 and latitude >= 0 gets "EPSG:32661", which is WGS 84 / UPS North and not a UTM zone | longitude 180 belongs to zone 60, so zones stay in 1..60 | not executed; low (a centroid exactly on the antimeridian is rare) | `Utm.UtmZoneAntimeridian` | `Utm.CorrectedUtmZone` |

## Left out

- Ranking.NLargestOrder: states that equal totals keep their input order. pandas' nlargest does so only when the table has more than n rows. With at most n rows it sorts with the default unstable quicksort and takes the head, so the relative order of equal totals is not fixed. The model fixes it to input order. Which rows are selected is unaffected.
- Ranking.NLargestIdempotent: the equality rests on the model putting equal totals in table order. In pandas the second nlargest(n) runs on at most n rows. That takes the quicksort path, which may reorder equal totals. pandas guarantees only that the second call returns the same rows, with the same totals in the same order.
- GUI glue: plugin construction, menu and toolbar actions, dialog wiring, the layer-box callbacks, the folder dialog and the message box (lines 19-110, 121). These belong to the host application. A layer box that never reported a layer is modelled as `None`, though the source would then fail with an AttributeError before the guard. A chosen layer counts as present.
- File I/O: `gpd.read_file`, every `to_file`, the output paths and the `print`. The model returns the tables instead of writing them.
- CRS handling: `to_crs`, `.centroid` and `crs.is_geographic` (lines 132-134, 154, 180-181, 195-196) belong to the projection library. The centroid's longitude and latitude are inputs of `Utm`. The switch at lines 132-134 between keeping the layer's CRS and reprojecting is not modelled.
- Polygon geometry: `clip_fishnet` (`gpd.clip`, line 183), `overlay_with_year` and `calculate_unchanged_area` (`gpd.overlay` and `.geometry.area`, lines 210-211, 219-220), and the geometry union inside `dissolve` all belong to the geometry library. Their outputs are taken as given record sequences, and stretch rows carry no geometry. `process_fishnet` and `process_year_data` only chain these geometric stages, so they are not modelled beyond the parts above.
- Row index of the overlay results: the model assumes each overlay result has the positional index 0..n-1 under which pandas aligns the columns.
- Floating point: the model uses exact real arithmetic. It does not capture `np.arange` accumulation error, rounding of the division by 1e6, float rounding of `grid_id / 100` for very large ids, or float sums. NaN is an explicit `Num` case. Sums skip NaN, as pandas' `sum` does.
- Stretch.Dissolve: requires every row to have its stretch_id and the summed column. The source always adds both before dissolving; on a table without them pandas would raise an error, which is not modelled.
