/** The fishnet: square cells whose lower-left corners step over the study
    area's bounding box, enumerated x-major as the nested comprehension over
    two np.arange ranges does. */
module Fishnet {

  /** The fixed cell size of the analysis, in units of the projected CRS. */
  const CellSize: real := 30.0

  /** shapely's box(minx, miny, maxx, maxy). */
  datatype Box = Box(minx: real, miny: real, maxx: real, maxy: real)

  /** A layer's total_bounds: minx, miny, maxx, maxy. */
  datatype Bounds = Bounds(minx: real, miny: real, maxx: real, maxy: real)

  /** The least integer not below x. */
  function Ceil(x: real): (c: int)
    ensures c as real - 1.0 < x <= c as real
  {
    -((-x).Floor)
  }

  /** The length np.arange(start, stop, step) has: ceil((stop - start) / step),
      or zero when the range is empty. */
  function ArangeLength(start: real, stop: real, step: real): nat
    requires step > 0.0
  {
    if stop <= start then 0 else Ceil((stop - start) / step)
  }

  /** The i-th point of a range with the given start and step. */
  function ArangePoint(start: real, step: real, i: nat): real
  {
    start + i as real * step
  }

  /** np.arange(start, stop, step) in exact arithmetic: exactly the points
      start + i * step that lie below stop, in increasing order of i, none of
      them below start. */
  function Arange(start: real, stop: real, step: real): (r: seq<real>)
    requires step > 0.0
    ensures forall i: nat :: i < |r| <==> ArangePoint(start, step, i) < stop
    ensures forall i :: 0 <= i < |r| ==> r[i] == ArangePoint(start, step, i) && start <= r[i]
  {
    ArangeLengthSpec(start, stop, step);
    seq(ArangeLength(start, stop, step), i requires 0 <= i => ArangePoint(start, step, i))
  }

  /** The i-th point lies below stop exactly when i is below the length. */
  lemma ArangeLengthSpec(start: real, stop: real, step: real)
    requires step > 0.0
    ensures forall i: nat :: i < ArangeLength(start, stop, step) <==> ArangePoint(start, step, i) < stop
  {
    forall i: nat
      ensures i < ArangeLength(start, stop, step) <==> ArangePoint(start, step, i) < stop
    {
      if stop > start {
        var q := (stop - start) / step;
        assert q * step == stop - start;
        assert i < ArangeLength(start, stop, step) <==> (i as real) < q;
        MulMonoIff(i as real, q, step);
      } else {
        assert 0.0 <= i as real * step;
      }
    }
  }

  /** The cells of one x: box(x, y, x + s, y + s) for each y, in order. */
  function XColumnCells(x: real, ys: seq<real>, s: real): seq<Box>
  {
    seq(|ys|, j requires 0 <= j < |ys| => Box(x, ys[j], x + s, ys[j] + s))
  }

  /** [box(x, y, x + s, y + s) for x in xs for y in ys]. */
  function Cells(xs: seq<real>, ys: seq<real>, s: real): (r: seq<Box>)
    ensures |r| == |xs| * |ys|
    decreases |xs|
  {
    if |xs| == 0 then []
    else
      MulPred(|xs|, |ys|);
      XColumnCells(xs[0], ys, s) + Cells(xs[1..], ys, s)
  }

  /** The unclipped fishnet over a bounding box, as create_fishnet_grid builds it. */
  function CreateFishnet(b: Bounds, s: real): (f: seq<Box>)
    requires s > 0.0
    ensures |f| == ArangeLength(b.minx, b.maxx, s) * ArangeLength(b.miny, b.maxy, s)
  {
    Cells(Arange(b.minx, b.maxx, s), Arange(b.miny, b.maxy, s), s)
  }

  /** Cell i * |ys| + j is the box at (xs[i], ys[j]): all cells of one x come
      before those of the next. */
  lemma {:induction false} CellsAt(xs: seq<real>, ys: seq<real>, s: real, i: nat, j: nat)
    requires i < |xs| && j < |ys|
    ensures i * |ys| + j < |Cells(xs, ys, s)|
    ensures Cells(xs, ys, s)[i * |ys| + j] == Box(xs[i], ys[j], xs[i] + s, ys[j] + s)
    decreases i
  {
    var n := |ys|;
    var c := Cells(xs, ys, s);
    assert c == XColumnCells(xs[0], ys, s) + Cells(xs[1..], ys, s);
    if i == 0 {
      assert c[j] == XColumnCells(xs[0], ys, s)[j];
    } else {
      var m := (i - 1) * n + j;
      CellsAt(xs[1..], ys, s, i - 1, j);
      MulPred(i, n);
      assert i * n + j == n + m;
      assert c[n + m] == Cells(xs[1..], ys, s)[m];
    }
  }

  /** The number of cells: ceil(W / s) * ceil(H / s) when both spans are
      positive, and none otherwise. */
  lemma FishnetCount(b: Bounds, s: real)
    requires s > 0.0
    ensures |CreateFishnet(b, s)| ==
      if b.maxx > b.minx && b.maxy > b.miny
      then Ceil((b.maxx - b.minx) / s) * Ceil((b.maxy - b.miny) / s)
      else 0
  {
  }

  /** A positive span no wider than a cell still gives one step, so a box
      narrower than the cell size gets a row of cells rather than none. */
  lemma NarrowSpanOneCell(start: real, stop: real, s: real)
    requires s > 0.0 && start < stop <= start + s
    ensures ArangeLength(start, stop, s) == 1
  {
    DivLeOne(stop - start, s);
  }

  /** A 300 by 300 box with the 30-unit cell gives exactly 100 cells. */
  lemma Fishnet300(x0: real, y0: real)
    ensures |CreateFishnet(Bounds(x0, y0, x0 + 300.0, y0 + 300.0), CellSize)| == 100
  {
    var b := Bounds(x0, y0, x0 + 300.0, y0 + 300.0);
    FishnetCount(b, CellSize);
    assert (b.maxx - b.minx) / CellSize == 10.0;
    assert (b.maxy - b.miny) / CellSize == 10.0;
    assert Ceil(10.0) == 10;
  }

  /** Cell k is the square of side s whose lower-left corner is
      (minx + (k / ny) * s, miny + (k % ny) * s), ny being the number of y
      steps; that corner lies in [minx, maxx) x [miny, maxy). */
  lemma FishnetCellAt(b: Bounds, s: real, k: nat)
    requires s > 0.0 && k < ArangeLength(b.minx, b.maxx, s) * ArangeLength(b.miny, b.maxy, s)
    ensures var f := CreateFishnet(b, s);
      var ny := ArangeLength(b.miny, b.maxy, s);
      && ny > 0
      && f[k] == Box(ArangePoint(b.minx, s, k / ny), ArangePoint(b.miny, s, k % ny),
                     ArangePoint(b.minx, s, k / ny) + s, ArangePoint(b.miny, s, k % ny) + s)
      && b.minx <= f[k].minx < b.maxx
      && b.miny <= f[k].miny < b.maxy
      && f[k].maxx - f[k].minx == s && f[k].maxy - f[k].miny == s
  {
    var xs, ys := Arange(b.minx, b.maxx, s), Arange(b.miny, b.maxy, s);
    FishnetCount(b, s);
    var ny := |ys|;
    var i, j := k / ny, k % ny;
    assert k == i * ny + j;
    MulLtCancel(i, |xs|, ny);
    CellsAt(xs, ys, s, i, j);
  }

  /** Every grid point of the box is the lower-left corner of a cell: the cell
      at index i * ny + j. */
  lemma FishnetCovers(b: Bounds, s: real, i: nat, j: nat)
    requires s > 0.0
    requires ArangePoint(b.minx, s, i) < b.maxx && ArangePoint(b.miny, s, j) < b.maxy
    ensures var f := CreateFishnet(b, s);
      var ny := ArangeLength(b.miny, b.maxy, s);
      && i * ny + j < |f|
      && f[i * ny + j].minx == ArangePoint(b.minx, s, i)
      && f[i * ny + j].miny == ArangePoint(b.miny, s, j)
  {
    var xs, ys := Arange(b.minx, b.maxx, s), Arange(b.miny, b.maxy, s);
    CellsAt(xs, ys, s, i, j);
  }

  /** x-major order: lower-left x never decreases along the fishnet, and
      among cells of one x, lower-left y never decreases. */
  lemma FishnetXMajor(b: Bounds, s: real, k: nat, k': nat)
    requires s > 0.0 && k <= k' < ArangeLength(b.minx, b.maxx, s) * ArangeLength(b.miny, b.maxy, s)
    ensures var f := CreateFishnet(b, s);
      && f[k].minx <= f[k'].minx
      && (f[k].minx == f[k'].minx ==> f[k].miny <= f[k'].miny)
  {
    var f := CreateFishnet(b, s);
    var ny := ArangeLength(b.miny, b.maxy, s);
    FishnetCellAt(b, s, k);
    FishnetCellAt(b, s, k');
    DivMono(k, k', ny);
    CornerOrder(b.minx, b.miny, s, k / ny, k' / ny, k % ny, k' % ny);
  }

  lemma CornerOrder(x0: real, y0: real, s: real, a: nat, a': nat, c: nat, c': nat)
    requires s > 0.0 && a <= a' && (a == a' ==> c <= c')
    ensures ArangePoint(x0, s, a) <= ArangePoint(x0, s, a')
    ensures ArangePoint(x0, s, a) == ArangePoint(x0, s, a') ==> ArangePoint(y0, s, c) <= ArangePoint(y0, s, c')
  {
    MulMonoIff(a' as real, a as real, s);
    if ArangePoint(x0, s, a) == ArangePoint(x0, s, a') {
      RealMulCancel(a as real, a' as real, s);
      MulMonoIff(c' as real, c as real, s);
    }
  }

  lemma DivMono(k: nat, k': nat, n: nat)
    requires n > 0 && k <= k'
    ensures k / n <= k' / n
    ensures k / n == k' / n ==> k % n <= k' % n
  {
    assert (k / n) * n <= k <= k' < (k' / n + 1) * n;
    MulLtCancel(k / n, k' / n + 1, n);
  }

  lemma MulMonoIff(a: real, b: real, s: real)
    requires s > 0.0
    ensures a < b <==> a * s < b * s
  {}

  lemma RealMulCancel(a: real, b: real, s: real)
    requires s > 0.0 && a * s == b * s
    ensures a == b
  {}

  lemma MulLtCancel(a: int, b: int, n: int)
    requires n > 0 && a * n < b * n
    ensures a < b
  {}

  lemma MulPred(i: int, n: int)
    ensures (i - 1) * n + n == i * n
  {}

  lemma DivLeOne(a: real, s: real)
    requires 0.0 < a <= s
    ensures 0.0 < a / s <= 1.0
  {}
}
