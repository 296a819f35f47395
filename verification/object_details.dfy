/**
 * ObjectDetailsExtractor: the single pass of ImageAnalyzer::extractObjectDetails
 * over a row-major object-label grid. For every object id it measures the
 * exact pixel count, the largest per-row count (with the first row that
 * reaches it) and the largest per-column count (with the first column that
 * reaches it).
 */
module ObjectDetailsExtractor {
  import opened Arithmetic

  /** The ObjectDetails record; every field starts at zero. */
  datatype ObjectDetails = ObjectDetails(
    id: nat,
    area: nat,
    width: nat,     // largest number of the object's pixels in one row
    height: nat,    // largest number of the object's pixels in one column
    centerX: nat,   // first column holding `height` pixels
    centerY: nat)   // first row holding `width` pixels

  /** Cell `i` of the label grid exists and carries the label `id`. */
  predicate Holds(grid: seq<nat>, i: nat, id: nat)
  {
    i < |grid| && grid[i] == id
  }

  /** The number of cells of `cells` that carry the label `id`. */
  function Count(cells: seq<nat>, id: nat): (n: nat)
    ensures n <= |cells|
  {
    if cells == [] then 0
    else Count(cells[..|cells| - 1], id) + (if cells[|cells| - 1] == id then 1 else 0)
  }

  /** The number of `id` pixels among the first `x` cells of row `y`. */
  function RowCount(grid: seq<nat>, w: nat, y: nat, x: nat, id: nat): (n: nat)
    ensures n <= x
  {
    if x == 0 then 0
    else RowCount(grid, w, y, x - 1, id) + (if Holds(grid, y * w + x - 1, id) then 1 else 0)
  }

  /** The number of `id` pixels among the first `rows` cells of column `x`. */
  function ColumnCount(grid: seq<nat>, w: nat, x: nat, rows: nat, id: nat): (n: nat)
    ensures n <= rows
  {
    if rows == 0 then 0
    else ColumnCount(grid, w, x, rows - 1, id) + (if Holds(grid, (rows - 1) * w + x, id) then 1 else 0)
  }

  /** The number of `id` pixels in the first `rows` rows. */
  function AreaUpTo(grid: seq<nat>, w: nat, rows: nat, id: nat): nat
  {
    if rows == 0 then 0
    else AreaUpTo(grid, w, rows - 1, id) + RowCount(grid, w, rows - 1, w, id)
  }

  /**
   * The row scan over the first `rows` rows: the pair (largest row count,
   * first row reaching it). It is the maximum, and the earliest row that
   * attains it; when no row holds the id, both stay at zero.
   */
  function RowScan(grid: seq<nat>, w: nat, rows: nat, id: nat): (r: (nat, nat))
    ensures forall y :: 0 <= y < rows ==> RowCount(grid, w, y, w, id) <= r.0
    ensures r.0 == 0 ==> r.1 == 0
    ensures r.0 > 0 ==> r.1 < rows && RowCount(grid, w, r.1, w, id) == r.0
    ensures r.0 > 0 ==> forall y :: 0 <= y < r.1 ==> RowCount(grid, w, y, w, id) < r.0
    ensures r.0 <= w
  {
    if rows == 0 then (0, 0)
    else
      var previous := RowScan(grid, w, rows - 1, id);
      var count := RowCount(grid, w, rows - 1, w, id);
      if previous.0 < count then (count, rows - 1) else previous
  }

  /**
   * The column scan over the first `cols` columns of an `h`-row grid: the
   * pair (largest column count, first column reaching it), with the same
   * meaning as RowScan.
   */
  function ColumnScan(grid: seq<nat>, w: nat, h: nat, cols: nat, id: nat): (r: (nat, nat))
    ensures forall x :: 0 <= x < cols ==> ColumnCount(grid, w, x, h, id) <= r.0
    ensures r.0 == 0 ==> r.1 == 0
    ensures r.0 > 0 ==> r.1 < cols && ColumnCount(grid, w, r.1, h, id) == r.0
    ensures r.0 > 0 ==> forall x :: 0 <= x < r.1 ==> ColumnCount(grid, w, x, h, id) < r.0
    ensures r.0 <= h
  {
    if cols == 0 then (0, 0)
    else
      var previous := ColumnScan(grid, w, h, cols - 1, id);
      var count := ColumnCount(grid, w, cols - 1, h, id);
      if count > previous.0 then (count, cols - 1) else previous
  }

  /** The record the extractor produces for `id` on a `w` x `h` grid. */
  function ObjectDetailsOf(grid: seq<nat>, w: nat, h: nat, id: nat): (d: ObjectDetails)
    ensures d.id == id && d.width <= w && d.height <= h
  {
    var rows := RowScan(grid, w, h, id);
    var cols := ColumnScan(grid, w, h, w, id);
    ObjectDetails(id, AreaUpTo(grid, w, h, id), rows.0, cols.0, cols.1, rows.1)
  }

  /** Cell (x, y) of a `w` x `h` grid lies inside a grid of at least w*h cells. */
  lemma CellInGrid(w: nat, h: nat, x: nat, y: nat)
    requires x < w && y < h
    ensures y * w + x < h * w
  {
    MulMonotone(y + 1, h, w);
    assert (y + 1) * w == y * w + w;
  }

  lemma CountAppend(a: seq<nat>, b: seq<nat>, id: nat)
    ensures Count(a + b, id) == Count(a, id) + Count(b, id)
    decreases |b|
  {
    if b == [] {
      assert a + b == a;
    } else {
      assert (a + b)[..|a + b| - 1] == a + b[..|b| - 1];
      CountAppend(a, b[..|b| - 1], id);
    }
  }

  /** A row count is the count of the id in that row's slice of the grid. */
  lemma {:induction false} RowCountIsSliceCount(grid: seq<nat>, w: nat, y: nat, x: nat, id: nat)
    requires y * w + x <= |grid|
    ensures RowCount(grid, w, y, x, id) == Count(grid[y * w .. y * w + x], id)
  {
    if x > 0 {
      RowCountIsSliceCount(grid, w, y, x - 1, id);
      assert grid[y * w .. y * w + x][..x - 1] == grid[y * w .. y * w + x - 1];
    }
  }

  /**
   * The area the extractor reports is the exact number of grid cells that
   * carry the id.
   */
  lemma {:induction false} AreaIsCellCount(grid: seq<nat>, w: nat, rows: nat, id: nat)
    requires rows * w <= |grid|
    ensures AreaUpTo(grid, w, rows, id) == Count(grid[..rows * w], id)
  {
    if rows > 0 {
      var start := (rows - 1) * w;
      assert start + w == rows * w;
      AreaIsCellCount(grid, w, rows - 1, id);
      RowCountIsSliceCount(grid, w, rows - 1, w, id);
      assert grid[..rows * w] == grid[..start] + grid[start .. start + w];
      CountAppend(grid[..start], grid[start .. start + w], id);
    }
  }

  /**
   * Measures one object id (the body of the loop over ids): the row pass
   * counts pixels per row and per column, the column pass picks the
   * tallest column.
   */
  method MeasureObject(grid: seq<nat>, w: nat, h: nat, id: nat) returns (d: ObjectDetails)
    requires h * w <= |grid|
    ensures d == ObjectDetailsOf(grid, w, h, id)
  {
    var area, width, height, centerX, centerY := 0, 0, 0, 0, 0;
    var currentIndex := 0;
    var columnCounts := new nat[w];
    for i := 0 to w
      invariant forall k :: 0 <= k < i ==> columnCounts[k] == 0
    {
      columnCounts[i] := 0;
    }

    for y := 0 to h
      invariant currentIndex == y * w
      invariant area == AreaUpTo(grid, w, y, id)
      invariant (width, centerY) == RowScan(grid, w, y, id)
      invariant forall k :: 0 <= k < w ==> columnCounts[k] == ColumnCount(grid, w, k, y, id)
    {
      var rowCount;
      rowCount, area, currentIndex := CountRow(grid, w, h, y, id, columnCounts, area, currentIndex);
      if width < rowCount {
        width := rowCount;
        centerY := y;
      }
    }

    height, centerX := TallestColumn(grid, w, h, id, columnCounts);
    d := ObjectDetails(id, area, width, height, centerX, centerY);
  }

  /**
   * The pass over row `y`: counts the row's `id` pixels and adds them to the
   * area and to their columns' counts.
   */
  method CountRow(grid: seq<nat>, w: nat, h: nat, y: nat, id: nat, columnCounts: array<nat>,
                  area: nat, currentIndex: nat)
    returns (rowCount: nat, newArea: nat, nextIndex: nat)
    requires h * w <= |grid| && y < h && currentIndex == y * w && columnCounts.Length == w
    requires forall k :: 0 <= k < w ==> columnCounts[k] == ColumnCount(grid, w, k, y, id)
    modifies columnCounts
    ensures rowCount == RowCount(grid, w, y, w, id) && newArea == area + rowCount
    ensures nextIndex == (y + 1) * w
    ensures forall k :: 0 <= k < w ==> columnCounts[k] == ColumnCount(grid, w, k, y + 1, id)
  {
    rowCount, newArea, nextIndex := 0, area, currentIndex;
    for x := 0 to w
      invariant nextIndex == y * w + x
      invariant rowCount == RowCount(grid, w, y, x, id)
      invariant newArea == area + rowCount
      invariant forall k :: 0 <= k < x ==> columnCounts[k] == ColumnCount(grid, w, k, y + 1, id)
      invariant forall k :: x <= k < w ==> columnCounts[k] == ColumnCount(grid, w, k, y, id)
    {
      CellInGrid(w, h, x, y);
      if grid[nextIndex] == id {
        rowCount := rowCount + 1;
        columnCounts[x] := columnCounts[x] + 1;
        newArea := newArea + 1;
      }
      nextIndex := nextIndex + 1;
    }
  }

  /** The column pass: the first column with the largest count. */
  method TallestColumn(grid: seq<nat>, w: nat, h: nat, id: nat, columnCounts: array<nat>)
    returns (height: nat, centerX: nat)
    requires columnCounts.Length == w
    requires forall k :: 0 <= k < w ==> columnCounts[k] == ColumnCount(grid, w, k, h, id)
    ensures (height, centerX) == ColumnScan(grid, w, h, w, id)
  {
    height, centerX := 0, 0;
    for i := 0 to w
      invariant (height, centerX) == ColumnScan(grid, w, h, i, id)
    {
      if columnCounts[i] > height {
        height := columnCounts[i];
        centerX := i;
      }
    }
  }

  /**
   * ImageAnalyzer::extractObjectDetails: one record per id 1..objectCount,
   * in id order.
   */
  method ExtractObjectDetails(grid: seq<nat>, w: nat, h: nat, objectCount: nat)
    returns (details: seq<ObjectDetails>)
    requires h * w <= |grid|
    ensures |details| == objectCount
    ensures forall i :: 0 <= i < objectCount ==> details[i] == ObjectDetailsOf(grid, w, h, i + 1)
  {
    details := [];
    for objectId := 1 to objectCount + 1
      invariant |details| == objectId - 1
      invariant forall i :: 0 <= i < objectId - 1 ==> details[i] == ObjectDetailsOf(grid, w, h, i + 1)
    {
      var d := MeasureObject(grid, w, h, objectId);
      details := details + [d];
    }
  }
}
