/**
 * `generateGrid`: split the render area into `numCells` equal rectangles laid out
 * row-major, with ceil(sqrt(numCells)) columns and ceil(numCells / columns) rows.
 */
module CellGrid {
  import opened Geometry

  /** Counts up from `c` to the least r with n <= r * r (the integer ceiling square root). */
  function CeilSqrtFrom(n: nat, c: nat): (r: nat)
    requires c == 0 || (c - 1) * (c - 1) < n
    ensures n <= r * r
    ensures r == 0 || (r - 1) * (r - 1) < n
    decreases n - c
  {
    if n <= c * c then c
    else
      assert c < n by {
        if c > 0 { MulLeftMono(1, c, c); }
      }
      CeilSqrtFrom(n, c + 1)
  }

  /**
   * Column count: `deCeilFloatToInt32(deFloatSqrt(numCells))`, the least c with
   * numCells <= c * c.
   */
  function NumCols(numCells: nat): (cols: nat)
    ensures numCells <= cols * cols
    ensures cols == 0 || (cols - 1) * (cols - 1) < numCells
    ensures numCells > 0 ==> cols > 0
  {
    CeilSqrtFrom(numCells, 0)
  }

  /** No smaller column count would do: any d with numCells <= d * d is at least NumCols. */
  lemma NumColsIsLeast(numCells: nat, d: nat)
    requires numCells <= d * d
    ensures NumCols(numCells) <= d
  {
    var c := NumCols(numCells);
    if d < c {
      MulLeftMono(d, c - 1, d);
      MulLeftMono(d, c - 1, c - 1);
      assert false;
    }
  }

  /** Integer ceiling of n / d: the least q with n <= d * q. */
  function CeilDiv(n: nat, d: nat): (q: nat)
    requires d > 0
    ensures n <= d * q
    ensures q == 0 || d * (q - 1) < n
    ensures n > 0 ==> q > 0
  {
    var q := (n + d - 1) / d;
    FloorDivBounds(n + d - 1, d);
    assert d * (q + 1) == d * q + d;
    assert d * (q - 1) == d * q - d;
    q
  }

  /** Truncating division: d * (n / d) <= n < d * (n / d + 1). */
  lemma FloorDivBounds(n: nat, d: nat)
    requires d > 0
    ensures d * (n / d) <= n < d * (n / d + 1)
  {
    var q, r := n / d, n % d;
    assert n == q * d + r && r < d;
    assert d * (q + 1) == q * d + d;
  }

  /** Column and row count and the size of one cell, as `generateGrid` computes them up front. */
  datatype Layout = Layout(cols: nat, rows: nat, cellWidth: nat, cellHeight: nat)

  /**
   * The layout of `numCells` cells on `size`: numCols = ceil(sqrt n), numRows = ceil(n / numCols),
   * rectWidth = size.width / numCols, rectHeight = size.height / numRows.
   */
  function GridLayout(numCells: nat, size: Size): (g: Layout)
    requires numCells > 0
    ensures g.cols == NumCols(numCells) && g.rows == CeilDiv(numCells, g.cols)
    ensures g.cols > 0 && g.rows > 0
    ensures numCells <= g.cols * g.rows
    ensures g.cellWidth == size.width / g.cols && g.cellHeight == size.height / g.rows
  {
    var cols := NumCols(numCells);
    var rows := CeilDiv(numCells, cols);
    Layout(cols, rows, size.width / cols, size.height / rows)
  }

  /**
   * The cells of the layout fit on the render area, and the integer division that sizes them
   * leaves less than one cell's worth of pixels unused per column and per row.
   */
  lemma GridLayoutFits(numCells: nat, size: Size)
    requires numCells > 0
    ensures var g := GridLayout(numCells, size);
      && g.cols * g.cellWidth <= size.width && g.rows * g.cellHeight <= size.height
      && size.width < g.cols * (g.cellWidth + 1) && size.height < g.rows * (g.cellHeight + 1)
  {
    var g := GridLayout(numCells, size);
    FloorDivBounds(size.width, g.cols);
    FloorDivBounds(size.height, g.rows);
  }

  /** Cell i of a row-major layout: column i % cols, row i / cols. */
  function GridCell(i: nat, g: Layout): Cell
    requires g.cols > 0
  {
    Cell((i % g.cols) * g.cellWidth, (i / g.cols) * g.cellHeight, g.cellWidth, g.cellHeight)
  }

  /** The grid `generateGrid(numCells, size)` returns, cell by cell. */
  function Grid(numCells: nat, size: Size): (cells: seq<Cell>)
    requires numCells > 0
    ensures |cells| == numCells
  {
    var g := GridLayout(numCells, size);
    seq(numCells, i requires 0 <= i < numCells => GridCell(i, g))
  }

  /** How the loop moves from cell i - 1 to cell i: next column, or first column of the next row. */
  lemma StepPosition(i: nat, cols: nat)
    requires i > 0 && cols > 0
    ensures i % cols == 0 ==> (i - 1) % cols + 1 == cols && (i - 1) / cols + 1 == i / cols
    ensures i % cols != 0 ==> (i - 1) % cols + 1 == i % cols && (i - 1) / cols == i / cols
  {
    var q, r := (i - 1) / cols, (i - 1) % cols;
    DivModOf(i - 1, q, r, cols);
    if r + 1 == cols {
      assert (q + 1) * cols == q * cols + cols;
      DivModOf(i, q + 1, 0, cols);
    } else {
      DivModOf(i, q, r + 1, cols);
    }
  }

  /**
   * One iteration of the loop: if x and y are the position after cell i - 1, then after the
   * `nextRow` update they are the position of cell i, and x + w is where cell i + 1 would start.
   */
  lemma NextCellPosition(i: nat, cols: nat, w: nat, h: nat, x: nat, y: nat)
    requires cols > 0
    requires i == 0 ==> x == 0 && y == 0
    requires i > 0 ==> x == ((i - 1) % cols + 1) * w && y == ((i - 1) / cols) * h
    ensures var nextRow := i != 0 && i % cols == 0;
      (if nextRow then 0 else x) == (i % cols) * w &&
      (if nextRow then y + h else y) == (i / cols) * h &&
      (i % cols) * w + w == (i % cols + 1) * w
  {
    if i > 0 {
      StepPosition(i, cols);
      if i % cols == 0 {
        assert ((i - 1) / cols) * h + h == ((i - 1) / cols + 1) * h;
      }
    }
  }

  /**
   * `generateGrid`: the loop walks x across a row, and on every multiple of numCols resets x
   * and moves y down one row, appending one cell per iteration.
   */
  method GenerateGrid(numCells: nat, renderSize: Size) returns (cells: seq<Cell>)
    requires numCells > 0
    ensures cells == Grid(numCells, renderSize)
  {
    var g := GridLayout(numCells, renderSize);
    var numCols, rectWidth, rectHeight := g.cols, g.cellWidth, g.cellHeight;
    cells := [];
    var x: nat, y: nat := 0, 0;
    var cellNdx := 0;
    while cellNdx < numCells
      invariant 0 <= cellNdx <= numCells
      invariant |cells| == cellNdx
      invariant forall k :: 0 <= k < cellNdx ==> cells[k] == GridCell(k, g)
      invariant cellNdx == 0 ==> x == 0 && y == 0
      invariant cellNdx > 0 ==> x == ((cellNdx - 1) % numCols + 1) * rectWidth
      invariant cellNdx > 0 ==> y == ((cellNdx - 1) / numCols) * rectHeight
    {
      NextCellPosition(cellNdx, numCols, rectWidth, rectHeight, x, y);
      var nextRow := cellNdx != 0 && cellNdx % numCols == 0;
      if nextRow {
        x := 0;
        y := y + rectHeight;
      }
      cells := cells + [Cell(x, y, rectWidth, rectHeight)];
      x := x + rectWidth;
      cellNdx := cellNdx + 1;
    }
  }

  /** Every cell of the grid lies inside the render area: x + w <= width and y + h <= height. */
  lemma GridWithinArea(numCells: nat, size: Size, i: nat)
    requires 0 < numCells && i < numCells
    ensures WithinArea(Grid(numCells, size)[i], size)
  {
    var g := GridLayout(numCells, size);
    GridLayoutFits(numCells, size);
    CellWithinLayout(i, g);
  }

  /** Cell i of a layout with room for more than i cells ends inside the layout's columns and rows. */
  lemma CellWithinLayout(i: nat, g: Layout)
    requires g.cols > 0 && i < g.cols * g.rows
    ensures GridCell(i, g).x + g.cellWidth <= g.cols * g.cellWidth
    ensures GridCell(i, g).y + g.cellHeight <= g.rows * g.cellHeight
  {
    var col, row := i % g.cols, i / g.cols;
    MulGap(col, g.cols, g.cellWidth);
    RowInRange(i, g.cols, g.rows);
    MulGap(row, g.rows, g.cellHeight);
  }

  /** An index below cols * rows lies in one of the first `rows` rows. */
  lemma RowInRange(i: nat, cols: nat, rows: nat)
    requires cols > 0 && i < cols * rows
    ensures i / cols < rows
  {
    var row := i / cols;
    DivModOf(i, row, i % cols, cols);
    if rows <= row {
      MulLeftMono(rows, row, cols);
      assert false;
    }
  }

  /** a < b puts a * k + k at or below b * k. */
  lemma MulGap(a: nat, b: nat, k: nat)
    requires a < b
    ensures a * k + k <= b * k
  {
    MulLeftMono(a + 1, b, k);
    assert (a + 1) * k == a * k + k;
  }

  /** Two different cells of the grid share no pixel. */
  lemma GridDisjoint(numCells: nat, size: Size, i: nat, j: nat)
    requires 0 < numCells && i < numCells && j < numCells && i != j
    ensures Disjoint(Grid(numCells, size)[i], Grid(numCells, size)[j])
  {
    CellsDisjoint(i, j, GridLayout(numCells, size));
  }

  /** Cells at different indices differ in column or in row, so their rectangles do not overlap. */
  lemma CellsDisjoint(i: nat, j: nat, g: Layout)
    requires g.cols > 0 && i != j
    ensures Disjoint(GridCell(i, g), GridCell(j, g))
  {
    var ci, cj := i % g.cols, j % g.cols;
    if ci < cj {
      MulGap(ci, cj, g.cellWidth);
    } else if cj < ci {
      MulGap(cj, ci, g.cellWidth);
    } else {
      var ri, rj := i / g.cols, j / g.cols;
      SameColumnOtherRow(i, j, g.cols);
      if ri < rj {
        MulGap(ri, rj, g.cellHeight);
      } else {
        MulGap(rj, ri, g.cellHeight);
      }
    }
  }

  /** Two different indices in the same column are in different rows. */
  lemma SameColumnOtherRow(i: nat, j: nat, cols: nat)
    requires cols > 0 && i != j && i % cols == j % cols
    ensures i / cols != j / cols
  {
    var q, r := i / cols, i % cols;
    assert i == q * cols + r;
    assert j == (j / cols) * cols + r;
  }

  /**
   * The inverse of the layout: a pixel lies in cell i exactly when its column is px / w and its
   * row is py / h (for cells of positive size).
   */
  lemma GridCellOfPixel(numCells: nat, size: Size, i: nat, px: nat, py: nat)
    requires 0 < numCells && i < numCells
    requires GridLayout(numCells, size).cellWidth > 0 && GridLayout(numCells, size).cellHeight > 0
    ensures var g := GridLayout(numCells, size);
      Contains(Grid(numCells, size)[i], px, py) <==>
        (px / g.cellWidth == i % g.cols && py / g.cellHeight == i / g.cols)
  {
    var g := GridLayout(numCells, size);
    assert Grid(numCells, size)[i] == GridCell(i, g);
    DivRange(px, i % g.cols, g.cellWidth);
    DivRange(py, i / g.cols, g.cellHeight);
  }

}
