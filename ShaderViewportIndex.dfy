/**
 * What one `vertex_shader_N` case of the viewport-index test expects: N cells on a 128 x 128
 * render area, colour k drawn through viewport k into cell k, and a reference image whose
 * pixels in cell k show colour k and nowhere else.
 */
module ShaderViewportIndex {
  import opened Geometry
  import opened CellGrid
  import opened Colors
  import opened Vertices
  import opened Viewports
  import opened ReferenceImage

  /** The test's `renderSize (128, 128)`. */
  const TestRenderSize: Size := Size(128, 128)

  /** The case `vertex_shader_N` exists for every N from 1 to MIN_MAX_VIEWPORTS. */
  predicate IsTestCase(numViewports: nat)
  {
    1 <= numViewports <= MinMaxViewports
  }

  /** At most 16 cells fit on a 4 x 4 layout, so every cell of a test case is at least 32 x 32. */
  lemma TestCellsAtLeast32(numViewports: nat)
    requires IsTestCase(numViewports)
    ensures var g := GridLayout(numViewports, TestRenderSize);
      g.cols <= 4 && g.rows <= 4 && g.cellWidth >= 32 && g.cellHeight >= 32
  {
    var g := GridLayout(numViewports, TestRenderSize);
    NumColsIsLeast(numViewports, 4);
    // rows <= cols: (rows - 1) * cols < n <= cols * cols
    if g.cols < g.rows {
      MulLeftMono(g.cols, g.rows - 1, g.cols);
      assert false;
    }
    DivAtLeast(128, g.cols, 32);
    DivAtLeast(128, g.rows, 32);
  }

  /** n / d >= q when q * d <= n. */
  lemma DivAtLeast(n: nat, d: nat, q: nat)
    requires 0 < d && q * d <= n
    ensures n / d >= q
  {
    DivRange(n, n / d, d);
    if n / d < q {
      MulLeftMono(n / d + 1, q, d);
      assert false;
    }
  }

  /** The cells of a test case are pairwise disjoint and lie on the render area. */
  lemma TestGridWellFormed(numViewports: nat)
    requires IsTestCase(numViewports)
    ensures PairwiseDisjoint(Grid(numViewports, TestRenderSize))
    ensures forall i :: 0 <= i < numViewports ==> WithinArea(Grid(numViewports, TestRenderSize)[i], TestRenderSize)
  {
    var cells := Grid(numViewports, TestRenderSize);
    forall i, j | 0 <= i < |cells| && 0 <= j < |cells| && i != j
      ensures Disjoint(cells[i], cells[j])
    {
      GridDisjoint(numViewports, TestRenderSize, i, j);
    }
    forall i | 0 <= i < numViewports
      ensures WithinArea(cells[i], TestRenderSize)
    {
      GridWithinArea(numViewports, TestRenderSize, i);
    }
  }

  /**
   * In the reference image of a test case, a pixel shows colour k exactly when it lies in cell k,
   * and every cell shows its colour on at least its top-left pixel.
   */
  lemma ReferenceColorMarksCell(numViewports: nat, k: nat, px: int, py: int)
    requires IsTestCase(numViewports) && k < numViewports
    ensures var cells := Grid(numViewports, TestRenderSize);
      var colors := GenerateColors(numViewports);
      (Painted(ClearColor, cells, colors, numViewports, px, py) == colors[k] <==> Contains(cells[k], px, py)) &&
      Painted(ClearColor, cells, colors, numViewports, cells[k].x, cells[k].y) == colors[k]
  {
    var cells := Grid(numViewports, TestRenderSize);
    var colors := GenerateColors(numViewports);
    TestGridWellFormed(numViewports);
    var shown := Painted(ClearColor, cells, colors, numViewports, px, py);
    if Contains(cells[k], px, py) {
      PaintedInsideCell(ClearColor, cells, colors, numViewports, k, px, py);
    } else if shown == colors[k] {
      assert shown != ClearColor;
      PaintedComesFromCell(ClearColor, cells, colors, numViewports, px, py);
      assert false;
    }
    TestCellsAtLeast32(numViewports);
    CornerPixel(cells[k]);
    PaintedInsideCell(ClearColor, cells, colors, numViewports, k, cells[k].x, cells[k].y);
  }

  /**
   * The whole chain of one test case, for every drawn vertex v: it goes to viewport
   * k = v / 6 < N, it carries colour k, viewport k is cell k and is never clipped by its scissor,
   * the vertex lands on a corner of cell k, and every pixel of cell k in the reference image has
   * colour k.
   */
  lemma DrawnVertexMatchesReference(numViewports: nat, v: nat, px: int, py: int)
    requires IsTestCase(numViewports) && v < DrawCount(numViewports)
    ensures var cells := Grid(numViewports, TestRenderSize);
      var colors := GenerateColors(numViewports);
      var k := ViewportIndex(v);
      k < numViewports &&
      VertexStream(colors)[v].color == colors[k] &&
      ToFramebuffer(CellViewport(cells[k]), VertexStream(colors)[v].position) in CellCorners(cells[k]) &&
      (ViewportCovers(CellViewport(cells[k]), px, py) ==>
         ScissorPasses(FullArea(TestRenderSize), px, py) &&
         Painted(ClearColor, cells, colors, numViewports, px, py) == colors[k])
  {
    var cells := Grid(numViewports, TestRenderSize);
    var colors := GenerateColors(numViewports);
    var k := ViewportIndex(v);
    DrawStaysInViewports(numViewports, v);
    StreamRouting(colors, v);
    var c := cells[k];
    var p := VertexStream(colors)[v].position;
    assert p == QuadCorners[v % 6];
    assert p in ClipSquare;
    ClipSquareOntoCell(c);
    if ViewportCovers(CellViewport(c), px, py) {
      ViewportIsCell(c, px, py);
      GridWithinArea(numViewports, TestRenderSize, k);
      ScissorKeepsCell(c, TestRenderSize, px, py);
      ReferenceColorMarksCell(numViewports, k, px, py);
    }
  }
}
