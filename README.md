# Shader viewport-index test: layout model

This project models the integer layout logic of the Vulkan conformance test
`dEQP-VK.draw.shader_viewport_index.vertex_shader_N`
(`external/vulkancts/modules/vulkan/draw/vktDrawShaderViewportIndexTests.cpp`). The test uses
N viewports, one per rectangle of a grid on a 128 x 128 render area. The vertex shader sends
vertex v to viewport `v / 6`. Each viewport gets two triangles in its own colour. The test then
compares the rendered image with a reference image that it paints itself.

The model covers the parts that decide what the test expects:

- `CellGrid` (`Grid.dfy`): `generateGrid`. The column count is the integer ceiling square
  root of N. The row count is the ceiling of N over the column count. The cells are laid out
  row-major by a loop that moves `x` and `y`. Proved: the loop yields exactly the row-major
  grid; the layout has room for N cells; every cell lies inside the render area; two distinct
  cells share no pixel; and a pixel's column and row pick out its cell.
- `Colors` (`Colors.dfy`): `generateColors` and the 16-entry colour table. Colours are kept in
  integer hundredths of the table's literals. Proved: every two table colours, and each table
  colour and the grey clear colour, differ by more than the 0.02 compare threshold in some
  channel.
- `Vertices` (`Vertices.dfy`): `generateVertices`, the shader rule
  `gl_ViewportIndex = gl_VertexIndex / 6`, the draw of `numViewports * 6` vertices, and
  `sizeInBytes`. Proved: vertex v carries colour `v / 6`; the draw reaches exactly the
  viewports that exist; each group of six vertices is two triangles that tile the clip square;
  and the vertex buffer holds exactly the vertices drawn.
- `Viewports` (`Viewports.dfy`): the viewport/scissor loop of `makeGraphicsPipeline`. Proved:
  the pixel centres that viewport k's transform of the clip square covers are exactly cell k's
  pixels; every scissor is the whole render area and never clips a cell; and the viewport
  transform maps the clip square's corners onto the cell's corners.
- `ReferenceImage` (`ReferenceImage.dfy`): `generateReferenceImage`. It clears a 2D array of
  colours, then clears each cell's sub-region in place. Proved: when cells are disjoint, a pixel
  in cell i gets colour i whatever the painting order; a pixel outside every cell stays the
  clear colour; and a pixel that is not the clear colour lies in a cell.
- `ShaderViewportIndex` (`ShaderViewportIndex.dfy`): one test case, N = 1..16, 128 x 128.
  Every cell is at least 32 x 32. In the reference image a pixel shows colour k exactly when it
  lies in cell k. Each vertex of the draw reaches viewport k, carries colour k and lands on a
  corner of cell k.

## Model

| member | source | states |
|---|---|---|
| CellGrid.CeilSqrtFrom | external/vulkancts/modules/vulkan/draw/vktDrawShaderViewportIndexTests.cpp:487 | counting up from a start below the root, returns the ceiling square root r of n: n <= r * r and (r - 1)^2 < n |
| CellGrid.NumCols | external/vulkancts/modules/vulkan/draw/vktDrawShaderViewportIndexTests.cpp:487 | numCols is the ceiling square root of numCells: numCells <= cols^2, (cols - 1)^2 < numCells, and cols > 0 for a positive count |
| CellGrid.NumColsIsLeast | external/vulkancts/modules/vulkan/draw/vktDrawShaderViewportIndexTests.cpp:487 | no column count smaller than numCols satisfies numCells <= d^2 |
| CellGrid.CeilDiv | external/vulkancts/modules/vulkan/draw/vktDrawShaderViewportIndexTests.cpp:488 | numRows is the ceiling of numCells / numCols: numCells <= q * d and (q - 1) * d < numCells |
| CellGrid.GridLayout | external/vulkancts/modules/vulkan/draw/vktDrawShaderViewportIndexTests.cpp:487-490 | numCols is the ceiling square root NumCols(numCells) and numRows the ceiling CeilDiv(numCells, numCols), both positive, with numCols * numRows >= numCells (room for every cell); each cell is the area's width over numCols by its height over numRows |
| CellGrid.GridLayoutFits | external/vulkancts/modules/vulkan/draw/vktDrawShaderViewportIndexTests.cpp:489-490 | numCols * rectWidth <= width and numRows * rectHeight <= height, and the truncation loses less than one cell per column or row |
| CellGrid.Grid | external/vulkancts/modules/vulkan/draw/vktDrawShaderViewportIndexTests.cpp:492-512 | the grid has exactly numCells cells |
| CellGrid.StepPosition | external/vulkancts/modules/vulkan/draw/vktDrawShaderViewportIndexTests.cpp:500-509 | from cell i - 1 to cell i the column goes up by one, except at a multiple of numCols, where the column resets and the row goes up by one |
| CellGrid.GenerateGrid | external/vulkancts/modules/vulkan/draw/vktDrawShaderViewportIndexTests.cpp:485-513 | the loop that moves x and y returns exactly the row-major grid: numCells cells, cell i at ((i % cols) * w, (i / cols) * h) with size w x h |
| CellGrid.GridWithinArea | external/vulkancts/modules/vulkan/draw/vktDrawShaderViewportIndexTests.cpp:487-510 | every cell satisfies x + w <= width and y + h <= height |
| CellGrid.GridDisjoint | external/vulkancts/modules/vulkan/draw/vktDrawShaderViewportIndexTests.cpp:495-510 | two distinct cells of the grid share no pixel |
| CellGrid.CellsDisjoint | external/vulkancts/modules/vulkan/draw/vktDrawShaderViewportIndexTests.cpp:500-507 | cells at different indices differ in column or row, so their rectangles do not overlap |
| CellGrid.GridCellOfPixel | external/vulkancts/modules/vulkan/draw/vktDrawShaderViewportIndexTests.cpp:498-510 | for cells of positive size, a pixel lies in cell i if and only if px / w is i's column and py / h is i's row |
| Colors.GenerateColors | external/vulkancts/modules/vulkan/draw/vktDrawShaderViewportIndexTests.cpp:515-540 | for numColors <= 16, returns the first numColors table colours in order; every two of them, and each of them and the clear colour, are told apart by the compare threshold |
| Colors.PaletteDistinguishable | external/vulkancts/modules/vulkan/draw/vktDrawShaderViewportIndexTests.cpp:517-535 | the table has 16 entries (MIN_MAX_VIEWPORTS); every pair, and each entry against the clear colour, differs by more than 0.02 in some channel |
| Vertices.GenerateVertices | external/vulkancts/modules/vulkan/draw/vktDrawShaderViewportIndexTests.cpp:606-633 | returns six vertices per colour; vertex i has corner i % 6 of the quad and colour colors[i / 6] |
| Vertices.ViewportIndex | external/vulkancts/modules/vulkan/draw/vktDrawShaderViewportIndexTests.cpp:581 | the shader's viewport index for vertex v is the k with 6k <= v < 6k + 6 |
| Vertices.DrawCount | external/vulkancts/modules/vulkan/draw/vktDrawShaderViewportIndexTests.cpp:718 | the draw's vertex count is a whole number of six-vertex groups, one per viewport |
| Vertices.SizeInBytes | external/vulkancts/modules/vulkan/draw/vktDrawShaderViewportIndexTests.cpp:71-74 | the byte size is element count times element size: divisible by the element size, with exactly as many elements as the vector holds |
| Vertices.ViewportOfVertex | external/vulkancts/modules/vulkan/draw/vktDrawShaderViewportIndexTests.cpp:581 | the shader sends vertex v to viewport k if and only if 6k <= v < 6k + 6 |
| Vertices.DrawStaysInViewports | external/vulkancts/modules/vulkan/draw/vktDrawShaderViewportIndexTests.cpp:718 | a vertex index is below the draw count numViewports * 6 if and only if its viewport index is below numViewports |
| Vertices.StreamRouting | external/vulkancts/modules/vulkan/draw/vktDrawShaderViewportIndexTests.cpp:609-629 | every vertex of the stream is drawn, goes to an existing viewport, and carries that viewport's colour |
| Vertices.QuadTilesClipSquare | external/vulkancts/modules/vulkan/draw/vktDrawShaderViewportIndexTests.cpp:620-627 | the two triangles of each viewport use all four corners of the clip square and share exactly one diagonal |
| Vertices.VertexBufferFitsDraw | external/vulkancts/modules/vulkan/draw/vktDrawShaderViewportIndexTests.cpp:71-74 | the vertex buffer size from sizeInBytes equals the draw count times the vertex size |
| Viewports.MakeViewportState | external/vulkancts/modules/vulkan/draw/vktDrawShaderViewportIndexTests.cpp:331-344 | with numViewports equal to the number of cells, returns numViewports viewports, viewport k with cell k's rectangle and depth range 0..1, and numViewports scissors, each the whole render area |
| Viewports.ViewportIsCell | external/vulkancts/modules/vulkan/draw/vktDrawShaderViewportIndexTests.cpp:340 | the pixels whose centres lie in the clip square as the viewport transform maps it through the viewport made from a cell are exactly the cell's pixels |
| Viewports.ScissorKeepsCell | external/vulkancts/modules/vulkan/draw/vktDrawShaderViewportIndexTests.cpp:342 | the full-area scissor passes every pixel of a viewport whose cell lies in the render area |
| Viewports.ClipSquareOntoCell | external/vulkancts/modules/vulkan/draw/vktDrawShaderViewportIndexTests.cpp:340 | the viewport transform maps the clip square's four corners onto the cell's four corners |
| ReferenceImage.ClearRegion | external/vulkancts/modules/vulkan/draw/vktDrawShaderViewportIndexTests.cpp:557-559 | clearing a sub-region gives its pixels the colour and leaves every other pixel unchanged |
| ReferenceImage.GenerateReferenceImage | external/vulkancts/modules/vulkan/draw/vktDrawShaderViewportIndexTests.cpp:543-563 | with as many colours as cells, returns a new width x height image in which each pixel has the colour of the last painted cell containing it, or the clear colour |
| ReferenceImage.PaintedInsideCell | external/vulkancts/modules/vulkan/draw/vktDrawShaderViewportIndexTests.cpp:554-560 | when the cells are pairwise disjoint, every pixel of cell i has colour i, whatever the painting order |
| ReferenceImage.PaintedOutsideCells | external/vulkancts/modules/vulkan/draw/vktDrawShaderViewportIndexTests.cpp:551-560 | a pixel in no cell keeps the clear colour |
| ReferenceImage.PaintedComesFromCell | external/vulkancts/modules/vulkan/draw/vktDrawShaderViewportIndexTests.cpp:551-560 | a pixel that is not the clear colour lies in some cell and has that cell's colour |
| ShaderViewportIndex.TestCellsAtLeast32 | external/vulkancts/modules/vulkan/draw/vktDrawShaderViewportIndexTests.cpp:825-829 | for 1..16 viewports on 128 x 128, the layout is at most 4 x 4 and every cell is at least 32 x 32 |
| ShaderViewportIndex.TestGridWellFormed | external/vulkancts/modules/vulkan/draw/vktDrawShaderViewportIndexTests.cpp:829 | the cells of a test case are pairwise disjoint and lie inside the render area |
| ShaderViewportIndex.ReferenceColorMarksCell | external/vulkancts/modules/vulkan/draw/vktDrawShaderViewportIndexTests.cpp:858-864 | in the reference image, a pixel shows colour k if and only if it lies in cell k, and every cell shows its colour |
| ShaderViewportIndex.DrawnVertexMatchesReference | external/vulkancts/modules/vulkan/draw/vktDrawShaderViewportIndexTests.cpp:828-864 | every drawn vertex reaches viewport k < N, carries colour k, and lands on a corner of cell k; every pixel of that viewport passes the scissor and has colour k in the reference image |

## Left out

- Floating point: colours are integer hundredths of the table's decimal literals; vertex
  positions are the corner tags -1 and 1; viewport coordinates are whole numbers. The image
  compare (`tcu::floatThresholdCompare`) and the 8-bit quantisation of the rendered image are not
  modelled. Only the 0.02 threshold is used, to state which colours the compare tells apart.
- CellGrid.NumCols: the source computes `deCeilFloatToInt32(deFloatSqrt(float(n)))`. The model
  uses the exact integer ceiling square root. The two agree for the counts the test uses
  (1..16). For very large counts, float rounding of the square root could make them differ.
- CellGrid.CeilDiv: the source computes `deCeilFloatToInt32(float(n) / float(numCols))`. The
  model uses the exact integer ceiling, which agrees for the counts the test uses.
- Integer widths: cell coordinates and sizes are unbounded naturals. The source's 32-bit
  values are bounded by the 128 x 128 render area, so nothing wraps.
- CellGrid.GenerateGrid: requires a positive cell count. With 0 the source divides by a zero
  column count. Its only callers pass 1..16. The source's counts for `generateGrid` and
  `generateColors` are signed `int`s; the model takes naturals, so negative counts (a NaN square
  root in `generateGrid`, a reversed iterator range in `generateColors`) are not modelled.
- ReferenceImage.ClearRegion: requires the sub-region to lie inside the image, which
  `tcu::getSubregion` asserts. tcuTextureUtil is not part of this model. The whole-image
  `tcu::clear` is a ClearRegion over the full image.
- Vulkan object construction is not modelled: `makeBufferCreateInfo`, `makePipelineLayout`,
  `makeImageView`, `makeRenderPass`, `makeFramebuffer`, `bindImage`, `makeImage`,
  `makeImageCreateInfo`, and the rest of `makeGraphicsPipeline`'s structure filling. They only
  fill structures and call the driver.
- The `Renderer` class, `beginCommandBuffer` and `submitCommandsAndWait` are left out. They
  record and submit command buffers and wait on fences, which is GPU I/O. Its draw of
  `numViewports * 6` vertices is kept as `Vertices.DrawCount`.
- In `test`, the feature, limit and extension queries, the colour-buffer allocation and the
  memory flush and invalidate are left out. They are driver I/O.
- The GPU's rasterisation is not modelled. The model shows where each vertex goes and what
  colour it carries, and what the reference image holds. It does not show which pixels the
  rasteriser covers.
- Shader sources in `initPrograms` are left out, apart from the viewport rule
  `gl_ViewportIndex = gl_VertexIndex / 6`. Test registration and logging are left out, apart
  from the 1..16 loop bound (`ShaderViewportIndex.IsTestCase`).
- `vkVirtualInstanceInterface.inl` only declares pure-virtual instance-level entry points and
  has no behaviour, so it is not modelled. The call-interception layer that such an interface
  serves, and its layer chain, are not in the code shown and are not part of this model.
- `PositionColorVertex` is modelled as `Vertices.Vertex`, a position and a colour. Its byte
  layout is not: vktDrawBaseClass.hpp is not part of this model, and the vertex's byte size is a
  parameter of `Vertices.VertexBufferFitsDraw`. The position keeps only x and y; every
  position the test writes has z = 0 and w = 1, which the model does not store.
