/**
 * The viewport state of `makeGraphicsPipeline`: one viewport per grid cell and one scissor per
 * viewport covering the whole render area.
 */
module Viewports {
  import opened Geometry
  import opened Vertices

  /** `VkViewport`: x, y, width, height and the depth range (all whole numbers here). */
  datatype Viewport = Viewport(x: int, y: int, width: int, height: int, minDepth: int, maxDepth: int)

  /** `VkRect2D`: an offset and an extent. */
  datatype Rect2D = Rect2D(offsetX: int, offsetY: int, width: nat, height: nat)

  /** `makeViewport(x, y, w, h, 0.0, 1.0)` for a cell. */
  function CellViewport(c: Cell): Viewport
  {
    Viewport(c.x, c.y, c.width, c.height, 0, 1)
  }

  /** The scissor `{ {0, 0}, {renderSize.x, renderSize.y} }`. */
  function FullArea(size: Size): Rect2D
  {
    Rect2D(0, 0, size.width, size.height)
  }

  /**
   * The viewport/scissor loop of `makeGraphicsPipeline`: walks the cells and pushes a viewport
   * and a scissor for each. The source asserts numViewports == cells.size().
   */
  method MakeViewportState(renderSize: Size, numViewports: int, cells: seq<Cell>)
    returns (viewports: seq<Viewport>, rectScissors: seq<Rect2D>)
    requires numViewports == |cells|
    ensures |viewports| == numViewports && |rectScissors| == numViewports
    ensures forall k :: 0 <= k < |cells| ==> viewports[k] == CellViewport(cells[k])
    ensures forall k :: 0 <= k < |cells| ==> rectScissors[k] == FullArea(renderSize)
  {
    viewports := [];
    rectScissors := [];
    var it := 0;
    while it < |cells|
      invariant 0 <= it <= |cells|
      invariant |viewports| == it && |rectScissors| == it
      invariant forall k :: 0 <= k < it ==> viewports[k] == CellViewport(cells[k])
      invariant forall k :: 0 <= k < it ==> rectScissors[k] == FullArea(renderSize)
    {
      var viewport := Viewport(cells[it].x, cells[it].y, cells[it].width, cells[it].height, 0, 1);
      viewports := viewports + [viewport];
      var rect := Rect2D(0, 0, renderSize.width, renderSize.height);
      rectScissors := rectScissors + [rect];
      it := it + 1;
    }
  }

  /**
   * The centre (px + 1/2, py + 1/2) of pixel (px, py) lies in the image of the clip square under
   * the viewport transform, between the images of corners (-1, -1) and (1, 1), closed on the
   * top-left edges and open on the bottom-right ones. Coordinates are doubled.
   */
  predicate ViewportCovers(vp: Viewport, px: int, py: int)
  {
    var lo := ToFramebuffer(vp, ClipPos(-1, -1));
    var hi := ToFramebuffer(vp, ClipPos(1, 1));
    lo.x2 <= 2 * px + 1 < hi.x2 && lo.y2 <= 2 * py + 1 < hi.y2
  }

  /** Pixel (px, py) passes the scissor test. */
  predicate ScissorPasses(r: Rect2D, px: int, py: int)
  {
    r.offsetX <= px < r.offsetX + r.width && r.offsetY <= py < r.offsetY + r.height
  }

  /**
   * The pixel centres inside the clip square, as the viewport made from a cell maps it, are
   * exactly the cell's pixels.
   */
  lemma ViewportIsCell(c: Cell, px: int, py: int)
    ensures ViewportCovers(CellViewport(c), px, py) <==> Contains(c, px, py)
  {
  }

  /**
   * The full-area scissor never clips a cell that lies inside the render area: every pixel of
   * the viewport passes the scissor.
   */
  lemma ScissorKeepsCell(c: Cell, size: Size, px: int, py: int)
    requires WithinArea(c, size)
    requires ViewportCovers(CellViewport(c), px, py)
    ensures ScissorPasses(FullArea(size), px, py)
  {
  }

  /** A framebuffer position, doubled so that the half-width offsets of the transform stay whole. */
  datatype Point2 = Point2(x2: int, y2: int)

  /**
   * The viewport transform for a clip-space position: x_f = x + (x_c + 1) * width / 2 and
   * y_f = y + (y_c + 1) * height / 2, returned doubled.
   */
  function ToFramebuffer(vp: Viewport, p: ClipPos): Point2
  {
    Point2(2 * vp.x + (p.x + 1) * vp.width, 2 * vp.y + (p.y + 1) * vp.height)
  }

  /** The four corners of a cell, doubled. */
  function CellCorners(c: Cell): set<Point2>
  {
    {Point2(2 * c.x, 2 * c.y), Point2(2 * (c.x + c.width), 2 * c.y),
     Point2(2 * c.x, 2 * (c.y + c.height)), Point2(2 * (c.x + c.width), 2 * (c.y + c.height))}
  }

  /**
   * Through the viewport made from a cell, the clip square's four corners land exactly on the
   * cell's four corners: the two triangles drawn into viewport k fill cell k.
   */
  lemma ClipSquareOntoCell(c: Cell)
    ensures (set p | p in ClipSquare :: ToFramebuffer(CellViewport(c), p)) == CellCorners(c)
  {
    var vp := CellViewport(c);
    var image := set p | p in ClipSquare :: ToFramebuffer(vp, p);
    assert ToFramebuffer(vp, ClipPos(-1, -1)) == Point2(2 * c.x, 2 * c.y);
    assert ToFramebuffer(vp, ClipPos(1, -1)) == Point2(2 * (c.x + c.width), 2 * c.y);
    assert ToFramebuffer(vp, ClipPos(-1, 1)) == Point2(2 * c.x, 2 * (c.y + c.height));
    assert ToFramebuffer(vp, ClipPos(1, 1)) == Point2(2 * (c.x + c.width), 2 * (c.y + c.height));
    assert ClipPos(-1, -1) in ClipSquare && ClipPos(1, -1) in ClipSquare;
    assert ClipPos(-1, 1) in ClipSquare && ClipPos(1, 1) in ClipSquare;
  }
}
