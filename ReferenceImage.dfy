/**
 * `generateReferenceImage`: an image of the render size, cleared to the clear colour, then each
 * cell cleared to its colour. Images are indexed [x, y] as the texture accesses are.
 */
module ReferenceImage {
  import opened Geometry
  import opened Colors

  /** The colour of pixel (px, py) after the whole image was cleared and cells 0 .. k - 1 painted in order. */
  function Painted(clearColor: Rgba, cells: seq<Cell>, cellColors: seq<Rgba>, k: nat, px: int, py: int): Rgba
    requires k <= |cells| && |cells| == |cellColors|
  {
    if k == 0 then clearColor
    else if Contains(cells[k - 1], px, py) then cellColors[k - 1]
    else Painted(clearColor, cells, cellColors, k - 1, px, py)
  }

  /** No two of the cells share a pixel. */
  predicate PairwiseDisjoint(cells: seq<Cell>)
  {
    forall i, j :: 0 <= i < |cells| && 0 <= j < |cells| && i != j ==> Disjoint(cells[i], cells[j])
  }

  /**
   * `tcu::clear` of the sub-region (x0, y0, w, h): that rectangle takes the colour, every other
   * pixel keeps its value. The sub-region must lie inside the image, as `tcu::getSubregion` demands.
   */
  method ClearRegion(image: array2<Rgba>, x0: nat, y0: nat, w: nat, h: nat, color: Rgba)
    requires x0 + w <= image.Length0 && y0 + h <= image.Length1
    modifies image
    ensures forall px, py :: 0 <= px < image.Length0 && 0 <= py < image.Length1 ==>
      image[px, py] == if Contains(Cell(x0, y0, w, h), px, py) then color else old(image[px, py])
  {
    var px := x0;
    while px < x0 + w
      invariant x0 <= px <= x0 + w
      invariant forall a, b :: 0 <= a < image.Length0 && 0 <= b < image.Length1 ==>
        image[a, b] == if x0 <= a < px && y0 <= b < y0 + h then color else old(image[a, b])
    {
      var py := y0;
      while py < y0 + h
        invariant y0 <= py <= y0 + h
        invariant forall a, b :: 0 <= a < image.Length0 && 0 <= b < image.Length1 ==>
          image[a, b] == if (x0 <= a < px && y0 <= b < y0 + h) || (a == px && y0 <= b < py) then color
                         else old(image[a, b])
      {
        image[px, py] := color;
        py := py + 1;
      }
      px := px + 1;
    }
  }

  /**
   * `generateReferenceImage`: the source asserts cells.size() == cellColors.size(); every cell
   * must lie inside the render area for its sub-region to exist.
   */
  method GenerateReferenceImage(renderSize: Size, clearColor: Rgba, cells: seq<Cell>, cellColors: seq<Rgba>)
    returns (image: array2<Rgba>)
    requires |cells| == |cellColors|
    requires forall i :: 0 <= i < |cells| ==> WithinArea(cells[i], renderSize)
    ensures fresh(image)
    ensures image.Length0 == renderSize.width && image.Length1 == renderSize.height
    ensures forall px, py :: 0 <= px < image.Length0 && 0 <= py < image.Length1 ==>
      image[px, py] == Painted(clearColor, cells, cellColors, |cells|, px, py)
  {
    image := new Rgba[renderSize.width, renderSize.height];
    ClearRegion(image, 0, 0, renderSize.width, renderSize.height, clearColor);
    var i := 0;
    while i < |cells|
      invariant 0 <= i <= |cells|
      invariant forall px, py :: 0 <= px < image.Length0 && 0 <= py < image.Length1 ==>
        image[px, py] == Painted(clearColor, cells, cellColors, i, px, py)
    {
      var cell := cells[i];
      ClearRegion(image, cell.x, cell.y, cell.width, cell.height, cellColors[i]);
      i := i + 1;
    }
  }

  /**
   * With pairwise disjoint cells, every pixel of cell i ends up in colour i, whichever order
   * the cells were painted in.
   */
  lemma {:induction false} PaintedInsideCell(clearColor: Rgba, cells: seq<Cell>, cellColors: seq<Rgba>,
                                              k: nat, i: nat, px: int, py: int)
    requires k <= |cells| && |cells| == |cellColors|
    requires PairwiseDisjoint(cells)
    requires i < k && Contains(cells[i], px, py)
    ensures Painted(clearColor, cells, cellColors, k, px, py) == cellColors[i]
  {
    if i != k - 1 {
      DisjointNoSharedPixel(cells[i], cells[k - 1], px, py);
      PaintedInsideCell(clearColor, cells, cellColors, k - 1, i, px, py);
    }
  }

  /** A pixel in none of the painted cells keeps the clear colour. */
  lemma {:induction false} PaintedOutsideCells(clearColor: Rgba, cells: seq<Cell>, cellColors: seq<Rgba>,
                                                k: nat, px: int, py: int)
    requires k <= |cells| && |cells| == |cellColors|
    requires forall i :: 0 <= i < k ==> !Contains(cells[i], px, py)
    ensures Painted(clearColor, cells, cellColors, k, px, py) == clearColor
  {
    if k > 0 {
      PaintedOutsideCells(clearColor, cells, cellColors, k - 1, px, py);
    }
  }

  /**
   * Conversely, a pixel that does not show the clear colour lies in some painted cell and shows
   * that cell's colour.
   */
  lemma {:induction false} PaintedComesFromCell(clearColor: Rgba, cells: seq<Cell>, cellColors: seq<Rgba>,
                                                 k: nat, px: int, py: int)
    requires k <= |cells| && |cells| == |cellColors|
    requires Painted(clearColor, cells, cellColors, k, px, py) != clearColor
    ensures exists i :: (0 <= i < k && Contains(cells[i], px, py) &&
                         Painted(clearColor, cells, cellColors, k, px, py) == cellColors[i])
  {
    if !Contains(cells[k - 1], px, py) {
      PaintedComesFromCell(clearColor, cells, cellColors, k - 1, px, py);
    }
  }
}
