/** Integer rectangles on the render area of the viewport-index test. */
module Geometry {

  /** The render area, `UVec2 renderSize` in the test (x = width, y = height). */
  datatype Size = Size(width: nat, height: nat)

  /** One grid cell, `UVec4(x, y, width, height)`: the top-left corner and the extent. */
  datatype Cell = Cell(x: nat, y: nat, width: nat, height: nat)

  /** Pixel (px, py) lies in the half-open rectangle [x, x + width) x [y, y + height). */
  predicate Contains(c: Cell, px: int, py: int)
  {
    c.x <= px < c.x + c.width && c.y <= py < c.y + c.height
  }

  /** The cell lies wholly inside the render area. */
  predicate WithinArea(c: Cell, size: Size)
  {
    c.x + c.width <= size.width && c.y + c.height <= size.height
  }

  /** No pixel lies in both cells. */
  predicate Disjoint(a: Cell, b: Cell)
  {
    a.x + a.width <= b.x || b.x + b.width <= a.x ||
    a.y + a.height <= b.y || b.y + b.height <= a.y ||
    a.width == 0 || a.height == 0 || b.width == 0 || b.height == 0
  }

  /** `Disjoint` means what it says: no pixel is covered by both cells. */
  lemma DisjointNoSharedPixel(a: Cell, b: Cell, px: int, py: int)
    requires Disjoint(a, b)
    ensures !(Contains(a, px, py) && Contains(b, px, py))
  {
  }

  /** A cell of positive width and height contains its own top-left pixel. */
  lemma CornerPixel(c: Cell)
    requires c.width > 0 && c.height > 0
    ensures Contains(c, c.x, c.y)
  {
  }

  /** Multiplying both sides of a <= b by the same natural number keeps the order. */
  lemma MulLeftMono(a: int, b: int, k: int)
    ensures 0 <= k && a <= b ==> a * k <= b * k
  {
    if 0 <= k && a <= b {
      assert b * k == a * k + (b - a) * k;
    }
  }

  /** p / d == q exactly when q * d <= p < q * d + d. */
  lemma DivRange(p: nat, q: nat, d: nat)
    requires d > 0
    ensures p / d == q <==> q * d <= p < q * d + d
  {
    var a, r := p / d, p % d;
    assert p == a * d + r && 0 <= r < d;
    if q < a {
      MulLeftMono(q + 1, a, d);
    } else if a < q {
      MulLeftMono(a + 1, q, d);
    }
  }

  /** Division is determined by the quotient-remainder decomposition p == q * d + r, 0 <= r < d. */
  lemma DivModOf(p: nat, q: nat, r: nat, d: nat)
    requires d > 0 && r < d && p == q * d + r
    ensures p / d == q && p % d == r
  {
    DivRange(p, q, d);
  }
}
