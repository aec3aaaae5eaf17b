/**
 * The rectangle preview (`Canvas.preview_draw_rectangle`): the corners are normalised with
 * min/max, then one loop plots the top and bottom edges column by column and a second loop the
 * left and right edges row by row.
 */
module Rectangles {
  import opened Geometry

  /** `p` is on the border of the box spanned by the opposite corners `a` and `b`. */
  predicate OnBorder(a: Point, b: Point, p: Point)
  {
    Min(a.x, b.x) <= p.x <= Max(a.x, b.x) && Min(a.y, b.y) <= p.y <= Max(a.y, b.y) &&
    (p.x == Min(a.x, b.x) || p.x == Max(a.x, b.x) || p.y == Min(a.y, b.y) || p.y == Max(a.y, b.y))
  }

  /** The first loop from column `x` on: (x, ymin) and (x, ymax) for every x up to `xmax`. */
  function TopBottom(x: int, xmax: int, ymin: int, ymax: int): (s: seq<Point>)
    ensures |s| == 2 * (if x <= xmax then xmax - x + 1 else 0)
    ensures forall p :: p in s <==> x <= p.x <= xmax && (p.y == ymin || p.y == ymax)
    decreases xmax - x + 1
  {
    if x <= xmax then [Point(x, ymin), Point(x, ymax)] + TopBottom(x + 1, xmax, ymin, ymax) else []
  }

  /** The second loop from row `y` on: (xmin, y) and (xmax, y) for every y up to `ymax`. */
  function LeftRight(y: int, ymax: int, xmin: int, xmax: int): (s: seq<Point>)
    ensures |s| == 2 * (if y <= ymax then ymax - y + 1 else 0)
    ensures forall p :: p in s <==> y <= p.y <= ymax && (p.x == xmin || p.x == xmax)
    decreases ymax - y + 1
  {
    if y <= ymax then [Point(xmin, y), Point(xmax, y)] + LeftRight(y + 1, ymax, xmin, xmax) else []
  }

  /**
   * `preview_draw_rectangle(painter, x0, y0, x1, y1)`: two points per column and two per row,
   * and exactly the border pixels of the box.
   */
  function Rectangle(a: Point, b: Point): (s: seq<Point>)
    ensures |s| == 2 * (Max(a.x, b.x) - Min(a.x, b.x) + 1) + 2 * (Max(a.y, b.y) - Min(a.y, b.y) + 1)
    ensures forall p :: p in s <==> OnBorder(a, b, p)
  {
    var xmin, xmax := Min(a.x, b.x), Max(a.x, b.x);
    var ymin, ymax := Min(a.y, b.y), Max(a.y, b.y);
    TopBottom(xmin, xmax, ymin, ymax) + LeftRight(ymin, ymax, xmin, xmax)
  }

  /** Which pair of opposite corners the drag used does not matter: all four give the same points in the same order. */
  lemma RectangleCornersAgree(a: Point, b: Point)
    ensures Rectangle(b, a) == Rectangle(a, b)
    ensures Rectangle(Point(a.x, b.y), Point(b.x, a.y)) == Rectangle(a, b)
  {
    assert Min(b.x, a.x) == Min(a.x, b.x) && Max(b.x, a.x) == Max(a.x, b.x);
    assert Min(b.y, a.y) == Min(a.y, b.y) && Max(b.y, a.y) == Max(a.y, b.y);
  }

  /** The top-left corner is plotted by both loops: first by the top edge, again by the left edge. */
  lemma RectangleCornerTwice(a: Point, b: Point)
    ensures var s := Rectangle(a, b); var w := Max(a.x, b.x) - Min(a.x, b.x) + 1;
      s[0] == Point(Min(a.x, b.x), Min(a.y, b.y)) && s[2 * w] == s[0]
  {
    var xmin, xmax := Min(a.x, b.x), Max(a.x, b.x);
    var ymin, ymax := Min(a.y, b.y), Max(a.y, b.y);
    var top := TopBottom(xmin, xmax, ymin, ymax);
    var left := LeftRight(ymin, ymax, xmin, xmax);
    assert |top| == 2 * (xmax - xmin + 1);
    assert (top + left)[|top|] == left[0];
  }

  /** A 6 × 6 box: 24 plots, its first corner among them twice, and the inside pixel two in from it left alone. */
  lemma SixBox(a: Point, b: Point)
    requires b == Point(a.x + 5, a.y + 5)
    ensures var s := Rectangle(a, b); |s| == 24 && s[0] == s[12] == a && Point(a.x + 2, a.y + 2) !in s
  {
    RectangleCornerTwice(a, b);
    assert Min(a.x, b.x) == a.x && Max(a.x, b.x) == b.x && Min(a.y, b.y) == a.y && Max(a.y, b.y) == b.y;
    assert !OnBorder(a, b, Point(a.x + 2, a.y + 2));
  }

  /** The box from (2, 2) to (7, 7): 24 plots, (2, 2) among them twice, and the inside pixel (4, 4) left alone. */
  lemma RectangleExample()
    ensures var s := Rectangle(Point(2, 2), Point(7, 7)); |s| == 24 && s[0] == s[12] == Point(2, 2) && Point(4, 4) !in s
  {
    SixBox(Point(2, 2), Point(7, 7));
  }
}
