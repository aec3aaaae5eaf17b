/**
 * The midpoint ellipse of the ellipse preview (`Canvas.preview_draw_ellipse_midpoint`) and the
 * frame a drag gives it. Region 1 walks from (0, ry) while the slope is shallow; region 2 walks
 * down to the horizontal axis. Each visited offset is plotted in the four quadrants. `rx2` and
 * `ry2` are rx*rx and ry*ry, as in the source.
 */
module Ellipses {
  import opened Geometry

  /** The four `drawPoint` calls of one loop pass, in drawing order. */
  function Quad(c: Point, x: int, y: int): (r: seq<Point>)
    ensures |r| == 4 && r[0] == Point(c.x + x, c.y + y) && r[2] == Point(c.x + x, c.y - y)
  {
    [Point(c.x + x, c.y + y), Point(c.x - x, c.y + y), Point(c.x + x, c.y - y), Point(c.x - x, c.y - y)]
  }

  lemma QuadReflect(c: Point, x: int, y: int, p: Point)
    requires p in Quad(c, x, y)
    ensures MirrorX(c, p) in Quad(c, x, y) && MirrorY(c, p) in Quad(c, x, y)
  {
    var s := Quad(c, x, y);
    var k :| 0 <= k < 4 && s[k] == p;
    if k == 0 {
      assert MirrorX(c, p) == s[1] && MirrorY(c, p) == s[2];
    } else if k == 1 {
      assert MirrorX(c, p) == s[0] && MirrorY(c, p) == s[3];
    } else if k == 2 {
      assert MirrorX(c, p) == s[3] && MirrorY(c, p) == s[0];
    } else {
      assert MirrorX(c, p) == s[2] && MirrorY(c, p) == s[1];
    }
  }

  /** `p` lies no further than `h` rows from the centre row. */
  predicate InRows(c: Point, h: int, p: Point)
  {
    c.y - h <= p.y <= c.y + h
  }

  /** The points one region plots, and the offset it leaves for the next region. */
  datatype Trace = Trace(points: seq<Point>, x: int, y: int)

  /** What is left of region 1: it shrinks by at least `ry2` on every pass. */
  function Budget1(rx2: int, ry2: int, x: int, y: int): int
  {
    rx2 * y - ry2 * x + ry2
  }

  lemma Budget1Drops(rx2: int, ry2: int, x: int, y: int)
    requires rx2 > 0 && ry2 > 0 && 2 * ry2 * x <= 2 * rx2 * y
    ensures 0 <= Budget1(rx2, ry2, x, y)
    ensures Budget1(rx2, ry2, x + 1, y) < Budget1(rx2, ry2, x, y)
    ensures Budget1(rx2, ry2, x + 1, y - 1) < Budget1(rx2, ry2, x, y)
  {
  }

  /**
   * Region 1 from the state (x, y, p): while `2*ry2*x <= 2*rx2*y`, plot (x, y), step x, and keep y
   * while `p < 0`, otherwise step y down, updating `p` as the source does.
   */
  function Region1(c: Point, rx2: int, ry2: int, x: int, y: int, p: int): (t: Trace)
    requires rx2 > 0 && ry2 > 0 && 0 <= x && 0 <= y && (y == 0 ==> x >= 1)
    ensures 0 <= t.y <= y && x <= t.x
    ensures forall q :: q in t.points ==> InRows(c, y, q)
    decreases Budget1(rx2, ry2, x, y)
  {
    if 2 * ry2 * x <= 2 * rx2 * y then
      Budget1Drops(rx2, ry2, x, y);
      if p < 0 then
        var t := Region1(c, rx2, ry2, x + 1, y, p + 2 * ry2 * (x + 1) + ry2);
        Trace(Quad(c, x, y) + t.points, t.x, t.y)
      else
        var t := Region1(c, rx2, ry2, x + 1, y - 1, p + 2 * ry2 * (x + 1) - 2 * rx2 * (y - 1) + ry2);
        Trace(Quad(c, x, y) + t.points, t.x, t.y)
    else Trace([], x, y)
  }

  /**
   * The update region 2 makes when it keeps x: the program's (`AsWritten`), which subtracts
   * `2*rx2*y + rx2`, or the midpoint update (`Corrected`), which adds `rx2 - 2*rx2*y`.
   */
  datatype Update = AsWritten | Corrected

  /** The x-kept change of `P = 4*p`, with `y` the row just left. */
  function KeepX(u: Update, rx2: int, y: int): int
  {
    match u
    case AsWritten => -4 * (2 * rx2 * (y - 1) + rx2)
    case Corrected => 4 * (rx2 - 2 * rx2 * (y - 1))
  }

  /**
   * Region 2 with the float `p` scaled by 4 (`P = 4*p`): while `y >= 0`, plot (x, y), step y
   * down, and keep x while `P > 0`, otherwise step x. Each pass plots one `Quad`.
   */
  function Region2(u: Update, c: Point, rx2: int, ry2: int, x: int, y: int, p: int): (s: seq<Point>)
    ensures forall q :: q in s ==> InRows(c, y, q)
    ensures |s| == 4 * (if y >= 0 then y + 1 else 0)
    decreases y + 1
  {
    if y >= 0 then
      if p > 0 then Quad(c, x, y) + Region2(u, c, rx2, ry2, x, y - 1, p + KeepX(u, rx2, y))
      else Quad(c, x, y) + Region2(u, c, rx2, ry2, x + 1, y - 1, p + 4 * (2 * ry2 * (x + 1) - 2 * rx2 * (y - 1) + rx2))
    else []
  }

  /** The region-2 start value `ry2*(x + 0.5)**2 + rx2*(y - 1)**2 - rx2*ry2`, scaled by 4. */
  function Mid2(rx2: int, ry2: int, x: int, y: int): int
  {
    ry2 * ((2 * x + 1) * (2 * x + 1)) + 4 * rx2 * ((y - 1) * (y - 1)) - 4 * rx2 * ry2
  }

  /** The region-1 start value `ry2 - rx2*ry + rx2//4`. */
  function Start1(rx: int, ry: int): int
    requires rx > 0
  {
    ry * ry - rx * rx * ry + rx * rx / 4
  }

  /**
   * The whole procedure with region 2 under update `u`: nothing for a degenerate radius;
   * otherwise region 1 from (0, ry), then region 2 from where region 1 stopped. The first pass
   * plots (xc, yc+ry) and (xc, yc-ry).
   */
  function EllipseWith(u: Update, c: Point, rx: int, ry: int): (s: seq<Point>)
    ensures rx <= 0 || ry <= 0 ==> s == []
    ensures rx > 0 && ry > 0 ==> |s| >= 4 && s[0] == Point(c.x, c.y + ry) && s[2] == Point(c.x, c.y - ry)
    ensures forall q :: q in s ==> InRows(c, ry, q)
  {
    if rx <= 0 || ry <= 0 then [] else
      var t := Region1(c, rx * rx, ry * ry, 0, ry, Start1(rx, ry));
      t.points + Region2(u, c, rx * rx, ry * ry, t.x, t.y, Mid2(rx * rx, ry * ry, t.x, t.y))
  }

  /** `preview_draw_ellipse_midpoint(painter, xc, yc, rx, ry)` as the program draws it. */
  function Ellipse(c: Point, rx: int, ry: int): (s: seq<Point>)
    ensures rx <= 0 || ry <= 0 ==> s == []
    ensures rx > 0 && ry > 0 ==> |s| >= 4 && s[0] == Point(c.x, c.y + ry) && s[2] == Point(c.x, c.y - ry)
    ensures forall q :: q in s ==> InRows(c, ry, q)
  {
    EllipseWith(AsWritten, c, rx, ry)
  }

  /** The same procedure with the midpoint update in region 2. */
  function CorrectedEllipse(c: Point, rx: int, ry: int): (s: seq<Point>)
    ensures rx <= 0 || ry <= 0 ==> s == []
    ensures rx > 0 && ry > 0 ==> |s| >= 4 && s[0] == Point(c.x, c.y + ry) && s[2] == Point(c.x, c.y - ry)
    ensures forall q :: q in s ==> InRows(c, ry, q)
  {
    EllipseWith(Corrected, c, rx, ry)
  }

  /** The implicit ellipse value `ry2*x^2 + rx2*y^2 - rx2*ry2`: negative inside, positive outside. */
  function Value(rx2: int, ry2: int, x: int, y: int): int
  {
    ry2 * (x * x) + rx2 * (y * y) - rx2 * ry2
  }

  /** 4 times the ellipse value at the region-1 midpoint (x + 1, y - 1/2). */
  function Mid1(rx2: int, ry2: int, x: int, y: int): int
  {
    4 * ry2 * ((x + 1) * (x + 1)) + rx2 * ((2 * y - 1) * (2 * y - 1)) - 4 * rx2 * ry2
  }

  /** The region-1 `p` at the loop head: the midpoint value for the next column, with `rx2` scaled as `rx2//4`. */
  predicate Tracks1(rx2: int, ry2: int, x: int, y: int, p: int)
  {
    p == ry2 * ((x + 1) * (x + 1)) + rx2 * (y * y - y) - rx2 * ry2 + rx2 / 4
  }

  /**
   * The `rx2//4` rounding is harmless: `p < 0` is exactly "the midpoint (x + 1, y - 1/2) is
   * inside", and both region-1 updates keep `Tracks1`.
   */
  lemma Region1Step(rx2: int, ry2: int, x: int, y: int, p: int)
    requires rx2 > 0 && Tracks1(rx2, ry2, x, y, p)
    ensures p < 0 <==> Mid1(rx2, ry2, x, y) < 0
    ensures Tracks1(rx2, ry2, x + 1, y, p + 2 * ry2 * (x + 1) + ry2)
    ensures Tracks1(rx2, ry2, x + 1, y - 1, p + 2 * ry2 * (x + 1) - 2 * rx2 * (y - 1) + ry2)
  {
    var q := ry2 * ((x + 1) * (x + 1)) + rx2 * (y * y - y) - rx2 * ry2;
    assert rx2 == 4 * (rx2 / 4) + rx2 % 4;
    assert Mid1(rx2, ry2, x, y) == 4 * q + rx2 by {
      assert (2 * y - 1) * (2 * y - 1) == 4 * (y * y - y) + 1;
    }
    assert (x + 2) * (x + 2) == (x + 1) * (x + 1) + 2 * (x + 1) + 1;
    assert (y - 1) * (y - 1) - (y - 1) == y * y - y - 2 * (y - 1);
  }

  /** The textbook region 1, deciding on the midpoint value itself. */
  function MidRegion1(c: Point, rx2: int, ry2: int, x: int, y: int): Trace
    requires rx2 > 0 && ry2 > 0 && 0 <= x && 0 <= y && (y == 0 ==> x >= 1)
    decreases Budget1(rx2, ry2, x, y)
  {
    if 2 * ry2 * x <= 2 * rx2 * y then
      Budget1Drops(rx2, ry2, x, y);
      var t := if Mid1(rx2, ry2, x, y) < 0 then MidRegion1(c, rx2, ry2, x + 1, y) else MidRegion1(c, rx2, ry2, x + 1, y - 1);
      Trace(Quad(c, x, y) + t.points, t.x, t.y)
    else Trace([], x, y)
  }

  lemma {:induction false} Region1IsMidpoint(c: Point, rx2: int, ry2: int, x: int, y: int, p: int)
    requires rx2 > 0 && ry2 > 0 && 0 <= x && 0 <= y && (y == 0 ==> x >= 1)
    requires Tracks1(rx2, ry2, x, y, p)
    ensures Region1(c, rx2, ry2, x, y, p) == MidRegion1(c, rx2, ry2, x, y)
    decreases Budget1(rx2, ry2, x, y)
  {
    if 2 * ry2 * x <= 2 * rx2 * y {
      Budget1Drops(rx2, ry2, x, y);
      Region1Step(rx2, ry2, x, y, p);
      var y1 := if p < 0 then y else y - 1;
      var p1 := if p < 0 then p + 2 * ry2 * (x + 1) + ry2 else p + 2 * ry2 * (x + 1) - 2 * rx2 * (y - 1) + ry2;
      var t := Region1(c, rx2, ry2, x + 1, y1, p1);
      assert Region1(c, rx2, ry2, x, y, p) == Trace(Quad(c, x, y) + t.points, t.x, t.y);
      Region1IsMidpoint(c, rx2, ry2, x + 1, y1, p1);
      assert MidRegion1(c, rx2, ry2, x, y) == Trace(Quad(c, x, y) + t.points, t.x, t.y);
    }
  }

  /** Both corrected region-2 updates keep `P` equal to 4 times the value at (x + 1/2, y - 1). */
  lemma Region2Step(rx2: int, ry2: int, x: int, y: int)
    ensures Mid2(rx2, ry2, x, y) + KeepX(Corrected, rx2, y) == Mid2(rx2, ry2, x, y - 1)
    ensures Mid2(rx2, ry2, x, y) + 4 * (2 * ry2 * (x + 1) - 2 * rx2 * (y - 1) + rx2) == Mid2(rx2, ry2, x + 1, y - 1)
  {
    assert (y - 2) * (y - 2) == (y - 1) * (y - 1) - 2 * (y - 1) + 1;
    assert (2 * x + 3) * (2 * x + 3) == (2 * x + 1) * (2 * x + 1) + 8 * (x + 1);
  }

  /** The as-written x-kept update leaves `P` short of the true midpoint value by `8*rx2`. */
  lemma Region2AsWrittenStep(rx2: int, ry2: int, x: int, y: int)
    ensures Mid2(rx2, ry2, x, y) + KeepX(AsWritten, rx2, y) == Mid2(rx2, ry2, x, y - 1) - 8 * rx2
  {
    Region2Step(rx2, ry2, x, y);
  }

  /** The textbook region 2: step x exactly when the midpoint (x + 1/2, y - 1) is inside or on the ellipse. */
  function MidRegion2(c: Point, rx2: int, ry2: int, x: int, y: int): seq<Point>
    decreases y + 1
  {
    if y >= 0 then
      if Mid2(rx2, ry2, x, y) > 0 then Quad(c, x, y) + MidRegion2(c, rx2, ry2, x, y - 1)
      else Quad(c, x, y) + MidRegion2(c, rx2, ry2, x + 1, y - 1)
    else []
  }

  lemma {:induction false} Region2IsMidpoint(c: Point, rx2: int, ry2: int, x: int, y: int, p: int)
    requires p == Mid2(rx2, ry2, x, y)
    ensures Region2(Corrected, c, rx2, ry2, x, y, p) == MidRegion2(c, rx2, ry2, x, y)
    decreases y + 1
  {
    if y >= 0 {
      Region2Step(rx2, ry2, x, y);
      if p > 0 {
        Region2IsMidpoint(c, rx2, ry2, x, y - 1, p + KeepX(Corrected, rx2, y));
      } else {
        Region2IsMidpoint(c, rx2, ry2, x + 1, y - 1, p + 4 * (2 * ry2 * (x + 1) - 2 * rx2 * (y - 1) + rx2));
      }
    }
  }

  /** The corrected ellipse is the textbook midpoint ellipse through both regions. */
  lemma EllipseIsMidpoint(c: Point, rx: int, ry: int)
    requires rx > 0 && ry > 0
    ensures var t := MidRegion1(c, rx * rx, ry * ry, 0, ry);
      CorrectedEllipse(c, rx, ry) == t.points + MidRegion2(c, rx * rx, ry * ry, t.x, t.y)
  {
    assert Tracks1(rx * rx, ry * ry, 0, ry, Start1(rx, ry));
    Region1IsMidpoint(c, rx * rx, ry * ry, 0, ry, Start1(rx, ry));
    var t := Region1(c, rx * rx, ry * ry, 0, ry, Start1(rx, ry));
    Region2IsMidpoint(c, rx * rx, ry * ry, t.x, t.y, Mid2(rx * rx, ry * ry, t.x, t.y));
  }

  lemma {:induction false} Region1Reflect(c: Point, rx2: int, ry2: int, x: int, y: int, p: int, q: Point)
    requires rx2 > 0 && ry2 > 0 && 0 <= x && 0 <= y && (y == 0 ==> x >= 1)
    requires q in Region1(c, rx2, ry2, x, y, p).points
    ensures var s := Region1(c, rx2, ry2, x, y, p).points; MirrorX(c, q) in s && MirrorY(c, q) in s
    decreases Budget1(rx2, ry2, x, y)
  {
    if 2 * ry2 * x <= 2 * rx2 * y {
      Budget1Drops(rx2, ry2, x, y);
      var y1 := if p < 0 then y else y - 1;
      var p1 := if p < 0 then p + 2 * ry2 * (x + 1) + ry2 else p + 2 * ry2 * (x + 1) - 2 * rx2 * (y - 1) + ry2;
      assert Region1(c, rx2, ry2, x, y, p).points == Quad(c, x, y) + Region1(c, rx2, ry2, x + 1, y1, p1).points;
      if q in Quad(c, x, y) {
        QuadReflect(c, x, y, q);
      } else {
        Region1Reflect(c, rx2, ry2, x + 1, y1, p1, q);
      }
    }
  }

  /** Region 2 is symmetric about the centre under either update. */
  lemma {:induction false} Region2Reflect(u: Update, c: Point, rx2: int, ry2: int, x: int, y: int, p: int, q: Point)
    requires q in Region2(u, c, rx2, ry2, x, y, p)
    ensures var s := Region2(u, c, rx2, ry2, x, y, p); MirrorX(c, q) in s && MirrorY(c, q) in s
    decreases y + 1
  {
    if y >= 0 {
      var x1 := if p > 0 then x else x + 1;
      var p1 := if p > 0 then p + KeepX(u, rx2, y) else p + 4 * (2 * ry2 * (x + 1) - 2 * rx2 * (y - 1) + rx2);
      var rest := Region2(u, c, rx2, ry2, x1, y - 1, p1);
      assert Region2(u, c, rx2, ry2, x, y, p) == Quad(c, x, y) + rest;
      if q in Quad(c, x, y) {
        QuadReflect(c, x, y, q);
      } else {
        assert q in rest;
        Region2Reflect(u, c, rx2, ry2, x1, y - 1, p1, q);
        assert MirrorX(c, q) in rest && MirrorY(c, q) in rest;
      }
    }
  }

  /**
   * The ellipse is symmetric left-right and top-bottom about its centre, under either update,
   * so in particular as the program draws it.
   */
  lemma EllipseReflect(u: Update, c: Point, rx: int, ry: int, q: Point)
    requires q in EllipseWith(u, c, rx, ry)
    ensures var s := EllipseWith(u, c, rx, ry); MirrorX(c, q) in s && MirrorY(c, q) in s
  {
    var t := Region1(c, rx * rx, ry * ry, 0, ry, Start1(rx, ry));
    if q in t.points {
      Region1Reflect(c, rx * rx, ry * ry, 0, ry, Start1(rx, ry), q);
    } else {
      Region2Reflect(u, c, rx * rx, ry * ry, t.x, t.y, Mid2(rx * rx, ry * ry, t.x, t.y), q);
    }
  }

  /** Whatever the update, the last pass of region 2 is on the centre row. */
  lemma {:induction false} Region2MeetsAxis(u: Update, c: Point, rx2: int, ry2: int, x: int, y: int, p: int)
    requires y >= 0
    ensures var s := Region2(u, c, rx2, ry2, x, y, p); |s| == 4 * (y + 1) && s[4 * y].y == c.y
    decreases y
  {
    var x1 := if p > 0 then x else x + 1;
    var p1 := if p > 0 then p + KeepX(u, rx2, y) else p + 4 * (2 * ry2 * (x + 1) - 2 * rx2 * (y - 1) + rx2);
    var rest := Region2(u, c, rx2, ry2, x1, y - 1, p1);
    assert Region2(u, c, rx2, ry2, x, y, p) == Quad(c, x, y) + rest;
    if y == 0 {
      assert rest == [];
    } else {
      Region2MeetsAxis(u, c, rx2, ry2, x1, y - 1, p1);
    }
  }

  /** Region 1 never leaves row -1 to region 2, so the ellipse reaches its horizontal axis. */
  lemma EllipseMeetsAxis(u: Update, c: Point, rx: int, ry: int)
    requires rx > 0 && ry > 0
    ensures exists q :: q in EllipseWith(u, c, rx, ry) && q.y == c.y
  {
    var t := Region1(c, rx * rx, ry * ry, 0, ry, Start1(rx, ry));
    var r2 := Region2(u, c, rx * rx, ry * ry, t.x, t.y, Mid2(rx * rx, ry * ry, t.x, t.y));
    Region2MeetsAxis(u, c, rx * rx, ry * ry, t.x, t.y, Mid2(rx * rx, ry * ry, t.x, t.y));
    var q := r2[4 * t.y];
    assert EllipseWith(u, c, rx, ry) == t.points + r2;
    assert q in EllipseWith(u, c, rx, ry);
  }

  /** For rx = 2, ry = 9 region 1 plots only its first pass and hands (1, 8) to region 2, with 4p = 217. */
  lemma TwoNineRegion1(c: Point)
    ensures Start1(2, 9) == 46 && Mid2(4, 81, 1, 8) == 217
    ensures Region1(c, 4, 81, 0, 9, 46) == Trace(Quad(c, 0, 9), 1, 8)
  {
    assert Region1(c, 4, 81, 1, 8, 225) == Trace([], 1, 8);
  }

  /**
   * rx = 2, ry = 9, about any centre: region 2 enters at (1, 8) and keeps x for row 7. The
   * program's update then drives `P` negative and steps to (2, 6); the corrected one stays at
   * (1, 6), which is the pixel nearer the curve. So the program's ellipse is not the midpoint one.
   */
  lemma EllipseTwoNine(c: Point)
    ensures var s := Ellipse(c, 2, 9); |s| > 12 && s[12] == Point(c.x + 2, c.y + 6)
    ensures var s := CorrectedEllipse(c, 2, 9); |s| > 12 && s[12] == Point(c.x + 1, c.y + 6)
    ensures Abs(Value(4, 81, 1, 6)) < Abs(Value(4, 81, 2, 6))
    ensures Ellipse(c, 2, 9) != CorrectedEllipse(c, 2, 9)
  {
    TwoNineRegion1(c);
    assert KeepX(AsWritten, 4, 8) == -240 && KeepX(Corrected, 4, 8) == -208;
    var w := Region2(AsWritten, c, 4, 81, 2, 6, 1097);
    assert w == Quad(c, 2, 6) + Region2(AsWritten, c, 4, 81, 2, 5, 921);
    assert Ellipse(c, 2, 9) == Quad(c, 0, 9) + (Quad(c, 1, 8) + (Quad(c, 1, 7) + w));
    var r := Region2(Corrected, c, 4, 81, 1, 6, -167);
    assert r == Quad(c, 1, 6) + Region2(Corrected, c, 4, 81, 2, 5, 1057);
    assert CorrectedEllipse(c, 2, 9) == Quad(c, 0, 9) + (Quad(c, 1, 8) + (Quad(c, 1, 7) + r));
    assert Ellipse(c, 2, 9)[12] != CorrectedEllipse(c, 2, 9)[12];
  }

  /** The centre and radii the ellipse tool derives from a drag. */
  datatype Frame = Frame(centre: Point, rx: int, ry: int)

  /**
   * From the drag start `s` and the current point `l`: the centre is the floored midpoint and
   * each radius is half the extent, floored. The frame's top-left corner is the drag box's, and
   * its far edges stay inside the box.
   */
  function EllipseFrame(s: Point, l: Point): (f: Frame)
    ensures 2 * f.rx <= Abs(l.x - s.x) < 2 * f.rx + 2 && 2 * f.ry <= Abs(l.y - s.y) < 2 * f.ry + 2
    ensures f.centre.x - f.rx == Min(s.x, l.x) && f.centre.x + f.rx <= Max(s.x, l.x)
    ensures f.centre.y - f.ry == Min(s.y, l.y) && f.centre.y + f.ry <= Max(s.y, l.y)
  {
    Frame(Point(Half(s.x + l.x), Half(s.y + l.y)), Half(Abs(l.x - s.x)), Half(Abs(l.y - s.y)))
  }

  /** Dragging the other way round gives the same ellipse. */
  lemma EllipseFrameSymmetric(s: Point, l: Point)
    ensures EllipseFrame(s, l) == EllipseFrame(l, s)
  {
    assert Abs(l.x - s.x) == Abs(s.x - l.x) && Abs(l.y - s.y) == Abs(s.y - l.y);
  }

  /** Every point of the dragged ellipse, under either update, lies between the rows of the drag's two corners. */
  lemma EllipseInDragRows(u: Update, s: Point, l: Point, q: Point)
    requires var f := EllipseFrame(s, l); q in EllipseWith(u, f.centre, f.rx, f.ry)
    ensures Min(s.y, l.y) <= q.y <= Max(s.y, l.y)
  {
    var f := EllipseFrame(s, l);
    assert InRows(f.centre, f.ry, q);
  }
}
