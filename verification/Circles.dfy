/**
 * The midpoint circle of the circle tool (`Canvas.preview_draw_circle_midpoint` with its helper
 * `_draw_circle_points`). The loop walks the octant from (0, r) towards the diagonal, keeping the
 * decision variable `d`, and plots every offset (x, y) in all eight octants. The drawn points are
 * returned in drawing order.
 */
module Circles {
  import opened Geometry

  /** `_draw_circle_points(painter, xc, yc, x, y)`: the eight reflections of the offset, in drawing order. */
  function Octants(c: Point, x: int, y: int): (r: seq<Point>)
    ensures |r| == 8 && r[0] == Point(c.x + x, c.y + y)
  {
    [Point(c.x + x, c.y + y), Point(c.x - x, c.y + y), Point(c.x + x, c.y - y), Point(c.x - x, c.y - y),
     Point(c.x + y, c.y + x), Point(c.x - y, c.y + x), Point(c.x + y, c.y - x), Point(c.x - y, c.y - x)]
  }

  /** `p` is in the (2r+1)-square around `c`. */
  predicate InSquare(c: Point, r: int, p: Point)
  {
    c.x - r <= p.x <= c.x + r && c.y - r <= p.y <= c.y + r
  }

  /** The eight points of one plotting call are closed under the three reflections about `c`. */
  lemma OctantsReflect(c: Point, x: int, y: int, p: Point)
    requires p in Octants(c, x, y)
    ensures MirrorX(c, p) in Octants(c, x, y) && MirrorY(c, p) in Octants(c, x, y) && SwapXY(c, p) in Octants(c, x, y)
  {
    var s := Octants(c, x, y);
    var k :| 0 <= k < 8 && s[k] == p;
    if k == 0 {
      assert MirrorX(c, p) == s[1] && MirrorY(c, p) == s[2] && SwapXY(c, p) == s[4];
    } else if k == 1 {
      assert MirrorX(c, p) == s[0] && MirrorY(c, p) == s[3] && SwapXY(c, p) == s[6];
    } else if k == 2 {
      assert MirrorX(c, p) == s[3] && MirrorY(c, p) == s[0] && SwapXY(c, p) == s[5];
    } else if k == 3 {
      assert MirrorX(c, p) == s[2] && MirrorY(c, p) == s[1] && SwapXY(c, p) == s[7];
    } else if k == 4 {
      assert MirrorX(c, p) == s[5] && MirrorY(c, p) == s[6] && SwapXY(c, p) == s[0];
    } else if k == 5 {
      assert MirrorX(c, p) == s[4] && MirrorY(c, p) == s[7] && SwapXY(c, p) == s[2];
    } else if k == 6 {
      assert MirrorX(c, p) == s[7] && MirrorY(c, p) == s[4] && SwapXY(c, p) == s[1];
    } else {
      assert MirrorX(c, p) == s[6] && MirrorY(c, p) == s[5] && SwapXY(c, p) == s[3];
    }
  }

  /**
   * The `while x < y` loop from the state (x, y, d): step x, then keep y while `d < 0` and
   * otherwise step y down, updating `d` as the source does, and plot the new offset.
   */
  function Arc(c: Point, r: int, x: int, y: int, d: int): (s: seq<Point>)
    requires 0 <= x && y <= r
    ensures forall p :: p in s ==> InSquare(c, r, p)
    decreases y - x
  {
    if x < y then
      if d < 0 then Octants(c, x + 1, y) + Arc(c, r, x + 1, y, d + 2 * (x + 1) + 1)
      else Octants(c, x + 1, y - 1) + Arc(c, r, x + 1, y - 1, d + 2 * ((x + 1) - (y - 1)) + 1)
    else []
  }

  /** `preview_draw_circle_midpoint(painter, xc, yc, r)`: nothing for r <= 0, else the start offset (0, r) and the loop. */
  function Circle(c: Point, r: int): (s: seq<Point>)
    ensures r <= 0 ==> s == []
    ensures r > 0 ==> Point(c.x, c.y + r) in s && Point(c.x, c.y - r) in s
    ensures r > 0 ==> Point(c.x + r, c.y) in s && Point(c.x - r, c.y) in s
    ensures forall p :: p in s ==> InSquare(c, r, p)
  {
    if r <= 0 then [] else
      var first := Octants(c, 0, r);
      assert first[2] == Point(c.x, c.y - r) && first[4] == Point(c.x + r, c.y) && first[5] == Point(c.x - r, c.y);
      first + Arc(c, r, 0, r, 1 - r)
  }

  lemma {:induction false} ArcReflect(c: Point, r: int, x: int, y: int, d: int, p: Point)
    requires 0 <= x && y <= r && p in Arc(c, r, x, y, d)
    ensures var s := Arc(c, r, x, y, d); MirrorX(c, p) in s && MirrorY(c, p) in s && SwapXY(c, p) in s
    decreases y - x
  {
    if x < y {
      var y1 := if d < 0 then y else y - 1;
      var d1 := if d < 0 then d + 2 * (x + 1) + 1 else d + 2 * ((x + 1) - (y - 1)) + 1;
      assert Arc(c, r, x, y, d) == Octants(c, x + 1, y1) + Arc(c, r, x + 1, y1, d1);
      if p in Octants(c, x + 1, y1) {
        OctantsReflect(c, x + 1, y1, p);
      } else {
        ArcReflect(c, r, x + 1, y1, d1, p);
      }
    }
  }

  /** The drawn circle is closed under all eight reflections about its centre (they are generated by these three). */
  lemma CircleReflect(c: Point, r: int, p: Point)
    requires p in Circle(c, r)
    ensures var s := Circle(c, r); MirrorX(c, p) in s && MirrorY(c, p) in s && SwapXY(c, p) in s
  {
    if p in Octants(c, 0, r) {
      OctantsReflect(c, 0, r, p);
    } else {
      ArcReflect(c, r, 0, r, 1 - r, p);
    }
  }

  /**
   * The midpoint test: the point halfway between the candidates (x, y) and (x, y - 1) lies
   * strictly inside the circle of radius r, i.e. x^2 + (y - 1/2)^2 < r^2, scaled by 4.
   */
  predicate MidpointInside(r: int, x: int, y: int)
  {
    4 * (x * x) + (2 * y - 1) * (2 * y - 1) < 4 * (r * r)
  }

  /** The decision variable at the loop head: the midpoint value for the next column, shifted by 1/4. */
  predicate Tracks(r: int, x: int, y: int, d: int)
  {
    d == (x + 1) * (x + 1) + y * y - y - r * r
  }

  /** `d < 0` is exactly the midpoint test for the next column, and both updates keep `Tracks`. */
  lemma DecisionStep(r: int, x: int, y: int, d: int)
    requires Tracks(r, x, y, d)
    ensures d < 0 <==> MidpointInside(r, x + 1, y)
    ensures Tracks(r, x + 1, y, d + 2 * (x + 1) + 1)
    ensures Tracks(r, x + 1, y - 1, d + 2 * ((x + 1) - (y - 1)) + 1)
  {
    assert 4 * d == 4 * ((x + 1) * (x + 1)) + (2 * y - 1) * (2 * y - 1) - 1 - 4 * (r * r);
    assert (x + 2) * (x + 2) == (x + 1) * (x + 1) + 2 * (x + 1) + 1;
    assert (y - 1) * (y - 1) == y * y - 2 * y + 1;
  }

  /** The textbook midpoint circle, driven by the midpoint test itself instead of `d`. */
  function MidpointArc(c: Point, r: int, x: int, y: int): seq<Point>
    decreases y - x
  {
    if x < y then
      if MidpointInside(r, x + 1, y) then Octants(c, x + 1, y) + MidpointArc(c, r, x + 1, y)
      else Octants(c, x + 1, y - 1) + MidpointArc(c, r, x + 1, y - 1)
    else []
  }

  /** While `d` tracks the midpoint value, the loop draws exactly the textbook midpoint circle. */
  lemma {:induction false} ArcIsMidpoint(c: Point, r: int, x: int, y: int, d: int)
    requires 0 <= x && y <= r && Tracks(r, x, y, d)
    ensures Arc(c, r, x, y, d) == MidpointArc(c, r, x, y)
    decreases y - x
  {
    if x < y {
      DecisionStep(r, x, y, d);
      if d < 0 {
        ArcIsMidpoint(c, r, x + 1, y, d + 2 * (x + 1) + 1);
      } else {
        ArcIsMidpoint(c, r, x + 1, y - 1, d + 2 * ((x + 1) - (y - 1)) + 1);
      }
    }
  }

  /** The whole circle follows the midpoint rule: `d = 1 - r` is the midpoint value at (0, r). */
  lemma CircleIsMidpoint(c: Point, r: int)
    requires r > 0
    ensures Circle(c, r) == Octants(c, 0, r) + MidpointArc(c, r, 0, r)
  {
    assert Tracks(r, 0, r, 1 - r);
    ArcIsMidpoint(c, r, 0, r, 1 - r);
  }

  /**
   * The loop does not keep x <= y to the end: for r = 5 its passes visit (1, 5), (2, 5),
   * (3, 4) and then (4, 3), past the diagonal, so the circle is five octant groups, 40 points,
   * where stopping at the diagonal would give 32.
   */
  lemma CircleLastPassCrosses(c: Point)
    ensures Circle(c, 5) == Octants(c, 0, 5) + Octants(c, 1, 5) + Octants(c, 2, 5) + Octants(c, 3, 4) + Octants(c, 4, 3)
    ensures |Circle(c, 5)| == 40
  {
    assert Arc(c, 5, 4, 3, 6) == [];
    assert Arc(c, 5, 3, 4, 3) == Octants(c, 4, 3) + Arc(c, 5, 4, 3, 6);
    assert Arc(c, 5, 2, 5, 4) == Octants(c, 3, 4) + Arc(c, 5, 3, 4, 3);
    assert Arc(c, 5, 1, 5, -1) == Octants(c, 2, 5) + Arc(c, 5, 2, 5, 4);
    assert Arc(c, 5, 0, 5, -4) == Octants(c, 1, 5) + Arc(c, 5, 1, 5, -1);
  }

  /** The centre and radius the circle tool derives from a drag. */
  datatype Disc = Disc(centre: Point, r: nat)

  lemma SquareMono(a: int, b: int)
    requires 0 <= a <= b
    ensures a * a <= b * b
  {
    MulLeft(a, a, b);
    MulLeft(b, a, b);
  }

  lemma SquareNonneg(a: int)
    ensures a * a >= 0
  {
    if a >= 0 {
      MulLeft(a, 0, a);
    } else {
      MulLeft(-a, 0, -a);
      assert (-a) * (-a) == a * a;
    }
  }

  /**
   * The squared length of the drag from `s` to `e`, `dx**2 + dy**2`: zero only for an empty drag,
   * and between the square of the longer side and twice that square.
   */
  function SquaredLength(s: Point, e: Point): (n: nat)
    ensures n == 0 <==> s == e
    ensures var m := Max(Abs(e.x - s.x), Abs(e.y - s.y)); m * m <= n <= 2 * (m * m)
  {
    SumOfSquares(e.x - s.x, e.y - s.y);
    (e.x - s.x) * (e.x - s.x) + (e.y - s.y) * (e.y - s.y)
  }

  lemma SumOfSquares(dx: int, dy: int)
    ensures var n, m := dx * dx + dy * dy, Max(Abs(dx), Abs(dy)); 0 <= m * m <= n <= 2 * (m * m) && (n == 0 <==> dx == 0 && dy == 0)
  {
    var a, b := Abs(dx), Abs(dy);
    assert a * a == dx * dx && b * b == dy * dy;
    SquareNonneg(a);
    SquareNonneg(b);
    SquareMono(a, Max(a, b));
    SquareMono(b, Max(a, b));
    if a > 0 { SquareMono(1, a); }
    if b > 0 { SquareMono(1, b); }
  }

  /** The squared length does not depend on the direction of the drag. */
  lemma SquaredLengthSymmetric(s: Point, e: Point)
    ensures SquaredLength(s, e) == SquaredLength(e, s)
  {
    assert (e.x - s.x) * (e.x - s.x) == (s.x - e.x) * (s.x - e.x);
    assert (e.y - s.y) * (e.y - s.y) == (s.y - e.y) * (s.y - e.y);
  }

  /** Rounding an integer root `t` of `n` down to an even number 2h keeps n between that square and the next even one. */
  lemma HalfRoot(n: int, t: nat, h: int)
    requires t * t <= n < (t + 1) * (t + 1)
    requires 2 * h <= t < 2 * h + 2
    ensures (2 * h) * (2 * h) <= n < (2 * h + 2) * (2 * h + 2)
  {
    SquareMono(2 * h, t);
    SquareMono(t + 1, 2 * h + 2);
  }

  /**
   * From the drag start `s` and the point `e`: the centre is the floored midpoint, and the
   * radius is half the integer length of the drag, floored, so the diameter 2r is at most the
   * drag length and within two of it.
   */
  function CircleFrame(s: Point, e: Point): (f: Disc)
    ensures 2 * f.centre.x <= s.x + e.x < 2 * f.centre.x + 2 && 2 * f.centre.y <= s.y + e.y < 2 * f.centre.y + 2
    ensures (2 * f.r) * (2 * f.r) <= SquaredLength(s, e) < (2 * f.r + 2) * (2 * f.r + 2)
  {
    var n := SquaredLength(s, e);
    var t := IntSqrt(n);
    var h := Half(t);
    HalfRoot(n, t, h);
    Disc(Point(Half(s.x + e.x), Half(s.y + e.y)), h)
  }

  /** Dragging the other way round gives the same circle. */
  lemma CircleFrameSymmetric(s: Point, e: Point)
    ensures CircleFrame(s, e) == CircleFrame(e, s)
  {
    SquaredLengthSymmetric(s, e);
  }
}
