/**
 * The integer Bresenham line that the canvas uses to preview the line tool
 * (`Canvas.preview_draw_line_midpoint`). The loop draws a point, stops once it
 * stands on the end point, and otherwise steps x and/or y according to the
 * error term `err`, which starts at `dx - dy`. Here the drawn points are the
 * returned sequence, in drawing order.
 *
 * The model has two layers. `Steps` runs the loop on the integers alone: the
 * current point is kept as the number of steps `a` and `b` taken along x and y.
 * `Line` then turns every step pair into the pixel it stands for.
 */
module Lines {
  import opened Geometry

  /** The source's `sx`/`sy`: +1 when the start lies before the end, otherwise -1 (also when equal). */
  function Dir(from: int, to: int): int
  {
    if from < to then 1 else -1
  }

  /** The coordinate reached after `k` steps of size `Dir(from, to)` from `from`. */
  function Coord(from: int, to: int, k: int): int
  {
    if from < to then from + k else from - k
  }

  /** Facts about one axis of the walk while 0 <= k <= |to - from|. */
  lemma CoordFacts(from: int, to: int, k: int)
    requires 0 <= k <= Abs(to - from)
    ensures Coord(from, to, k + 1) == Coord(from, to, k) + Dir(from, to)
    ensures Min(from, to) <= Coord(from, to, k) <= Max(from, to)
    ensures Coord(from, to, k) == to <==> k == Abs(to - from)
    ensures Coord(from, to, 0) == from
  {
  }

  /** No steps stay at the start; |to - from| steps reach the end. */
  lemma CoordEnds(from: int, to: int)
    ensures Coord(from, to, 0) == from && Coord(from, to, Abs(to - from)) == to
  {
  }

  /** The loop variables: steps taken along x and along y, and the error term. */
  datatype Cursor = Cursor(a: int, b: int, err: int)

  /** The error term expressed through the steps taken so far. */
  function ErrAfter(dx: int, dy: int, a: int, b: int): int
  {
    dx * (b + 1) - dy * (a + 1)
  }

  /**
   * The loop invariant: neither axis has stepped beyond the end point, and `err` has
   * accumulated `-dy` per x step and `+dx` per y step.
   */
  predicate OnTrack(dx: int, dy: int, c: Cursor)
  {
    0 <= c.a <= dx && 0 <= c.b <= dy && c.err == ErrAfter(dx, dy, c.a, c.b)
  }

  /** The two facts about `err` that keep the walk from overshooting either end coordinate. */
  lemma NoOvershoot(dx: int, dy: int, a: int, b: int)
    requires 0 <= a <= dx && 0 <= b <= dy
    ensures a == dx && b < dy ==> 2 * ErrAfter(dx, dy, a, b) <= -dy
    ensures b == dy && a < dx ==> 2 * ErrAfter(dx, dy, a, b) >= dx
  {
    if a == dx && b < dy {
      MulLeft(dx, b + 1, dy);
    }
    if b == dy && a < dx {
      MulLeft(dy, a + 1, dx);
    }
  }

  /** An x step subtracts dy from the error term and a y step adds dx. */
  lemma ErrShift(dx: int, dy: int, a: int, b: int)
    ensures ErrAfter(dx, dy, a + 1, b) == ErrAfter(dx, dy, a, b) - dy
    ensures ErrAfter(dx, dy, a, b + 1) == ErrAfter(dx, dy, a, b) + dx
    ensures ErrAfter(dx, dy, a + 1, b + 1) == ErrAfter(dx, dy, a, b) - dy + dx
  {
  }

  /** The error update of one pass, from the two step decisions `2*err > -dy` and `2*err < dx`. */
  function NextErr(dx: int, dy: int, err: int): int
  {
    (if 2 * err > -dy then err - dy else err) + (if 2 * err < dx then dx else 0)
  }

  /** One pass may step x, y or both, and always steps at least one of them. */
  predicate Move(u: Cursor, v: Cursor)
  {
    && (v.a == u.a || v.a == u.a + 1)
    && (v.b == u.b || v.b == u.b + 1)
    && v.a + v.b > u.a + u.b
  }

  /** The loop body after `drawPoint`, when the cursor is not yet on the end point. */
  function Advance(dx: int, dy: int, c: Cursor): (n: Cursor)
    requires OnTrack(dx, dy, c) && !(c.a == dx && c.b == dy)
    ensures OnTrack(dx, dy, n) && Move(c, n)
    ensures n.err == NextErr(dx, dy, c.err)
    ensures n.a == c.a + 1 <==> 2 * c.err > -dy
    ensures n.b == c.b + 1 <==> 2 * c.err < dx
  {
    NoOvershoot(dx, dy, c.a, c.b);
    ErrShift(dx, dy, c.a, c.b);
    Cursor(if 2 * c.err > -dy then c.a + 1 else c.a,
           if 2 * c.err < dx then c.b + 1 else c.b,
           NextErr(dx, dy, c.err))
  }

  /**
   * The cursors the loop passes through from `c` on, one per drawn point. The recursive
   * call spells out `Advance` (see `StepsCons`) so that walks between given points unfold
   * by plain evaluation.
   */
  function Steps(dx: int, dy: int, c: Cursor): (r: seq<Cursor>)
    requires OnTrack(dx, dy, c)
    ensures |r| >= 1 && r[0] == c && r[|r| - 1].a == dx && r[|r| - 1].b == dy
    decreases dx - c.a + dy - c.b
  {
    if c.a == dx && c.b == dy then [c]
    else
      NoOvershoot(dx, dy, c.a, c.b);
      ErrShift(dx, dy, c.a, c.b);
      [c] + Steps(dx, dy, Cursor(if 2 * c.err > -dy then c.a + 1 else c.a,
                                 if 2 * c.err < dx then c.b + 1 else c.b,
                                 (if 2 * c.err > -dy then c.err - dy else c.err) + (if 2 * c.err < dx then dx else 0)))
  }

  /** The cursor `Steps` recurses on is the one `Advance` computes. */
  lemma AdvanceSpelled(dx: int, dy: int, c: Cursor)
    requires OnTrack(dx, dy, c) && !(c.a == dx && c.b == dy)
    ensures Advance(dx, dy, c) == Cursor(if 2 * c.err > -dy then c.a + 1 else c.a,
                                         if 2 * c.err < dx then c.b + 1 else c.b,
                                         (if 2 * c.err > -dy then c.err - dy else c.err) + (if 2 * c.err < dx then dx else 0))
  {
  }

  /** The pass keeps the invariant (the fact `Steps` needs for its recursive call). */
  lemma NextOnTrack(dx: int, dy: int, c: Cursor)
    requires OnTrack(dx, dy, c) && !(c.a == dx && c.b == dy)
    ensures OnTrack(dx, dy, Cursor(if 2 * c.err > -dy then c.a + 1 else c.a,
                                   if 2 * c.err < dx then c.b + 1 else c.b,
                                   (if 2 * c.err > -dy then c.err - dy else c.err) + (if 2 * c.err < dx then dx else 0)))
  {
    NoOvershoot(dx, dy, c.a, c.b);
    ErrShift(dx, dy, c.a, c.b);
  }

  /** One unfolding of `Steps`, written exactly as its body recurses. */
  lemma StepsSpelled(dx: int, dy: int, c: Cursor)
    requires OnTrack(dx, dy, c) && !(c.a == dx && c.b == dy)
    requires OnTrack(dx, dy, Cursor(if 2 * c.err > -dy then c.a + 1 else c.a,
                                   if 2 * c.err < dx then c.b + 1 else c.b,
                                   (if 2 * c.err > -dy then c.err - dy else c.err) + (if 2 * c.err < dx then dx else 0)))
    ensures Steps(dx, dy, c) == [c] + Steps(dx, dy, Cursor(if 2 * c.err > -dy then c.a + 1 else c.a,
                                                           if 2 * c.err < dx then c.b + 1 else c.b,
                                                           (if 2 * c.err > -dy then c.err - dy else c.err) + (if 2 * c.err < dx then dx else 0)))
  {
  }

  /** One pass of the loop, as a sequence identity. */
  lemma StepsCons(dx: int, dy: int, c: Cursor)
    requires OnTrack(dx, dy, c) && !(c.a == dx && c.b == dy)
    ensures Steps(dx, dy, c) == [c] + Steps(dx, dy, Advance(dx, dy, c))
  {
    AdvanceSpelled(dx, dy, c);
    NextOnTrack(dx, dy, c);
    StepsSpelled(dx, dy, c);
  }

  /** Every cursor of the walk keeps the invariant and consecutive cursors are one move apart. */
  lemma {:induction false} StepsShape(dx: int, dy: int, c: Cursor)
    requires OnTrack(dx, dy, c)
    ensures forall k :: 0 <= k < |Steps(dx, dy, c)| ==> OnTrack(dx, dy, Steps(dx, dy, c)[k])
    ensures forall k :: 0 <= k < |Steps(dx, dy, c)| - 1 ==> Move(Steps(dx, dy, c)[k], Steps(dx, dy, c)[k + 1])
    decreases dx - c.a + dy - c.b
  {
    if !(c.a == dx && c.b == dy) {
      StepsCons(dx, dy, c);
      StepsShape(dx, dy, Advance(dx, dy, c));
    }
  }

  /** The walk visits increasing step totals, so no cursor position repeats. */
  lemma MovesIncrease(w: seq<Cursor>)
    requires forall k :: 0 <= k < |w| - 1 ==> Move(w[k], w[k + 1])
    ensures forall i, j :: 0 <= i < j < |w| ==> w[i].a + w[i].b < w[j].a + w[j].b
  {
    forall i, j | 0 <= i < j < |w|
      ensures w[i].a + w[i].b < w[j].a + w[j].b
    {
      var k := i + 1;
      while k < j
        invariant i < k <= j
        invariant w[i].a + w[i].b < w[k].a + w[k].b
      {
        k := k + 1;
      }
    }
  }

  /** The pixel a cursor stands on. */
  function At(p0: Point, p1: Point, c: Cursor): Point
  {
    Point(Coord(p0.x, p1.x, c.a), Coord(p0.y, p1.y, c.b))
  }

  /** One move between consecutive drawn points: each coordinate stays or moves one pixel towards the end. */
  predicate Stride(p0: Point, p1: Point, u: Point, v: Point)
  {
    && (v.x == u.x || v.x == u.x + Dir(p0.x, p1.x))
    && (v.y == u.y || v.y == u.y + Dir(p0.y, p1.y))
    && u != v
  }

  /** `q` lies in the box spanned by the end points (no step overshoots). */
  predicate Within(p0: Point, p1: Point, q: Point)
  {
    Min(p0.x, p1.x) <= q.x <= Max(p0.x, p1.x) && Min(p0.y, p1.y) <= q.y <= Max(p0.y, p1.y)
  }

  /** What the cursor arithmetic means for the pixel drawn. */
  lemma AtFacts(p0: Point, p1: Point, c: Cursor)
    requires OnTrack(Abs(p1.x - p0.x), Abs(p1.y - p0.y), c)
    ensures Within(p0, p1, At(p0, p1, c))
    ensures At(p0, p1, c) == p1 <==> c.a == Abs(p1.x - p0.x) && c.b == Abs(p1.y - p0.y)
  {
    CoordFacts(p0.x, p1.x, c.a);
    CoordFacts(p0.y, p1.y, c.b);
  }

  /** A move of the cursor is a stride of the pixel. */
  lemma MoveStride(p0: Point, p1: Point, u: Cursor, v: Cursor)
    requires OnTrack(Abs(p1.x - p0.x), Abs(p1.y - p0.y), u) && Move(u, v)
    ensures Stride(p0, p1, At(p0, p1, u), At(p0, p1, v))
  {
    CoordFacts(p0.x, p1.x, u.a);
    CoordFacts(p0.y, p1.y, u.b);
  }

  /** The starting cursor: no steps taken, `err = dx - dy`. */
  function Start(p0: Point, p1: Point): (c: Cursor)
    ensures OnTrack(Abs(p1.x - p0.x), Abs(p1.y - p0.y), c)
  {
    Cursor(0, 0, Abs(p1.x - p0.x) - Abs(p1.y - p0.y))
  }

  /** The cursors of the line from `p0` to `p1`. */
  function LineSteps(p0: Point, p1: Point): seq<Cursor>
  {
    Steps(Abs(p1.x - p0.x), Abs(p1.y - p0.y), Start(p0, p1))
  }

  /** `preview_draw_line_midpoint(painter, x0, y0, x1, y1)`: the points drawn, in order. */
  function Line(p0: Point, p1: Point): (r: seq<Point>)
    ensures |r| >= 1 && r[0] == p0 && r[|r| - 1] == p1
  {
    var w := LineSteps(p0, p1);
    CoordEnds(p0.x, p1.x);
    CoordEnds(p0.y, p1.y);
    seq(|w|, k requires 0 <= k < |w| => At(p0, p1, w[k]))
  }

  /** Distinct step counts give distinct coordinates. */
  lemma CoordInjective(from: int, to: int, k: int, l: int)
    ensures Coord(from, to, k) == Coord(from, to, l) <==> k == l
  {
  }

  /** Consecutive points are one stride apart: no coordinate moves backwards or by more than one. */
  lemma LineStrides(p0: Point, p1: Point)
    ensures forall k :: 0 <= k < |Line(p0, p1)| - 1 ==> Stride(p0, p1, Line(p0, p1)[k], Line(p0, p1)[k + 1])
  {
    var w, r := LineSteps(p0, p1), Line(p0, p1);
    StepsShape(Abs(p1.x - p0.x), Abs(p1.y - p0.y), Start(p0, p1));
    forall k | 0 <= k < |r| - 1
      ensures Stride(p0, p1, r[k], r[k + 1])
    {
      MoveStride(p0, p1, w[k], w[k + 1]);
    }
  }

  /** No point leaves the box spanned by the end points. */
  lemma LineWithin(p0: Point, p1: Point)
    ensures forall k :: 0 <= k < |Line(p0, p1)| ==> Within(p0, p1, Line(p0, p1)[k])
  {
    var w, r := LineSteps(p0, p1), Line(p0, p1);
    StepsShape(Abs(p1.x - p0.x), Abs(p1.y - p0.y), Start(p0, p1));
    forall k | 0 <= k < |r|
      ensures Within(p0, p1, r[k])
    {
      AtFacts(p0, p1, w[k]);
    }
  }

  /** No pixel is drawn twice. */
  lemma LineDistinct(p0: Point, p1: Point)
    ensures forall i, j :: 0 <= i < j < |Line(p0, p1)| ==> Line(p0, p1)[i] != Line(p0, p1)[j]
  {
    var w, r := LineSteps(p0, p1), Line(p0, p1);
    StepsShape(Abs(p1.x - p0.x), Abs(p1.y - p0.y), Start(p0, p1));
    MovesIncrease(w);
    forall i, j | 0 <= i < j < |r|
      ensures r[i] != r[j]
    {
      CoordInjective(p0.x, p1.x, w[i].a, w[j].a);
      CoordInjective(p0.y, p1.y, w[i].b, w[j].b);
    }
  }

  /**
   * A tighter band for `err` that holds on every reachable cursor: along the major axis
   * the loop then steps on every pass.
   */
  predicate Band(dx: int, dy: int, err: int)
  {
    if dx >= dy then dx == 0 || -dy < 2 * err < 3 * dx - 2 * dy
    else 2 * dx - 3 * dy < 2 * err < dx
  }

  /** Inside the band the major axis always steps and the band is kept. */
  lemma BandKept(dx: int, dy: int, err: int)
    requires dx >= 0 && dy >= 0 && dx + dy > 0 && Band(dx, dy, err)
    ensures Band(dx, dy, NextErr(dx, dy, err))
    ensures dx >= dy ==> 2 * err > -dy
    ensures dx < dy ==> 2 * err < dx
  {
  }

  /** In the band, every pass steps the major axis, which has not yet reached its end. */
  lemma MajorStep(dx: int, dy: int, c: Cursor)
    requires OnTrack(dx, dy, c) && Band(dx, dy, c.err) && !(c.a == dx && c.b == dy)
    ensures Band(dx, dy, Advance(dx, dy, c).err)
    ensures dx >= dy ==> c.a < dx && Advance(dx, dy, c).a == c.a + 1
    ensures dx < dy ==> c.b < dy && Advance(dx, dy, c).b == c.b + 1
  {
    NoOvershoot(dx, dy, c.a, c.b);
    BandKept(dx, dy, c.err);
  }

  /** From a cursor in the band, the walk passes one cursor per remaining major-axis step, plus one. */
  lemma {:induction false} StepsLength(dx: int, dy: int, c: Cursor)
    requires OnTrack(dx, dy, c) && Band(dx, dy, c.err)
    ensures dx >= dy ==> |Steps(dx, dy, c)| == dx - c.a + 1
    ensures dx < dy ==> |Steps(dx, dy, c)| == dy - c.b + 1
    decreases dx - c.a + dy - c.b
  {
    if !(c.a == dx && c.b == dy) {
      MajorStep(dx, dy, c);
      StepsCons(dx, dy, c);
      StepsLength(dx, dy, Advance(dx, dy, c));
    }
  }

  /** A line draws max(|dx|, |dy|) + 1 points. */
  lemma LineLength(p0: Point, p1: Point)
    ensures |Line(p0, p1)| == Max(Abs(p1.x - p0.x), Abs(p1.y - p0.y)) + 1
  {
    var dx: int, dy: int := Abs(p1.x - p0.x), Abs(p1.y - p0.y);
    var c := Start(p0, p1);
    assert c == Cursor(0, 0, dx - dy) && Band(dx, dy, c.err);
    StepsLength(dx, dy, c);
    assert |Line(p0, p1)| == |Steps(dx, dy, c)|;
  }

  /** On a 45-degree walk the error term stays 0 and both axes step on every pass. */
  lemma {:induction false} DiagonalSteps(d: int, k: int)
    requires 0 <= k <= d
    ensures OnTrack(d, d, Cursor(k, k, 0))
    ensures |Steps(d, d, Cursor(k, k, 0))| == d - k + 1
    ensures forall i :: 0 <= i <= d - k ==> Steps(d, d, Cursor(k, k, 0))[i] == Cursor(k + i, k + i, 0)
    decreases d - k
  {
    assert ErrAfter(d, d, k, k) == 0;
    if k < d {
      assert Advance(d, d, Cursor(k, k, 0)) == Cursor(k + 1, k + 1, 0);
      StepsCons(d, d, Cursor(k, k, 0));
      DiagonalSteps(d, k + 1);
    }
  }

  /** A 45-degree line steps both coordinates on every pass. */
  lemma DiagonalLine(p0: Point, p1: Point)
    requires Abs(p1.x - p0.x) == Abs(p1.y - p0.y)
    ensures |Line(p0, p1)| == Abs(p1.x - p0.x) + 1
    ensures forall i :: 0 <= i < |Line(p0, p1)| ==> Line(p0, p1)[i] == Point(Coord(p0.x, p1.x, i), Coord(p0.y, p1.y, i))
  {
    DiagonalSteps(Abs(p1.x - p0.x), 0);
  }

  /** The diagonal from any `p0`: `p0` to `p0 + (n, n)` draws `p0 + (i, i)` for i in 0..n. */
  lemma DiagonalFrom(p0: Point, n: nat)
    ensures Line(p0, Point(p0.x + n, p0.y + n)) == seq(n + 1, i => Point(p0.x + i, p0.y + i))
  {
    var p1 := Point(p0.x + n, p0.y + n);
    var l, d := Line(p0, p1), seq(n + 1, i => Point(p0.x + i, p0.y + i));
    DiagonalLine(p0, p1);
    assert |l| == |d|;
    forall i | 0 <= i < |l|
      ensures l[i] == d[i]
    {
      assert Coord(p0.x, p1.x, i) == p0.x + i && Coord(p0.y, p1.y, i) == p0.y + i;
    }
  }

  /** The line from (x, y) to (x + 2, y + 1), and back. */
  lemma LineTwoOne(p0: Point, p1: Point)
    requires p1 == Point(p0.x + 2, p0.y + 1)
    ensures Line(p0, p1) == [p0, Point(p0.x + 1, p0.y), p1]
    ensures Line(p1, p0) == [p1, Point(p0.x + 1, p0.y + 1), p0]
  {
    var w := [Cursor(0, 0, 1), Cursor(1, 0, 0), Cursor(2, 1, 1)];
    assert Steps(2, 1, Cursor(0, 0, 1)) == w;
    assert Abs(p1.x - p0.x) == 2 && Abs(p1.y - p0.y) == 1 && Start(p0, p1) == Cursor(0, 0, 1);
    assert Abs(p0.x - p1.x) == 2 && Abs(p0.y - p1.y) == 1 && Start(p1, p0) == Cursor(0, 0, 1);
    assert LineSteps(p0, p1) == w && LineSteps(p1, p0) == w;
  }

  /**
   * Swapping the end points can change the pixels drawn: both directions walk the same
   * step counts, but from opposite ends, so (0,0)-(2,1) passes (1,0) while (2,1)-(0,0)
   * passes (1,1).
   */
  lemma LineNotReversible()
    ensures Line(Point(0, 0), Point(2, 1)) == [Point(0, 0), Point(1, 0), Point(2, 1)]
    ensures Line(Point(2, 1), Point(0, 0)) == [Point(2, 1), Point(1, 1), Point(0, 0)]
  {
    LineTwoOne(Point(0, 0), Point(2, 1));
  }
}
