/**
 * The scan-line flood fill of the fill tool (`Canvas.flood_fill`). A queue of seeds is worked off
 * front first; each in-range seed of the target colour is widened to the maximal run of target
 * pixels on its row, the run is recoloured, and the target-coloured pixels directly above and
 * below the run are queued.
 */
module FloodFill {
  import opened Geometry
  import opened Pixels

  predicate Adjacent(p: Point, q: Point)
  {
    Abs(p.x - q.x) + Abs(p.y - q.y) == 1
  }

  /** `p` is a cell of `img` with colour `target`. */
  predicate Target(img: Image, target: Color, p: Point)
  {
    p in img.pixels && img.pixels[p] == target
  }

  /** A 4-connected walk through target-coloured cells of `img`. */
  ghost predicate IsPath(img: Image, target: Color, path: seq<Point>)
  {
    |path| >= 1 &&
    (forall k :: 0 <= k < |path| ==> Target(img, target, path[k])) &&
    (forall k :: 0 <= k < |path| - 1 ==> Adjacent(path[k], path[k + 1]))
  }

  /** `p` is reached from `seed` by a 4-connected walk through target-coloured cells. */
  ghost predicate Connected(img: Image, target: Color, seed: Point, p: Point)
  {
    exists path :: IsPath(img, target, path) && path[0] == seed && path[|path| - 1] == p
  }

  lemma ConnectedStart(img: Image, target: Color, seed: Point)
    requires Target(img, target, seed)
    ensures Connected(img, target, seed, seed)
  {
    assert IsPath(img, target, [seed]);
  }

  lemma ConnectedStep(img: Image, target: Color, seed: Point, p: Point, q: Point)
    requires Connected(img, target, seed, p) && Adjacent(p, q) && Target(img, target, q)
    ensures Connected(img, target, seed, q)
  {
    var path :| IsPath(img, target, path) && path[0] == seed && path[|path| - 1] == p;
    var longer := path + [q];
    assert IsPath(img, target, longer);
    assert longer[0] == seed && longer[|longer| - 1] == q;
  }

  /** Along a row of target cells, connection to one end carries over to every cell. */
  lemma {:induction false} RowConnected(img: Image, target: Color, seed: Point, y: int, a: int, b: int)
    requires Connected(img, target, seed, Point(a, y))
    requires forall j :: Min(a, b) <= j <= Max(a, b) ==> Target(img, target, Point(j, y))
    ensures Connected(img, target, seed, Point(b, y))
    decreases Abs(b - a)
  {
    if a != b {
      var n := if a < b then a + 1 else a - 1;
      assert Target(img, target, Point(n, y));
      ConnectedStep(img, target, seed, Point(a, y), Point(n, y));
      RowConnected(img, target, seed, y, n, b);
    }
  }

  /** Only target cells have changed, and each of them to `replacement`. */
  predicate Tracked(img: Image, cur: Image, target: Color, replacement: Color)
  {
    SameGrid(img, cur) &&
    forall p :: p in img.pixels ==> cur.pixels[p] == img.pixels[p] || (img.pixels[p] == target && cur.pixels[p] == replacement)
  }

  /** `p` had the target colour and no longer has it. */
  predicate Recoloured(img: Image, cur: Image, target: Color, p: Point)
  {
    Target(img, target, p) && p in cur.pixels && cur.pixels[p] != target
  }

  /** A target cell `n` still to be reached: it is queued, or it lies in the row run `y`, `lo..hi` being painted. */
  predicate Waiting(cur: Image, target: Color, queue: seq<Point>, n: Point, y: int, lo: int, hi: int)
  {
    Target(cur, target, n) ==> n in queue || (n.y == y && lo <= n.x <= hi)
  }

  /** All four neighbours of `p` are waiting. */
  predicate NeighboursWaiting(cur: Image, target: Color, queue: seq<Point>, p: Point, y: int, lo: int, hi: int)
  {
    Waiting(cur, target, queue, Point(p.x - 1, p.y), y, lo, hi) &&
    Waiting(cur, target, queue, Point(p.x + 1, p.y), y, lo, hi) &&
    Waiting(cur, target, queue, Point(p.x, p.y - 1), y, lo, hi) &&
    Waiting(cur, target, queue, Point(p.x, p.y + 1), y, lo, hi)
  }

  /** The neighbours of every recoloured cell are waiting. */
  ghost predicate AllWaiting(img: Image, cur: Image, target: Color, queue: seq<Point>, y: int, lo: int, hi: int)
  {
    forall p :: Recoloured(img, cur, target, p) ==> NeighboursWaiting(cur, target, queue, p, y, lo, hi)
  }

  /** No neighbour of `p` has the target colour. */
  predicate Sealed(cur: Image, target: Color, p: Point)
  {
    !Target(cur, target, Point(p.x - 1, p.y)) && !Target(cur, target, Point(p.x + 1, p.y)) &&
    !Target(cur, target, Point(p.x, p.y - 1)) && !Target(cur, target, Point(p.x, p.y + 1))
  }

  /** The cells `lo..hi` of row `y` all have the target colour. */
  predicate Run(cur: Image, target: Color, y: int, lo: int, hi: int)
  {
    forall j :: lo <= j <= hi ==> Target(cur, target, Point(j, y))
  }

  lemma RunJoin(cur: Image, target: Color, y: int, a: int, b: int, c: int)
    requires Run(cur, target, y, a, b) && Run(cur, target, y, b, c) && a <= b <= c
    ensures Run(cur, target, y, a, c)
  {
  }

  /** The cells of `cur` that have the target colour. */
  function TargetCells(cur: Image, target: Color): set<Point>
  {
    set p | p in cur.pixels && cur.pixels[p] == target
  }

  lemma ProperSubsetSmaller(a: set<Point>, b: set<Point>, c: Point)
    requires a <= b && c in b && c !in a
    ensures |a| < |b|
  {
    assert a <= b - {c};
    assert |b - {c}| == |b| - 1;
    var rest := (b - {c}) - a;
    assert b - {c} == a + rest;
  }

  /**
   * The scan to the west: from column `x` leftwards over target pixels of row `y`. The result
   * is the leftmost cell of the run, which is at the left border or right of a non-target pixel.
   */
  function West(cur: Image, target: Color, y: int, x: int): (w: int)
    requires Valid(cur) && 0 <= y < cur.height && -1 <= x < cur.width
    ensures 0 <= w <= x + 1
    ensures Run(cur, target, y, w, x)
    ensures w == 0 || !Target(cur, target, Point(w - 1, y))
    decreases x + 1
  {
    if x >= 0 && cur.pixels[Point(x, y)] == target then West(cur, target, y, x - 1) else x + 1
  }

  /** The scan to the east, symmetric to `West`. */
  function East(cur: Image, target: Color, y: int, x: int): (e: int)
    requires Valid(cur) && 0 <= y < cur.height && 0 <= x <= cur.width
    ensures x - 1 <= e < cur.width
    ensures Run(cur, target, y, x, e)
    ensures e == cur.width - 1 || !Target(cur, target, Point(e + 1, y))
    decreases cur.width - x
  {
    if x < cur.width && cur.pixels[Point(x, y)] == target then East(cur, target, y, x + 1) else x - 1
  }

  /** `out` is `cur` with the cells `lo..hi-1` of row `y` painted `replacement`. */
  predicate Painted(cur: Image, out: Image, replacement: Color, y: int, lo: int, hi: int)
  {
    SameGrid(cur, out) &&
    forall p :: p in cur.pixels ==> out.pixels[p] == (if p.y == y && lo <= p.x < hi then replacement else cur.pixels[p])
  }

  /** Every queued cell is connected to the seed. */
  ghost predicate QueueConnected(img: Image, target: Color, seed: Point, queue: seq<Point>)
  {
    forall k :: 0 <= k < |queue| ==> Connected(img, target, seed, queue[k])
  }

  lemma PaintFrame(cur: Image, before: Image, out: Image, replacement: Color, y: int, lo: int, i: int, j: int)
    requires Painted(cur, before, replacement, y, lo, i) && lo <= i && j == i + 1
    requires Point(i, y) in before.pixels && out == SetPixel(before, Point(i, y), replacement)
    ensures Painted(cur, out, replacement, y, lo, j)
  {
    forall p | p in cur.pixels
      ensures out.pixels[p] == (if p.y == y && lo <= p.x < i + 1 then replacement else cur.pixels[p])
    {
      if p.y == y && p.x == i {
        assert p == Point(i, y);
      }
    }
  }

  /** A target cell of the current image beside a connected cell, queued off the row, is connected too. */
  lemma QueuePush(img: Image, cur: Image, out: Image, target: Color, replacement: Color, seed: Point,
                  queue: seq<Point>, y: int, lo: int, hi: int, p: Point, n: Point)
    requires Tracked(img, cur, target, replacement) && target != replacement
    requires Painted(cur, out, replacement, y, lo, hi) && n.y != y
    requires QueueConnected(img, target, seed, queue)
    requires Connected(img, target, seed, p) && Adjacent(p, n) && Target(out, target, n)
    ensures QueueConnected(img, target, seed, queue + [n])
  {
    assert Target(img, target, n);
    ConnectedStep(img, target, seed, p, n);
    var longer := queue + [n];
    forall k | 0 <= k < |longer|
      ensures Connected(img, target, seed, longer[k])
    {
      if k < |queue| {
        assert longer[k] == queue[k];
      }
    }
  }

  /** Painting a run of target cells keeps `Tracked`. */
  lemma PaintedTracked(img: Image, cur: Image, out: Image, target: Color, replacement: Color, y: int, lo: int, hi: int)
    requires Tracked(img, cur, target, replacement)
    requires forall j :: lo <= j < hi ==> Target(cur, target, Point(j, y))
    requires Painted(cur, out, replacement, y, lo, hi)
    ensures Tracked(img, out, target, replacement)
  {
    forall p | p in img.pixels
      ensures out.pixels[p] == img.pixels[p] || (img.pixels[p] == target && out.pixels[p] == replacement)
    {
      if p.y == y && lo <= p.x < hi {
        assert Target(cur, target, Point(p.x, y));
      }
    }
  }

  /** A point inside the grid is a cell of every image on that grid. */
  lemma InGrid(img: Image, cur: Image, p: Point)
    requires Valid(img) && SameGrid(img, cur) && InBounds(img, p)
    ensures p in cur.pixels
  {
  }

  /**
   * The `for i in range(west, east + 1)` loop: recolour each cell of the run and queue the
   * target-coloured cells directly above and below it.
   */
  method PaintRun(ghost img: Image, ghost seed: Point, cur: Image, target: Color, replacement: Color,
                  queue: seq<Point>, y: int, west: int, east: int)
    returns (out: Image, next: seq<Point>)
    requires Valid(img) && Tracked(img, cur, target, replacement) && target != replacement
    requires 0 <= y < cur.height && 0 <= west <= east < cur.width
    requires Run(cur, target, y, west, east)
    requires west == 0 || !Target(cur, target, Point(west - 1, y))
    requires east == cur.width - 1 || !Target(cur, target, Point(east + 1, y))
    requires forall j :: west <= j <= east ==> Connected(img, target, seed, Point(j, y))
    requires QueueConnected(img, target, seed, queue)
    requires AllWaiting(img, cur, target, queue, y, west, east)
    ensures Tracked(img, out, target, replacement)
    ensures Painted(cur, out, replacement, y, west, east + 1)
    ensures QueueConnected(img, target, seed, next)
    ensures AllWaiting(img, out, target, next, y, east + 1, east)
  {
    out, next := cur, queue;
    var i := west;
    while i <= east
      invariant west <= i <= east + 1
      invariant Painted(cur, out, replacement, y, west, i)
      invariant QueueConnected(img, target, seed, next)
      invariant AllWaiting(img, out, target, next, y, i, east)
    {
      ghost var before, queued := out, next;
      var j := i + 1;
      InGrid(img, out, Point(i, y));
      out := SetPixel(out, Point(i, y), replacement);
      PaintFrame(cur, before, out, replacement, y, west, i, j);
      if y > 0 {
        InGrid(img, out, Point(i, y - 1));
      }
      if y > 0 && out.pixels[Point(i, y - 1)] == target {
        QueuePush(img, cur, out, target, replacement, seed, next, y, west, i + 1, Point(i, y), Point(i, y - 1));
        next := next + [Point(i, y - 1)];
      }
      if y < out.height - 1 {
        InGrid(img, out, Point(i, y + 1));
      }
      if y < out.height - 1 && out.pixels[Point(i, y + 1)] == target {
        QueuePush(img, cur, out, target, replacement, seed, next, y, west, i + 1, Point(i, y), Point(i, y + 1));
        next := next + [Point(i, y + 1)];
      }
      StepWaiting(img, cur, before, out, target, replacement, queued, next, y, west, east, i, j);
      i := j;
    }
    PaintedTracked(img, cur, out, target, replacement, y, west, east + 1);
  }

  /** Painting cell (i, y) keeps an already waiting cell waiting, with the run's exemption moved past `i`. */
  lemma WaitingCarried(before: Image, out: Image, target: Color, replacement: Color,
                       queued: seq<Point>, next: seq<Point>, y: int, i: int, east: int, n: Point)
    requires Point(i, y) in before.pixels && out == SetPixel(before, Point(i, y), replacement) && target != replacement
    requires forall m :: m in queued ==> m in next
    requires Waiting(before, target, queued, n, y, i, east)
    ensures Waiting(out, target, next, n, y, i + 1, east)
  {
    if n != Point(i, y) && Target(out, target, n) {
      assert Target(before, target, n);
    }
  }

  /** The neighbours of the freshly painted cell (i, y) are waiting. */
  lemma PaintedWaiting(cur: Image, before: Image, out: Image, target: Color, replacement: Color,
                       next: seq<Point>, y: int, west: int, east: int, i: int)
    requires Valid(cur) && target != replacement
    requires 0 <= y < cur.height && 0 <= west <= i <= east < cur.width
    requires west == 0 || !Target(cur, target, Point(west - 1, y))
    requires east == cur.width - 1 || !Target(cur, target, Point(east + 1, y))
    requires Painted(cur, before, replacement, y, west, i)
    requires out == SetPixel(before, Point(i, y), replacement)
    requires Target(out, target, Point(i, y - 1)) ==> Point(i, y - 1) in next
    requires Target(out, target, Point(i, y + 1)) ==> Point(i, y + 1) in next
    ensures NeighboursWaiting(out, target, next, Point(i, y), y, i + 1, east)
  {
    var left, right := Point(i - 1, y), Point(i + 1, y);
    if left in cur.pixels {
      assert out.pixels[left] == before.pixels[left];
    }
    if right in cur.pixels && i == east {
      assert out.pixels[right] == before.pixels[right];
    }
  }

  /** One pass of the run loop keeps every recoloured cell's neighbours waiting. */
  lemma StepWaiting(img: Image, cur: Image, before: Image, out: Image, target: Color, replacement: Color,
                    queued: seq<Point>, next: seq<Point>, y: int, west: int, east: int, i: int, j: int)
    requires Valid(img) && SameGrid(img, cur) && target != replacement && j == i + 1
    requires 0 <= y < cur.height && 0 <= west <= i <= east < cur.width
    requires west == 0 || !Target(cur, target, Point(west - 1, y))
    requires east == cur.width - 1 || !Target(cur, target, Point(east + 1, y))
    requires Painted(cur, before, replacement, y, west, i)
    requires out == SetPixel(before, Point(i, y), replacement)
    requires forall n :: n in queued ==> n in next
    requires Target(out, target, Point(i, y - 1)) ==> Point(i, y - 1) in next
    requires Target(out, target, Point(i, y + 1)) ==> Point(i, y + 1) in next
    requires AllWaiting(img, before, target, queued, y, i, east)
    ensures AllWaiting(img, out, target, next, y, j, east)
  {
    forall p | Recoloured(img, out, target, p)
      ensures NeighboursWaiting(out, target, next, p, y, i + 1, east)
    {
      if p == Point(i, y) {
        PaintedWaiting(cur, before, out, target, replacement, next, y, west, east, i);
      } else {
        assert Recoloured(img, before, target, p);
        WaitingCarried(before, out, target, replacement, queued, next, y, i, east, Point(p.x - 1, p.y));
        WaitingCarried(before, out, target, replacement, queued, next, y, i, east, Point(p.x + 1, p.y));
        WaitingCarried(before, out, target, replacement, queued, next, y, i, east, Point(p.x, p.y - 1));
        WaitingCarried(before, out, target, replacement, queued, next, y, i, east, Point(p.x, p.y + 1));
      }
    }
  }

  /** Every recoloured cell is connected to the seed. */
  ghost predicate RecolouredConnected(img: Image, cur: Image, target: Color, seed: Point)
  {
    forall p :: Recoloured(img, cur, target, p) ==> Connected(img, target, seed, p)
  }

  /** After a run is painted, the loop invariants of `Fill` hold again and fewer target cells are left. */
  lemma RunDone(img: Image, before: Image, out: Image, target: Color, replacement: Color, seed: Point,
                waiting: seq<Point>, next: seq<Point>, c: Point, west: int, east: int)
    requires Valid(img) && target != replacement
    requires Tracked(img, before, target, replacement) && Tracked(img, out, target, replacement)
    requires |waiting| > 0 && waiting[0] == c && west <= c.x <= east && Target(before, target, c)
    requires Target(before, target, seed) ==> waiting[0] == seed
    requires Painted(before, out, replacement, c.y, west, east + 1)
    requires forall j :: west <= j <= east ==> Connected(img, target, seed, Point(j, c.y))
    requires RecolouredConnected(img, before, target, seed)
    requires AllWaiting(img, out, target, next, c.y, east + 1, east)
    ensures Valid(out)
    ensures RecolouredConnected(img, out, target, seed)
    ensures AllWaiting(img, out, target, next, 0, 1, 0)
    ensures !Target(out, target, seed)
    ensures |TargetCells(out, target)| < |TargetCells(before, target)|
  {
    assert Point(c.x, c.y) == c;
    forall p | Recoloured(img, out, target, p)
      ensures Connected(img, target, seed, p)
    {
      if !(p.y == c.y && west <= p.x <= east) {
        assert Recoloured(img, before, target, p);
      } else {
        assert p == Point(p.x, c.y);
      }
    }
    if Target(out, target, seed) {
      assert Target(before, target, seed);
      assert false;
    }
    assert c in TargetCells(before, target) && c !in TargetCells(out, target);
    ProperSubsetSmaller(TargetCells(out, target), TargetCells(before, target), c);
  }

  /** With nothing left in the queue, no recoloured cell has a target neighbour. */
  lemma WaitingSealed(img: Image, out: Image, target: Color)
    requires AllWaiting(img, out, target, [], 0, 1, 0)
    ensures forall p :: Recoloured(img, out, target, p) ==> Sealed(out, target, p)
  {
  }

  /** The invariant of the queue loop of `flood_fill`. */
  ghost predicate FillInvariant(img: Image, seed: Point, target: Color, replacement: Color, cur: Image, queue: seq<Point>)
  {
    Tracked(img, cur, target, replacement) && Valid(cur) &&
    QueueConnected(img, target, seed, queue) &&
    RecolouredConnected(img, cur, target, seed) &&
    AllWaiting(img, cur, target, queue, 0, 1, 0) &&
    (Target(cur, target, seed) ==> |queue| > 0 && queue[0] == seed)
  }

  /**
   * One pass of the queue loop: pop the front cell; skip it when it is off the grid or not a
   * target cell, otherwise scan its run west and east and paint it. A skip shortens the queue, a
   * painted run leaves fewer target cells.
   */
  method FillStep(ghost img: Image, ghost seed: Point, cur: Image, target: Color, replacement: Color, queue: seq<Point>)
    returns (out: Image, next: seq<Point>)
    requires Valid(img) && target != replacement && |queue| > 0
    requires FillInvariant(img, seed, target, replacement, cur, queue)
    ensures FillInvariant(img, seed, target, replacement, out, next)
    ensures |TargetCells(out, target)| < |TargetCells(cur, target)| ||
      (out == cur && |next| < |queue|)
  {
    var c := queue[0];
    out, next := cur, queue[1..];
    QueueTail(img, target, seed, queue);
    if !(0 <= c.x < cur.width && 0 <= c.y < cur.height) || cur.pixels[c] != target {
      SkipWaiting(img, cur, target, queue, c);
      return;
    }
    out, next := FillRun(img, seed, cur, target, replacement, queue);
  }

  /** The painting half of `FillStep`, for a front cell that is a target cell of the grid. */
  method FillRun(ghost img: Image, ghost seed: Point, cur: Image, target: Color, replacement: Color, queue: seq<Point>)
    returns (out: Image, next: seq<Point>)
    requires Valid(img) && target != replacement && |queue| > 0
    requires FillInvariant(img, seed, target, replacement, cur, queue)
    requires Target(cur, target, queue[0])
    ensures FillInvariant(img, seed, target, replacement, out, next)
    ensures |TargetCells(out, target)| < |TargetCells(cur, target)|
  {
    var c := queue[0];
    var west := West(cur, target, c.y, c.x);
    var east := East(cur, target, c.y, c.x);
    RunReady(img, seed, cur, target, replacement, queue, west, east);
    out, next := PaintRun(img, seed, cur, target, replacement, queue[1..], c.y, west, east);
    RunDone(img, cur, out, target, replacement, seed, queue, next, c, west, east);
  }

  /** The scanned run around the front cell may be painted: it is a connected run and the rest of the queue waits for it. */
  lemma RunReady(img: Image, seed: Point, cur: Image, target: Color, replacement: Color, queue: seq<Point>, west: int, east: int)
    requires Valid(img) && target != replacement && |queue| > 0
    requires FillInvariant(img, seed, target, replacement, cur, queue)
    requires var c := queue[0]; Target(cur, target, c) && west <= c.x <= east
    requires Run(cur, target, queue[0].y, west, queue[0].x) && Run(cur, target, queue[0].y, queue[0].x, east)
    ensures Run(cur, target, queue[0].y, west, east)
    ensures QueueConnected(img, target, seed, queue[1..])
    ensures forall j :: west <= j <= east ==> Connected(img, target, seed, Point(j, queue[0].y))
    ensures AllWaiting(img, cur, target, queue[1..], queue[0].y, west, east)
  {
    var c := queue[0];
    QueueTail(img, target, seed, queue);
    RunJoin(cur, target, c.y, west, c.x, east);
    assert Connected(img, target, seed, queue[0]);
    RunConnected(img, cur, target, replacement, seed, c, west, east);
    RunWaiting(img, cur, target, queue, c, west, east);
  }

  /**
   * `flood_fill(x, y, target_color, replacement_color)` on the image `img`: a no-op when the two
   * colours agree or the seed is not a target pixel (an out-of-range seed included). Otherwise
   * exactly a 4-connected set of target cells containing the seed turns into `replacement`, and
   * no target cell is left beside a recoloured one.
   */
  method Fill(img: Image, seed: Point, target: Color, replacement: Color) returns (out: Image)
    requires Valid(img)
    ensures Tracked(img, out, target, replacement) && Valid(out)
    ensures target == replacement || !Target(img, target, seed) ==> out == img
    ensures target != replacement && Target(img, target, seed) ==> out.pixels[seed] == replacement
    ensures forall p :: Recoloured(img, out, target, p) ==> Connected(img, target, seed, p)
    ensures forall p :: Recoloured(img, out, target, p) ==> Sealed(out, target, p)
    ensures target != replacement && Target(img, target, seed) ==>
      forall p :: Connected(img, target, seed, p) ==> Recoloured(img, out, target, p)
  {
    out := img;
    if target == replacement {
      return;
    }
    if !(seed in img.pixels && img.pixels[seed] == target) {
      return;
    }
    var queue := [seed];
    ConnectedStart(img, target, seed);
    while |queue| > 0
      invariant FillInvariant(img, seed, target, replacement, out, queue)
      decreases |TargetCells(out, target)|, |queue|
    {
      out, queue := FillStep(img, seed, out, target, replacement, queue);
    }
    WaitingSealed(img, out, target);
    forall p | Connected(img, target, seed, p)
      ensures Recoloured(img, out, target, p)
    {
      ConnectedRecoloured(img, out, target, replacement, seed, p);
    }
  }

  lemma QueueTail(img: Image, target: Color, seed: Point, queue: seq<Point>)
    requires |queue| > 0 && QueueConnected(img, target, seed, queue)
    ensures QueueConnected(img, target, seed, queue[1..])
  {
    forall k | 0 <= k < |queue| - 1
      ensures Connected(img, target, seed, queue[1..][k])
    {
      assert queue[1..][k] == queue[k + 1];
    }
  }

  /** Every cell of the run is connected to the seed, through the popped cell `c`. */
  lemma RunConnected(img: Image, cur: Image, target: Color, replacement: Color, seed: Point, c: Point, west: int, east: int)
    requires Tracked(img, cur, target, replacement) && target != replacement
    requires Connected(img, target, seed, c) && west <= c.x <= east
    requires Run(cur, target, c.y, west, east)
    ensures forall j :: west <= j <= east ==> Connected(img, target, seed, Point(j, c.y))
  {
    forall j | west <= j <= east
      ensures Connected(img, target, seed, Point(j, c.y))
    {
      forall k | Min(c.x, j) <= k <= Max(c.x, j)
        ensures Target(img, target, Point(k, c.y))
      {
        assert Target(cur, target, Point(k, c.y));
      }
      assert Point(c.x, c.y) == c;
      RowConnected(img, target, seed, c.y, c.x, j);
    }
  }

  /** Popping a cell that is off the grid or no longer a target cell leaves nothing unqueued. */
  lemma SkipWaiting(img: Image, cur: Image, target: Color, waiting: seq<Point>, c: Point)
    requires Valid(cur) && |waiting| > 0 && c == waiting[0] && !Target(cur, target, c)
    requires AllWaiting(img, cur, target, waiting, 0, 1, 0)
    ensures AllWaiting(img, cur, target, waiting[1..], 0, 1, 0)
  {
    forall n | n in waiting && n != c
      ensures n in waiting[1..]
    {
      var k :| 0 <= k < |waiting| && waiting[k] == n;
      assert waiting[1..][k - 1] == n;
    }
  }

  /** Before the run is painted, the popped cell `c` lies in the run, so it is covered by the exemption. */
  lemma RunWaiting(img: Image, cur: Image, target: Color, waiting: seq<Point>, c: Point, west: int, east: int)
    requires |waiting| > 0 && c == waiting[0] && west <= c.x <= east
    requires AllWaiting(img, cur, target, waiting, 0, 1, 0)
    ensures AllWaiting(img, cur, target, waiting[1..], c.y, west, east)
  {
    forall n | n in waiting && n != c
      ensures n in waiting[1..]
    {
      var k :| 0 <= k < |waiting| && waiting[k] == n;
      assert waiting[1..][k - 1] == n;
    }
  }

  /**
   * In an image of one colour, a fill from any cell reaches every cell: walking from the seed,
   * each next cell is a neighbour of a recoloured one, so it cannot still have the target colour.
   */
  lemma {:induction false} UniformReached(img: Image, out: Image, target: Color, replacement: Color, seed: Point, q: Point)
    requires Valid(img) && Tracked(img, out, target, replacement) && target != replacement
    requires forall p :: p in img.pixels ==> img.pixels[p] == target
    requires InBounds(img, seed) && InBounds(img, q) && out.pixels[seed] == replacement
    requires forall p :: Recoloured(img, out, target, p) ==> Sealed(out, target, p)
    ensures out.pixels[q] == replacement
    decreases Abs(q.x - seed.x) + Abs(q.y - seed.y)
  {
    if q != seed {
      var n := if q.x < seed.x then Point(q.x + 1, q.y)
        else if q.x > seed.x then Point(q.x - 1, q.y)
        else if q.y < seed.y then Point(q.x, q.y + 1)
        else Point(q.x, q.y - 1);
      assert InBounds(img, n) && n in img.pixels;
      UniformReached(img, out, target, replacement, seed, n);
      SealedNeighbour(img, out, target, replacement, n, q);
    }
  }

  /**
   * The fill is complete: once the seed is recoloured and every recoloured cell is sealed, each
   * cell a walk of target cells reaches from the seed has been recoloured as well.
   */
  lemma ConnectedRecoloured(img: Image, out: Image, target: Color, replacement: Color, seed: Point, p: Point)
    requires Tracked(img, out, target, replacement) && target != replacement
    requires Target(img, target, seed) && out.pixels[seed] == replacement
    requires forall p :: Recoloured(img, out, target, p) ==> Sealed(out, target, p)
    requires Connected(img, target, seed, p)
    ensures Recoloured(img, out, target, p)
  {
    var path :| IsPath(img, target, path) && path[0] == seed && path[|path| - 1] == p;
    PathRecoloured(img, out, target, replacement, path);
  }

  lemma {:induction false} PathRecoloured(img: Image, out: Image, target: Color, replacement: Color, path: seq<Point>)
    requires Tracked(img, out, target, replacement) && target != replacement
    requires IsPath(img, target, path) && out.pixels[path[0]] == replacement
    requires forall p :: Recoloured(img, out, target, p) ==> Sealed(out, target, p)
    ensures Recoloured(img, out, target, path[|path| - 1])
    decreases |path|
  {
    var q := path[|path| - 1];
    if |path| == 1 {
      assert Target(img, target, path[0]);
    } else {
      var front := path[..|path| - 1];
      assert IsPath(img, target, front) by {
        assert forall k :: 0 <= k < |front| ==> front[k] == path[k];
      }
      PathRecoloured(img, out, target, replacement, front);
      var n := front[|front| - 1];
      assert n == path[|path| - 2] && Adjacent(n, q) && Target(img, target, q);
      SealedNeighbour(img, out, target, replacement, n, q);
    }
  }

  /** A target cell next to a recoloured, sealed cell has been recoloured too. */
  lemma SealedNeighbour(img: Image, out: Image, target: Color, replacement: Color, n: Point, q: Point)
    requires Tracked(img, out, target, replacement) && target != replacement
    requires n in img.pixels && img.pixels[n] == target && out.pixels[n] == replacement
    requires q in img.pixels && img.pixels[q] == target
    requires q == Point(n.x - 1, n.y) || q == Point(n.x + 1, n.y) || q == Point(n.x, n.y - 1) || q == Point(n.x, n.y + 1)
    requires forall p :: Recoloured(img, out, target, p) ==> Sealed(out, target, p)
    ensures out.pixels[q] == replacement
  {
    assert Recoloured(img, out, target, n);
    assert !Target(out, target, q);
  }

  /** Filling an all-white 10 × 10 canvas black from any cell leaves it all black. */
  method FillBlankTen(seed: Point) returns (out: Image)
    requires 0 <= seed.x < 10 && 0 <= seed.y < 10
    ensures out.pixels.Keys == Cells(10, 10)
    ensures forall p :: p in out.pixels ==> out.pixels[p] == Black
  {
    var blank := Filled(10, 10, White);
    out := Fill(blank, seed, White, Black);
    forall p | p in out.pixels
      ensures out.pixels[p] == Black
    {
      UniformReached(blank, out, White, Black, seed, p);
    }
  }
}
