/**
 * The mouse state machine of the QPainter canvas (`Canvas.mousePressEvent`, `mouseMoveEvent`,
 * `mouseReleaseEvent`) and the shape preview that `paintEvent` draws during a drag. The strokes
 * QPainter draws with the brush pen are left uninterpreted: a `Painter` is handed in.
 */
module Gesture {
  import opened Geometry
  import opened Outcomes
  import opened Pixels
  import opened Tools
  import opened History
  import FloodFill
  import Lines
  import Circles
  import Ellipses
  import Rectangles

  /** A drag in progress remembers where it started and where the pointer was last seen. */
  datatype Mode = Idle | Drawing(start: Point, last: Point)

  /** The pen: colour and width (the pen is always solid with round caps and joins). */
  datatype Brush = Brush(color: Color, size: nat)

  /** What one QPainter call draws: a point, a line, a rectangle or an ellipse in a corner-to-corner box. */
  datatype Stroke = Dot(at: Point) | Segment(from: Point, to: Point) | Box(corner: Point, opposite: Point) | Oval(corner: Point, opposite: Point)

  /** QPainter's rasterisation of a stroke with the brush pen onto an image. */
  type Painter = (Brush, Stroke, Image) -> Image

  /** QPainter recolours pixels but never resizes the image it paints on. */
  ghost predicate KeepsGrid(paint: Painter)
  {
    forall b, s, i :: Valid(i) ==> SameGrid(i, paint(b, s, i))
  }

  datatype Canvas = Canvas(mode: Mode, tool: Tool, brush: Brush, history: History)

  /** Every image the canvas holds, current or saved for undo or redo, is a full grid (a `QImage` always is). */
  predicate Grid(c: Canvas)
  {
    Grids(c.history)
  }

  /** Painting on a missing image draws nothing: a QPainter on no device does not begin. */
  function Draw(paint: Painter, b: Brush, s: Stroke, img: Option<Image>): (r: Option<Image>)
    ensures img.None? <==> r.None?
    ensures img.Some? ==> r == Some(paint(b, s, img.value))
    ensures KeepsGrid(paint) && img.Some? && Valid(img.value) ==> SameGrid(img.value, r.value)
  {
    match img
    case None => None
    case Some(i) => Some(paint(b, s, i))
  }

  /** One `drawPoint` per point, in order. */
  function PlotAll(paint: Painter, b: Brush, points: seq<Point>, img: Image): (r: Image)
    ensures KeepsGrid(paint) && Valid(img) ==> SameGrid(img, r)
    decreases |points|
  {
    if points == [] then img else PlotAll(paint, b, points[1..], paint(b, Dot(points[0]), img))
  }

  /** The circle of a drag from `s` to `e`, as both the preview and the commit derive it. */
  function CircleOf(s: Point, e: Point): (pts: seq<Point>)
    ensures forall q :: q in pts ==> Circles.InSquare(Circles.CircleFrame(s, e).centre, Circles.CircleFrame(s, e).r, q)
  {
    var d := Circles.CircleFrame(s, e);
    Circles.Circle(d.centre, d.r)
  }

  /** The ellipse of a drag from `s` to `e` as the preview derives it. */
  function EllipseOf(s: Point, e: Point): seq<Point>
  {
    var f := Ellipses.EllipseFrame(s, e);
    Ellipses.Ellipse(f.centre, f.rx, f.ry)
  }

  /**
   * The shape preview `paintEvent` draws over the image while a non-pen drag is in progress:
   * the midpoint rasterisers from the drag start to the last pointer position. Fill has none.
   */
  function Preview(c: Canvas): (pts: seq<Point>)
    ensures c.mode.Idle? || c.tool == Pen || c.tool == Fill ==> pts == []
    ensures c.mode.Drawing? && c.tool == Rectangle ==>
      forall q :: q in pts <==> Rectangles.OnBorder(c.mode.start, c.mode.last, q)
  {
    match c.mode
    case Idle => []
    case Drawing(s, l) =>
      match c.tool
      case Pen => []
      case Rectangle => Rectangles.Rectangle(s, l)
      case Ellipse => EllipseOf(s, l)
      case Line => Lines.Line(s, l)
      case Circle => CircleOf(s, l)
      case Fill => []
  }

  /**
   * The shape the release commits for a drag from `s` to `e`: one QPainter stroke on the drag's
   * corners for the rectangle and the ellipse (`QRect(start, pos)`) and on its end points for the
   * line, not the previewed midpoint shape; the midpoint circle plotted point by point. Fill
   * (and the pen) paint nothing here.
   */
  function Shape(paint: Painter, b: Brush, t: Tool, s: Point, e: Point, img: Image): (r: Image)
    ensures KeepsGrid(paint) && Valid(img) ==> SameGrid(img, r)
  {
    match t
    case Rectangle => paint(b, Box(s, e), img)
    case Ellipse => paint(b, Oval(s, e), img)
    case Line => paint(b, Segment(s, e), img)
    case Circle => PlotAll(paint, b, CircleOf(s, e), img)
    case Pen => img
    case Fill => img
  }

  /**
   * The press without the flood fill: a left press starts a drag at the pointer; with the pen
   * it also saves an undo snapshot and then paints the first point.
   */
  function Begin(c: Canvas, left: bool, pos: Point, paint: Painter): (r: Canvas)
    ensures !left ==> r == c
    ensures left ==> r.mode == Drawing(pos, pos) && r.tool == c.tool && r.brush == c.brush
    ensures left && c.tool != Pen ==> r.history == c.history
    ensures left && c.tool == Pen && c.history.image.Some? ==>
      r.history == History(Some(paint(c.brush, Dot(pos), c.history.image.value)), c.history.undo + [c.history.image.value], [])
    ensures KeepsGrid(paint) && Grid(c) ==> Grid(r)
  {
    if !left then c
    else
      var h := if c.tool == Pen then var s := SaveUndo(c.history); s.(image := Draw(paint, c.brush, Dot(pos), s.image)) else c.history;
      c.(mode := Drawing(pos, pos), history := h)
  }

  /**
   * `mousePressEvent`. With the fill tool the press also flood-fills from the pointer with the
   * brush colour, recolouring the pixels of the clicked colour; a click outside the image fills
   * nothing, and a click while there is no image raises.
   */
  method Press(c: Canvas, left: bool, pos: Point, paint: Painter) returns (r: Result<Canvas>)
    requires Grid(c)
    ensures c.tool != Fill || !left ==> r == Success(Begin(c, left, pos, paint))
    ensures c.tool == Fill && left && c.history.image.None? ==> r.Failure?
    ensures c.tool == Fill && left && c.history.image.Some? ==>
      r.Success? && r.value.mode == Drawing(pos, pos) && r.value.tool == c.tool && r.value.brush == c.brush &&
      r.value.history.undo == c.history.undo && r.value.history.redo == c.history.redo &&
      r.value.history.image.Some? && Grid(r.value)
    ensures c.tool == Fill && left && c.history.image.Some? && pos !in c.history.image.value.pixels ==>
      r == Success(Begin(c, left, pos, paint))
    ensures c.tool == Fill && left && c.history.image.Some? && pos in c.history.image.value.pixels ==>
      var img, out, target := c.history.image.value, r.value.history.image.value, c.history.image.value.pixels[pos];
      FloodFill.Tracked(img, out, target, c.brush.color) && out.pixels[pos] == c.brush.color &&
      (forall p :: FloodFill.Recoloured(img, out, target, p) ==> FloodFill.Connected(img, target, pos, p)) &&
      (forall p :: FloodFill.Recoloured(img, out, target, p) ==> FloodFill.Sealed(out, target, p))
    ensures KeepsGrid(paint) && r.Success? ==> Grid(r.value)
  {
    var b := Begin(c, left, pos, paint);
    if !left || c.tool != Fill {
      return Success(b);
    }
    if c.history.image.None? {
      return Failure("AttributeError: 'NoneType' object has no attribute 'pixelColor'");
    }
    var img := c.history.image.value;
    if pos !in img.pixels {
      return Success(b);
    }
    var out := FloodFill.Fill(img, pos, img.pixels[pos], c.brush.color);
    r := Success(b.(history := b.history.(image := Some(out))));
  }

  /**
   * `mouseMoveEvent`: only while the left button is held during a drag. The pen paints a
   * segment from the last position; every tool then records the new position.
   */
  function Move(c: Canvas, leftHeld: bool, pos: Point, paint: Painter): (r: Canvas)
    ensures !leftHeld || c.mode.Idle? ==> r == c
    ensures leftHeld && c.mode.Drawing? ==>
      r.mode == Drawing(c.mode.start, pos) && r.tool == c.tool && r.brush == c.brush &&
      r.history.undo == c.history.undo && r.history.redo == c.history.redo
    ensures leftHeld && c.mode.Drawing? && c.tool != Pen ==> r.history == c.history
    ensures KeepsGrid(paint) && Grid(c) ==> Grid(r)
  {
    match c.mode
    case Idle => c
    case Drawing(s, l) =>
      if !leftHeld then c
      else if c.tool == Pen then
        c.(mode := Drawing(s, pos), history := c.history.(image := Draw(paint, c.brush, Segment(l, pos), c.history.image)))
      else c.(mode := Drawing(s, pos))
  }

  /**
   * `mouseReleaseEvent`: a left release ends a drag. For every tool but the pen it first saves
   * an undo snapshot and then commits the shape from the drag start to the release point.
   */
  function Release(c: Canvas, left: bool, pos: Point, paint: Painter): (r: Canvas)
    ensures !left || c.mode.Idle? ==> r == c
    ensures left && c.mode.Drawing? ==> r.mode == Idle && r.tool == c.tool && r.brush == c.brush
    ensures left && c.mode.Drawing? && c.tool == Pen ==> r.history == c.history
    ensures left && c.mode.Drawing? && c.tool != Pen && c.history.image.Some? ==>
      r.history.undo == c.history.undo + [c.history.image.value] && r.history.redo == [] &&
      r.history.image == Some(Shape(paint, c.brush, c.tool, c.mode.start, pos, c.history.image.value))
    ensures left && c.mode.Drawing? && c.history.image.None? ==> r.history == c.history
    ensures KeepsGrid(paint) && Grid(c) ==> Grid(r)
  {
    match c.mode
    case Idle => c
    case Drawing(s, _) =>
      if !left then c
      else if c.tool == Pen then c.(mode := Idle)
      else
        var h := SaveUndo(c.history);
        var img := match h.image case None => None case Some(i) => Some(Shape(paint, c.brush, c.tool, s, pos, i));
        c.(mode := Idle, history := h.(image := img))
  }

  /** A run of moves with the left button held. */
  function Moves(c: Canvas, ps: seq<Point>, paint: Painter): (r: Canvas)
    ensures KeepsGrid(paint) && Grid(c) ==> Grid(r)
    decreases |ps|
  {
    if ps == [] then c else Moves(Move(c, true, ps[0], paint), ps[1..], paint)
  }

  /** The pen's segments through the positions `ps`, starting from `from`. */
  function Trail(paint: Painter, b: Brush, from: Point, ps: seq<Point>, img: Option<Image>): Option<Image>
    decreases |ps|
  {
    if ps == [] then img else Trail(paint, b, ps[0], ps[1..], Draw(paint, b, Segment(from, ps[0]), img))
  }

  function LastOr(p: Point, ps: seq<Point>): Point
  {
    if ps == [] then p else ps[|ps| - 1]
  }

  /** Moves with a shape tool only track the pointer: the image and both stacks stay as they are. */
  lemma {:induction false} ShapeMoves(c: Canvas, ps: seq<Point>, paint: Painter)
    requires c.mode.Drawing? && c.tool != Pen
    ensures Moves(c, ps, paint) == c.(mode := Drawing(c.mode.start, LastOr(c.mode.last, ps)))
    decreases |ps|
  {
    if ps != [] {
      var m := Move(c, true, ps[0], paint);
      ShapeMoves(m, ps[1..], paint);
      assert LastOr(m.mode.last, ps[1..]) == LastOr(c.mode.last, ps);
    }
  }

  /** Moves with the pen paint the segments between successive positions and never touch the stacks. */
  lemma {:induction false} PenMoves(c: Canvas, ps: seq<Point>, paint: Painter)
    requires c.mode.Drawing? && c.tool == Pen
    ensures Moves(c, ps, paint) ==
      c.(mode := Drawing(c.mode.start, LastOr(c.mode.last, ps)),
         history := c.history.(image := Trail(paint, c.brush, c.mode.last, ps, c.history.image)))
    decreases |ps|
  {
    if ps != [] {
      var m := Move(c, true, ps[0], paint);
      PenMoves(m, ps[1..], paint);
      assert LastOr(m.mode.last, ps[1..]) == LastOr(c.mode.last, ps);
    }
  }

  /**
   * A whole drag with a shape tool — press at `a`, moves through `ps`, release at `e` — saves
   * exactly one undo snapshot, the image from before the drag, and commits the shape from `a`
   * to `e`, wherever the moves went.
   */
  lemma ShapeDrag(c: Canvas, a: Point, ps: seq<Point>, e: Point, paint: Painter)
    requires c.tool != Pen && c.tool != Fill && c.history.image.Some?
    ensures var r := Release(Moves(Begin(c, true, a, paint), ps, paint), true, e, paint);
      r.mode == Idle && r.history.undo == c.history.undo + [c.history.image.value] && r.history.redo == [] &&
      r.history.image == Some(Shape(paint, c.brush, c.tool, a, e, c.history.image.value))
    ensures KeepsGrid(paint) && Grid(c) ==> Grid(Release(Moves(Begin(c, true, a, paint), ps, paint), true, e, paint))
  {
    ShapeMoves(Begin(c, true, a, paint), ps, paint);
  }

  /**
   * A whole pen drag saves exactly one undo snapshot, the image from before the press, and
   * paints the first point and then the segments through the moves; the release adds nothing.
   */
  lemma PenDrag(c: Canvas, a: Point, ps: seq<Point>, e: Point, paint: Painter)
    requires c.tool == Pen && c.history.image.Some?
    ensures var r := Release(Moves(Begin(c, true, a, paint), ps, paint), true, e, paint);
      var img := c.history.image.value;
      r.mode == Idle && r.history.undo == c.history.undo + [img] && r.history.redo == [] &&
      r.history.image == Trail(paint, c.brush, a, ps, Some(paint(c.brush, Dot(a), img)))
    ensures KeepsGrid(paint) && Grid(c) ==> Grid(Release(Moves(Begin(c, true, a, paint), ps, paint), true, e, paint))
  {
    PenMoves(Begin(c, true, a, paint), ps, paint);
  }

  /**
   * A fill click (press and release at `pos`): the release saves its undo snapshot only after
   * the press has filled, so the snapshot is the filled image and undo cannot bring back the
   * image from before the fill.
   */
  method FillClick(c: Canvas, pos: Point, paint: Painter) returns (r: Result<Canvas>)
    requires Grid(c) && c.tool == Fill && c.mode.Idle? && c.history.image.Some?
    requires pos in c.history.image.value.pixels && c.history.image.value.pixels[pos] != c.brush.color
    ensures r.Success? && r.value.mode == Idle && r.value.history.image.Some?
    ensures var h := r.value.history; var out := h.image.value;
      h.undo == c.history.undo + [out] && out != c.history.image.value && pos in out.pixels && out.pixels[pos] == c.brush.color
    ensures var u := Undo(r.value.history);
      u.Success? && u.value.image != c.history.image
  {
    var p := Press(c, true, pos, paint);
    var filled := p.value.history.image.value;
    assert filled.pixels[pos] != c.history.image.value.pixels[pos];
    r := Success(Release(p.value, true, pos, paint));
    var h := r.value.history;
    assert h.undo[..|h.undo| - 1] == c.history.undo;
  }

  /** Dragging a rectangle, ellipse or circle the other way round previews the same pixels. */
  lemma PreviewReversed(c: Canvas)
    requires c.mode.Drawing? && (c.tool == Rectangle || c.tool == Ellipse || c.tool == Circle)
    ensures Preview(c.(mode := Drawing(c.mode.last, c.mode.start))) == Preview(c)
  {
    var s, l := c.mode.start, c.mode.last;
    Rectangles.RectangleCornersAgree(s, l);
    Ellipses.EllipseFrameSymmetric(s, l);
    Circles.CircleFrameSymmetric(s, l);
  }

  /** The line preview is not: a (2, 1) drag and its reverse preview different middle pixels. */
  lemma LinePreviewDirected(c: Canvas)
    requires c.mode.Drawing? && c.tool == Line
    requires c.mode.last == Point(c.mode.start.x + 2, c.mode.start.y + 1)
    ensures Preview(c.(mode := Drawing(c.mode.last, c.mode.start))) != Preview(c)
  {
    var s, l := c.mode.start, c.mode.last;
    Lines.LineTwoOne(s, l);
    assert Lines.Line(s, l)[1] != Lines.Line(l, s)[1];
  }

  /** The circle the release commits is the preview for a last position at the release point. */
  lemma CircleCommitIsPreview(c: Canvas, e: Point, paint: Painter, img: Image)
    requires c.mode.Drawing? && c.tool == Circle
    ensures Shape(paint, c.brush, Circle, c.mode.start, e, img) ==
      PlotAll(paint, c.brush, Preview(c.(mode := Drawing(c.mode.start, e))), img)
  {
  }

  /** The committed circle does not depend on the drag direction. */
  lemma CircleCommitReversed(paint: Painter, b: Brush, s: Point, e: Point, img: Image)
    ensures Shape(paint, b, Circle, s, e, img) == Shape(paint, b, Circle, e, s, img)
  {
    Circles.CircleFrameSymmetric(s, e);
  }

  /**
   * The ellipse preview draws the program's ellipse: for a drag by (4, 18) the frame has
   * rx = 2 and ry = 9, and the 13th previewed point is the start plus (4, 15).
   */
  lemma EllipsePreviewAsDrawn(c: Canvas)
    requires c.mode.Drawing? && c.tool == Ellipse
    requires c.mode.last == Point(c.mode.start.x + 4, c.mode.start.y + 18)
    ensures |Preview(c)| > 12 && Preview(c)[12] == Point(c.mode.start.x + 4, c.mode.start.y + 15)
  {
    var s := c.mode.start;
    var f := Ellipses.EllipseFrame(s, c.mode.last);
    assert f == Ellipses.Frame(Point(s.x + 2, s.y + 9), 2, 9);
    Ellipses.EllipseTwoNine(f.centre);
  }
}
