/**
 * The OpenGL canvas keeps no image: it records every stroke as a `(tool, points)` pair and
 * redraws the list each frame. A pen stroke grows its record point by point; a shape stroke is
 * recorded once, on release, with its start and end points.
 */
module GlStrokes {
  import opened Geometry
  import opened Outcomes
  import opened Tools

  datatype Record = Record(tool: Tool, points: seq<Point>)

  /** `_drawing` together with the `_start_point` of the drag in progress. */
  datatype Mode = Idle | Drawing(start: Point)

  datatype GlCanvas = GlCanvas(mode: Mode, tool: Tool, records: seq<Record>)

  /** The constructor's state: no records, not drawing, the pen selected. */
  function Fresh(): (c: GlCanvas)
    ensures c.records == [] && c.mode.Idle? && c.tool == Pen
  {
    GlCanvas(Idle, Pen, [])
  }

  /** `mousePressEvent`: a left press starts a drag; with the pen it opens a record holding the press point. */
  function Press(c: GlCanvas, left: bool, pos: Point): (r: GlCanvas)
    ensures !left ==> r == c
    ensures left ==> r.mode == Drawing(pos) && r.tool == c.tool
    ensures left && c.tool == Pen ==> r.records == c.records + [Record(Pen, [pos])]
    ensures left && c.tool != Pen ==> r.records == c.records
  {
    if !left then c
    else if c.tool == Pen then GlCanvas(Drawing(pos), c.tool, c.records + [Record(Pen, [pos])])
    else c.(mode := Drawing(pos))
  }

  /**
   * `mouseMoveEvent` (sent with or without a button held, as mouse tracking is on): during a
   * pen drag the point joins the last record, whichever tool made it; with no record at all
   * the indexing raises.
   */
  function Move(c: GlCanvas, pos: Point): (r: Result<GlCanvas>)
    ensures c.mode.Idle? || c.tool != Pen ==> r == Success(c)
    ensures c.mode.Drawing? && c.tool == Pen && c.records == [] ==> r.Failure?
    ensures c.mode.Drawing? && c.tool == Pen && c.records != [] ==>
      var n := |c.records| - 1;
      r.Success? && r.value.mode == c.mode && r.value.tool == c.tool && |r.value.records| == |c.records| &&
      r.value.records[..n] == c.records[..n] &&
      r.value.records[n] == c.records[n].(points := c.records[n].points + [pos])
  {
    if c.mode.Idle? || c.tool != Pen then Success(c)
    else if c.records == [] then Failure("IndexError: list index out of range")
    else
      var n := |c.records| - 1;
      Success(c.(records := c.records[n := c.records[n].(points := c.records[n].points + [pos])]))
  }

  /**
   * `mouseReleaseEvent`: a left release ends the drag; with a shape tool it records the tool
   * with the drag start and the release point.
   */
  function Release(c: GlCanvas, left: bool, pos: Point): (r: GlCanvas)
    ensures !left || c.mode.Idle? ==> r == c
    ensures left && c.mode.Drawing? ==> r.mode == Idle && r.tool == c.tool
    ensures left && c.mode.Drawing? && c.tool == Pen ==> r.records == c.records
    ensures left && c.mode.Drawing? && c.tool != Pen ==> r.records == c.records + [Record(c.tool, [c.mode.start, pos])]
  {
    match c.mode
    case Idle => c
    case Drawing(s) =>
      if !left then c
      else if c.tool == Pen then c.(mode := Idle)
      else GlCanvas(Idle, c.tool, c.records + [Record(c.tool, [s, pos])])
  }

  /** `clear_canvas`: forget every record; a drag in progress goes on. */
  function Clear(c: GlCanvas): (r: GlCanvas)
    ensures r.records == [] && r.mode == c.mode && r.tool == c.tool
  {
    c.(records := [])
  }

  /** `set_tool` through the OpenGL window's four buttons. */
  function SelectTool(c: GlCanvas, id: int): (r: GlCanvas)
    ensures r.mode == c.mode && r.records == c.records
    ensures 0 <= id < 4 ==> ToolId(r.tool) == id
    ensures !(0 <= id < 4) ==> r == c
  {
    c.(tool := SetGlTool(c.tool, id))
  }

  /** Moves during a drag, stopping at the first error. */
  function Moves(c: GlCanvas, ps: seq<Point>): Result<GlCanvas>
    decreases |ps|
  {
    if ps == [] then Success(c)
    else match Move(c, ps[0]) case Failure(e) => Failure(e) case Success(m) => Moves(m, ps[1..])
  }

  /**
   * A pen stroke in isolation — press at `a`, moves through `ps`, release — adds exactly one
   * record, the press point followed by the moves, and leaves the earlier records alone.
   */
  lemma {:induction false} PenStroke(c: GlCanvas, a: Point, ps: seq<Point>, e: Point)
    requires c.tool == Pen
    ensures var m := Moves(Press(c, true, a), ps);
      m.Success? && Release(m.value, true, e).records == c.records + [Record(Pen, [a] + ps)] &&
      Release(m.value, true, e).mode == Idle
  {
    PenMovesGrow(Press(c, true, a), c.records, [a], ps);
  }

  lemma {:induction false} PenMovesGrow(c: GlCanvas, before: seq<Record>, pts: seq<Point>, ps: seq<Point>)
    requires c.mode.Drawing? && c.tool == Pen && c.records == before + [Record(Pen, pts)]
    ensures var m := Moves(c, ps);
      m.Success? && m.value.mode == c.mode && m.value.tool == Pen &&
      m.value.records == before + [Record(Pen, pts + ps)]
    decreases |ps|
  {
    if ps == [] {
      assert pts + ps == pts;
    } else {
      var n := |c.records| - 1;
      var m := Move(c, ps[0]).value;
      assert m.records == before + [Record(Pen, pts + [ps[0]])] by {
        assert m.records[..n] == before;
      }
      PenMovesGrow(m, before, pts + [ps[0]], ps[1..]);
      assert (pts + [ps[0]]) + ps[1..] == pts + ps;
    }
  }

  /** A shape stroke records only the press and release points, however the pointer moved. */
  lemma ShapeStroke(c: GlCanvas, a: Point, ps: seq<Point>, e: Point)
    requires c.tool != Pen
    ensures var m := Moves(Press(c, true, a), ps);
      m.Success? && Release(m.value, true, e).records == c.records + [Record(c.tool, [a, e])]
  {
    ShapeMovesStill(Press(c, true, a), ps);
  }

  lemma {:induction false} ShapeMovesStill(c: GlCanvas, ps: seq<Point>)
    requires c.tool != Pen
    ensures Moves(c, ps) == Success(c)
    decreases |ps|
  {
    if ps != [] {
      ShapeMovesStill(c, ps[1..]);
    }
  }

  /**
   * Switching to the pen in the middle of a rectangle drag makes the moves extend the record
   * before it, here the rectangle already on the list, which then holds three points.
   */
  lemma SwitchMidDragExtends(a: Point, b: Point, p: Point, q: Point)
    ensures var c0 := Release(Press(Fresh().(tool := Rectangle), true, a), true, b);
      var c1 := SelectTool(Press(c0, true, p), 0);
      Move(c1, q) == Success(c1.(records := [Record(Rectangle, [a, b, q])]))
  {
    var c0 := Release(Press(Fresh().(tool := Rectangle), true, a), true, b);
    assert c0.records == [Record(Rectangle, [a, b])];
    var c1 := SelectTool(Press(c0, true, p), 0);
    assert c1.records == c0.records && c1.mode.Drawing? && c1.tool == Pen;
    assert [a, b] + [q] == [a, b, q];
    assert c1.records[0 := Record(Rectangle, [a, b, q])] == [Record(Rectangle, [a, b, q])];
  }

  /** The same switch on an empty list, or after a clear, makes the next move raise. */
  lemma SwitchMidDragFails(c: GlCanvas, p: Point, q: Point)
    requires c.tool == Rectangle
    ensures Move(SelectTool(Press(Clear(c), true, p), 0), q).Failure?
  {
  }
}
