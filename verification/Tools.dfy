/**
 * The drawing tools and `PythonPaint.set_tool`, which maps the id of the clicked tool button to a
 * tool. The QPainter canvas has six buttons; the OpenGL canvas has the first four of them.
 */
module Tools {
  datatype Tool = Pen | Rectangle | Ellipse | Line | Fill | Circle

  /** The id of a tool's button: its place in the `tools` list of the window. */
  function ToolId(t: Tool): (id: nat)
    ensures id < 6
  {
    match t
    case Pen => 0
    case Rectangle => 1
    case Ellipse => 2
    case Line => 3
    case Fill => 4
    case Circle => 5
  }

  /** The tools the OpenGL canvas offers. */
  predicate GlTool(t: Tool)
  {
    ToolId(t) < 4
  }

  /** `set_tool(id)` of the QPainter window: a known id picks its tool, any other id changes nothing. */
  function SetTool(current: Tool, id: int): (t: Tool)
    ensures 0 <= id < 6 ==> ToolId(t) == id
    ensures !(0 <= id < 6) ==> t == current
  {
    if id == 0 then Pen
    else if id == 1 then Rectangle
    else if id == 2 then Ellipse
    else if id == 3 then Line
    else if id == 4 then Fill
    else if id == 5 then Circle
    else current
  }

  /** `set_tool(id)` of the OpenGL window, whose list stops after the line tool. */
  function SetGlTool(current: Tool, id: int): (t: Tool)
    ensures 0 <= id < 4 ==> ToolId(t) == id
    ensures !(0 <= id < 4) ==> t == current
  {
    if 0 <= id < 4 then SetTool(current, id) else current
  }

  /** Clicking a tool's own button selects exactly that tool, whatever was selected before. */
  lemma SetToolById(current: Tool, t: Tool)
    ensures SetTool(current, ToolId(t)) == t
    ensures GlTool(t) ==> SetGlTool(current, ToolId(t)) == t
  {
  }

  /** The OpenGL window never leaves its four tools, and it ignores the ids of fill and circle. */
  lemma SetGlToolStays(current: Tool, id: int)
    requires GlTool(current)
    ensures GlTool(SetGlTool(current, id))
    ensures id == 4 || id == 5 ==> SetGlTool(current, id) == current
  {
  }
}
