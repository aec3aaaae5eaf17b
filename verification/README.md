# PythonPaint core in Dafny

PythonPaint is a small desktop paint program with two canvases.

- The QPainter canvas (`play_boi_extreme..py`) keeps a white RGB32 image. It draws shape previews with its own integer rasterisers:
  - a Bresenham line;
  - a midpoint circle with 8-way symmetry;
  - a two-region midpoint ellipse;
  - a rectangle outline.
- It flood-fills with a scan-line queue and keeps an undo/redo history of image snapshots. A press/move/release state machine drives the tools: pen, rectangle, ellipse, line, fill and circle.
- The OpenGL canvas (`with_opengl.py`) keeps no image. It keeps a list of `(tool, points)` stroke records and redraws them each frame.

This project models that core as pure Dafny functions over immutable values. Every rasteriser returns the sequence of points it plots, in plotting order. The flood fill is a method with loop invariants. The history, the tool selection and both event machines are functions over datatypes.

The modules:

- `Geometry`: points, floor halving, the integer square root, and reflections about a centre.
- `Lines`, `Circles`, `Ellipses`, `Rectangles`: the four rasterisers and the drag-to-shape derivations.
- `Pixels`: the image as a width × height map of 32-bit `QRgb` words.
- `FloodFill`: `flood_fill`.
- `History`: `save_undo_state`, `is_image_blank`, `clear_canvas`, `undo` and `redo`.
- `Tools`: `set_tool` of both windows.
- `Gesture`: the QPainter canvas's mouse handlers and its preview.
- `GlStrokes`: the OpenGL canvas's record list.
- `Outcomes`: `Option` and `Result`, where a `Failure` stands for a Python exception.

Every operation has a partner property: a reference definition it is proved equal to, an inverse, or a whole-gesture lemma:

- The circle loop equals the textbook midpoint circle driven by the midpoint test itself.
- The ellipse is modelled as the program draws it. Its mirror symmetry, its axis points and its row bounds are proved for both region-2 updates, the program's and the corrected one, and the corrected ellipse equals the textbook two-region midpoint ellipse.
- Undo and redo revert each other.
- A whole drag is summarised by one lemma per tool family.

In four places the code differs from what one would expect, and the model follows the code. A fifth, the ellipse's region-2 update, is listed under "## Findings": the model draws it as written, and also states the corrected version.

- The line is not the same pixel set in both directions: (0, 0)→(2, 1) and (2, 1)→(0, 0) differ in the middle pixel.
- The circle loop's last pass can cross the diagonal. For r = 5 it plots the offset (4, 3).
- `clear_canvas` pushes the old image onto the redo stack, not the undo stack.
- A fill is snapshotted on release, after the press has already filled.

Region 1 of the ellipse is seeded with `rx2 // 4`, not scaled by 4 as its comment says. This is harmless: `Ellipses.Region1Step` shows that the sign of `p` is exactly the sign of the scaled midpoint value.

## Model

| member | source | states |
|---|---|---|
| `Geometry.Half` | play_boi_extreme..py:174-175 | Python's `// 2`: the result r satisfies 2r ≤ n < 2r + 2, for negative n too |
| `Geometry.IntSqrt` | play_boi_extreme..py:186-187 | `int(n ** 0.5)`: the largest r with r² ≤ n |
| `Lines.Advance` | play_boi_extreme..py:54-60 | one pass: x steps iff 2·err > −dy, y steps iff 2·err < dx, err is updated by both rules, and the invariant relating err to the steps taken is kept |
| `Lines.Steps` | play_boi_extreme..py:50-60 | the loop from a cursor on track ends exactly at the far end |
| `Lines.StepsShape` | play_boi_extreme..py:50-60 | every cursor of the walk is on track, and consecutive cursors are one loop pass apart |
| `Lines.Line` | play_boi_extreme..py:44-60 | the line is never empty; its first point is (x0, y0) and its last is (x1, y1) |
| `Lines.LineStrides` | play_boi_extreme..py:54-60 | between consecutive points each coordinate stays or moves by one in the direction of sx/sy, and the point always changes |
| `Lines.LineWithin` | play_boi_extreme..py:54-60 | no point lies outside the box of the two end points (no step passes the end point) |
| `Lines.LineDistinct` | play_boi_extreme..py:50-60 | no pixel is plotted twice |
| `Lines.StepsLength` | play_boi_extreme..py:50-60 | the major coordinate steps on every pass |
| `Lines.LineLength` | play_boi_extreme..py:44-60 | the line plots max(\|dx\|, \|dy\|) + 1 points |
| `Lines.DiagonalLine` | play_boi_extreme..py:44-60 | a 45° line plots the k-th diagonal pixel as its k-th point |
| `Lines.DiagonalFrom` | play_boi_extreme..py:44-60 | from any p0, the drag to p0 + (n, n) plots exactly p0 + (i, i) for i = 0, …, n, for example (0, 0), (1, 1), …, (9, 9) |
| `Lines.LineTwoOne` | play_boi_extreme..py:44-60 | a (2, 1) step plots (x0+1, y0) going forward but (x0+1, y0+1) going back |
| `Lines.LineNotReversible` | play_boi_extreme..py:44-60 | the pixel set depends on which end point is passed first |
| `Circles.Octants` | play_boi_extreme..py:80-88 | `_draw_circle_points` plots eight points, the first at (xc+x, yc+y) |
| `Circles.OctantsReflect` | play_boi_extreme..py:80-88 | the eight points are closed under the mirror in x, the mirror in y and the diagonal swap about the centre |
| `Circles.Arc` | play_boi_extreme..py:71-78 | the `while x < y` loop terminates (y − x shrinks) and plots only inside the (2r+1)-square |
| `Circles.Circle` | play_boi_extreme..py:61-78 | r ≤ 0 plots nothing; otherwise (xc, yc±r) and (xc±r, yc) are plotted, and every point lies in the (2r+1)-square |
| `Circles.ArcReflect` | play_boi_extreme..py:71-78 | the loop's points are closed under the three reflections |
| `Circles.CircleReflect` | play_boi_extreme..py:61-88 | the circle is closed under all eight symmetries about its centre |
| `Circles.DecisionStep` | play_boi_extreme..py:67-77 | `d < 0` holds exactly when the next midpoint lies inside the circle, and both updates of `d` keep that meaning |
| `Circles.ArcIsMidpoint` | play_boi_extreme..py:71-78 | the `d`-driven loop equals the loop driven by the midpoint test |
| `Circles.CircleIsMidpoint` | play_boi_extreme..py:61-78 | the seed d = 1 − r is the midpoint value, so the circle is the textbook midpoint circle |
| `Circles.CircleLastPassCrosses` | play_boi_extreme..py:71-78 | for r = 5 and any centre the loop draws five octant groups, at offsets (0, 5), (1, 5), (2, 5), (3, 4) and (4, 3), 40 points; its last pass ends past the diagonal, where a loop keeping x <= y would stop at 32 |
| `Circles.SquaredLength` | play_boi_extreme..py:186-187 | the squared drag length is zero exactly for an empty drag, and lies between the square of the longer side of the drag and twice that square |
| `Circles.SquaredLengthSymmetric` | play_boi_extreme..py:246-247 | the squared drag length is the same for both drag directions |
| `Circles.HalfRoot` | play_boi_extreme..py:186-187 | halving the floored square root of n gives an h with (2h)² ≤ n < (2h + 2)² |
| `Circles.CircleFrame` | play_boi_extreme..py:184-187 | the centre is the floored midpoint of the drag; 2r ≤ the drag length < 2r + 2 |
| `Circles.CircleFrameSymmetric` | play_boi_extreme..py:244-247 | either drag direction gives the same circle |
| `Ellipses.Quad` | play_boi_extreme..py:102-105 | four points per pass, the first (xc+x, yc+y) and the third (xc+x, yc−y) |
| `Ellipses.QuadReflect` | play_boi_extreme..py:102-105 | the four points are closed under both mirrors about the centre |
| `Ellipses.Budget1Drops` | play_boi_extreme..py:101-111 | while region 1 runs, a non-negative measure drops on every pass, so the loop terminates |
| `Ellipses.Region1` | play_boi_extreme..py:99-111 | region 1 terminates with x not smaller and y in 0..ry, and plots only rows within ry of the centre |
| `Ellipses.Region1Step` | play_boi_extreme..py:100-111 | `p < 0` holds exactly when the scaled midpoint value is negative, and both updates keep that relation |
| `Ellipses.Region1IsMidpoint` | play_boi_extreme..py:99-111 | region 1 equals the region driven by the midpoint test itself |
| `Ellipses.Region2` | play_boi_extreme..py:113-125 | region 2 under either x-kept update: one quad per row from y down to 0, so it terminates and stays within the rows |
| `Ellipses.Region2AsWrittenStep` | play_boi_extreme..py:120-122 | the program's x-kept update leaves `p` short of the next midpoint value by 2·rx² (8·rx² scaled) |
| `Ellipses.Region2Step` | play_boi_extreme..py:113-125 | the corrected x-kept update and the program's x-stepping update both carry the midpoint value to the next candidate |
| `Ellipses.Region2IsMidpoint` | play_boi_extreme..py:113-125 | region 2 with the corrected update equals the region driven by the midpoint test |
| `Ellipses.EllipseWith` | play_boi_extreme..py:90-125 | under either update: rx ≤ 0 or ry ≤ 0 plots nothing; otherwise (xc, yc+ry) and (xc, yc−ry) come first, and all rows are within ry |
| `Ellipses.Ellipse` | play_boi_extreme..py:90-125 | the ellipse the program draws, with region 2 as written: the same guarantees |
| `Ellipses.CorrectedEllipse` | play_boi_extreme..py:90-125 | the ellipse with the corrected region-2 update: the same guarantees |
| `Ellipses.EllipseIsMidpoint` | play_boi_extreme..py:90-125 | the corrected ellipse is the textbook two-region midpoint ellipse |
| `Ellipses.Region1Reflect` | play_boi_extreme..py:101-111 | region 1 is closed under both mirrors |
| `Ellipses.Region2Reflect` | play_boi_extreme..py:115-125 | region 2, as written or corrected, is closed under both mirrors |
| `Ellipses.EllipseReflect` | play_boi_extreme..py:90-125 | the ellipse, the program's and the corrected one, is closed under both mirrors about its centre |
| `Ellipses.Region2MeetsAxis` | play_boi_extreme..py:115-125 | region 2 under either update plots the centre row on its last pass, before y drops below 0 |
| `Ellipses.EllipseMeetsAxis` | play_boi_extreme..py:90-125 | under either update some plotted point lies on the centre row |
| `Ellipses.EllipseTwoNine` | play_boi_extreme..py:121-122 | for rx = 2, ry = 9 about any centre c the program's 13th point is c + (2, 6) but the corrected one is c + (1, 6), which lies nearer the ellipse; so the two ellipses differ |
| `Ellipses.EllipseFrame` | play_boi_extreme..py:174-177 | the radii are half the drag extents, floored, and the ellipse's box starts at the drag box's corner and stays inside it |
| `Ellipses.EllipseFrameSymmetric` | play_boi_extreme..py:174-177 | either drag direction gives the same ellipse |
| `Ellipses.EllipseInDragRows` | play_boi_extreme..py:174-178 | the previewed ellipse, as the program draws it or corrected, stays within the rows of the drag |
| `Rectangles.TopBottom` | play_boi_extreme..py:131-133 | the first loop plots 2 points per column, and exactly the top and bottom rows |
| `Rectangles.LeftRight` | play_boi_extreme..py:135-137 | the second loop plots 2 points per row, and exactly the left and right columns |
| `Rectangles.Rectangle` | play_boi_extreme..py:127-137 | 2·w + 2·h plots, and a point is plotted iff it lies on the border of the min/max box |
| `Rectangles.RectangleCornersAgree` | play_boi_extreme..py:128-129 | swapping the corners, or using the other diagonal, gives the identical sequence |
| `Rectangles.RectangleCornerTwice` | play_boi_extreme..py:131-137 | the top-left corner is plotted by both loops |
| `Rectangles.SixBox` | play_boi_extreme..py:127-137 | any 6×6 drag box: 24 plots, the top-left corner twice, the pixel two steps inside it never |
| `Rectangles.RectangleExample` | play_boi_extreme..py:127-137 | (2, 2)–(7, 7): 24 plots, (2, 2) twice, the interior pixel (4, 4) never |
| `Pixels.Filled` | play_boi_extreme..py:143-145 | a blank image is a full grid of one colour |
| `Pixels.AllWhiteIsFilled` | play_boi_extreme..py:37-42 | a grid is all white exactly when it equals the white image of its size |
| `Pixels.SetPixel` | play_boi_extreme..py:327-328 | `setPixel` changes that one cell and keeps the grid |
| `FloodFill.West` | play_boi_extreme..py:315-319 | the scan left stops at the edge or at a non-target pixel, and everything scanned is target-coloured |
| `FloodFill.East` | play_boi_extreme..py:321-325 | the same for the scan right |
| `FloodFill.PaintRun` | play_boi_extreme..py:327-334 | recolours exactly the run; queues the target-coloured cells above and below it, all connected to the seed |
| `FloodFill.FillStep` | play_boi_extreme..py:307-334 | one pass of the queue loop keeps the fill invariant, and lowers the target count or the queue length |
| `FloodFill.FillRun` | play_boi_extreme..py:315-334 | the pass for a target-coloured front cell keeps the fill invariant and lowers the target count |
| `FloodFill.RunReady` | play_boi_extreme..py:315-325 | the scanned run around the front cell is all target-coloured and connected to the seed, and the rest of the queue waits for it |
| `FloodFill.Fill` | play_boi_extreme..py:289-334 | no-op if target = replacement or the seed is not target-coloured; otherwise only target pixels change, each to the replacement, the seed always changes, a pixel is recoloured exactly when it is 4-connected to the seed through target pixels, and none has a target-coloured 4-neighbour afterwards |
| `FloodFill.ConnectedRecoloured` | play_boi_extreme..py:289-334 | the fill is complete: a seed that is recoloured, with every recoloured pixel sealed, means every pixel connected to the seed is recoloured |
| `FloodFill.PathRecoloured` | play_boi_extreme..py:329-334 | along any walk of target pixels from a recoloured start, the end is recoloured |
| `FloodFill.SealedNeighbour` | play_boi_extreme..py:329-334 | after the fill, a target-coloured neighbour of a recoloured cell is recoloured as well |
| `FloodFill.UniformReached` | play_boi_extreme..py:289-334 | on a uniformly coloured grid every cell is recoloured |
| `FloodFill.FillBlankTen` | play_boi_extreme..py:289-334 | filling an all-white 10×10 grid black from any cell makes all of it black |
| `History.SaveUndo` | play_boi_extreme..py:31-35 | pushes an exact copy of the image and empties redo; does nothing without an image; keeps every image it holds, current or on either stack, a full grid |
| `History.IsBlank` | play_boi_extreme..py:37-42 | a missing image is blank; an image is blank exactly when it equals the white image of its size |
| `History.Clear` | play_boi_extreme..py:26-29 | the old image, possibly missing, goes onto the redo stack; the undo stack is kept; with a full-grid blank image, it keeps every image it holds a full grid |
| `History.Start` | play_boi_extreme..py:11-29 | construction leaves an empty undo stack and a redo stack holding one missing image; with a full-grid blank image, every image it holds is a full grid |
| `History.Undo` | play_boi_extreme..py:275-280 | no-op on a blank canvas; raises with an empty undo stack; otherwise pops undo into the image and pushes the image onto redo; keeps every image it holds, current or on either stack, a full grid |
| `History.Redo` | play_boi_extreme..py:282-287 | no-op without redo entries or without an image; otherwise the mirror of undo; keeps every image it holds, current or on either stack, a full grid |
| `History.UndoRedo` | play_boi_extreme..py:275-287 | an undo that does something, followed by redo, restores the image and both stacks exactly |
| `History.RedoUndo` | play_boi_extreme..py:275-287 | a redo of a non-blank image, followed by undo, restores everything exactly |
| `History.SaveThenUndo` | play_boi_extreme..py:31-42 | undo right after a save gives back the saved image |
| `History.ClearThenRedo` | play_boi_extreme..py:26-29 | undo cannot revert a clear (the canvas is blank), but redo brings the old image back |
| `History.StartThenRedo` | play_boi_extreme..py:11-29 | redo right after start-up leaves the canvas without an image |
| `History.UndoEmptyFails` | play_boi_extreme..py:275-280 | a drawn-on canvas with an empty undo stack makes undo raise |
| `Tools.ToolId` | play_boi_extreme..py:479-482 | every tool has a button id 0..5 |
| `Tools.SetTool` | play_boi_extreme..py:479-482 | ids 0..5 select the tool with that id; any other id keeps the current tool |
| `Tools.SetGlTool` | with_opengl.py:186-189 | ids 0..3 select pen, rectangle, ellipse or line; any other id keeps the current tool |
| `Tools.SetToolById` | play_boi_extreme..py:479-482 | selecting a tool's id selects that tool, from any state |
| `Tools.SetGlToolStays` | with_opengl.py:186-189 | the OpenGL window only ever has its four tools, and ignores ids 4 and 5 |
| `Gesture.CircleOf` | play_boi_extreme..py:184-187 | the dragged circle lies in the square of its derived radius |
| `Gesture.Draw` | play_boi_extreme..py:200-204 | painting on a missing image draws nothing and keeps it missing; on an image it applies the painter once, and a grid-keeping painter leaves the same grid |
| `Gesture.PlotAll` | play_boi_extreme..py:80-88 | plotting a sequence of points one `drawPoint` at a time with a grid-keeping painter leaves the same grid |
| `Gesture.Shape` | play_boi_extreme..py:231-248 | committing any tool's shape with a grid-keeping painter leaves the same grid |
| `Gesture.Preview` | play_boi_extreme..py:164-187 | nothing is previewed when idle, with the pen or with fill; the rectangle preview is exactly the border of the drag box |
| `Gesture.Begin` | play_boi_extreme..py:191-204 | a left press starts a drag at the pointer; the pen first saves one snapshot of the unpainted image and then paints the point; other tools leave the history alone; with a painter that keeps the grid, every image the canvas holds, current or on either stack, stays a full grid |
| `Gesture.Press` | play_boi_extreme..py:191-211 | as `Begin`, and with fill the image is flood-filled from the pointer with the brush colour, with `Fill`'s guarantees and no snapshot; a click outside the image fills nothing, and a click without an image raises; with a painter that keeps the grid, every image the result holds, current or on either stack, is a full grid |
| `Gesture.Move` | play_boi_extreme..py:213-225 | nothing happens unless dragging with the left button held; the last position follows the pointer; only the pen paints, and no move touches the stacks; with a painter that keeps the grid, every image the canvas holds, current or on either stack, stays a full grid |
| `Gesture.Release` | play_boi_extreme..py:227-253 | nothing happens unless a left release ends a drag; the drag always ends; a non-pen tool saves exactly one snapshot of the pre-release image, then commits its shape from the drag start to the release point; with a painter that keeps the grid, every image the canvas holds, current or on either stack, stays a full grid |
| `Gesture.ShapeMoves` | play_boi_extreme..py:213-225 | moves with a shape tool only track the pointer |
| `Gesture.PenMoves` | play_boi_extreme..py:213-225 | moves with the pen paint the segments between successive positions and keep both stacks |
| `Gesture.Moves` | play_boi_extreme..py:213-225 | a run of moves with a grid-keeping painter keeps every image the canvas holds a full grid |
| `Gesture.ShapeDrag` | play_boi_extreme..py:191-253 | a whole shape drag saves exactly one snapshot, the image from before the drag, and commits the shape between press and release points, wherever the pointer moved; with a painter that keeps the grid, every image the canvas holds, current or on either stack, stays a full grid |
| `Gesture.PenDrag` | play_boi_extreme..py:191-253 | a whole pen drag saves exactly one snapshot, the image from before the press; with a painter that keeps the grid, every image the canvas holds, current or on either stack, stays a full grid |
| `Gesture.FillClick` | play_boi_extreme..py:207-230 | the fill click's snapshot is the already-filled image, so undo cannot bring back the image from before the fill |
| `Gesture.PreviewReversed` | play_boi_extreme..py:164-187 | the rectangle, ellipse and circle previews do not depend on drag direction |
| `Gesture.CircleCommitIsPreview` | play_boi_extreme..py:184-187 | the committed circle (:244-248) is the preview's point sequence for the release point, plotted in order |
| `Gesture.CircleCommitReversed` | play_boi_extreme..py:244-248 | the committed circle does not depend on the drag direction |
| `Gesture.EllipsePreviewAsDrawn` | play_boi_extreme..py:173-178 | the ellipse preview draws the program's ellipse: for a drag by (4, 18) its 13th point is the start plus (4, 15), where the corrected ellipse would give (3, 15) |
| `Gesture.LinePreviewDirected` | play_boi_extreme..py:179-182 | the line preview does depend on it: a (2, 1) drag and its reverse preview different second pixels |
| `GlStrokes.Fresh` | with_opengl.py:7-15 | the canvas starts idle with no records and the pen selected |
| `GlStrokes.Press` | with_opengl.py:70-76 | a left press starts a drag at the pointer; with the pen it appends exactly one record, the pen with the press point; other tools append nothing |
| `GlStrokes.Move` | with_opengl.py:78-81 | during a pen drag the point is appended to the last record only, and earlier records are unchanged; otherwise nothing changes; with no records at all it raises |
| `GlStrokes.Release` | with_opengl.py:83-89 | a left release during a drag ends it; a shape tool appends exactly one record (tool, [start, end]); the pen appends nothing; otherwise it is a no-op |
| `GlStrokes.Clear` | with_opengl.py:91-93 | the record list becomes empty |
| `GlStrokes.SelectTool` | with_opengl.py:186-189 | the chosen tool has the clicked id, and the records are kept |
| `GlStrokes.PenMovesGrow` | with_opengl.py:78-81 | pen moves extend the open record point by point |
| `GlStrokes.PenStroke` | with_opengl.py:70-89 | a pen stroke adds exactly one record: the press point followed by the moves |
| `GlStrokes.ShapeMovesStill` | with_opengl.py:78-81 | moves with a shape tool change nothing |
| `GlStrokes.ShapeStroke` | with_opengl.py:70-89 | a shape stroke adds exactly one record, holding only the press and release points |
| `GlStrokes.SwitchMidDragExtends` | with_opengl.py:78-81 | switching to the pen during a rectangle drag makes moves extend the earlier rectangle record |
| `GlStrokes.SwitchMidDragFails` | with_opengl.py:78-81 | the same switch with an empty record list makes the next move raise |

## Left out

- QPainter's rasterisation with the width-`brush_size` round-cap pen (`drawPoint`, `drawLine`, `drawRect`, `drawEllipse`). It is a `Gesture.Painter` parameter, an uninterpreted function from brush, stroke and image to image. The only thing the model assumes of it, and only where a contract says so, is `Gesture.KeepsGrid`: it recolours pixels but never resizes the image, as QPainter does.
- Display: the image compositing in `paintEvent`, every `update()` call and all OpenGL rendering (`initializeGL`, `resizeGL`, `paintGL`, floating-point trigonometry). These are library and GPU calls.
- `_create_blank_image` and `resizeEvent` depend on the widget size. The fresh image is a parameter of `History.Clear` and `History.Start`. A resize is a `History.Clear` with the new blank image.
- Null images (`isNull()`) are not modelled. The canvas never makes one, because `_create_blank_image` returns `None` for a zero-sized widget. So every null test collapses into the missing-image case.
- Colours are opaque `QRgb` words, 0xFF000000 to 0xFFFFFFFF. The image is RGB32 (play_boi_extreme..py:144), whose pixels always read back with alpha 0xFF, and the fill writes `QColor(...).rgb()`, which is opaque too. `QColor` objects and their equality (which also compares colour specs) are not modelled. The brush colour, including the initial `Qt.black`, is the corresponding word.
- `set_pixel`, `save_state`, the window classes, colour and file dialogs, and brush-size syncing. These are unreferenced code, file I/O and widget wiring.
- A click outside the image with the fill tool fills nothing. In the source this depends on Qt's out-of-range `pixel()` value differing from the invalid colour's value.
- Painting with no image draws nothing, because a QPainter on no device does not begin. A fill click with no image raises.
- The repaint after such states would also fail (`paintEvent` reads the image). That is display plumbing, left out as above.
- The mode `Idle` forgets the drag's start and last points. The source keeps them, but only reads them while drawing. The OpenGL canvas's initial `None` start point is likewise never read.
- `Circles.CircleFrame`: uses the exact integer square root. It agrees with the source's `int(n ** 0.5)` while floating-point square roots are exact, that is for drag lengths below about 2^26.
- `Ellipses.Region2`: the source keeps region 2's `p` as a float. The model uses the same value scaled by 4 (an integer), which keeps every sign test and update exact.
- `History.Undo`: on the raising path the model returns only the error. It does not return the redo stack that the source appended to just before raising, because an uncaught exception in a PyQt slot ends the program.
- `Rectangles.RectangleExample`: for (2, 2)–(7, 7) it states 24 plots, the duplicated corner and the absent interior pixel. It does not count the 20 distinct border pixels. `Rectangles.Rectangle` states the border set itself.
- `Ellipses.Ellipse`: no bound on how far its points lie from the true ellipse ((x − xc)/rx)² + ((y − yc)/ry)² = 1 is proved. The program's ellipse departs from the midpoint rule in region 2 (see Findings), so it has no such guarantee to inherit. For `Ellipses.CorrectedEllipse` the model proves that it is exactly the midpoint procedure (`Ellipses.EllipseIsMidpoint`), that it is symmetric, and that it stays in the drag's rows. A distance bound for the midpoint procedure is not proved.
- Tools are an enumeration rather than the source's tool-name strings. The OpenGL records carry the tool value rather than its name.

## Findings

| source | as written | input that shows it | evidently intended | confidence | as-written member | corrected member |
|---|---|---|---|---|---|---|
| play_boi_extreme..py:121-122 | when region 2 keeps x, `p -= two_rx2 * y + rx2`; the value drops 2·rx² below the next midpoint value | rx = 2, ry = 9 about any centre, e.g. (0, 0): region 2 starts at (1, 8) with 4p = 217, then plots (2, 6) as its 13th point, although (1, 6) lies nearer the ellipse (values −99 and 144) | `p -= two_rx2 * y - rx2`, the midpoint update, so that region 2 plots the textbook midpoint ellipse | not executed; proved by `Ellipses.EllipseTwoNine` and `Ellipses.Region2AsWrittenStep` | `Ellipses.Ellipse` (the program's ellipse, which the preview draws) | `Ellipses.CorrectedEllipse` (proved equal to the midpoint ellipse by `Ellipses.EllipseIsMidpoint`) |
