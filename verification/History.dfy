/**
 * The undo/redo history of the canvas: the current image (which really can be missing: the
 * canvas starts without one), a stack of undo snapshots and a stack of redo entries. Stack tops
 * are the last elements, as with Python's `append`/`pop`.
 */
module History {
  import opened Outcomes
  import opened Pixels

  datatype History = History(image: Option<Image>, undo: seq<Image>, redo: seq<Option<Image>>)

  /** Every image the history holds, current or stacked for undo or redo, is a full grid. */
  predicate Grids(h: History)
  {
    (h.image.Some? ==> Valid(h.image.value)) &&
    (forall i :: 0 <= i < |h.undo| ==> Valid(h.undo[i])) &&
    (forall i :: 0 <= i < |h.redo| && h.redo[i].Some? ==> Valid(h.redo[i].value))
  }

  /** `save_undo_state`: push a copy of the image and empty the redo stack; nothing without an image. */
  function SaveUndo(h: History): (r: History)
    ensures h.image.None? ==> r == h
    ensures h.image.Some? ==> r.image == h.image && r.undo == h.undo + [h.image.value] && r.redo == []
    ensures Grids(h) ==> Grids(r)
  {
    match h.image
    case None => h
    case Some(img) => History(h.image, h.undo + [img], [])
  }

  /**
   * `is_image_blank`: no image, or an image equal to the white image of its size. On a grid
   * that is the same as every pixel being white.
   */
  predicate IsBlank(h: History): (b: bool)
    ensures h.image.None? ==> b
    ensures h.image.Some? && Valid(h.image.value) ==>
      (b <==> h.image.value == Filled(h.image.value.width, h.image.value.height, White))
  {
    h.image.None? || (AllWhiteIsFilled(h.image.value); AllWhite(h.image.value))
  }

  /**
   * `clear_canvas` with the fresh image `blank` (which is missing for a zero-sized widget): the
   * old image, missing or not, goes onto the redo stack, not the undo stack.
   */
  function Clear(h: History, blank: Option<Image>): (r: History)
    ensures r.image == blank && r.undo == h.undo && r.redo == h.redo + [h.image]
    ensures Grids(h) && (blank.Some? ==> Valid(blank.value)) ==> Grids(r)
  {
    History(blank, h.undo, h.redo + [h.image])
  }

  /** The state the constructor leaves: no image yet, then `clear_canvas`. */
  function Start(blank: Option<Image>): (r: History)
    ensures r == History(blank, [], [None])
    ensures (blank.Some? ==> Valid(blank.value)) ==> Grids(r)
  {
    Clear(History(None, [], []), blank)
  }

  /**
   * `undo`: nothing happens while the canvas is blank. Otherwise the image goes onto the redo
   * stack and the undo top becomes the image; with an empty undo stack the pop raises.
   */
  function Undo(h: History): (r: Result<History>)
    ensures IsBlank(h) ==> r == Success(h)
    ensures !IsBlank(h) && h.undo == [] ==> r.Failure?
    ensures !IsBlank(h) && h.undo != [] ==>
      r.Success? && r.value.image == Some(h.undo[|h.undo| - 1]) && r.value.undo == h.undo[..|h.undo| - 1] &&
      r.value.redo == h.redo + [h.image]
    ensures Grids(h) && r.Success? ==> Grids(r.value)
  {
    if IsBlank(h) then Success(h)
    else if h.undo == [] then Failure("IndexError: pop from empty list")
    else Success(History(Some(h.undo[|h.undo| - 1]), h.undo[..|h.undo| - 1], h.redo + [h.image]))
  }

  /** `redo`: nothing without a redo entry or without an image; otherwise the mirror image of `undo`. */
  function Redo(h: History): (r: History)
    ensures h.redo == [] || h.image.None? ==> r == h
    ensures h.redo != [] && h.image.Some? ==>
      r.image == h.redo[|h.redo| - 1] && r.undo == h.undo + [h.image.value] && r.redo == h.redo[..|h.redo| - 1]
    ensures Grids(h) ==> Grids(r)
  {
    if h.redo == [] || h.image.None? then h
    else History(h.redo[|h.redo| - 1], h.undo + [h.image.value], h.redo[..|h.redo| - 1])
  }

  /** An undo that does something is exactly reverted by a redo: image and both stacks. */
  lemma UndoRedo(h: History)
    requires Undo(h).Success? && Undo(h).value != h
    ensures Redo(Undo(h).value) == h
  {
    var u := Undo(h).value;
    assert u.redo[..|u.redo| - 1] == h.redo;
    assert u.undo + [u.image.value] == h.undo;
  }

  /** A redo of a non-blank image is exactly reverted by an undo. */
  lemma RedoUndo(h: History)
    requires h.redo != [] && h.image.Some?
    requires var e := h.redo[|h.redo| - 1]; e.Some? && !AllWhite(e.value)
    ensures Undo(Redo(h)) == Success(h)
  {
    var r := Redo(h);
    assert r.undo[..|r.undo| - 1] == h.undo;
    assert r.redo + [r.image] == h.redo;
  }

  /** Undo only ever puts an undo snapshot in place, so after a save the undo top is the saved image. */
  lemma SaveThenUndo(h: History)
    requires h.image.Some? && !AllWhite(h.image.value)
    ensures Undo(SaveUndo(h)) == Success(History(h.image, h.undo, [h.image]))
  {
    var s := SaveUndo(h);
    assert !IsBlank(s);
    assert s.undo[..|s.undo| - 1] == h.undo;
    assert s.redo + [s.image] == [h.image];
  }

  /** After a clear, undo does nothing (the canvas is blank) but redo brings the old image back. */
  lemma ClearThenRedo(h: History, blank: Image)
    requires AllWhite(blank)
    ensures Undo(Clear(h, Some(blank))) == Success(Clear(h, Some(blank)))
    ensures Redo(Clear(h, Some(blank))) == History(h.image, h.undo + [blank], h.redo)
  {
    var c := Clear(h, Some(blank));
    assert c.redo[..|c.redo| - 1] == h.redo;
  }

  /** Redo straight after start-up pops the `None` that construction pushed, leaving no image. */
  lemma StartThenRedo(blank: Image)
    ensures Redo(Start(Some(blank))) == History(None, [blank], [])
  {
  }

  /** A non-blank canvas with nothing to undo makes `undo` raise. */
  lemma UndoEmptyFails(img: Image)
    requires !AllWhite(img)
    ensures Undo(History(Some(img), [], [])).Failure?
  {
  }
}
