/** The per-frame input state machine: pointer-down starts a stroke, a held
    pointer grows or reshapes it, pointer-up ends it. The UI hit test and the
    screen-to-world projection arrive as plain inputs. */
module Input {
  import opened Wrappers
  import opened Seqs
  import opened Geometry
  import opened Strokes
  import opened DrawState
  import History

  /** What one frame observes: the three left-button flags, the pointer
      already projected to world space, whether it is over a UI element,
      and the background picker's current colour. */
  datatype FrameInput = FrameInput(
    down: bool, held: bool, up: bool,
    pointer: Point, overUI: bool, bgPick: Color)

  /** A fresh line object: no points, the given colour, the current width,
      active, and tagged as an eraser stroke in Eraser mode. */
  function StartNewLine(s: State, color: Color): (t: State)
    ensures |t.strokes| == |s.strokes| + 1 && t.strokes[..|s.strokes|] == s.strokes
    ensures t.strokes[|s.strokes|] == Stroke([], color, s.currentWidth, true, s.drawMode == Eraser)
    ensures t.lines == s.lines + [|s.strokes|]
    ensures t.eraserLines == if s.drawMode == Eraser then s.eraserLines + [|s.strokes|] else s.eraserLines
    ensures t.currentLine == Some(|s.strokes|) && t.previousPosition == None
    ensures t.undoStack == s.undoStack && t.redoStack == s.redoStack && t.deletedLines == s.deletedLines
    ensures t == s.(strokes := t.strokes, lines := t.lines, eraserLines := t.eraserLines,
                    currentLine := t.currentLine, previousPosition := t.previousPosition)
  {
    var h := |s.strokes|;
    var stroke := Stroke([], color, s.currentWidth, true, s.drawMode == Eraser);
    s.(strokes := s.strokes + [stroke],
       lines := s.lines + [h],
       eraserLines := if s.drawMode == Pen then s.eraserLines else s.eraserLines + [h],
       currentLine := Some(h),
       previousPosition := None)
  }

  /** The colour a new stroke gets: the pen colour, or in Eraser mode the
      background picker's colour. */
  function StrokeColor(s: State, bgPick: Color): Color
  {
    if s.drawMode == Pen then s.currentColor else bgPick
  }

  /** Pointer-down: the press position is always recorded; unless the press
      is over the UI, a stroke starts and the redo stack is cleared. */
  function PointerDown(s: State, input: FrameInput): (t: State)
    ensures t.initialPosition == OnDrawingPlane(input.pointer)
    ensures |t.strokes| == |s.strokes| + (if input.overUI then 0 else 1)
  {
    var pressed := s.(initialPosition := OnDrawingPlane(input.pointer));
    if input.overUI then pressed
    else StartNewLine(pressed, StrokeColor(s, input.bgPick)).(redoStack := [])
  }

  /** Pointer held with a stroke in progress: if the pointer is farther than
      `minDistance` from `previousPosition`, Dot mode appends the point and
      remembers it, Square and Circle modes redraw the whole outline from the
      press position (and never move `previousPosition`). */
  function PointerHeld(s: State, pointer: Point, f: FloatOps): (t: State)
    ensures |t.strokes| == |s.strokes| && t.lines == s.lines && t.undoStack == s.undoStack
    ensures s.shape != Dot ==> t.previousPosition == s.previousPosition
    ensures t == s.(strokes := t.strokes, previousPosition := t.previousPosition)
    ensures forall k :: 0 <= k < |s.strokes| && Some(k) != s.currentLine ==> t.strokes[k] == s.strokes[k]
  {
    match s.currentLine
    case None => s
    case Some(h) =>
      var current := OnDrawingPlane(pointer);
      if !MovedFarEnough(s.previousPosition, current, s.minDistance) then s
      else
        match s.shape
        case Square => s.(strokes := SetPoints(s.strokes, h, DrawSquare(s.initialPosition, current)))
        case Circle => s.(strokes := SetPoints(s.strokes, h, DrawCircle(s.initialPosition, current, f)))
        case Dot => s.(strokes := AppendPoint(s.strokes, h, current), previousPosition := Some(current))
  }

  /** One `Update`: the down, held and up branches run in this order, and
      all three may fire in the same frame. */
  function Frame(s: State, input: FrameInput, f: FloatOps): (t: State)
    ensures |t.strokes| == |s.strokes| + (if input.down && !input.overUI then 1 else 0)
  {
    var afterDown := if input.down then PointerDown(s, input) else s;
    var afterHeld := if input.held then PointerHeld(afterDown, input.pointer, f) else afterDown;
    if input.up then afterHeld.(currentLine := None) else afterHeld
  }

  lemma StartNewLineConsistent(s: State, color: Color)
    requires Consistent(s)
    ensures Consistent(StartNewLine(s, color))
  {
    var t := StartNewLine(s, color);
    var h := |s.strokes|;
    assert Handles(|t.strokes|) == Handles(h) + multiset{h};
    assert multiset(t.lines) == multiset(s.lines) + multiset{h};
    forall k | k in t.lines
      ensures k < |t.strokes| && t.strokes[k].active
    {
      assert k in s.lines || k == h;
    }
    forall k | k in t.undoStack
      ensures k < |t.strokes| && !t.strokes[k].active
    {
      assert k < h && t.strokes[k] == s.strokes[k];
    }
    forall k: Handle | k < |t.strokes|
      ensures t.strokes[k].isEraser <==> k in t.eraserLines
    {
      if k < h {
        assert t.strokes[k] == s.strokes[k];
      }
    }
  }

  lemma PointerDownPreservesValid(s: State, input: FrameInput)
    requires Valid(s)
    ensures Valid(PointerDown(s, input))
  {
    var pressed := s.(initialPosition := OnDrawingPlane(input.pointer));
    assert Consistent(pressed);
    if !input.overUI {
      StartNewLineConsistent(pressed, StrokeColor(s, input.bgPick));
    }
  }

  lemma PointerHeldPreservesValid(s: State, pointer: Point, f: FloatOps)
    requires Valid(s)
    ensures Valid(PointerHeld(s, pointer, f))
  {
    var t := PointerHeld(s, pointer, f);
    assert |t.strokes| == |s.strokes|;
    assert forall k :: 0 <= k < |s.strokes| ==>
      t.strokes[k].active == s.strokes[k].active && t.strokes[k].isEraser == s.strokes[k].isEraser;
  }

  /** Every frame keeps the session valid. */
  lemma FramePreservesValid(s: State, input: FrameInput, f: FloatOps)
    requires Valid(s)
    ensures Valid(Frame(s, input, f))
  {
    var afterDown := if input.down then PointerDown(s, input) else s;
    if input.down {
      PointerDownPreservesValid(s, input);
    }
    var afterHeld := if input.held then PointerHeld(afterDown, input.pointer, f) else afterDown;
    if input.held {
      PointerHeldPreservesValid(afterDown, input.pointer, f);
    }
  }

  /** A press outside the UI appends a new stroke to the list (and to
      `eraserLines` in Eraser mode), clears only `redoStack` and leaves the
      undo history untouched; the stroke has the mode's colour and the
      current width. A press over the UI only records the press position. */
  lemma PressStartsStroke(s: State, input: FrameInput)
    requires Valid(s)
    ensures var t := PointerDown(s, input);
      var h := |s.strokes|;
      && t.initialPosition == OnDrawingPlane(input.pointer)
      && (input.overUI ==> t == s.(initialPosition := OnDrawingPlane(input.pointer)))
      && (!input.overUI ==>
          && t.lines == s.lines + [h]
          && t.undoStack == s.undoStack
          && t.deletedLines == s.deletedLines
          && t.redoStack == []
          && t.strokes[..h] == s.strokes
          && t.strokes[h].points == []
          && t.strokes[h].color == (if s.drawMode == Pen then s.currentColor else input.bgPick)
          && t.strokes[h].width == s.currentWidth
          && t.strokes[h].active
          && (h in t.eraserLines <==> s.drawMode == Eraser)
          && t.currentLine == Some(h)
          && t.previousPosition == None
          && t == s.(initialPosition := OnDrawingPlane(input.pointer), strokes := t.strokes, lines := t.lines,
                     eraserLines := t.eraserLines, redoStack := [], currentLine := Some(h), previousPosition := None))
  {
  }

  /** Dot mode: a held frame appends the pointer, and moves
      `previousPosition` to it, exactly when it is farther than
      `minDistance`; otherwise nothing changes. */
  lemma DotModeThreshold(s: State, pointer: Point, f: FloatOps)
    requires s.shape == Dot && s.currentLine.Some? && s.currentLine.value < |s.strokes|
    ensures var t := PointerHeld(s, pointer, f);
      var h := s.currentLine.value;
      var current := OnDrawingPlane(pointer);
      if MovedFarEnough(s.previousPosition, current, s.minDistance) then
        && t.strokes[h].points == s.strokes[h].points + [current]
        && t.previousPosition == Some(current)
        && t == s.(strokes := t.strokes, previousPosition := Some(current))
        && (forall k :: 0 <= k < |s.strokes| && k != h ==> t.strokes[k] == s.strokes[k])
      else t == s
  {
  }

  /** Square and Circle modes leave `previousPosition` at +infinity after a
      stroke starts, so every held frame recomputes the whole outline from
      the press position to the pointer. */
  lemma ShapeModeRedrawsEveryFrame(s: State, pointer: Point, f: FloatOps)
    requires s.shape != Dot && s.previousPosition == None
    requires s.currentLine.Some? && s.currentLine.value < |s.strokes|
    ensures var t := PointerHeld(s, pointer, f);
      var h := s.currentLine.value;
      var current := OnDrawingPlane(pointer);
      && t.previousPosition == None
      && t.strokes[h].points == (if s.shape == Square then DrawSquare(s.initialPosition, current)
                                 else DrawCircle(s.initialPosition, current, f))
      && t == s.(strokes := t.strokes)
      && forall k :: 0 <= k < |s.strokes| && k != h ==> t.strokes[k] == s.strokes[k]
  {
  }

  /** The frame that presses outside the UI also counts as held, and the
      +infinity sentinel makes it always draw: in Dot mode the new stroke
      starts with the press point, in Square and Circle modes with a
      degenerate outline at the press point. */
  lemma PressFrameDrawsFirstPoint(s: State, input: FrameInput, f: FloatOps)
    requires Valid(s) && input.down && input.held && !input.overUI
    ensures var t := Frame(s, input, f);
      var p := OnDrawingPlane(input.pointer);
      t.strokes[|s.strokes|].points ==
        match s.shape
        case Dot => [p]
        case Square => DrawSquare(p, p)
        case Circle => DrawCircle(p, p, f)
  {
    var d := PointerDown(s, input);
    assert d.currentLine == Some(|s.strokes|) && d.previousPosition == None;
  }

  /** Pointer-up always ends the stroke in progress. */
  lemma ReleaseEndsStroke(s: State, input: FrameInput, f: FloatOps)
    requires input.up
    ensures Frame(s, input, f).currentLine == None
  {
  }

  /** Starting a stroke does not clear the undone strokes: after Undo and a
      new stroke, Redo puts the undone stroke back after the new one. */
  lemma NewStrokeKeepsUndoHistory(s: State, input: FrameInput, f: FloatOps)
    requires Valid(s) && |s.lines| > 0 && input.down && !input.overUI
    ensures var u := PointerDown(History.Undo(s), input);
      && History.Redo(u).Success?
      && History.Redo(u).value.lines == DropLast(s.lines) + [|s.strokes|, Last(s.lines)]
  {
    var v := History.Undo(s);
    History.UndoPreservesValid(s);
    var u := PointerDown(v, input);
    PressStartsStroke(v, input);
    History.RedoRestoresTop(u);
    var n := |u.undoStack|;
    assert u.undoStack[n - 1..] == [Last(s.lines)];
  }
}
