/** A whole drawing session: the frame loop and the UI callbacks interleaved
    in any order on the single main thread. */
module Session {
  import opened Wrappers
  import opened Geometry
  import opened Strokes
  import opened DrawState
  import History
  import Input
  import Style

  /** Everything that can happen to the component, one event at a time. */
  datatype Event =
    | FrameTick(input: Input.FrameInput)
    | UndoClicked
    | RedoClicked
    | DeleteAllClicked
    | PenStyleApplied(penPick: Color, sliderWidth: real)
    | BackgroundApplied(bgPick: Color)
    | DrawModeSwitched
    | DotSelected
    | SquareSelected
    | CircleSelected

  function Step(s: State, e: Event, f: FloatOps): Result<State, History.Fault>
  {
    match e
    case FrameTick(input) => Success(Input.Frame(s, input, f))
    case UndoClicked => Success(History.Undo(s))
    case RedoClicked => History.Redo(s)
    case DeleteAllClicked => Success(History.DeleteAll(s))
    case PenStyleApplied(c, w) => Success(Style.ApplyPenColorAndWidth(s, c, w))
    case BackgroundApplied(c) => Success(Style.ApplyBgColor(s, c))
    case DrawModeSwitched => Success(Style.SwitchDrawMode(s))
    case DotSelected => Success(Style.SetShapeToDot(s))
    case SquareSelected => Success(Style.SetShapeToSquare(s))
    case CircleSelected => Success(Style.SetShapeToCircle(s))
  }

  /** Runs the events in order; stops at the first fault. */
  function Run(s: State, events: seq<Event>, f: FloatOps): Result<State, History.Fault>
    decreases |events|
  {
    if |events| == 0 then Success(s)
    else
      match Step(s, events[0], f)
      case Success(t) => Run(t, events[1..], f)
      case Failure(e) => Failure(e)
  }

  lemma StepPreservesValid(s: State, e: Event, f: FloatOps)
    requires Valid(s)
    ensures Step(s, e, f).Success? && Valid(Step(s, e, f).value)
  {
    match e
    case FrameTick(input) => Input.FramePreservesValid(s, input, f);
    case UndoClicked => History.UndoPreservesValid(s);
    case RedoClicked => History.RedoPreservesValid(s);
    case DeleteAllClicked => History.DeleteAllPreservesValid(s);
    case PenStyleApplied(c, w) => Style.ApplyPenColorAndWidthPreservesValid(s, c, w);
    case BackgroundApplied(c) => Style.ApplyBgColorPreservesValid(s, c);
    case DrawModeSwitched => Style.SwitchDrawModePreservesValid(s);
    case DotSelected => Style.SetShapeToDotPreservesValid(s);
    case SquareSelected => Style.SetShapeToSquarePreservesValid(s);
    case CircleSelected => Style.SetShapeToCirclePreservesValid(s);
  }

  lemma {:induction false} RunPreservesValid(s: State, events: seq<Event>, f: FloatOps)
    requires Valid(s)
    ensures Run(s, events, f).Success? && Valid(Run(s, events, f).value)
    decreases |events|
  {
    if |events| > 0 {
      StepPreservesValid(s, events[0], f);
      RunPreservesValid(Step(s, events[0], f).value, events[1..], f);
    }
  }

  /** From a freshly constructed component, no sequence of frames and button
      clicks ever makes Redo pop an empty stack, and every stroke stays in
      exactly one of the list and the undo stack. */
  lemma RedoNeverUnderflows(background: Color, minDistance: real, events: seq<Event>, f: FloatOps)
    ensures Run(Init(background, minDistance), events, f).Success?
    ensures var s := Run(Init(background, minDistance), events, f).value;
      && Valid(s)
      && forall h: Handle :: h < |s.strokes| <==> (h in s.lines || h in s.undoStack)
  {
    RunPreservesValid(Init(background, minDistance), events, f);
    var s := Run(Init(background, minDistance), events, f).value;
    forall h: Handle
      ensures h < |s.strokes| <==> (h in s.lines || h in s.undoStack)
    {
      ExactlyOnePlace(s, h);
    }
  }

  /** A new pen style restyles nothing already drawn; it is the style of
      the next stroke started in Pen mode. */
  lemma PenStyleAppliesToNextStroke(s: State, c: Color, w: real, input: Input.FrameInput)
    requires Valid(s) && s.drawMode == Pen && input.down && !input.overUI
    ensures var t := Input.PointerDown(Style.ApplyPenColorAndWidth(s, c, w), input);
      && t.strokes[..|s.strokes|] == s.strokes
      && t.strokes[|s.strokes|].color == c
      && t.strokes[|s.strokes|].width == w
  {
    var p := Style.ApplyPenColorAndWidth(s, c, w);
    Style.ApplyPenColorAndWidthPreservesValid(s, c, w);
    Input.PressStartsStroke(p, input);
  }

  /** The shape buttons decide how the next stroke is drawn: pressing and
      holding outside the UI after choosing Dot, Square or Circle starts the
      stroke with a point, a square outline or a circle outline. */
  lemma ShapeSelectionDecidesOutline(s: State, input: Input.FrameInput, f: FloatOps)
    requires Valid(s) && input.down && input.held && !input.overUI
    ensures var h := |s.strokes|;
      var p := OnDrawingPlane(input.pointer);
      && Input.Frame(Style.SetShapeToDot(s), input, f).strokes[h].points == [p]
      && Input.Frame(Style.SetShapeToSquare(s), input, f).strokes[h].points == DrawSquare(p, p)
      && Input.Frame(Style.SetShapeToCircle(s), input, f).strokes[h].points == DrawCircle(p, p, f)
  {
    Style.SetShapeToDotPreservesValid(s);
    Style.SetShapeToSquarePreservesValid(s);
    Style.SetShapeToCirclePreservesValid(s);
    Input.PressFrameDrawsFirstPoint(Style.SetShapeToDot(s), input, f);
    Input.PressFrameDrawsFirstPoint(Style.SetShapeToSquare(s), input, f);
    Input.PressFrameDrawsFirstPoint(Style.SetShapeToCircle(s), input, f);
  }

  /** The mode switch decides the next stroke: after switching from Pen, a
      press paints with the background picker's colour and is tracked as an
      eraser stroke; after switching back, with the pen colour and untracked. */
  lemma SwitchDrawModeDecidesNextStroke(s: State, input: Input.FrameInput)
    requires Valid(s) && input.down && !input.overUI
    ensures var t := Input.PointerDown(Style.SwitchDrawMode(s), input);
      var h := |s.strokes|;
      && (s.drawMode == Pen ==> t.strokes[h].color == input.bgPick && t.strokes[h].isEraser && h in t.eraserLines)
      && (s.drawMode == Eraser ==> t.strokes[h].color == s.currentColor && !t.strokes[h].isEraser && h !in t.eraserLines)
  {
    Style.SwitchDrawModePreservesValid(s);
    Input.PressStartsStroke(Style.SwitchDrawMode(s), input);
  }
}
