/** Mode, shape and style controls wired to the UI buttons, pickers and slider. */
module Style {
  import opened Strokes
  import opened DrawState

  /** Snapshots the pen picker's colour and the slider's width for the next
      strokes; existing strokes keep their style. */
  function ApplyPenColorAndWidth(s: State, penPick: Color, sliderWidth: real): (t: State)
    ensures t.currentColor == penPick && t.currentWidth == sliderWidth
    ensures t == s.(currentColor := t.currentColor, currentWidth := t.currentWidth)
  {
    s.(currentColor := penPick, currentWidth := sliderWidth)
  }

  /** Sets the background to the picker's colour and repaints every stroke
      listed in `eraserLines` with it, shown or hidden. */
  function ApplyBgColor(s: State, bgPick: Color): (t: State)
    ensures t.background == bgPick
    ensures t == s.(background := bgPick, strokes := t.strokes)
  {
    s.(background := bgPick, strokes := Recolor(s.strokes, s.eraserLines, bgPick))
  }

  /** Toggles between Pen and Eraser. */
  function SwitchDrawMode(s: State): (t: State)
    ensures t.drawMode != s.drawMode
    ensures t == s.(drawMode := t.drawMode)
  {
    s.(drawMode := if s.drawMode == Pen then Eraser else Pen)
  }

  function SetShapeToDot(s: State): (t: State)
    ensures t.shape == Dot && t == s.(shape := Dot)
  {
    s.(shape := Dot)
  }

  function SetShapeToSquare(s: State): (t: State)
    ensures t.shape == Square && t == s.(shape := Square)
  {
    s.(shape := Square)
  }

  function SetShapeToCircle(s: State): (t: State)
    ensures t.shape == Circle && t == s.(shape := Circle)
  {
    s.(shape := Circle)
  }

  /** Switching twice returns to the original mode. */
  lemma SwitchDrawModeTwice(s: State)
    ensures SwitchDrawMode(SwitchDrawMode(s)) == s
  {
  }

  /** In a valid session ApplyBgColor repaints exactly the eraser strokes,
      visible or undone, and changes nothing else about any stroke. */
  lemma ApplyBgColorRecolorsErasers(s: State, bgPick: Color)
    requires Valid(s)
    ensures var t := ApplyBgColor(s, bgPick);
      && |t.strokes| == |s.strokes|
      && forall h :: 0 <= h < |s.strokes| ==>
           t.strokes[h] == if s.strokes[h].isEraser then s.strokes[h].(color := bgPick) else s.strokes[h]
  {
  }

  lemma ApplyPenColorAndWidthPreservesValid(s: State, penPick: Color, sliderWidth: real)
    requires Valid(s)
    ensures Valid(ApplyPenColorAndWidth(s, penPick, sliderWidth))
  {
  }

  /** Repainting changes no stroke's active or eraser flag, so the session
      stays valid. */
  lemma ApplyBgColorPreservesValid(s: State, bgPick: Color)
    requires Valid(s)
    ensures Valid(ApplyBgColor(s, bgPick))
  {
    var t := ApplyBgColor(s, bgPick);
    assert forall h :: 0 <= h < |s.strokes| ==>
      t.strokes[h].active == s.strokes[h].active && t.strokes[h].isEraser == s.strokes[h].isEraser;
  }

  lemma SwitchDrawModePreservesValid(s: State)
    requires Valid(s)
    ensures Valid(SwitchDrawMode(s))
  {
  }

  lemma SetShapeToDotPreservesValid(s: State)
    requires Valid(s)
    ensures Valid(SetShapeToDot(s))
  {
  }

  lemma SetShapeToSquarePreservesValid(s: State)
    requires Valid(s)
    ensures Valid(SetShapeToSquare(s))
  {
  }

  lemma SetShapeToCirclePreservesValid(s: State)
    requires Valid(s)
    ensures Valid(SetShapeToCircle(s))
  {
  }
}
