/** Strokes and the drawing modes. A stroke stands for one instantiated line
    object: its poly-line, its colour and width, whether the object is active
    (shown) and whether it was drawn in Eraser mode. */
module Strokes {
  import opened Geometry

  /** An RGBA colour, each channel a real in the engine's 0..1 convention. */
  datatype Color = Color(r: real, g: real, b: real, a: real)

  const Black: Color := Color(0.0, 0.0, 0.0, 1.0)

  datatype DrawMode = Pen | Eraser

  datatype Shape = Dot | Square | Circle

  /** A stroke handle: the index of the stroke's record in the arena. */
  type Handle = nat

  datatype Stroke = Stroke(points: seq<Point>, color: Color, width: real, active: bool, isEraser: bool)

  /** `SetActive` on the object behind handle `h`; a dangling handle changes nothing. */
  function SetActive(strokes: seq<Stroke>, h: Handle, active: bool): (r: seq<Stroke>)
    ensures |r| == |strokes|
    ensures forall k :: 0 <= k < |r| ==> r[k] == if k == h then strokes[k].(active := active) else strokes[k]
  {
    if h < |strokes| then strokes[h := strokes[h].(active := active)] else strokes
  }

  /** Replaces the whole poly-line of stroke `h` (`positionCount` + `SetPositions`). */
  function SetPoints(strokes: seq<Stroke>, h: Handle, points: seq<Point>): (r: seq<Stroke>)
    ensures |r| == |strokes|
    ensures forall k :: 0 <= k < |r| ==> r[k] == if k == h then strokes[k].(points := points) else strokes[k]
  {
    if h < |strokes| then strokes[h := strokes[h].(points := points)] else strokes
  }

  /** Grows the poly-line of stroke `h` by one point (`positionCount++` + `SetPosition`). */
  function AppendPoint(strokes: seq<Stroke>, h: Handle, p: Point): (r: seq<Stroke>)
    ensures |r| == |strokes|
    ensures forall k :: 0 <= k < |r| ==> r[k] == if k == h then strokes[k].(points := strokes[k].points + [p]) else strokes[k]
  {
    if h < |strokes| then strokes[h := strokes[h].(points := strokes[h].points + [p])] else strokes
  }

  /** Sets the colour of every stroke whose handle is listed in `handles`. */
  function Recolor(strokes: seq<Stroke>, handles: seq<Handle>, c: Color): (r: seq<Stroke>)
    ensures |r| == |strokes|
    ensures forall k :: 0 <= k < |r| ==> r[k] == if k in handles then strokes[k].(color := c) else strokes[k]
  {
    seq(|strokes|, k requires 0 <= k < |strokes| => if k in handles then strokes[k].(color := c) else strokes[k])
  }
}
