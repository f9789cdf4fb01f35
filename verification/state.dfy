/** The state of one drawing session and its well-formedness invariant. */
module DrawState {
  import opened Wrappers
  import opened Geometry
  import opened Strokes

  /** Every field of the component that the drawing logic reads or writes.
      `undoStack` and `redoStack` are stacks whose top is the last element;
      `previousPosition == None` is the +infinity sentinel. */
  datatype State = State(
    strokes: seq<Stroke>,
    lines: seq<Handle>,
    undoStack: seq<Handle>,
    redoStack: seq<Handle>,
    eraserLines: seq<Handle>,
    deletedLines: int,
    drawMode: DrawMode,
    shape: Shape,
    currentLine: Option<Handle>,
    previousPosition: Option<Point>,
    initialPosition: Point,
    currentColor: Color,
    currentWidth: real,
    background: Color,
    minDistance: real)

  /** Default of the serialized `minDistance` and of `currentWidth`. */
  const DefaultMinDistance: real := 0.1
  const DefaultWidth: real := 0.1

  /** The component as constructed: no strokes, Pen mode, Dot shape, black
      pen colour. The camera background and the serialized `minDistance`
      come from the scene. */
  function Init(background: Color, minDistance: real): (s: State)
    ensures Valid(s)
    ensures s.lines == [] && s.undoStack == [] && s.deletedLines == 0
    ensures s.drawMode == Pen && s.shape == Dot && s.currentLine == None
  {
    State(
      strokes := [], lines := [], undoStack := [], redoStack := [], eraserLines := [],
      deletedLines := 0, drawMode := Pen, shape := Dot, currentLine := None,
      previousPosition := Some(Origin), initialPosition := Origin,
      currentColor := Black, currentWidth := DefaultWidth,
      background := background, minDistance := minDistance)
  }

  /** Every handle of an arena of `n` strokes, once each. */
  function Handles(n: nat): multiset<Handle>
  {
    if n == 0 then multiset{} else Handles(n - 1) + multiset{n - 1}
  }

  lemma {:induction false} HandlesCount(n: nat, h: Handle)
    ensures Handles(n)[h] == if h < n then 1 else 0
  {
    if n > 0 {
      HandlesCount(n - 1, h);
    }
  }

  /** The placement invariant: each stroke ever created is either visible
      (in `lines`, active) or undone (in `undoStack`, inactive), exactly once;
      `eraserLines` lists exactly the eraser strokes; every reference points
      into the arena. */
  predicate Consistent(s: State)
  {
    && (forall h :: h in s.lines ==> h < |s.strokes| && s.strokes[h].active)
    && (forall h :: h in s.undoStack ==> h < |s.strokes| && !s.strokes[h].active)
    && multiset(s.lines) + multiset(s.undoStack) == Handles(|s.strokes|)
    && (forall h :: h in s.redoStack ==> h < |s.strokes|)
    && (forall h :: h in s.eraserLines ==> h < |s.strokes|)
    && (forall h: Handle :: h < |s.strokes| ==> (s.strokes[h].isEraser <==> h in s.eraserLines))
    && (s.currentLine.Some? ==> s.currentLine.value < |s.strokes|)
  }

  /** The bound that keeps Redo's pop loop inside the undo stack. */
  predicate RedoSafe(s: State)
  {
    |s.undoStack| == 0 || 1 <= s.deletedLines <= |s.undoStack|
  }

  predicate Valid(s: State)
  {
    Consistent(s) && RedoSafe(s)
  }

  /** Conservation: in a consistent state, each handle of the arena sits in
      exactly one of `lines` and `undoStack`, once, and no other handle does. */
  lemma ExactlyOnePlace(s: State, h: Handle)
    requires Consistent(s)
    ensures multiset(s.lines)[h] + multiset(s.undoStack)[h] == if h < |s.strokes| then 1 else 0
    ensures h < |s.strokes| <==> (h in s.lines || h in s.undoStack)
    ensures !(h in s.lines && h in s.undoStack)
  {
    HandlesCount(|s.strokes|, h);
    assert (multiset(s.lines) + multiset(s.undoStack))[h] == multiset(s.lines)[h] + multiset(s.undoStack)[h];
  }

  /** The stroke `Undo` would take is nowhere else. */
  lemma LastLineIsUnique(s: State)
    requires Consistent(s) && |s.lines| > 0
    ensures s.lines[|s.lines| - 1] !in s.lines[..|s.lines| - 1]
    ensures s.lines[|s.lines| - 1] !in s.undoStack
  {
    var x := s.lines[|s.lines| - 1];
    ExactlyOnePlace(s, x);
    assert s.lines == s.lines[..|s.lines| - 1] + [x];
    assert multiset(s.lines) == multiset(s.lines[..|s.lines| - 1]) + multiset{x};
  }

  /** The stroke `Redo` would take is nowhere else. */
  lemma LastUndoneIsUnique(s: State)
    requires Consistent(s) && |s.undoStack| > 0
    ensures s.undoStack[|s.undoStack| - 1] !in s.undoStack[..|s.undoStack| - 1]
    ensures s.undoStack[|s.undoStack| - 1] !in s.lines
  {
    var x := s.undoStack[|s.undoStack| - 1];
    ExactlyOnePlace(s, x);
    assert s.undoStack == s.undoStack[..|s.undoStack| - 1] + [x];
    assert multiset(s.undoStack) == multiset(s.undoStack[..|s.undoStack| - 1]) + multiset{x};
  }

  /** `t` differs from `s` at most in the history: the list, the stacks,
      `deletedLines` and the active flags of the strokes. */
  predicate HistoryOnly(s: State, t: State)
  {
    && t.eraserLines == s.eraserLines
    && t.drawMode == s.drawMode && t.shape == s.shape
    && t.currentLine == s.currentLine
    && t.previousPosition == s.previousPosition && t.initialPosition == s.initialPosition
    && t.currentColor == s.currentColor && t.currentWidth == s.currentWidth
    && t.background == s.background && t.minDistance == s.minDistance
    && |t.strokes| == |s.strokes|
    && forall h :: 0 <= h < |s.strokes| ==> t.strokes[h] == s.strokes[h].(active := t.strokes[h].active)
  }

  lemma HistoryOnlyTransitive(s: State, u: State, t: State)
    requires HistoryOnly(s, u) && HistoryOnly(u, t)
    ensures HistoryOnly(s, t)
  {
    forall h | 0 <= h < |s.strokes|
      ensures t.strokes[h] == s.strokes[h].(active := t.strokes[h].active)
    {
      assert u.strokes[h] == s.strokes[h].(active := u.strokes[h].active);
    }
  }
}
