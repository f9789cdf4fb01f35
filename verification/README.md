# DrawWithMouse drawing session, modelled in Dafny

This project models the drawing core of the Unity component `DrawWithMouse`
(`Assets/Scripts/DrawWithMouse.cs`): the per-frame pointer state machine that
starts, grows and reshapes strokes, the Undo / Redo / DeleteAll history over the
visible list `lines` and the stack `undoStack`, the square and circle outline
generators, and the pen / eraser / shape / style controls.

The engine objects are replaced by an arena: a stroke handle is the index of a
`Stroke` record (points, colour, width, `active`, `isEraser`) in
`State.strokes`. The whole component state is one immutable `State` value; each
event is a pure function from state to state. Stacks are sequences whose last
element is the top.

Files (one module each):

- `wrappers.dfy` (`Wrappers`): `Option` and `Result`.
- `seqs.dfy` (`Seqs`): `Last`, `DropLast`, `Reverse` (pop order) and their lemmas.
- `geometry.dfy` (`Geometry`): points, the squared-distance threshold, `DrawSquare`, `DrawCircle`.
- `strokes.dfy` (`Strokes`): colours, modes, strokes, per-handle updates.
- `state.dfy` (`DrawState`): the `State`, `Init` and the invariant `Valid = Consistent && RedoSafe`.
- `history.dfy` (`History`): `Undo`, `Redo`, `DeleteAll` and their properties.
- `input.dfy` (`Input`): `StartNewLine`, pointer-down / held / up and `Frame` (one `Update`).
- `style.dfy` (`Style`): `ApplyPenColorAndWidth`, `ApplyBgColor`, `SwitchDrawMode`, `SetShapeTo*`.
- `session.dfy` (`Session`): events, `Run`, and the whole-session theorem.

The invariant `Consistent` says that every stroke ever created is in exactly one of
`lines` (and active) or `undoStack` (and inactive), exactly once, and that
`eraserLines` lists exactly the eraser strokes. `RedoSafe` says that the undo stack
is empty or `1 <= deletedLines <= |undoStack|`. Both hold at construction and after
every event. From them, `Session.RedoNeverUnderflows` proves that the `Pop` loop
in `Redo` never pops an empty stack, on any interleaving of frames and button
clicks. `History.Redo` returns `Failure(PopOnEmptyStack)` exactly when the undo stack
is non-empty and the count exceeds it, the case in which `Stack.Pop` would throw.

## Behaviour notes

- A new stroke clears only `redoStack` (line 98). `redoStack` is written but never
  read, so the undone strokes stay in `undoStack`. A later Redo puts them back after
  the new stroke (`Input.NewStrokeKeepsUndoHistory`): starting a stroke does not
  make Redo a no-op.
- Single Undos set `deletedLines` to 1. After two Undos one Redo restores only the
  most recent of them (`History.UndoTwiceRedoOnce`). After DeleteAll, one Redo
  restores every deleted stroke (`History.DeleteAllThenRedo`).
- An eraser stroke takes the background picker's colour at the moment it starts
  (`bgFcp.color`). That is not necessarily the background last applied to the camera.
- The frame that presses the button also counts as "held". The +infinity sentinel
  in `previousPosition` makes that frame always draw. In Square and Circle modes
  the sentinel is never replaced, so every held frame redraws the outline.

## Model

| member | source | states |
|---|---|---|
| DrawState.Init | Assets/Scripts/DrawWithMouse.cs:51-67 | The constructed component is valid: no strokes, empty list and stacks, `deletedLines` 0, Pen mode, Dot shape, no current line |
| DrawState.ExactlyOnePlace | Assets/Scripts/DrawWithMouse.cs:61-62 | Conservation: in a consistent state each stroke handle occurs exactly once in `lines` plus `undoStack`, never in both; no other handle occurs |
| History.MoveLastToUndo | Assets/Scripts/DrawWithMouse.cs:209-212 | Pushes the last visible stroke on the undo stack and removes it from the list; the count, `redoStack` and the number of strokes are unchanged |
| History.MoveLastToUndoHides | Assets/Scripts/DrawWithMouse.cs:209-212 | That step hides only the stroke it moves; every other stroke and every non-history field is unchanged |
| History.Undo | Assets/Scripts/DrawWithMouse.cs:204-214 | No-op on an empty list. Otherwise the last visible stroke moves to the top of the undo stack and `deletedLines` becomes 1; `redoStack` and `eraserLines` are kept |
| History.UndoHidesLast | Assets/Scripts/DrawWithMouse.cs:204-214 | Undo hides exactly the stroke it moves and changes nothing outside the history |
| History.DeleteLoop | Assets/Scripts/DrawWithMouse.cs:252-259 | The loop empties the list onto the undo stack last-to-first (the stack gains the reversed list) and counts one per stroke |
| History.DeleteLoopHides | Assets/Scripts/DrawWithMouse.cs:252-259 | The loop hides exactly the strokes that were visible and changes nothing outside the history |
| History.DeleteAll | Assets/Scripts/DrawWithMouse.cs:249-260 | No-op on an empty list. Otherwise every visible stroke is pushed last-to-first, the list is emptied and `deletedLines` equals the number removed |
| History.DeleteAllHides | Assets/Scripts/DrawWithMouse.cs:249-260 | DeleteAll hides exactly the visible strokes and changes nothing outside the history |
| History.PopToLines | Assets/Scripts/DrawWithMouse.cs:222-225 | One pop: the top of the undo stack is removed and appended to both `lines` and `redoStack`; the count is unchanged |
| History.PopToLinesShows | Assets/Scripts/DrawWithMouse.cs:222-225 | One pop shows only the stroke it moves; nothing outside the history changes |
| History.RestoreTop | Assets/Scripts/DrawWithMouse.cs:220-226 | Redo's pop loop succeeds exactly when it runs at most as many times as the undo stack is deep |
| History.Redo | Assets/Scripts/DrawWithMouse.cs:216-230 | No-op on an empty undo stack. On a non-empty stack it fails (a pop on an empty stack) exactly when `deletedLines` exceeds the stack, and on success the count is reset to 1 |
| History.RestoreTopMovesTop | Assets/Scripts/DrawWithMouse.cs:220-226 | k iterations move the top k undone strokes, top first, to the end of `lines` and of `redoStack`, leaving the rest of the stack below |
| History.RestoreTopShowsTop | Assets/Scripts/DrawWithMouse.cs:220-226 | k iterations show again exactly the top k undone strokes and change nothing else about any stroke |
| History.RedoRestoresTop | Assets/Scripts/DrawWithMouse.cs:216-230 | Closed form of Redo: the top `deletedLines` strokes come back in pop order after the visible ones, and are shown |
| History.MoveLastToUndoConsistent | Assets/Scripts/DrawWithMouse.cs:209-212 | Moving a stroke from the list to the undo stack keeps every stroke in exactly one place with the right active flag |
| History.PopToLinesConsistent | Assets/Scripts/DrawWithMouse.cs:222-225 | Moving a stroke from the undo stack back to the list keeps every stroke in exactly one place with the right active flag |
| History.RestoreTopConsistent | Assets/Scripts/DrawWithMouse.cs:220-226 | Any number of pops up to the stack depth succeeds and keeps every stroke in exactly one place |
| History.DeleteLoopConsistent | Assets/Scripts/DrawWithMouse.cs:252-259 | The DeleteAll loop keeps every stroke in exactly one place with the right active flag |
| History.UndoPreservesValid | Assets/Scripts/DrawWithMouse.cs:204-214 | Undo keeps conservation and the Redo bound (the count is at least 1 and at most the undo stack depth) |
| History.DeleteAllPreservesValid | Assets/Scripts/DrawWithMouse.cs:249-260 | DeleteAll keeps conservation and the Redo bound |
| History.RedoPreservesValid | Assets/Scripts/DrawWithMouse.cs:216-230 | From a valid state Redo never pops an empty stack and leaves a valid state |
| History.UndoThenRedo | Assets/Scripts/DrawWithMouse.cs:204-230 | Undo then Redo restores exactly the previous list, undo stack and strokes; only `redoStack` gains the stroke and the count is 1 |
| History.DeleteAllThenRedo | Assets/Scripts/DrawWithMouse.cs:232-261 | DeleteAll then one Redo restores all strokes in their original order, with the previous undo stack and active flags |
| History.UndoTimes | Assets/Scripts/DrawWithMouse.cs:204-214 | n Undos, for n up to the list length, take the last n strokes off the list and stack them most-recent-first, leaving the count at 1 |
| History.UndoTwiceRedoOnce | Assets/Scripts/DrawWithMouse.cs:204-230 | After two Undos one Redo restores only the second-to-last stroke; the last stays undone |
| Geometry.MovedFarEnoughIsDistanceTest | Assets/Scripts/DrawWithMouse.cs:107 | Comparing squared distance with `minDistance` squared agrees with `Distance(current, previous) > minDistance` for every threshold, including negative ones |
| Geometry.DrawSquare | Assets/Scripts/DrawWithMouse.cs:132-148 | Exactly 5 corners [P, (P.x,Q.y), Q, (Q.x,P.y), P] in P's plane: closed, axis-aligned edges, for any drag direction |
| Geometry.SquareDragExample | Assets/Scripts/DrawWithMouse.cs:132-148 | Press at (0,0), drag to (2,3): [(0,0),(0,3),(2,3),(2,0),(0,0)] |
| Geometry.DrawCircle | Assets/Scripts/DrawWithMouse.cs:150-171 | Writes 37 points, all in the plane of the midpoint |
| Geometry.CircleIsClosedAndEquidistant | Assets/Scripts/DrawWithMouse.cs:150-171 | With exact square root, cosine and sine, every point lies at half the drag distance from the midpoint and the outline is closed |
| Input.StartNewLine | Assets/Scripts/DrawWithMouse.cs:173-193 | Adds one empty active stroke with the given colour and the current width, appends it to `lines` (and to `eraserLines` in Eraser mode), makes it current and resets `previousPosition` to +infinity; history otherwise untouched; no other field (modes, pen style, background, press position, threshold) changes |
| Input.StartNewLineConsistent | Assets/Scripts/DrawWithMouse.cs:173-193 | Starting a stroke keeps every stroke in exactly one place and eraser tracking exact |
| Input.PointerDown | Assets/Scripts/DrawWithMouse.cs:84-99 | A press always records the press position, and adds exactly one stroke unless it is over the UI |
| Input.PointerDownPreservesValid | Assets/Scripts/DrawWithMouse.cs:84-99 | A press keeps conservation, eraser tracking and the Redo bound |
| Input.PointerHeld | Assets/Scripts/DrawWithMouse.cs:102-121 | A held frame never adds, removes or moves a stroke between the list and the undo stack; in Square and Circle mode it never moves `previousPosition`; only the current stroke and `previousPosition` can change |
| Input.PointerHeldPreservesValid | Assets/Scripts/DrawWithMouse.cs:102-121 | A held frame keeps conservation, eraser tracking and the Redo bound |
| Input.Frame | Assets/Scripts/DrawWithMouse.cs:82-130 | A frame adds exactly one stroke when it presses outside the UI, and none otherwise |
| Input.PressStartsStroke | Assets/Scripts/DrawWithMouse.cs:84-99 | A press records the press position. Over the UI nothing else changes. Otherwise a stroke in the mode's colour is appended, `redoStack` is cleared and the undo stack and count are kept; nothing else changes |
| Input.DotModeThreshold | Assets/Scripts/DrawWithMouse.cs:102-121 | In Dot mode a held frame appends the point and updates `previousPosition` exactly when the pointer moved farther than `minDistance`, else changes nothing |
| Input.ShapeModeRedrawsEveryFrame | Assets/Scripts/DrawWithMouse.cs:107-116 | In Square/Circle mode with the +infinity sentinel, every held frame replaces the outline from the press point and keeps the sentinel |
| Input.PressFrameDrawsFirstPoint | Assets/Scripts/DrawWithMouse.cs:84-121 | The pressing frame always draws: the press point in Dot mode, a degenerate outline in Square/Circle mode |
| Input.ReleaseEndsStroke | Assets/Scripts/DrawWithMouse.cs:126-129 | Pointer-up always clears the current stroke |
| Input.FramePreservesValid | Assets/Scripts/DrawWithMouse.cs:82-130 | Every frame keeps conservation, eraser tracking and the Redo bound |
| Input.NewStrokeKeepsUndoHistory | Assets/Scripts/DrawWithMouse.cs:88-99 | After Undo and a new stroke, Redo appends the undone stroke after the new one: a new stroke does not discard undo history |
| Style.ApplyPenColorAndWidth | Assets/Scripts/DrawWithMouse.cs:263-267 | Takes the picker colour and slider width as the pen style; no other field changes, so strokes, history, modes and background are unchanged |
| Style.ApplyBgColor | Assets/Scripts/DrawWithMouse.cs:269-280 | Sets the background colour and changes only stroke data |
| Style.ApplyBgColorRecolorsErasers | Assets/Scripts/DrawWithMouse.cs:269-280 | In a valid session exactly the eraser strokes, visible or undone, take the new background colour; every other stroke field is unchanged |
| Style.SwitchDrawMode | Assets/Scripts/DrawWithMouse.cs:282-286 | Flips the draw mode and nothing else |
| Style.SwitchDrawModeTwice | Assets/Scripts/DrawWithMouse.cs:282-286 | Switching twice is the identity |
| Style.SetShapeToDot | Assets/Scripts/DrawWithMouse.cs:288-292 | Selects Dot and nothing else |
| Style.SetShapeToSquare | Assets/Scripts/DrawWithMouse.cs:294-298 | Selects Square and nothing else |
| Style.SetShapeToCircle | Assets/Scripts/DrawWithMouse.cs:300-304 | Selects Circle and nothing else |
| Style.ApplyPenColorAndWidthPreservesValid | Assets/Scripts/DrawWithMouse.cs:263-267 | Taking a new pen style keeps the session valid |
| Style.ApplyBgColorPreservesValid | Assets/Scripts/DrawWithMouse.cs:269-280 | Repainting the eraser strokes changes no active or eraser flag, so the session stays valid |
| Style.SwitchDrawModePreservesValid | Assets/Scripts/DrawWithMouse.cs:282-286 | Switching the mode keeps the session valid |
| Style.SetShapeToDotPreservesValid | Assets/Scripts/DrawWithMouse.cs:288-292 | Selecting Dot keeps the session valid |
| Style.SetShapeToSquarePreservesValid | Assets/Scripts/DrawWithMouse.cs:294-298 | Selecting Square keeps the session valid |
| Style.SetShapeToCirclePreservesValid | Assets/Scripts/DrawWithMouse.cs:300-304 | Selecting Circle keeps the session valid |
| Session.StepPreservesValid | Assets/Scripts/DrawWithMouse.cs:82-304 | No event faults from a valid state, and every event keeps it valid |
| Session.RunPreservesValid | Assets/Scripts/DrawWithMouse.cs:82-304 | Any event sequence from a valid state runs without fault and ends valid |
| Session.RedoNeverUnderflows | Assets/Scripts/DrawWithMouse.cs:216-230 | From construction no event sequence makes Redo pop an empty stack, and every stroke is in exactly one of the list and the undo stack |
| Session.PenStyleAppliesToNextStroke | Assets/Scripts/DrawWithMouse.cs:263-267 | A new pen style leaves drawn strokes as they are and is the colour and width of the next Pen stroke |
| Session.ShapeSelectionDecidesOutline | Assets/Scripts/DrawWithMouse.cs:288-304 | After choosing Dot, Square or Circle, the next press starts a point, a square outline or a circle outline |
| Session.SwitchDrawModeDecidesNextStroke | Assets/Scripts/DrawWithMouse.cs:282-286 | After a switch to Eraser the next stroke uses the background picker's colour and is tracked as an eraser stroke; after a switch to Pen it uses the pen colour and is not tracked |

## Left out

- `SaveImage` / `CaptureAndSave` (lines 306-361): render-texture readback, PNG encoding, timestamped file names, directory creation and the one-frame coroutine wait are engine and file I/O.
- `IsPointerOverUI` (lines 195-202) and `Camera.ScreenToWorldPoint`: the UI raycaster and the camera projection are per-frame inputs (`overUI`, `pointer`).
- `Awake`, `Start`, sprite and icon swaps, and the colour-picker and slider objects: UI wiring. Picker colours and the slider width are arguments of the operations that read them.
- Floating point: coordinates, widths and colour channels are reals. The distance test compares squared distances, and the +infinity `previousPosition` is `None`.
- Geometry.DrawSquare: the corners equal `end`'s coordinates exactly only in real arithmetic. In single-precision floats `start.x + (end.x - start.x)` can differ from `end.x` by rounding.
- Geometry.DrawCircle: the square root and the per-angle cosine and sine are parameters (`FloatOps`). The equidistance and closure properties assume they are exact, which IEEE floats are not: in single precision the sine of the last angle (`Mathf.Deg2Rad * 360`) is about 1.7e-7, not 0, so the last point written is not exactly the first.
- Style.ApplyBgColor: the `lineRenderer != null` check is always taken, because every stroke is a line object made from the same prefab. The camera background is a plain field.
- Start and end colour, and start and end width, of a line are always set together, so each stroke has one colour and one width.
- History.Redo: when the count exceeds the undo stack, the component would throw from `Stack.Pop` after the earlier iterations had already moved strokes into `lines` and `redoStack`; the model returns `Failure(PopOnEmptyStack)` without that partial state. `Session.RedoNeverUnderflows` shows the case is unreachable from construction.
- Engine object identity is replaced by arena handles. Objects are never destroyed (DeleteAll's destroying variant is commented out in the source), so the arena only grows.
