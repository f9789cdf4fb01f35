/** Undo, Redo and DeleteAll: handles move between the visible list `lines`
    and the stack `undoStack`; strokes are hidden, never destroyed. */
module History {
  import opened Wrappers
  import opened Seqs
  import opened Strokes
  import opened DrawState

  /** `Stack.Pop` on an empty stack throws in the component. */
  datatype Fault = PopOnEmptyStack

  /** One step shared by Undo and the DeleteAll loop: the last visible stroke
      is pushed on the undo stack, removed from the list and hidden. */
  function MoveLastToUndo(s: State): (t: State)
    requires |s.lines| > 0
    ensures t.redoStack == s.redoStack && t.deletedLines == s.deletedLines && |t.strokes| == |s.strokes|
    ensures t.lines == DropLast(s.lines) && t.undoStack == s.undoStack + [Last(s.lines)]
  {
    var h := Last(s.lines);
    s.(lines := DropLast(s.lines), undoStack := s.undoStack + [h], strokes := SetActive(s.strokes, h, false))
  }

  /** The step hides the stroke it moves and changes nothing else. */
  lemma MoveLastToUndoHides(s: State)
    requires |s.lines| > 0
    ensures var t := MoveLastToUndo(s);
      && HistoryOnly(s, t)
      && forall h :: 0 <= h < |s.strokes| ==> t.strokes[h].active == (s.strokes[h].active && h != Last(s.lines))
  {
  }

  lemma MoveLastToUndoConsistent(s: State)
    requires Consistent(s) && |s.lines| > 0
    ensures Consistent(MoveLastToUndo(s))
  {
    var t := MoveLastToUndo(s);
    var x := Last(s.lines);
    MoveLastToUndoHides(s);
    LastLineIsUnique(s);
    assert s.lines == t.lines + [x];
    assert multiset(s.lines) == multiset(t.lines) + multiset{x};
    forall h | h in t.lines
      ensures h < |t.strokes| && t.strokes[h].active
    {
      assert h in s.lines && h != x;
    }
    forall h | h in t.undoStack
      ensures h < |t.strokes| && !t.strokes[h].active
    {
      assert h in s.undoStack || h == x;
    }
  }

  lemma CountIrrelevantToConsistency(s: State, d: int)
    requires Consistent(s)
    ensures Consistent(s.(deletedLines := d))
  {
    var t := s.(deletedLines := d);
    assert t.strokes == s.strokes && t.lines == s.lines && t.undoStack == s.undoStack;
    assert t.redoStack == s.redoStack && t.eraserLines == s.eraserLines && t.currentLine == s.currentLine;
  }

  /** One iteration of Redo's loop: the top of the undo stack is popped,
      pushed on `redoStack`, appended to the list and shown again. */
  function PopToLines(s: State): (t: State)
    requires |s.undoStack| > 0
    ensures t.deletedLines == s.deletedLines && |t.strokes| == |s.strokes|
    ensures t.undoStack == DropLast(s.undoStack)
    ensures t.lines == s.lines + [Last(s.undoStack)] && t.redoStack == s.redoStack + [Last(s.undoStack)]
  {
    var h := Last(s.undoStack);
    s.(undoStack := DropLast(s.undoStack), redoStack := s.redoStack + [h],
       lines := s.lines + [h], strokes := SetActive(s.strokes, h, true))
  }

  /** The step shows the stroke it moves and changes nothing else. */
  lemma PopToLinesShows(s: State)
    requires |s.undoStack| > 0
    ensures var t := PopToLines(s);
      && HistoryOnly(s, t)
      && forall h :: 0 <= h < |s.strokes| ==> t.strokes[h].active == (s.strokes[h].active || h == Last(s.undoStack))
  {
  }

  lemma PopToLinesConsistent(s: State)
    requires Consistent(s) && |s.undoStack| > 0
    ensures Consistent(PopToLines(s))
  {
    var t := PopToLines(s);
    var x := Last(s.undoStack);
    PopToLinesShows(s);
    LastUndoneIsUnique(s);
    assert s.undoStack == t.undoStack + [x];
    assert multiset(s.undoStack) == multiset(t.undoStack) + multiset{x};
    assert x < |s.strokes|;
    forall h | h in t.lines
      ensures h < |t.strokes| && t.strokes[h].active
    {
      assert h in s.lines || h == x;
    }
    forall h | h in t.undoStack
      ensures h < |t.strokes| && !t.strokes[h].active
    {
      assert h in s.undoStack && h != x;
    }
    forall h | h in t.redoStack
      ensures h < |t.strokes|
    {
      assert h in s.redoStack || h == x;
    }
  }

  /** Undo: if any stroke is visible, the most recent one is pushed on the
      undo stack, and one Redo will restore exactly one stroke. */
  function Undo(s: State): (t: State)
    ensures |s.lines| == 0 ==> t == s
    ensures t.redoStack == s.redoStack && t.eraserLines == s.eraserLines && |t.strokes| == |s.strokes|
    ensures |s.lines| > 0 ==>
      && t.lines == DropLast(s.lines)
      && t.undoStack == s.undoStack + [Last(s.lines)]
      && t.deletedLines == 1
  {
    if |s.lines| > 0 then MoveLastToUndo(s.(deletedLines := 1)) else s
  }

  /** Undo hides the stroke it takes and touches nothing else. */
  lemma UndoHidesLast(s: State)
    requires |s.lines| > 0
    ensures var t := Undo(s);
      && HistoryOnly(s, t)
      && forall h :: 0 <= h < |s.strokes| ==> t.strokes[h].active == (s.strokes[h].active && h != Last(s.lines))
  {
    MoveLastToUndoHides(s.(deletedLines := 1));
  }

  /** The body of DeleteAll's loop, run until the list is empty: each pass
      counts one more deleted stroke and moves the last visible one. */
  function DeleteLoop(s: State): (t: State)
    ensures t.redoStack == s.redoStack && |t.strokes| == |s.strokes|
    ensures t.lines == []
    ensures t.undoStack == s.undoStack + Reverse(s.lines)
    ensures t.deletedLines == s.deletedLines + |s.lines|
    decreases |s.lines|
  {
    if |s.lines| == 0 then s
    else
      var u := MoveLastToUndo(s).(deletedLines := s.deletedLines + 1);
      assert s.lines == DropLast(s.lines) + [Last(s.lines)];
      DeleteLoop(u)
  }

  /** The loop hides exactly the strokes that were visible and changes
      nothing else. */
  lemma {:induction false} DeleteLoopHides(s: State)
    ensures var t := DeleteLoop(s);
      && HistoryOnly(s, t)
      && forall h :: 0 <= h < |s.strokes| ==> t.strokes[h].active == (s.strokes[h].active && h !in s.lines)
    decreases |s.lines|
  {
    if |s.lines| > 0 {
      var u := MoveLastToUndo(s).(deletedLines := s.deletedLines + 1);
      MoveLastToUndoHides(s);
      DeleteLoopHides(u);
      HistoryOnlyTransitive(s, u, DeleteLoop(u));
      SplitLast(s.lines);
    }
  }

  /** DeleteAll: every visible stroke is hidden and pushed on the undo stack,
      last to first, and one Redo will restore all of them. */
  function DeleteAll(s: State): (t: State)
    ensures |s.lines| == 0 ==> t == s
    ensures t.redoStack == s.redoStack && |t.strokes| == |s.strokes|
    ensures |s.lines| > 0 ==>
      && t.lines == []
      && t.undoStack == s.undoStack + Reverse(s.lines)
      && t.deletedLines == |s.lines|
  {
    if |s.lines| > 0 then DeleteLoop(s.(deletedLines := 0)) else s
  }

  /** DeleteAll hides exactly the visible strokes and touches nothing else. */
  lemma DeleteAllHides(s: State)
    ensures var t := DeleteAll(s);
      && HistoryOnly(s, t)
      && forall h :: 0 <= h < |s.strokes| ==> t.strokes[h].active == (s.strokes[h].active && h !in s.lines)
  {
    if |s.lines| > 0 {
      var s0 := s.(deletedLines := 0);
      DeleteLoopHides(s0);
      assert s0.strokes == s.strokes && s0.lines == s.lines;
    }
  }

  /** Redo's pop loop, `k` iterations still to run. It fails exactly when it
      would pop an empty stack. */
  function RestoreTop(s: State, k: nat): (r: Result<State, Fault>)
    ensures r.Success? <==> k <= |s.undoStack|
    decreases k
  {
    if k == 0 then Success(s)
    else if |s.undoStack| == 0 then Failure(PopOnEmptyStack)
    else RestoreTop(PopToLines(s), k - 1)
  }

  /** How many times Redo's `for (i = 0; i < deletedLines; i++)` loop runs. */
  function Pops(deletedLines: int): nat
  {
    if deletedLines > 0 then deletedLines else 0
  }

  /** Redo: when the undo stack is not empty, pops `deletedLines` strokes back
      into the list (top first), then resets the count to 1. It fails exactly
      when the stack is not empty and the count exceeds it; on an empty stack
      it changes nothing. */
  function Redo(s: State): (r: Result<State, Fault>)
    ensures |s.undoStack| == 0 ==> r == Success(s)
    ensures r.Success? <==> (|s.undoStack| == 0 || s.deletedLines <= |s.undoStack|)
    ensures |s.undoStack| > 0 && r.Success? ==> r.value.deletedLines == 1
  {
    if |s.undoStack| > 0 then
      match RestoreTop(s, Pops(s.deletedLines))
      case Success(t) => Success(t.(deletedLines := 1))
      case Failure(e) => Failure(e)
    else Success(s)
  }

  /** The pop loop moves the top `k` strokes, top first, from the undo stack
      to the end of the list (and to `redoStack`). */
  lemma {:induction false} RestoreTopMovesTop(s: State, k: nat)
    requires k <= |s.undoStack|
    ensures RestoreTop(s, k).Success?
    ensures var t := RestoreTop(s, k).value;
      var n := |s.undoStack|;
      && t.lines == s.lines + Reverse(s.undoStack[n - k..])
      && t.undoStack == s.undoStack[..n - k]
      && t.redoStack == s.redoStack + Reverse(s.undoStack[n - k..])
      && t.deletedLines == s.deletedLines
    decreases k
  {
    var n := |s.undoStack|;
    if k > 0 {
      var u := PopToLines(s);
      assert RestoreTop(s, k) == RestoreTop(u, k - 1);
      RestoreTopMovesTop(u, k - 1);
      ReverseSuffixStep(s.undoStack, s.lines, k);
      ReverseSuffixStep(s.undoStack, s.redoStack, k);
    } else {
      assert s.undoStack[n - k..] == [];
      assert s.undoStack[..n - k] == s.undoStack;
    }
  }

  /** ... and shows exactly those `k` strokes again, touching nothing else. */
  lemma {:induction false} RestoreTopShowsTop(s: State, k: nat)
    requires k <= |s.undoStack|
    ensures RestoreTop(s, k).Success?
    ensures var t := RestoreTop(s, k).value;
      var n := |s.undoStack|;
      && HistoryOnly(s, t)
      && forall h :: 0 <= h < |s.strokes| ==> t.strokes[h].active == (s.strokes[h].active || h in s.undoStack[n - k..])
    decreases k
  {
    if k > 0 {
      var u := PopToLines(s);
      RestoreTopShowsTop(u, k - 1);
      ShowsTopStep(s, k, RestoreTop(u, k - 1).value);
    }
  }

  /** The inductive step of RestoreTopShowsTop: a state reached from
      PopToLines(s) by showing the next `k - 1` strokes is reached from `s` by
      showing `k`. */
  lemma ShowsTopStep(s: State, k: nat, t: State)
    requires 0 < k <= |s.undoStack|
    requires var u := PopToLines(s);
      && HistoryOnly(u, t)
      && forall h :: 0 <= h < |u.strokes| ==>
           t.strokes[h].active == (u.strokes[h].active || h in u.undoStack[|u.undoStack| - (k - 1)..])
    ensures HistoryOnly(s, t)
    ensures forall h :: 0 <= h < |s.strokes| ==>
      t.strokes[h].active == (s.strokes[h].active || h in s.undoStack[|s.undoStack| - k..])
  {
    var u := PopToLines(s);
    var n := |s.undoStack|;
    PopToLinesShows(s);
    assert s.undoStack[n - k..] == u.undoStack[(n - 1) - (k - 1)..] + [Last(s.undoStack)];
    HistoryOnlyTransitive(s, u, t);
  }

  lemma {:induction false} RestoreTopConsistent(s: State, k: nat)
    requires Consistent(s) && k <= |s.undoStack|
    ensures RestoreTop(s, k).Success? && Consistent(RestoreTop(s, k).value)
    decreases k
  {
    if k > 0 {
      PopToLinesConsistent(s);
      RestoreTopConsistent(PopToLines(s), k - 1);
    }
  }

  lemma {:induction false} DeleteLoopConsistent(s: State)
    requires Consistent(s)
    ensures Consistent(DeleteLoop(s))
    decreases |s.lines|
  {
    if |s.lines| > 0 {
      var u := MoveLastToUndo(s);
      MoveLastToUndoConsistent(s);
      CountIrrelevantToConsistency(u, s.deletedLines + 1);
      DeleteLoopConsistent(u.(deletedLines := s.deletedLines + 1));
    }
  }

  /** Redo in closed form: with `k` the number of loop iterations, the top `k`
      undone strokes come back in pop order after the visible ones. */
  lemma RedoRestoresTop(s: State)
    requires |s.undoStack| > 0 && s.deletedLines <= |s.undoStack|
    ensures Redo(s).Success?
    ensures var t := Redo(s).value;
      var n := |s.undoStack|;
      var k := Pops(s.deletedLines);
      && t.lines == s.lines + Reverse(s.undoStack[n - k..])
      && t.undoStack == s.undoStack[..n - k]
      && t.redoStack == s.redoStack + Reverse(s.undoStack[n - k..])
      && t.deletedLines == 1
      && HistoryOnly(s, t)
      && forall h :: 0 <= h < |s.strokes| ==> t.strokes[h].active == (s.strokes[h].active || h in s.undoStack[n - k..])
  {
    RestoreTopMovesTop(s, Pops(s.deletedLines));
    RestoreTopShowsTop(s, Pops(s.deletedLines));
  }

  lemma UndoPreservesValid(s: State)
    requires Valid(s)
    ensures Valid(Undo(s))
  {
    if |s.lines| > 0 {
      MoveLastToUndoConsistent(s.(deletedLines := 1));
    }
  }

  lemma DeleteAllPreservesValid(s: State)
    requires Valid(s)
    ensures Valid(DeleteAll(s))
  {
    if |s.lines| > 0 {
      DeleteLoopConsistent(s.(deletedLines := 0));
    }
  }

  /** Redo never pops an empty stack from a valid state, and keeps it valid. */
  lemma RedoPreservesValid(s: State)
    requires Valid(s)
    ensures Redo(s).Success?
    ensures Valid(Redo(s).value)
  {
    if |s.undoStack| > 0 {
      RestoreTopConsistent(s, Pops(s.deletedLines));
    }
  }

  /** Undo followed at once by Redo gives back the same list, stack and
      strokes; only the write-only `redoStack` and the count differ. */
  lemma UndoThenRedo(s: State)
    requires Valid(s) && |s.lines| > 0
    ensures Redo(Undo(s)) == Success(s.(redoStack := s.redoStack + [Last(s.lines)], deletedLines := 1))
  {
    UndoThenRedoFields(s);
  }

  lemma UndoThenRedoFields(s: State)
    requires |s.lines| > 0 && Last(s.lines) < |s.strokes| && s.strokes[Last(s.lines)].active
    ensures Redo(Undo(s)).Success?
    ensures var t := Redo(Undo(s)).value;
      && t.lines == s.lines && t.undoStack == s.undoStack && t.strokes == s.strokes
      && t.redoStack == s.redoStack + [Last(s.lines)] && t.deletedLines == 1 && HistoryOnly(s, t)
  {
    var u := Undo(s);
    var x := Last(s.lines);
    UndoHidesLast(s);
    RedoRestoresTop(u);
    var t := Redo(u).value;
    var n := |u.undoStack|;
    assert u.undoStack[n - 1..] == [x];
    assert u.undoStack[..n - 1] == s.undoStack;
    SplitLast(s.lines);
    HistoryOnlyTransitive(s, u, t);
    forall h | 0 <= h < |s.strokes|
      ensures t.strokes[h] == s.strokes[h]
    {
      assert h == x ==> s.strokes[h].active;
    }
  }

  /** DeleteAll followed by one Redo restores every stroke to the list in
      creation order, and the undo stack to what it was. */
  lemma DeleteAllThenRedo(s: State)
    requires Valid(s) && |s.lines| > 0
    ensures Redo(DeleteAll(s)) == Success(s.(redoStack := s.redoStack + s.lines, deletedLines := 1))
  {
    DeleteAllThenRedoFields(s);
  }

  lemma DeleteAllThenRedoFields(s: State)
    requires |s.lines| > 0
    requires forall h :: h in s.lines ==> h < |s.strokes| && s.strokes[h].active
    ensures Redo(DeleteAll(s)).Success?
    ensures var t := Redo(DeleteAll(s)).value;
      && t.lines == s.lines && t.undoStack == s.undoStack && t.strokes == s.strokes
      && t.redoStack == s.redoStack + s.lines && t.deletedLines == 1 && HistoryOnly(s, t)
  {
    DeleteAllThenRedoLists(s);
    DeleteAllThenRedoStrokes(s);
  }

  lemma DeleteAllThenRedoLists(s: State)
    requires |s.lines| > 0
    ensures Redo(DeleteAll(s)).Success?
    ensures var t := Redo(DeleteAll(s)).value;
      && t.lines == s.lines && t.undoStack == s.undoStack
      && t.redoStack == s.redoStack + s.lines && t.deletedLines == 1
  {
    var u := DeleteAll(s);
    RestoreTopMovesTop(u, |s.lines|);
    var n := |u.undoStack|;
    var k := |s.lines|;
    assert u.undoStack[n - k..] == Reverse(s.lines);
    assert u.undoStack[..n - k] == s.undoStack;
    ReverseInvolutive(s.lines);
  }

  lemma DeleteAllThenRedoStrokes(s: State)
    requires |s.lines| > 0
    requires forall h :: h in s.lines ==> h < |s.strokes| && s.strokes[h].active
    ensures Redo(DeleteAll(s)).Success?
    ensures var t := Redo(DeleteAll(s)).value;
      t.strokes == s.strokes && HistoryOnly(s, t)
  {
    var u := DeleteAll(s);
    var k := |s.lines|;
    DeleteAllHides(s);
    RestoreTopShowsTop(u, k);
    var n := |u.undoStack|;
    assert u.undoStack[n - k..] == Reverse(s.lines);
    ReverseMembers(s.lines);
    HiddenThenShownAgain(s, u, Redo(u).value, Reverse(s.lines));
  }

  /** Hiding a set of active strokes and then showing the same set again
      gives back the strokes unchanged. */
  lemma HiddenThenShownAgain(s: State, u: State, t: State, again: seq<Handle>)
    requires HistoryOnly(s, u) && HistoryOnly(u, t)
    requires forall h :: h in s.lines ==> h < |s.strokes| && s.strokes[h].active
    requires forall h :: 0 <= h < |s.strokes| ==> u.strokes[h].active == (s.strokes[h].active && h !in s.lines)
    requires forall h :: 0 <= h < |u.strokes| ==> t.strokes[h].active == (u.strokes[h].active || h in again)
    requires forall h :: h in again <==> h in s.lines
    ensures t.strokes == s.strokes && HistoryOnly(s, t)
  {
    HistoryOnlyTransitive(s, u, t);
    forall h | 0 <= h < |s.strokes|
      ensures t.strokes[h] == s.strokes[h]
    {
      assert t.strokes[h].active == s.strokes[h].active;
    }
  }

  /** Undo applied `n` times. Undoing every visible stroke one at a time
      empties the list onto the undo stack, most recent first; unlike
      DeleteAll it leaves the count at 1, so one Redo then restores only the
      oldest of them. */
  function UndoTimes(s: State, n: nat): (t: State)
    ensures n <= |s.lines| ==>
      && t.lines == s.lines[..|s.lines| - n]
      && t.undoStack == s.undoStack + Reverse(s.lines[|s.lines| - n..])
      && (n > 0 ==> t.deletedLines == 1)
    decreases n
  {
    if n == 0 then
      assert s.lines[..|s.lines|] == s.lines && s.lines[|s.lines|..] == [];
      s
    else
      var t := UndoTimes(Undo(s), n - 1);
      if n <= |s.lines| then ReverseSuffixStep(s.lines, s.undoStack, n); t else t
  }

  /** After two Undos, one Redo restores only the second-to-last stroke;
      the last one stays undone. */
  lemma UndoTwiceRedoOnce(s: State)
    requires |s.lines| >= 2
    ensures var n := |s.lines|;
      && Redo(Undo(Undo(s))).Success?
      && Redo(Undo(Undo(s))).value.lines == s.lines[..n - 1]
      && Redo(Undo(Undo(s))).value.undoStack == s.undoStack + [s.lines[n - 1]]
  {
    var n := |s.lines|;
    var u := Undo(Undo(s));
    assert u.undoStack == (s.undoStack + [s.lines[n - 1]]) + [s.lines[n - 2]];
    assert u.lines == s.lines[..n - 2];
    RestoreTopMovesTop(u, 1);
    var m := |u.undoStack|;
    assert u.undoStack[m - 1..] == [s.lines[n - 2]];
    assert u.undoStack[..m - 1] == s.undoStack + [s.lines[n - 1]];
    assert Reverse([s.lines[n - 2]]) == [s.lines[n - 2]];
    assert s.lines[..n - 2] + [s.lines[n - 2]] == s.lines[..n - 1];
  }
}
