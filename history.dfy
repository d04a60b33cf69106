/** The edit history of the text label: the current text, an undo stack whose
    top is its LAST element and a redo stack whose top is its FIRST element.
    Every handler of the component is one atomic transition from the state
    before the call to the state after it; this module gives those transitions
    as functions and proves the laws they obey. */
module EditHistory {

  datatype State = State(text: string, undoStack: seq<string>, redoStack: seq<string>)

  /** The state the component starts in: empty text, both stacks empty. */
  const Initial: State := State("", [], [])

  /** The text that the "add text" button installs. */
  const AddedText: string := "Anuj Verma"

  /** The whole linear history the user can walk through with undo and redo:
      the undoable texts oldest first, the current text, then the redoable
      texts nearest first. */
  function Timeline(s: State): seq<string>
  {
    s.undoStack + [s.text] + s.redoStack
  }

  /** Where the current text sits in the timeline. */
  function Cursor(s: State): nat
  {
    |s.undoStack|
  }

  function Last(xs: seq<string>): string
    requires xs != []
  {
    xs[|xs| - 1]
  }

  /** A state is fixed by its timeline and its cursor. */
  lemma TimelineDetermines(s: State, t: State)
    requires Timeline(s) == Timeline(t)
    requires Cursor(s) == Cursor(t)
    ensures s == t
  {
    var c := Cursor(s);
    assert s.undoStack == Timeline(s)[..c];
    assert t.undoStack == Timeline(t)[..c];
    assert s.text == Timeline(s)[c];
    assert t.text == Timeline(t)[c];
    assert s.redoStack == Timeline(s)[c + 1..];
    assert t.redoStack == Timeline(t)[c + 1..];
  }

  /** Recording a snapshot: `currentText` goes on top of the undo stack and the
      redo stack is emptied, whatever it held. The text itself is untouched. */
  function SaveToUndoStack(s: State, currentText: string): (r: State)
    ensures r.text == s.text
    ensures |r.undoStack| == |s.undoStack| + 1
    ensures r.undoStack[..|s.undoStack|] == s.undoStack && Last(r.undoStack) == currentText
    ensures r.redoStack == []
  {
    State(s.text, s.undoStack + [currentText], [])
  }

  /** An edit: the text before the edit is recorded, then `newText` becomes
      current. In timeline terms the cursor moves one step forward onto
      `newText` and every redoable text after the old cursor is discarded. */
  function Edit(s: State, newText: string): (r: State)
    ensures Timeline(r) == Timeline(s)[..Cursor(s) + 1] + [newText]
    ensures Cursor(r) == Cursor(s) + 1
    ensures r.text == newText && Last(r.undoStack) == s.text
    ensures r.redoStack == []
  {
    var saved := SaveToUndoStack(s, s.text);
    assert Timeline(s)[..Cursor(s) + 1] == s.undoStack + [s.text];
    State(newText, saved.undoStack, saved.redoStack)
  }

  /** Undo: with an empty undo stack nothing changes; otherwise the cursor moves
      one step back in an unchanged timeline, so the top of the undo stack
      becomes current and the replaced text becomes the top of the redo stack. */
  function Undo(s: State): (r: State)
    ensures s.undoStack == [] ==> r == s
    ensures s.undoStack != [] ==> Timeline(r) == Timeline(s) && Cursor(r) == Cursor(s) - 1
    ensures s.undoStack != [] ==> r.text == Last(s.undoStack) && r.redoStack[0] == s.text
  {
    if |s.undoStack| > 0 then
      var n := |s.undoStack|;
      assert s.undoStack[..n - 1] + [s.undoStack[n - 1]] == s.undoStack;
      State(s.undoStack[n - 1], s.undoStack[..n - 1], [s.text] + s.redoStack)
    else
      s
  }

  /** Redo: with an empty redo stack nothing changes; otherwise the cursor moves
      one step forward in an unchanged timeline, so the top of the redo stack
      becomes current and the replaced text becomes the top of the undo stack. */
  function Redo(s: State): (r: State)
    ensures s.redoStack == [] ==> r == s
    ensures s.redoStack != [] ==> Timeline(r) == Timeline(s) && Cursor(r) == Cursor(s) + 1
    ensures s.redoStack != [] ==> r.text == s.redoStack[0] && Last(r.undoStack) == s.text
  {
    if |s.redoStack| > 0 then
      assert [s.redoStack[0]] + s.redoStack[1..] == s.redoStack;
      State(s.redoStack[0], s.undoStack + [s.text], s.redoStack[1..])
    else
      s
  }

  /** Undo and redo move one text between the stacks: the total number of
      recorded texts is conserved. A snapshot makes it the old undo length
      plus one, dropping the redo stack. */
  lemma HistoryLengths(s: State, t: string)
    ensures |Undo(s).undoStack| + |Undo(s).redoStack| == |s.undoStack| + |s.redoStack|
    ensures |Redo(s).undoStack| + |Redo(s).redoStack| == |s.undoStack| + |s.redoStack|
    ensures |SaveToUndoStack(s, t).undoStack| + |SaveToUndoStack(s, t).redoStack| == |s.undoStack| + 1
  {
    assert |Timeline(Undo(s))| == |Timeline(s)|;
    assert |Timeline(Redo(s))| == |Timeline(s)|;
  }

  /** Undo followed by redo restores the state exactly. */
  lemma UndoThenRedo(s: State)
    requires s.undoStack != []
    ensures Redo(Undo(s)) == s
  {
    TimelineDetermines(Redo(Undo(s)), s);
  }

  /** Redo followed by undo restores the state exactly. */
  lemma RedoThenUndo(s: State)
    requires s.redoStack != []
    ensures Undo(Redo(s)) == s
  {
    TimelineDetermines(Undo(Redo(s)), s);
  }

  /** After an edit there is nothing to redo: redo is a no-op, and undo goes
      back to exactly the text the edit replaced. */
  lemma EditThenUndo(s: State, newText: string)
    ensures Redo(Edit(s, newText)) == Edit(s, newText)
    ensures Undo(Edit(s, newText)) == State(s.text, s.undoStack, [newText])
  {
    var e := Edit(s, newText);
    TimelineDetermines(Undo(e), State(s.text, s.undoStack, [newText]));
  }

  /** The user actions that touch the history. */
  datatype Action =
    | TextChanged(value: string)
    | AddTextClicked
    | UndoClicked
    | RedoClicked

  function Step(s: State, a: Action): State
  {
    match a
    case TextChanged(v) => Edit(s, v)
    case AddTextClicked => Edit(s, AddedText)
    case UndoClicked => Undo(s)
    case RedoClicked => Redo(s)
  }

  /** The state after a session of actions, first action first. */
  function Run(s: State, actions: seq<Action>): State
    decreases |actions|
  {
    if actions == [] then s else Run(Step(s, actions[0]), actions[1..])
  }

  function Repeat(a: Action, k: nat): (r: seq<Action>)
    ensures |r| == k
  {
    if k == 0 then [] else [a] + Repeat(a, k - 1)
  }

  predicate IsNavigation(a: Action)
  {
    a.UndoClicked? || a.RedoClicked?
  }

  /** Any session of undos and redos only moves the cursor: the timeline, and
      with it the total history length, is exactly what it was. */
  lemma {:induction false} NavigationKeepsTimeline(s: State, actions: seq<Action>)
    requires forall i :: 0 <= i < |actions| ==> IsNavigation(actions[i])
    ensures Timeline(Run(s, actions)) == Timeline(s)
    ensures |Run(s, actions).undoStack| + |Run(s, actions).redoStack| == |s.undoStack| + |s.redoStack|
    decreases |actions|
  {
    if actions != [] {
      NavigationKeepsTimeline(Step(s, actions[0]), actions[1..]);
    }
  }

  /** Undoing k times, when at least k texts can be undone, moves the cursor
      back k places in an unchanged timeline. */
  lemma {:induction false} UndoManyMovesBack(s: State, k: nat)
    requires k <= |s.undoStack|
    ensures Timeline(Run(s, Repeat(UndoClicked, k))) == Timeline(s)
    ensures Cursor(Run(s, Repeat(UndoClicked, k))) == Cursor(s) - k
    decreases k
  {
    if k > 0 {
      assert Repeat(UndoClicked, k)[1..] == Repeat(UndoClicked, k - 1);
      UndoManyMovesBack(Undo(s), k - 1);
    }
  }

  /** Redoing k times, when at least k texts can be redone, moves the cursor
      forward k places in an unchanged timeline. */
  lemma {:induction false} RedoManyMovesForward(s: State, k: nat)
    requires k <= |s.redoStack|
    ensures Timeline(Run(s, Repeat(RedoClicked, k))) == Timeline(s)
    ensures Cursor(Run(s, Repeat(RedoClicked, k))) == Cursor(s) + k
    decreases k
  {
    if k > 0 {
      assert Repeat(RedoClicked, k)[1..] == Repeat(RedoClicked, k - 1);
      RedoManyMovesForward(Redo(s), k - 1);
    }
  }

  /** k undos followed by k redos give back the starting state exactly. */
  lemma UndoManyThenRedoMany(s: State, k: nat)
    requires k <= |s.undoStack|
    ensures Run(Run(s, Repeat(UndoClicked, k)), Repeat(RedoClicked, k)) == s
  {
    var back := Run(s, Repeat(UndoClicked, k));
    UndoManyMovesBack(s, k);
    assert |Timeline(back)| == |Timeline(s)|;
    RedoManyMovesForward(back, k);
    TimelineDetermines(Run(back, Repeat(RedoClicked, k)), s);
  }

  /** A short editing session: type "Hello", then "Hello World", undo twice,
      redo once. */
  lemma HelloWorldSession()
    ensures Run(Initial, [TextChanged("Hello"), TextChanged("Hello World")])
         == State("Hello World", ["", "Hello"], [])
    ensures Run(Initial, [TextChanged("Hello"), TextChanged("Hello World"), UndoClicked])
         == State("Hello", [""], ["Hello World"])
    ensures Run(Initial, [TextChanged("Hello"), TextChanged("Hello World"), UndoClicked, UndoClicked])
         == State("", [], ["Hello", "Hello World"])
    ensures Run(Initial, [TextChanged("Hello"), TextChanged("Hello World"), UndoClicked, UndoClicked, RedoClicked])
         == State("Hello", [""], ["Hello World"])
  {
  }
}
