/** The `App` component's state as an object: the text and its two history
    stacks, plus the boolean style and edit-mode flags. Each handler is one
    atomic transition: it reads only the state from before the call, and its
    contract ties the new history to the transition of the same name in
    EditHistory. */
module AppComponent {
  import EditHistory

  class App {
    var text: string
    var undoStack: seq<string>
    var redoStack: seq<string>
    var isBold: bool
    var isItalic: bool
    var isUnderLine: bool
    var isEditable: bool

    /** The history part of the component's state. */
    function Model(): EditHistory.State
      reads this
    {
      EditHistory.State(text, undoStack, redoStack)
    }

    /** The component as first rendered: empty text, empty stacks, no style,
        not in edit mode. */
    constructor ()
      ensures Model() == EditHistory.Initial
      ensures !isBold && !isItalic && !isUnderLine && !isEditable
    {
      text := "";
      undoStack := [];
      redoStack := [];
      isBold := false;
      isItalic := false;
      isUnderLine := false;
      isEditable := false;
    }

    /** Records `currentText` on top of the undo stack and clears the redo stack. */
    method SaveToUndoStack(currentText: string)
      modifies this`undoStack, this`redoStack
      ensures undoStack == old(undoStack) + [currentText]
      ensures redoStack == []
      ensures Model() == EditHistory.SaveToUndoStack(old(Model()), currentText)
    {
      undoStack := undoStack + [currentText];
      redoStack := [];
    }

    /** The input's change handler: records the text before the edit, then
        installs the new value. */
    method HandleTextChange(value: string)
      modifies this`text, this`undoStack, this`redoStack
      ensures text == value
      ensures undoStack == old(undoStack) + [old(text)]
      ensures redoStack == []
      ensures Model() == EditHistory.Edit(old(Model()), value)
    {
      SaveToUndoStack(text);
      text := value;
    }

    /** The "add text" button: an edit whose new value is the fixed text. */
    method ToggleAddText()
      modifies this`text, this`undoStack, this`redoStack
      ensures text == EditHistory.AddedText
      ensures undoStack == old(undoStack) + [old(text)]
      ensures redoStack == []
      ensures Model() == EditHistory.Edit(old(Model()), EditHistory.AddedText)
    {
      SaveToUndoStack(text);
      text := EditHistory.AddedText;
    }

    /** The undo button: does nothing when the undo stack is empty; otherwise
        the top of the undo stack becomes the text, leaves the undo stack, and
        the replaced text goes to the head of the redo stack. */
    method HandleUndo()
      modifies this`text, this`undoStack, this`redoStack
      ensures old(undoStack) == [] ==> Model() == old(Model())
      ensures old(undoStack) != [] ==>
        var n := |old(undoStack)|;
        text == old(undoStack)[n - 1] &&
        undoStack == old(undoStack)[..n - 1] &&
        redoStack == [old(text)] + old(redoStack)
      ensures Model() == EditHistory.Undo(old(Model()))
    {
      if |undoStack| > 0 {
        var previousState := undoStack[|undoStack| - 1];
        redoStack := [text] + redoStack;
        text := previousState;
        undoStack := undoStack[..|undoStack| - 1];
      }
    }

    /** The redo button: does nothing when the redo stack is empty; otherwise
        the head of the redo stack becomes the text, leaves the redo stack, and
        the replaced text goes on top of the undo stack. */
    method HandleRedo()
      modifies this`text, this`undoStack, this`redoStack
      ensures old(redoStack) == [] ==> Model() == old(Model())
      ensures old(redoStack) != [] ==>
        text == old(redoStack)[0] &&
        undoStack == old(undoStack) + [old(text)] &&
        redoStack == old(redoStack)[1..]
      ensures Model() == EditHistory.Redo(old(Model()))
    {
      if |redoStack| > 0 {
        var nextState := redoStack[0];
        undoStack := undoStack + [text];
        text := nextState;
        redoStack := redoStack[1..];
      }
    }

    method ToggleBold()
      modifies this`isBold
      ensures isBold == !old(isBold)
    {
      isBold := !isBold;
    }

    method ToggleItalic()
      modifies this`isItalic
      ensures isItalic == !old(isItalic)
    {
      isItalic := !isItalic;
    }

    method ToggleUnderLine()
      modifies this`isUnderLine
      ensures isUnderLine == !old(isUnderLine)
    {
      isUnderLine := !isUnderLine;
    }

    /** Clicking the label switches between display and edit mode. */
    method HandleTextClick()
      modifies this`isEditable
      ensures isEditable == !old(isEditable)
    {
      isEditable := !isEditable;
    }
  }

  /** What a caller can conclude from the handlers' contracts alone: an undo
      followed by a redo on a fresh edit leaves the component exactly as the
      edit did, and the style toggles never touch the history. */
  method EditUndoRedoSession(app: App, value: string)
    modifies app
    ensures app.Model() == EditHistory.Edit(old(app.Model()), value)
    ensures app.isBold == !old(app.isBold)
  {
    app.HandleTextChange(value);
    ghost var edited := app.Model();
    app.ToggleBold();
    app.HandleUndo();
    app.HandleRedo();
    EditHistory.UndoThenRedo(edited);
  }
}
