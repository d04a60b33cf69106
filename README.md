# movefont: the text label's undo/redo history

The `App` component of movefont shows one draggable, editable text label. Its only stateful logic beyond plain setters is the edit history: the current `text`, an `undoStack` whose top is its last element, and a `redoStack` whose top is its first element. Edits (typing in the label, or the "add text" button, which installs the fixed text `"Anuj Verma"`) first record the pre-edit text on the undo stack and clear the redo stack. Undo and redo move one text between the stacks and do nothing when their stack is empty.

React setters take effect only after a handler returns, so every handler reads the state from before the call. The model treats each handler as one atomic transition from the old state to the new one.

Two modules:

- `EditHistory` (history.dfy) gives the history as a value `State(text, undoStack, redoStack)` and the transitions as functions: `SaveToUndoStack`, `Edit`, `Undo`, `Redo`. `Run` replays a session of user actions. The contracts are stated through the *timeline* `undoStack + [text] + redoStack` and the *cursor* `|undoStack|`. Undo and redo keep the timeline and move the cursor one step back or forward. An edit keeps the timeline up to the cursor, appends the new text and discards the rest. A state is determined by its timeline and cursor (`TimelineDetermines`). This is why undo and redo are exact inverses, and why prepending on undo and taking the head on redo is a consistent ordering, not an accident.
- `AppComponent` (app.dfy) is the component as a class `App`. It has the source's fields: `text`, `undoStack`, `redoStack`, and the flags `isBold`, `isItalic`, `isUnderLine` and `isEditable`. Each handler is a method that states its new fields outright and ties its new history to the matching `EditHistory` function. The style and edit-mode toggles negate one flag each, and their `modifies` frames show they never touch the history.

## Model

| member | source | states |
|---|---|---|
| EditHistory.SaveToUndoStack | src/App.js:49-52 | the snapshot text becomes the new top (last element) of the undo stack, and the older entries stay below it unchanged; the redo stack is empty afterwards, whatever it held; the text is unchanged |
| EditHistory.Edit | src/App.js:54-57 | the new text becomes current and the undo stack gains the pre-edit text as its last element; the redo stack is emptied; in timeline terms the cursor moves forward onto the new text and everything after the old cursor is discarded |
| EditHistory.Undo | src/App.js:59-66 | with an empty undo stack the state is unchanged; otherwise the timeline is unchanged and the cursor moves back one step: the old top of the undo stack becomes the text, and the old text becomes the head of the redo stack |
| EditHistory.Redo | src/App.js:69-76 | with an empty redo stack the state is unchanged; otherwise the timeline is unchanged and the cursor moves forward one step: the old head of the redo stack becomes the text, and the old text becomes the top of the undo stack |
| EditHistory.HistoryLengths | src/App.js:49-76 | undo and redo conserve `|undoStack| + |redoStack|`; a snapshot makes that sum the old undo length plus one |
| EditHistory.UndoThenRedo | src/App.js:59-76 | from a state with a non-empty undo stack, undo then redo restores text, undo stack and redo stack exactly |
| EditHistory.RedoThenUndo | src/App.js:59-76 | from a state with a non-empty redo stack, redo then undo restores text, undo stack and redo stack exactly |
| EditHistory.EditThenUndo | src/App.js:54-76 | right after an edit, redo does nothing; undo returns to the pre-edit text and stacks, with only the edited text left to redo |
| EditHistory.NavigationKeepsTimeline | src/App.js:59-76 | any session made only of undo and redo clicks leaves the timeline, and so the total history length, unchanged |
| EditHistory.UndoManyMovesBack | src/App.js:59-66 | k undos, when at least k texts can be undone, move the cursor back exactly k places in an unchanged timeline |
| EditHistory.RedoManyMovesForward | src/App.js:69-76 | k redos, when at least k texts can be redone, move the cursor forward exactly k places in an unchanged timeline |
| EditHistory.UndoManyThenRedoMany | src/App.js:59-76 | k undos followed by k redos give back the starting state exactly |
| EditHistory.HelloWorldSession | src/App.js:54-76 | typing "Hello", then "Hello World", then two undos leaves redo stack ["Hello", "Hello World"] (nearest first); a redo then restores "Hello" |
| AppComponent.App.constructor | src/App.js:7-19 | the component starts with empty text, empty stacks and all flags false |
| AppComponent.App.SaveToUndoStack | src/App.js:49-52 | appends the given text to the undo stack and clears the redo stack, touching no other field |
| AppComponent.App.HandleTextChange | src/App.js:54-57 | the new value becomes the text, the old text is pushed on the undo stack, and the redo stack is cleared (the `Edit` transition) |
| AppComponent.App.ToggleAddText | src/App.js:24-27 | the same edit, with the fixed text "Anuj Verma" as the new value |
| AppComponent.App.HandleUndo | src/App.js:59-66 | no change on an empty undo stack; otherwise pops the undo stack's last element into the text and prepends the old text to the redo stack (the `Undo` transition) |
| AppComponent.App.HandleRedo | src/App.js:69-76 | no change on an empty redo stack; otherwise takes the redo stack's head as the text, drops it, and appends the old text to the undo stack (the `Redo` transition) |
| AppComponent.App.ToggleBold | src/App.js:37-39 | negates `isBold` and changes nothing else |
| AppComponent.App.ToggleItalic | src/App.js:41-43 | negates `isItalic` and changes nothing else |
| AppComponent.App.ToggleUnderLine | src/App.js:45-47 | negates `isUnderLine` and changes nothing else |
| AppComponent.App.HandleTextClick | src/App.js:105-107 | negates `isEditable` and changes nothing else |
| AppComponent.EditUndoRedoSession | src/App.js:37-76 | a client of the handlers: edit, toggle bold, undo, redo ends in the same history as the edit alone, with bold flipped |

## Left out

- Font family and font size handlers (src/App.js:29-35): they store the raw input value without checking it. The min/max on the size input are HTML attributes only, so there is no bound to state.
- Dragging (src/App.js:79-103): the positions come from the browser's bounding rectangle and mouse coordinates.
- The window listeners registered in the effect (src/App.js:109-122): DOM event plumbing.
- Rendering (src/App.js:124-209). The text input, and so the change handler, exists only while the text is non-empty and the label is in edit mode. The model lets every handler be called in any state.
- `rotation` and `dragging` fields: rotation is never changed by any handler, and dragging belongs to the drag code above.
- React's batching and re-rendering: each handler is modelled as one atomic transition on the pre-call state.
