# vim-js in Dafny

A model of the modal editor of vim-js: a vim-like command interpreter
driving a text area whose whole state is one flat string and a
selection. The model covers two revisions of the interpreter:

- `vim.ts`, the first revision, called `Legacy` here.
- `docs/index.js`, the later revision, called `Current` here. It adds:
  - redo (`C-r`)
  - replace-character (`r`), which waits for one more key
  - Tab in insert mode
  - an `isLineEnd`-based `x`
  - a snapshot-then-push undo discipline with a limit of 1024

The motion and selection libraries are the same in both revisions, and
are modelled once.

The project has these modules:

- `JsString`: the JavaScript string primitives the code leans on, with
  their exact behaviour on negative and out-of-range indices:
  - `slice`
  - `charAt`
  - `indexOf`
  - `lastIndexOf`
  - `repeat`
  - `countSpaces`
- `Lines`:
  - `lineStart` and `lineEnd`, against a reference definition of a line
  - `isLineEnd`
  - the indentation helpers
- `Motion`: the motions, each a function from a buffer and a caret to a
  caret.
- `Boundaries`: the boundary finder `findRegexBreak`. The three global
  regular expressions it uses are modelled as scanners that yield the
  match indices `exec` finds. The finder is proved against a reference
  "maximal run of one character class".
- `Selection` and `Brackets`: the selectors, each a function from a
  buffer and a caret to a `[start, end)` pair. Bracket matching is
  proved to select the innermost balanced pair around the caret.
- `CommandTree`:
  - the key tries `commandTree` and `visualTree` of both revisions
  - the record merge `{ ...a, ...b }`
  - a soundness property of every node a walk can reach
- `Editor`: the editor state and its primitives:
  - the caret and the visual selection
  - `setMode` and the resets
  - the clipboard
  - `getSelection` and `yank`
- `Actions`: the `action*` commands.
- `Interpreter`:
  - the key handler of each revision, as a pure step function from a
    state and a key to the next state and whether the key was consumed
  - the repeat count
  - both undo disciplines
  - the invariant every key press keeps

## Model

| member | source | states |
|---|---|---|
| JsString.Slice | vim.ts:430-444 | `slice` never grows the string, is the plain subsequence on in-range arguments, and is empty when the range is inverted |
| JsString.InsertAt | vim.ts:452-454 | `insertAt` puts `data` at the position `slice` clamps to, keeping everything before and after, so the result is exactly as long as both |
| JsString.IndexOf | vim.ts:473-476 | `indexOf` finds the first index at or after the start holding the character; no index before it does; -1 when none does |
| JsString.LastIndexOf | vim.ts:465-471 | `lastIndexOf` finds the last index at or before the clamped start holding the character; a negative start still looks at index 0 |
| JsString.CountSpaces | vim.ts:456-463 | every position of the counted run is a space and the one just after it is not; outside the string the count is 0 |
| Lines.LineStart | vim.ts:465-471 | the line start follows a newline or is 0, with no newline between it and the position; on a buffer opening with a newline every position <= 0 gives 1 |
| Lines.LineStartIsLineBegin | vim.ts:465-471 | `lineStart` equals the reference line beginning everywhere except position 0 of a buffer that opens with a newline, where it answers 1 |
| Lines.LineEnd | vim.ts:473-476 | the line end is the first newline at or after the position, or the buffer length, and lies in the buffer |
| Lines.CaretLine | vim.ts:465-476 | `[lineStart, lineEnd)` of a caret is a whole line holding the caret, on every line but a leading empty one |
| Lines.LineBoundsWithin | vim.ts:465-476 | every position of a whole line has that line's bounds as its `lineStart` and `lineEnd` |
| Lines.IncreaseIndent | vim.ts:478-480 | `TAB_WIDTH` spaces followed by the string unchanged |
| Lines.DropLeadingSpaces | vim.ts:482-489 | `n` rounds of the dedent loop remove the leading spaces, at most `n` of them, and nothing else |
| Lines.DecreaseIndent | vim.ts:482-489 | `decreaseIndent` removes the leading spaces, at most `TAB_WIDTH` of them, and keeps the rest of the string |
| Lines.DecreaseAfterIncrease | vim.ts:478-489 | `decreaseIndent(increaseIndent(s)) == s` for every string |
| Motion.MoveLeft | vim.ts:691-693 | never negative; from inside the buffer it stays inside and moves back by at most one; it moves whenever it can |
| Motion.MoveRight | vim.ts:695-697 | never past the end; from inside the buffer it moves forward by at most one; it moves whenever it can |
| Motion.MoveDown | vim.ts:699-711 | on the last line the caret does not move; an in-buffer caret stays in the buffer |
| Motion.MoveDownLandsOnNextLine | vim.ts:699-711 | off the last line `j` lands on the next line at the caret's column, clamped to that line's length |
| Motion.MoveDownStuckOnLeadingEmptyLine | vim.ts:699-711 | at 0 of a buffer opening with a newline, `j` does not move although a next line exists |
| Motion.MoveUp | vim.ts:713-724 | when `lineStart` is 0 the caret does not move; an in-buffer caret stays in the buffer |
| Motion.MoveUpLandsOnPreviousLine | vim.ts:713-724 | off the first line `k` lands on the previous line at the caret's column, clamped to that line's length |
| Motion.MoveUpOnFirstLine | vim.ts:713-724 | on the first line `k` does not move, even where `lineStart` answers 1 |
| Motion.MoveHalfPageDown | vim.ts:733-738 | `C-d` lands `PAGE_SIZE` lines further down, or on the last line if fewer lines follow; at position 0 of a buffer opening with a newline it stays at 0 |
| Motion.MoveHalfPageUp | vim.ts:726-731 | `C-u` lands `PAGE_SIZE` lines further up, or on the first line if fewer lines precede |
| Motion.MoveDownOneLine | vim.ts:699-711 | away from position 0 of a buffer opening with a newline, one `moveDown` goes exactly one line down, or stays on the last line, and never lands on that position |
| Motion.MoveUpOneLine | vim.ts:713-724 | one `moveUp` goes exactly one line up, or stays on the first line |
| Motion.RepeatDownLines | vim.ts:733-738 | `n` successive `moveDown`s from any caret but position 0 of a buffer opening with a newline land `n` lines further down, or on the last line |
| Motion.RepeatUpLines | vim.ts:726-731 | `n` successive `moveUp`s land `n` lines further up, or on the first line |
| Motion.PageIsTwoHalfPages | vim.ts:726-750 | a full page down or up is `2 * PAGE_SIZE` single-line moves |
| Motion.MoveToWordNextLine | vim.ts:752-760 | with a character after the line's newline, Enter goes past the spaces that open the next line; otherwise it does not move |
| Motion.MoveToFirstWordStart | vim.ts:770-776 | `^` goes from the line start past exactly the run of spaces that opens the line |
| Motion.MoveToNextWord | vim.ts:778-781 | `w` moves strictly forward inside the buffer to the end of the caret's word, past the spaces after it |
| Motion.MoveToNextWordPlus | vim.ts:783-786 | `W` moves strictly forward inside the buffer to the end of the caret's WORD, past the spaces after it |
| Motion.MoveToEndWord | vim.ts:788-793 | `e` skips the spaces from the caret on and, on a text without a backslash, lands at the end of the maximal run of the punctuation class that starts there; past the end of the buffer it lands at the end; it moves strictly forward from any caret before the end |
| Motion.MoveToEndWordPlus | vim.ts:795-800 | `E` skips the spaces from the caret on and lands at the end of the maximal whitespace or non-whitespace run that starts there; it moves strictly forward from any caret before the end |
| Motion.MoveToPreviousWord | vim.ts:802-807 | `b` subtracts the spaces that follow the caret, then one, and, on a text without a backslash, lands at the start of the maximal punctuation-class run holding that position, or at 0 when it is negative; it moves strictly back from any caret after 0 |
| Motion.MoveToPreviousWordPlus | vim.ts:809-814 | `B` subtracts the spaces that follow the caret, then one, and lands at the start of the maximal whitespace or non-whitespace run holding that position, or at 0 when it is negative; it moves strictly back from any caret after 0 |
| Motion.Apply | vim.ts:80-106 | every motion the trees bind keeps an in-buffer caret in the buffer |
| Boundaries.FindRegexBreakSpec | vim.ts:491-509 | `[l, r]` with `l <= r <= length`; `l` is the last boundary at or before the caret, else 0; `r` is the first boundary after it, else the length; so no boundary lies strictly between the caret and `r` |
| Boundaries.WordMatchesFromExact | vim.ts:539 | on a text without a backslash, `FIND_WORD` matches exactly where the punctuation class changes between neighbours |
| Boundaries.BigWordMatchesFromExact | vim.ts:545 | `FIND_WORD_PLUS` matches exactly where whitespace changes to non-whitespace or back |
| Boundaries.WordMatchesBackslashQuirk | vim.ts:539 | the `\\s`/`\\S` alternatives match a literal backslash pair, so on `\s\S` a class transition goes unreported |
| Boundaries.LastNewlineInRun | vim.ts:551 | the greedy `\s*\n` tail ends on the last newline of the whitespace run, at or after every newline the run reaches |
| Boundaries.ParagraphEnd | vim.ts:551 | a newline starts a match exactly when the whitespace run after it holds another newline, and the match ends on a later newline |
| Boundaries.ParagraphMatchesFrom | vim.ts:551 | each `FIND_PARAGRAPH` match is the first newline at or after the scan position whose following whitespace run holds another newline; the scan resumes after the last newline of that run; no such newline is skipped between matches or after the last |
| Boundaries.SelectWord | vim.ts:541-543 | the word range lies in the buffer, starts at or before the caret and ends after it unless it reaches the end |
| Boundaries.SelectWordPlus | vim.ts:547-549 | the WORD range lies in the buffer, starts at or before the caret and ends after it unless it reaches the end |
| Boundaries.SelectParagraph | vim.ts:553-555 | the paragraph runs from just after a matched newline, or 0, at or before the caret, to just after the next matched newline past it, or the end; no match boundary lies strictly inside |
| Boundaries.RunBetweenBreaks | vim.ts:491-509 | when the boundaries are exactly the class transitions, the break around the caret is the maximal run of the caret's class |
| Boundaries.SelectWordIsClassRun | vim.ts:539-543 | on a text without a backslash, `iw`'s range is the maximal run of characters on the caret's side of the punctuation class |
| Boundaries.SelectWordPlusIsSpaceRun | vim.ts:545-549 | `iW`'s range is the maximal run of whitespace or of non-whitespace containing the caret |
| Selection.SelectLine | vim.ts:531-533 | a newline-free range that starts after a newline or at 0 and ends on a newline or at the end, around every caret >= 1 |
| Selection.SelectLineNL | vim.ts:535-537 | the caret's line together with the newline that ends it: `selectLine`'s range with its end one further on, past the buffer on the last line |
| Selection.SelectLineIsCaretLine | vim.ts:531-533 | on every line but a leading empty one the line selection is the reference line holding the caret |
| Selection.SelectLineInvertedOnLeadingNewline | vim.ts:531-537 | at 0 of a buffer opening with a newline the line selections come out as `[1, 0]` and `[1, 1]` |
| Selection.SelectToNextWord | vim.ts:557-559 | `dw`'s range runs from the caret, stays in the buffer, and past the word holds only spaces |
| Selection.SelectToNextWordPlus | vim.ts:561-563 | `dW`'s range runs from the caret, stays in the buffer, and past the WORD holds only spaces |
| Selection.SelectToWordBound | vim.ts:565-567 | `cw`'s range runs from the caret to the end of its word and is non-empty before the end |
| Selection.SelectToWordBoundPlus | vim.ts:569-571 | `cW`'s range runs from the caret to the end of its WORD and is non-empty before the end |
| Selection.WithSpacesAfter | vim.ts:573-586 | the `a` variants extend the range over exactly the spaces that follow it |
| Selection.SelectQuotesSpec | vim.ts:601-620 | the start is the last quote at or before the caret, else 0; the end is one past the first quote after it, else `length + 1`, exactly when no quote follows |
| Selection.QuotesInRange | vim.ts:601-620 | the quote range contains the caret, spans at least two positions, and ends at most at `length + 1` |
| Selection.InsideOf | vim.ts:521-529 | an empty range passes through; any other loses one position at each end |
| Selection.InsideQuotesIsInterior | vim.ts:601-620 | with quotes on both sides of the caret, `i'` selects exactly the quote-free text between them |
| Selection.InsideBoundsIsInterior | vim.ts:639-683 | with an enclosing pair, `i(` selects its balanced interior, between the opening and closing delimiter |
| Selection.InsideBoundsUnmatched | vim.ts:639-683 | with no enclosing pair, `i(` turns `[pos, 0]` into the inverted `[pos + 1, -1]` |
| Selection.Apply | vim.ts:414-420 | every selector keeps its ends within one position of the buffer, and all but the line, bracket and inside ones are ordered |
| Brackets.ScanBackSpec | vim.ts:650-661 | the backward scan stops at the nearest opener with depth 1 up to the caret, and finds none only when no such opener exists |
| Brackets.ScanFwdSpec | vim.ts:668-679 | the forward scan stops at the nearest closer with depth -1 from the caret, and finds none only when no such closer exists |
| Brackets.SelectBounds | vim.ts:639-683 | the result is exactly `[pos, 0]`, or a range in the buffer around the caret |
| Brackets.SelectBoundsInnermost | vim.ts:639-683 | `[pos, 0]` exactly when no balanced pair encloses the caret; otherwise `[l, r + 1]` for an enclosing balanced pair inside every other one |
| CommandTree.OverlayMonoid | vim.ts:346 | merging records is associative and the empty record is neutral |
| CommandTree.CommandRootSound | vim.ts:143-199 | in `commandTree`, every leaf's merged record has an action; a `readNextChar` node is a leaf with its own action; a digit action comes with its digit |
| CommandTree.VisualRootSound | vim.ts:201-210 | `visualTree` has the same soundness property |
| CommandTree.StandardRootsSound | docs/index.js:90-156 | both trees of both revisions are sound from their roots |
| CommandTree.UndoKey | vim.ts:174 | in both revisions `u` is a leaf that undoes and records no undo state |
| CommandTree.ReplaceKey | docs/index.js:127 | `r` is bound only in the later revision, to a leaf that reads one more key |
| CommandTree.RedoKey | docs/index.js:123-124 | `C-r` is bound only in the later revision, to a leaf that redoes and records no undo state |
| Editor.Init | vim.ts:225-234 | a new editor is in command mode at the root of its revision's tree, with no count, history or anchor |
| Editor.GetCaret | vim.ts:252-261 | outside visual mode the caret is the selection's end; in visual mode it is the end of the selection that is not the anchor |
| Editor.SetCaret | vim.ts:263-273 | the selection comes out ordered; outside visual mode it collapses onto the caret; in visual mode it spans the anchor and the caret; `getCaret` then reads the caret back |
| Editor.SetText | vim.ts:248-250 | the buffer is replaced and the caret and selection stay where they were |
| Editor.SetMode | vim.ts:304-319 | entering visual mode anchors at the caret; leaving it drops the anchor and collapses the selection; the text is untouched |
| Editor.Reset | vim.ts:321-324 | Escape returns to command mode at the command tree's root and keeps the text, count, clipboard and history |
| Editor.Clipboard | vim.ts:396-412 | an empty piece changes nothing; a non-empty one is appended, or replaces the contents on the first write after a key fired |
| Editor.ClipboardAccumulates | vim.ts:396-412 | a command's writes end up on the clipboard joined in order, replacing the old contents exactly when the command may reset it and wrote something |
| Editor.GetSelection | vim.ts:414-428 | a selector's range; otherwise the caret and the motion's target, in order; otherwise `[0, 0]` |
| Editor.Yank | vim.ts:430-444 | a non-empty in-buffer range goes to the clipboard; a cut removes it; the caret goes to the range's start; nothing else changes |
| Actions.ActionDigit | vim.ts:836-850 | a digit extends the count, which keeps its no-leading-zero form; `0` with no count goes to the line start instead |
| Actions.ActionMove | vim.ts:852-856 | the caret goes where the record's motion sends it and nothing else changes |
| Actions.ActionAppend | vim.ts:858-862 | insert mode, one position right, except on the line's newline or at the end |
| Actions.ActionAppendToEnd | vim.ts:864-867 | insert mode at the caret line's end, found without crossing a newline |
| Actions.ActionInsert | vim.ts:869-871 | insert mode with the caret and text unchanged |
| Actions.ActionVisualMode | vim.ts:873-875 | visual mode anchored at the caret with a collapsed selection |
| Actions.ActionUndoLegacy | vim.ts:877-884 | with history, the newest entry is popped and its text and caret restored; with none, nothing changes |
| Actions.ActionUndo | docs/index.js:628-638 | with history, the newest entry is popped and restored, and the current text goes on the redo history; with none, nothing changes; the total history length is kept |
| Actions.ActionRedo | docs/index.js:639-649 | the mirror image of undo, between the redo and undo histories |
| Actions.RedoAfterUndo | docs/index.js:628-649 | `u` then `C-r` restores the text and both histories, with the caret at the undone snapshot's caret |
| Actions.UndoAfterRedo | docs/index.js:628-649 | `C-r` then `u` restores the text and both histories |
| Actions.ActionDeleteRange | vim.ts:886-890 | the selected range is cut to the clipboard, the caret left at its start, and the record's mode entered |
| Actions.DeleteAroundUnmatchedDuplicatesPrefix | vim.ts:639-683 | `da(` with no enclosing pair leaves the text before the caret followed by the whole buffer, clipboard untouched |
| Actions.DeleteInsideUnmatchedCutsToLast | vim.ts:521-529 | `di(` with no enclosing pair keeps the text up to the caret's character and the last character, and cuts what lies between to the clipboard |
| Actions.StepBackIndex | docs/index.js:655-669 | the index `x` and `r` settle on holds a non-newline character exactly when the caret's line is not empty, and is the caret or the one before it |
| Actions.DeleteCharCut | docs/index.js:655-663 | the later `x` removes at most one character, never a newline, at the caret or just before it, and removes nothing exactly on an empty line |
| Actions.DeleteCharLegacyCut | vim.ts:892-904 | the first `x` removes at most one non-newline character at the caret or just before it, and nothing only at the end or on a newline preceded by a newline or the buffer start |
| Actions.DeleteCharAsWrittenAgrees | vim.ts:892-904 | away from caret 0 on a leading line end, each revision's `x` as written is the corrected one |
| Actions.ActionDeleteChar | docs/index.js:655-663 | `x` in either revision, with the behaviour of the two functions above and a mode switch |
| Actions.ReplaceCharAsWritten | docs/index.js:664-673 | away from caret 0 on a leading line end, `r` as written is the corrected one |
| Actions.ActionReplaceChar | docs/index.js:664-673 | the non-newline character at or just before the caret is replaced by the key read; an empty line is left alone |
| Actions.ActionDeleteCurrentSelection | vim.ts:906-915 | visual `d` cuts the half-open `[min, max)` of the selection and leaves the caret at its start |
| Actions.ActionYankRange | vim.ts:917-920 | the selected range is copied, the text kept, the caret moved to the range's start |
| Actions.ActionPasteAfter | vim.ts:922-926 | the clipboard goes in after the caret's character (at the end of the buffer, appended), and the caret moves on by the pasted length: onto the last character pasted, or one past it when it started at the end |
| Actions.ActionPasteBefore | vim.ts:928-932 | the clipboard goes in at the caret, which stays |
| Actions.PasteBeforeRestoresCut | vim.ts:886-932 | `d` of a non-empty range, then `P`, gives back the buffer, with the caret at the range's start |
| Actions.ActionMergeLines | vim.ts:934-940 | `J` removes the newline ending the caret's line, and changes nothing on the last line |
| Actions.ActionInsertLineAfter | vim.ts:942-956 | `o` opens a line below, indented like the caret's, with the caret at the indentation's end |
| Actions.ActionInsertLineBefore | vim.ts:958-970 | `O` opens a line above, indented like the caret's, with the caret at the indentation's end |
| Actions.ActionAlterLineStart | vim.ts:980-993 | the text from the selection's line start to its end is re-indented in place, and the caret goes to that line's old indentation |
| Actions.AlterLineStartOnLine | vim.ts:972-993 | `>>` or `<<` re-indents exactly the caret's whole line |
| Actions.IndentThenDedent | vim.ts:478-489 | dedenting the text a span's indent produced gives the buffer back |
| Actions.DedentUndoesIndent | vim.ts:972-993 | `<<` after `>>` gives back the buffer, on every line but a leading empty one |
| Actions.EnterIndentAsWritten | vim.ts:822-834 | Enter as written fails exactly when the caret is left of its `lineStart`, and otherwise is the corrected Enter |
| Actions.EnterIndentWidth | docs/index.js:584-592 | the indentation carried to the new line is the caret line's indentation, cut off at the caret's column |
| Actions.ActionEnterIndent | docs/index.js:584-592 | Enter inserts a newline and that indentation at the caret, with the caret after it, at the start of the new line's text |
| Actions.TabAsWritten | docs/index.js:593-600 | where the caret is not left of its `lineStart`, Tab as written is the corrected Tab |
| Actions.TabWidth | docs/index.js:593-600 | Tab inserts between one and `TAB_WIDTH` spaces |
| Actions.ColumnInStopIsRemainder | docs/index.js:595 | the column past the last tab stop is the column modulo `TAB_WIDTH` |
| Actions.TabWidthReachesStop | docs/index.js:593-600 | after Tab's spaces, the caret's column, counted from its line's beginning, is a multiple of `TAB_WIDTH` |
| Actions.TabReachesStop | docs/index.js:593-600 | the caret's column in the new text, measured with `lineStart`, is a multiple of `TAB_WIDTH` |
| Actions.ActionTab | docs/index.js:593-600 | Tab inserts `TabWidth` spaces at the caret and puts the caret after them |
| Actions.Fire | vim.ts:365-369 | one action run keeps the tree walk, the count (unless a digit) and the history (unless undo or redo); the later revision keeps the total history length; the selection stays coherent |
| Interpreter.ParseDecimal | vim.ts:351 | `parseInt` is `NaN` exactly when the string does not open with a digit; on a digit string it is that string's value |
| Interpreter.RepeatCount | vim.ts:348-353 | a digit leaf fires once; otherwise the count, or one without a count, capped at `REPEAT_LIMIT` |
| Interpreter.RepeatCountOfCount | docs/index.js:218 | a pending count always fires its command between 1 and `REPEAT_LIMIT` times |
| Interpreter.RunTimes | vim.ts:365-369 | the action run `n` times keeps what one run keeps |
| Interpreter.PushBounded | docs/index.js:286-289 | the pushed entry is the newest, and the history never outgrows the larger of its old length and the limit |
| Interpreter.SaveUndo | docs/index.js:282-291 | only a text change records: the old state goes on the undo history, the redo history is dropped, and undo plus redo stay within `UNDO_LIMIT` (1024) |
| Interpreter.SaveUndoLegacy | vim.ts:375-394 | the current state becomes the newest entry, replacing an entry with the same text and pushing otherwise; the history stays within that revision's `UNDO_LIMIT` of 128; neighbouring entries with different texts stay different |
| Interpreter.OnKeyCurrent | docs/index.js:182-233 | a key is consumed exactly when it cancels, is Enter or Tab in insert mode, is read by a pending `r`, or is known to the tree; other insert-mode keys leave the state alone; a cancel key resets; a key a pending `r` waits for goes to `ReadNextChar`; an unknown key restarts the walk at the mode's root with an empty record; a known key that reaches an inner node or a leaf waiting for one more key only descends, merging the child's record, and fires nothing |
| Interpreter.OnKeyLegacy | vim.ts:275-345 | a key is consumed exactly when it cancels, is outside insert mode, or is Enter; other insert-mode keys leave the state alone; a cancel key resets; an unknown key restarts the walk at the mode's root with an empty record; a known key that reaches an inner node only descends, merging the child's record, and fires nothing |
| Interpreter.InitInv | vim.ts:225-234 | a new editor over a collapsed selection satisfies the key handler's invariant |
| Interpreter.ResetCommandInv | vim.ts:326-332 | restarting the walk at the mode's root keeps the invariant |
| Interpreter.DescendSound | vim.ts:344-347 | a step down the tree keeps the walk sound, and any leaf it reaches carries an action |
| Interpreter.ReadNextCharInv | docs/index.js:199-208 | the key read after `r` keeps the invariant |
| Interpreter.OnKeyCurrentInv | docs/index.js:182-233 | every key press of the later revision keeps the invariant: a coherent selection, a well-formed count, a sound walk, and undo plus redo within the limit |
| Interpreter.OnKeyLegacyInv | vim.ts:275-373 | every key press of the first revision keeps the invariant, with the undo history within its limit and no two neighbouring entries holding the same text |
| Interpreter.OnKeyInv | vim.ts:275-302 | every key press keeps the invariant, in both revisions |
| Interpreter.RunLeafRecords | docs/index.js:217-231 | a leaf of the later revision clears the count, restarts the walk, and records the old state exactly when the text changed |
| Interpreter.RunLeafLegacyRecords | vim.ts:346-372 | a leaf of the first revision clears the count, restarts the walk, and leaves the text from before the command as the newest undo entry |
| Interpreter.LeafKeyCurrent | docs/index.js:209-231 | outside insert mode, a key reaching a leaf runs it and is consumed |
| Interpreter.LeafKeyLegacy | vim.ts:334-372 | outside insert mode, a key reaching a leaf runs it and is consumed |
| Interpreter.UndoKeyCurrent | docs/index.js:628-638 | `u` brings back the newest undo entry's text |
| Interpreter.UndoKeyLegacy | vim.ts:877-884 | `u` pops the newest entry and brings its text and caret back, ending at the command tree's root with no count |
| Interpreter.DescendRedo | docs/index.js:124 | `C-r` reaches its leaf with the redo record, and that record fires redo once |
| Interpreter.RedoKeyCurrent | docs/index.js:209-231 | `C-r` at rest brings back the newest redo entry's text, and leaves the undo and redo histories exactly as redo sets them, since it records nothing itself; the walk ends at the root with no count |
| Interpreter.EditKeyCurrent | docs/index.js:217-231 | an edit command from rest ends at the root with no count, and gains an undo entry holding the old text exactly when it changed the text |
| Interpreter.EditKeyLegacy | vim.ts:346-372 | an edit command from rest ends at the root with no count, and its newest undo entry holds the text from before it |
| Interpreter.UndoAfterEditCurrent | docs/index.js:282-291 | `u` right after a text-changing command brings the old text back |
| Interpreter.UndoAfterEditLegacy | vim.ts:375-394 | `u` right after any command brings the text from before it back |
| Interpreter.UndoAfterEditAndMotionCurrent | docs/index.js:282-291 | a motion between an edit and `u` records nothing, so one `u` undoes the edit |
| Interpreter.RecordOverEditLegacy | vim.ts:375-394 | in the first revision a motion after an edit records the edited text, with the caret the motion started from, above the edit's entry |
| Interpreter.UndoTwiceLegacy | vim.ts:877-884 | two `u` bring back the newest and then the next-newest entry's text and caret |
| Interpreter.InitUndoBound | vim.ts:174 | every editor the constructor makes binds `u` to undo |
| Interpreter.InitReplaceBound | docs/index.js:127 | an editor binds `r` exactly in the later revision |
| Interpreter.InitRedoBound | docs/index.js:124 | an editor binds `C-r` exactly in the later revision, and there to redo |
| Interpreter.PressReplace | docs/index.js:209-217 | `r` only moves the walk to its leaf and waits |
| Interpreter.ReadReplacement | docs/index.js:199-208 | the key after `r` goes to the replace action, which runs once; the count is not cleared |
| Interpreter.ReplaceWithKey | docs/index.js:664-673 | the replace action with the key read replaces one character by that key, and leaves an empty line alone |
| Interpreter.ReplaceKeepsCount | docs/index.js:199-208 | `r` and a key replace one character once whatever count was typed, and the count stays pending |

## Left out

- The DOM and the keyboard wiring. The model covers:
  - the text area, as a record of its value and selection
  - the key, as a string
  - whether a key was consumed, as a boolean

  Left out:
  - the `keydown` listener and Ctrl-prefixing (vim.ts:235-241)
  - `preventDefault`/`stopPropagation`
  - page bootstrap
  - `RESERVED_KEYS`
- The browser clamps the selection in `setSelectionRange`; the model does not, because that is browser behaviour. The host stores whatever the editor last set.
- `navigator.clipboard.writeText` and `console.log`: foreign, fire-and-forget side effects. Only the in-process clipboard string is modelled.
- `vim.sequence`, the typed-key string: only `console.log` reads it.
- Ordinary typing in insert mode. The browser performs it on a key the handler does not consume, so a passed-through key leaves the state as it was.
- `parseInt` is modelled only on the strings a count can be (digits, or empty). Its whitespace and sign handling is not reachable.
- Key lookup on the trees is a map lookup, so JavaScript prototype keys such as `constructor` are not looked up.
- Repeat-last-change `.`, and visual `y`, `p`, `>` and `<`, are left out because they are unimplemented in the code.
- In the first revision Tab in insert mode reaches the text area and is not modelled beyond that.
- An action the tree lacks would be a `TypeError`. The model runs nothing instead, and `CommandTree.StandardRootsSound` shows every reachable leaf has an action.
- The trees are module constants in the source. Here they are carried in the state, set by `Editor.Init` and never changed, so the invariant can speak of them.
- The regular expressions are modelled by scanners. The scanners follow the order in which `exec` finds matches, including the backslash alternatives of `FIND_WORD`. The full Unicode `\s` set is not reduced to an abstract predicate: ECMAScript's WhiteSpace and LineTerminator code points are listed.
- Interpreter.UndoTwiceLegacy: in the first revision, an edit then a motion then two `u` is stated in three lemmas, not one end-to-end lemma:
  - `EditKeyLegacy` (the edit's entry)
  - `RecordOverEditLegacy` (the motion's entry above it)
  - `UndoTwiceLegacy` (what two `u` restore)
- Motion.MoveToEndWord: the landing place is stated only on a text without a backslash. On a text with one, the `\\s`/`\\S` alternatives of `FIND_WORD` can hide a class change (`Boundaries.WordMatchesBackslashQuirk`), and the contract then gives only the bounds and the forward move.
- Motion.MoveToPreviousWord: the landing place is stated only on a text without a backslash, for the same reason as `Motion.MoveToEndWord`. On other texts the contract gives only the bounds and the backward move.
- Boundaries.WordMatchesFromExact and Boundaries.SelectWordIsClassRun: stated only on a text without a backslash, for the same reason.
- Actions.ActionTab: its contract gives the text and caret. That the caret then stands on a tab stop is a separate lemma, `Actions.TabReachesStop`.
- Actions.ActionAlterLineStart: its contract covers only a selection whose end lies between its start's line start and the buffer's end. An inverted selection, such as the line selection of a leading empty line, is not described beyond that. `Actions.DedentUndoesIndent` excludes it.
- Interpreter.OnKeyCurrent / Interpreter.OnKeyLegacy: the key handlers fire the corrected `x`, `s`, `r`, Enter and Tab of the Findings table. At caret 0 of a buffer that opens with a newline they therefore differ from the code: `x`, `s` and `r` leave the buffer alone instead of duplicating it, Enter inserts a bare newline instead of throwing `RangeError`, and Tab inserts four spaces instead of five. The as-written actions are modelled beside them and proved equal everywhere else.
- Positions count Unicode scalar values, because a Dafny `string` is a sequence of them. The code's positions count UTF-16 code units. On text outside the Basic Multilingual Plane the two differ: a caret between the two halves of a surrogate pair, and an `x` that deletes half of one, cannot be represented.
- Where the code departs from what it evidently intends, the code is followed:
  - Negative and out-of-range indices go through JavaScript's `slice`, `charAt`, `lastIndexOf` and `indexOf` as they behave. No precondition excludes them. The key handlers' use of the corrected actions of the Findings table is the one exception, stated above.
  - Unmatched `da(` hands the inverted `[pos, 0]` to `yank`. That cut keeps the prefix twice: the text before the caret comes back followed by the whole buffer (`Actions.DeleteAroundUnmatchedDuplicatesPrefix`).
  - Unmatched `di(` hands the inverted `[pos + 1, -1]` to `yank`. That cuts everything after the caret's character except the last character (`Actions.DeleteInsideUnmatchedCutsToLast`); on "hello world" at caret 2 the text becomes "held". Both are modelled as written by `Editor.Yank`.
  - The first revision's `u` restores the newest entry. After an edit and a motion that entry is the motion's, so the first `u` restores the text the motion saw, which is unchanged, and moves the caret back to where the motion started. The second `u` takes the edit back.
  - `r` does not clear a pending count; the count applies to the next command (`Interpreter.ReplaceKeepsCount`).
  - In the first revision an unknown key is consumed outside insert mode (`Interpreter.OnKeyLegacy`).

## Findings

| source | as written | input that shows it | evidently intended | confidence | as-written member | corrected member |
|---|---|---|---|---|---|---|
| docs/index.js:655-663 | at a line end `x` steps back to `caret - 1` even at caret 0, and `slice(0, -1)` counts from the end | buffer `"\nab"`, caret 0, `x` gives `"\na\nab"` | an empty first line is left alone | not executed | Actions.DeleteCharDuplicatesBuffer | Actions.ActionDeleteChar |
| vim.ts:892-904 | on a newline with no newline before it `x` cuts `[caret - 1, caret)`, which at caret 0 is `slice(0, -1) + slice(0)` | buffer `"\nab"`, caret 0, `x` gives `"\na\nab"` | nothing is removed at the buffer's start | not executed | Actions.DeleteCharDuplicatesBuffer | Actions.ActionDeleteChar |
| docs/index.js:664-673 | `r` steps back like `x`, and splices `slice(0, -1) + key + slice(0)` at caret 0 | buffer `"\nab"`, caret 0, `r` then `z` gives `"\naz\nab"` | an empty first line is left alone | not executed | Actions.ReplaceCharDuplicatesBuffer | Actions.ActionReplaceChar |
| vim.ts:822-834 | Enter repeats a space `min(caret - lineStart, indent)` times, negative when `lineStart` answers 1 at caret 0 | buffer `"\nab"`, caret 0, Enter in insert mode throws `RangeError` | a bare newline is inserted | not executed | Actions.EnterIndentThrowsOnLeadingEmptyLine | Actions.ActionEnterIndent |
| docs/index.js:593-600 | Tab's column `caret - lineStart` is -1 at caret 0 of a buffer opening with a newline, and `TAB_WIDTH - (-1 % TAB_WIDTH)` is 5 | buffer `"\nab"`, caret 0, Tab in insert mode inserts five spaces | four spaces, to the first tab stop | not executed | Actions.TabOverflowsOnLeadingEmptyLine | Actions.ActionTab |
