# vibe-text-editor core in Dafny

A model of the editable-text core of vibe-text-editor, a terminal text editor
written in TypeScript. It covers five parts:

- **TextUtils**: the display-width oracle. It gives the cell width of each code point and converts between character indices and display columns. It also truncates text to a width and pads it.
- **TextBuffer**: the line buffer. It inserts and deletes text at a row/column position (a line break splits a row; deleting at a row's end joins the next row) and converts to and from one '\n'-joined string.
- **Cursor** and **Viewport**: the cursor keeps three coordinates at once (row, character column, display column). The viewport scrolls so the cursor stays visible, clips lines to the window and maps screen positions to buffer positions.
- **Commands** and **UndoRedo**: the reversible insert, delete and line-break commands, and the history. The history has two stacks, keeps at most 1000 undo entries and merges two keystrokes that arrive within one second.
- **Editor**: what each key does in the editable mode. This covers the motions (with a sticky display column and wrapping across rows), the edits routed through the history, undo and redo re-seating the cursor, and the printable-character filter.

Everything is a value. Each operation takes the state and returns the next
one, and each command returns the buffer it edited alongside the updated
command. The clock the history reads becomes a `now` parameter.

Lines are sequences of code points. The source measures positions in UTF-16
units but walks text by code point. The two agree only on text inside the
Basic Multilingual Plane, so the model assumes such text.

Where the prose description of the editor and its code differ, the model
follows the code:

- **Column lookup truncates.** `getCharIndexFromDisplayWidth` does not round to the nearest boundary. It gives the longest prefix whose width fits (`CharIndexFromDisplayWidth`, `WideCharacterTruncates`). For two-cell characters the two readings give the same column, because the only interior column is equally far from both edges.
- **A backspace and a forward delete can merge.** The description says backspace chains and forward-delete chains never merge with each other. The code merges a delete at the very column a previous delete used, and that includes a backspace followed by a forward delete (`Commands.BackspaceThenForwardDeleteMerge`). Undo is still exact.
- **Redo of an insert reports one column past its anchor**, whatever the length of the insert. After a merged two-character insert is redone, the cursor lands between the two characters (`Editor.RedoOfTypedPairLandsBetween`).
- **Undo and redo use the reported row unclamped.** The editor clamps the cursor row into the buffer and then overwrites the clamped cursor with one built from the row as reported. The model therefore uses the reported row, and `Editor.UndoKeepsInv` and `Editor.RedoKeepsInv` keep the cursor invariant only when that row exists.
- **The visible slice can be one cell wider than the window.** This happens when a wide character straddles the window's left edge (`Viewport.SliceMayOverhang`).

## Model

| member | source | states |
|---|---|---|
| TextUtils.CharWidth | src/utils/TextUtils.ts:7-64 | A code point is 0 cells wide exactly when it is a control character (below 0x20), 2 exactly when it lies in one of the eleven wide ranges of the table, and 1 otherwise. |
| TextUtils.GetCharWidth | src/utils/TextUtils.ts:7-64 | The width of a string's first code point, 0 for the empty string, never more than 2. |
| TextUtils.GetStringWidth | src/utils/TextUtils.ts:67-75 | The loop over the code points adds up exactly the string width, the sum of every code point's `getCharWidth`, and that width is at most twice the length. |
| TextUtils.StringWidthAppend | src/utils/TextUtils.ts:67-75 | The string width adds up over concatenation. |
| TextUtils.StringWidthBounds | src/utils/TextUtils.ts:67-75 | A string is at most twice as wide as it is long, and at least as wide when it has no control characters. |
| TextUtils.PrefixWidthMonotone | src/utils/TextUtils.ts:67-75 | Longer prefixes are never narrower, and strictly wider when the text has no zero-width code point. |
| TextUtils.CharIndexFromDisplayWidth | src/utils/TextUtils.ts:78-94 | The index is 0 for empty text or a non-positive target. Otherwise the prefix up to the index fits the target and one more character would not. |
| TextUtils.CharIndexIsLongestFit | src/utils/TextUtils.ts:78-94 | Every prefix that fits the target ends at or before the returned index. |
| TextUtils.CharIndexMonotone | src/utils/TextUtils.ts:78-94 | A larger target never gives a smaller index. |
| TextUtils.DisplayWidthFromCharIndex | src/utils/TextUtils.ts:97-110 | The result is the width of the prefix up to the index, with the index clamped to [0, length], so it never exceeds the width of the whole text. |
| TextUtils.DisplayWidthMonotone | src/utils/TextUtils.ts:97-110 | A larger index never gives a smaller display column. |
| TextUtils.IndexWidthRoundTrip | src/utils/TextUtils.ts:78-110 | On text without zero-width code points, index to column to index is the identity. |
| TextUtils.RoundTripNeedsVisibleText | src/utils/TextUtils.ts:78-110 | With a tab the round trip fails: in "a\t" index 1 comes back as 2. |
| TextUtils.WideCharacterTruncates | src/utils/TextUtils.ts:78-94 | A column inside a wide character resolves to the character's start ("a漢b", column 2 gives index 1; column 3 gives index 2). |
| TextUtils.TruncateByDisplayWidth | src/utils/TextUtils.ts:113-129 | The result is the prefix up to the fitting index, and its width is at most the bound (empty for a non-positive bound). |
| TextUtils.Repeat | src/utils/TextUtils.ts:137 | n copies of s: the length and the width are n times those of s. |
| TextUtils.RepeatCycles | src/utils/TextUtils.ts:137 | Position k of n copies of a non-empty s holds the character of s at k modulo the length of s. |
| TextUtils.PadRight | src/utils/TextUtils.ts:132-138 | Text already wide enough comes back unchanged. Otherwise the result is the text followed by (missing width) copies of the pad string, so its width is the text's plus that many pad widths. |
| TextUtils.PadLeft | src/utils/TextUtils.ts:141-147 | As PadRight, with the (missing width) copies of the pad string before the text. |
| TextUtils.PadCenter | src/utils/TextUtils.ts:150-159 | Text already wide enough comes back unchanged. Otherwise the result is floor(missing/2) copies of the pad string, the text, then the remaining copies: the text starts after floor(missing/2) pad strings, and the width is the text's plus the missing width's worth of pad widths. |
| TextUtils.PadWithCharFills | src/utils/TextUtils.ts:132-159 | With a pad string of one character, every cell the padding adds is that character and the text sits unchanged between the pads. |
| TextUtils.PadWithSpacesReachesWidth | src/utils/TextUtils.ts:132-159 | Padding with a space gives exactly the requested width, or the text's own width when that is larger. |
| Cursor.SetPosition | src/editor/Cursor.ts:22-24 | Row and column are kept verbatim; a missing display column becomes 0. |
| Cursor.SetPositionWithLine | src/editor/Cursor.ts:27-30 | The display column is the width of the line before the column, or the whole line's width past its end. |
| Cursor.MoveUp | src/editor/Cursor.ts:32-36 | One row up, except at row 0, where nothing changes; the columns are kept. |
| Cursor.MoveDown | src/editor/Cursor.ts:38-40 | One row down, unbounded; the columns are kept. |
| Cursor.MoveDownThenUp | src/editor/Cursor.ts:32-40 | Moving down then up is the identity. |
| Cursor.MoveLeft | src/editor/Cursor.ts:42-49 | One column left unless at column 0. The display column follows the line only when a non-empty line is given; otherwise it is kept. With a line, the display column is the width of the line up to the new column, clamped at the line's end. |
| Cursor.MoveRight | src/editor/Cursor.ts:51-56 | Always one column right. When a non-empty line is given the display column is the width of the line up to the new column, clamped at its end; otherwise it is kept. |
| Cursor.MoveLeftRightInverse | src/editor/Cursor.ts:42-56 | On a consistent cursor in a non-empty line, left then right and right then left are both the identity. |
| Cursor.MoveToLineStart | src/editor/Cursor.ts:58-61 | Column and display column become 0, which is consistent with every line. |
| Cursor.MoveToLineEnd | src/editor/Cursor.ts:63-68 | The column becomes the given length; the display column becomes the line's width only when a non-empty line is given. |
| Cursor.ConstrainToLine | src/editor/Cursor.ts:76-83 | A column within the line is untouched; a column past it is pulled back to the line length, and the display column becomes the full line width when a non-empty line is given. |
| Cursor.ConstrainToBuffer | src/editor/Cursor.ts:86-93 | A row past the end is pulled back to max(0, rows-1); any other row is untouched. |
| Cursor.ConstrainIdempotent | src/editor/Cursor.ts:76-93 | Clamping twice is the same as clamping once. |
| TextBuffer.Split | src/editor/TextBuffer.ts:24 | Splitting on '\n' gives at least one piece, and no piece contains a line break. |
| TextBuffer.JoinSplit | src/editor/TextBuffer.ts:123-125 | Joining the split pieces with '\n' gives the original string back. |
| TextBuffer.SplitJoin | src/editor/TextBuffer.ts:123-125 | Splitting the '\n'-joined lines of a non-empty break-free list gives the list back. |
| TextBuffer.LoadContent | src/editor/TextBuffer.ts:18-28 | Loading gives a well-formed, unmodified buffer whose content is exactly the loaded string. |
| TextBuffer.ContentRoundTrip | src/editor/TextBuffer.ts:23-28 | Reloading the saved content of a well-formed buffer gives the same lines. |
| TextBuffer.GetLine | src/editor/TextBuffer.ts:118-120 | An existing row's line is returned; any other row reads as ''. |
| TextBuffer.ResetModified | src/editor/TextBuffer.ts:138-140 | Clears the flag and leaves the lines alone. |
| TextBuffer.InsertText | src/editor/TextBuffer.ts:46-72 | Rows before the target are kept, padded with '' up to it. "\n" splits the target row at the clamped column and shifts later rows down by one. Other text is spliced in at the clamped column. |
| TextBuffer.InsertPreservesWellFormed | src/editor/TextBuffer.ts:46-72 | Inserting "\n" or break-free text keeps the buffer well-formed. |
| TextBuffer.DeleteText | src/editor/TextBuffer.ts:75-99 | A row past the end changes nothing. A length-1 delete at the end of a row that has a successor joins the next row. Otherwise the range from the clamped column, clamped to the row end, is removed and other rows are kept. |
| TextBuffer.DeletePreservesWellFormed | src/editor/TextBuffer.ts:75-99 | Deleting keeps the buffer well-formed. |
| TextBuffer.GetText | src/editor/TextBuffer.ts:102-115 | The text reads as "\n" in the join case, as '' past the last row, and otherwise as the clamped range the matching delete would remove. |
| TextBuffer.GetTextMirrorsDelete | src/editor/TextBuffer.ts:75-115 | On a break-free row, the read is "\n" exactly in the join case. Otherwise the row before the delete is the row after it with the read text put back. |
| TextBuffer.DeleteOneInRow | src/editor/TextBuffer.ts:75-115 | A length-1 delete inside a row removes the character under the column, and `getText` reads exactly that character. |
| TextBuffer.JoinWithNext | src/editor/TextBuffer.ts:75-115 | A length-1 delete at the end of a row that has a successor joins the two rows, and `getText` reads it as "\n". |
| TextBuffer.InsertInRow | src/editor/TextBuffer.ts:46-68 | Break-free text inserted at a column within an existing row is spliced into that row alone. |
| TextBuffer.InsertThenDeleteRestores | src/editor/TextBuffer.ts:46-99 | For any text at an in-range position, deleting as many characters as were inserted restores the lines. |
| TextBuffer.DeleteThenInsertRestores | src/editor/TextBuffer.ts:75-115 | Re-inserting what was read before a delete restores the lines. |
| Viewport.NewViewport | src/editor/Viewport.ts:20-23 | A new viewport starts at the origin with the given size. |
| Viewport.SetSize | src/editor/Viewport.ts:26-29 | Resizing keeps the scroll offsets. |
| Viewport.ScrollUp | src/editor/Viewport.ts:42-46 | One row up, never below 0. |
| Viewport.ScrollDown | src/editor/Viewport.ts:48-52 | One row down while below maxRows-1. |
| Viewport.ScrollLeft | src/editor/Viewport.ts:55-59 | One column left, never below 0. |
| Viewport.ScrollRight | src/editor/Viewport.ts:61-65 | One column right while below maxCols-1. |
| Viewport.ScrollInverse | src/editor/Viewport.ts:42-65 | A scroll down or right that moved is undone by a scroll up or left. |
| Viewport.EnsureCursorVisible | src/editor/Viewport.ts:68-93 | The start row stays within [0, max(0, lines-height)]. An in-buffer cursor row and the cursor's display column end up inside the window. Offsets that already showed the cursor are left unchanged. A cursor left of the window makes its display column the start column; one right of it makes the window end just after it. |
| Viewport.EnsureVisibleScrollsMinimally | src/editor/Viewport.ts:68-93 | Among all admissible start rows showing the cursor, the chosen one is closest to the old start row. |
| Viewport.EnsureVisibleScrollsColumnMinimally | src/editor/Viewport.ts:80-91 | Among all start columns whose window shows the cursor's display column, the chosen one is closest to the old start column. |
| Viewport.EnsureVisibleIdempotent | src/editor/Viewport.ts:68-93 | Making the cursor visible a second time changes nothing. |
| Viewport.VisibleSlice | src/editor/Viewport.ts:101-107 | The shown part sits between the two fitting indices, and the line is its prefix, the part and its suffix. It is at most one cell wider than the window, and no wider at column 0. |
| Viewport.SliceMayOverhang | src/editor/Viewport.ts:101-107 | "漢a" seen from column 1 through a one-column window shows "漢", which is 2 cells wide. |
| Viewport.VisibleLinesShape | src/editor/Viewport.ts:96-117 | Exactly `height` rows: the clipped buffer rows of the band, then '' past the buffer end; each at most one cell wider than the window. |
| Viewport.ScreenToBufferPosition | src/editor/Viewport.ts:120-131 | The point is offset by the window origin, and its column is `getCharIndexFromDisplayWidth` of the row at that display column: the longest prefix that fits. |
| Viewport.BufferToScreenPosition | src/editor/Viewport.ts:134-139 | Subtracts the window origin. |
| Viewport.ScreenRoundTrip | src/editor/Viewport.ts:120-139 | Screen to buffer to screen is the identity. |
| Viewport.BufferRoundTrip | src/editor/Viewport.ts:120-139 | Buffer to screen to buffer gives back a consistent cursor on a row without zero-width code points. |
| Commands.Execute | src/commands/InsertTextCommand.ts:14-18 | Execute does nothing when the command has already run. An insert inserts its text. A delete removes its snapshot only when the buffer still reads it there, and otherwise stays unexecuted. |
| Commands.Undo | src/commands/InsertTextCommand.ts:20-24 | Undo does nothing unless the command has run. An insert is undone by deleting as many characters as it inserted; a delete by re-inserting its snapshot. |
| Commands.Redo | src/commands/InsertTextCommand.ts:26-28 | Redo is execute. |
| Commands.ExecuteUndoIdempotent | src/commands/DeleteTextCommand.ts:14-28 | A second execute, or a second undo, changes nothing. |
| Commands.ExecuteThenUndoRestores | src/commands/InsertLineCommand.ts:13-23 | Execute then undo restores the lines and the unexecuted command, for an in-range anchor and a matching delete snapshot. |
| Commands.UndoThenRedoRestores | src/commands/DeleteTextCommand.ts:14-32 | After execute, undo then redo restores both the lines and the command. |
| Commands.CanMerge | src/commands/InsertTextCommand.ts:30-47 | Two inserts merge exactly when the second is at the end of the first and both are single non-break characters. Two deletes merge exactly when the second is one column before (backspace) or at (forward delete) the first, under the same single-character conditions. Nothing else merges. |
| Commands.Merge | src/commands/DeleteTextCommand.ts:54-68 | An insert appends the other's text. A backspace merge prepends and takes the other's anchor. A forward-delete merge appends. Anything that cannot merge is unchanged. |
| Commands.MergedNeverMergesAgain | src/commands/InsertTextCommand.ts:30-55 | A merged command has a two-character payload and never merges again. |
| Commands.BackspaceThenForwardDeleteMerge | src/commands/DeleteTextCommand.ts:34-52 | A delete at the same column as the previous one merges, including a forward delete after a backspace. |
| Commands.GetCursorPosition | src/commands/InsertLineCommand.ts:38-44 | The reported position is the anchor, which a backspace merge has moved to the earlier column. |
| Commands.GetType | src/commands/InsertTextCommand.ts:65-67 | The type is "insert", "delete" or "newline", one to one with the command kind. |
| UndoRedo.NewManager | src/commands/EditCommand.ts:15-20 | The history starts with nothing to undo or redo. |
| UndoRedo.AddToUndoStack | src/commands/EditCommand.ts:66-87 | The command merges into the top entry when that entry can take it within 1000 ms, and the depth is unchanged. Otherwise it is pushed and the oldest entry is dropped past 1000. The clock is stamped on both paths, and the depth never exceeds 1000. |
| UndoRedo.PushAtCapacityDropsOldest | src/commands/EditCommand.ts:80-86 | A push onto a full stack keeps 1000 entries and drops exactly the oldest one. |
| UndoRedo.ExecuteCommand | src/commands/EditCommand.ts:22-26 | The edit is applied and recorded, and the redo stack is emptied even when the command merged. |
| UndoRedo.Undo | src/commands/EditCommand.ts:28-34 | With an empty stack nothing changes and nothing is reported. Otherwise the top entry is undone, moved to the redo stack, and its anchor reported. |
| UndoRedo.RedoPosition | src/commands/EditCommand.ts:43-47 | An insert reports one column and one cell past its anchor; other kinds report the anchor. |
| UndoRedo.Redo | src/commands/EditCommand.ts:36-48 | With an empty stack nothing changes and nothing is reported. Otherwise the entry is re-executed and moved back to the undo stack. |
| UndoRedo.UndoThenRedoRestoresSizes | src/commands/EditCommand.ts:28-48 | Undo then redo restores both stack sizes. |
| UndoRedo.RedoAfterEditIsEmpty | src/commands/EditCommand.ts:22-37 | After any new edit there is nothing to redo. |
| UndoRedo.TypedPairUndoesAsOne | src/commands/EditCommand.ts:66-78 | Two adjacent keystrokes within the window become one entry, and one undo removes both. |
| UndoRedo.BackspacePairUndoesAsOne | src/commands/DeleteTextCommand.ts:54-68 | Two backspaces within the window become one entry anchored at the second one's column, and one undo puts both characters back. |
| UndoRedo.ExecuteCommandKeepsHistoryOk | src/commands/EditCommand.ts:66-87 | Recording a break-free or single-break command keeps every payload in the history well-formed. |
| UndoRedo.UndoKeepsHistoryOk | src/commands/EditCommand.ts:28-34 | Undo moves a command to the redo stack with its payload unchanged, so every payload stays well-formed. |
| UndoRedo.RedoKeepsHistoryOk | src/commands/EditCommand.ts:36-48 | Redo moves a command back to the undo stack with its payload unchanged, so every payload stays well-formed. |
| UndoRedo.UndoKeepsWellFormed | src/commands/EditCommand.ts:28-34 | With well-formed payloads, undo keeps a well-formed buffer well-formed. |
| UndoRedo.RedoKeepsWellFormed | src/commands/EditCommand.ts:36-48 | With well-formed payloads, redo keeps a well-formed buffer well-formed. |
| UndoRedo.UndoRetractsPush | src/commands/EditCommand.ts:22-34 | An undo right after a pushed (not merged) command restores the undo stack, applies that command's undo and reports its anchor. |
| Editor.StickyColumnUnique | src/editor/Editor.ts:264-268 | The column a vertical move lands on is the unique longest prefix fitting the remembered display column. |
| Editor.MoveCursorUp | src/editor/Editor.ts:256-272 | Up one row onto the sticky column of the row above. Nothing happens on row 0. The cursor stays consistent. |
| Editor.MoveCursorDown | src/editor/Editor.ts:274-290 | Down one row onto the sticky column, unless on the last row. The cursor stays consistent. |
| Editor.DownThenUpReturns | src/editor/Editor.ts:256-290 | Down then up returns to the row and never lands right of the starting column. |
| Editor.MoveCursorLeft | src/editor/Editor.ts:292-304 | One column left, or at column 0 to the end of the previous row. The cursor stays consistent. |
| Editor.MoveCursorRight | src/editor/Editor.ts:306-317 | One column right, or at a row end to the start of the next row. The cursor stays consistent. |
| Editor.LeftRightInverse | src/editor/Editor.ts:292-317 | Left then right and right then left are the identity wherever they move, across rows included. |
| Editor.MoveCursorToLineStart | src/editor/Editor.ts:319-321 | The cursor goes to column 0 of its row. |
| Editor.MoveCursorToLineEnd | src/editor/Editor.ts:323-327 | The cursor goes past the last character of its row, consistently. |
| Editor.PageUp | src/editor/Editor.ts:329-336 | Up by the window height, not above row 0, keeping the column where the row allows. |
| Editor.PageDown | src/editor/Editor.ts:338-345 | Down by the window height, not past the last row, keeping the column where the row allows. |
| Editor.InsertText | src/editor/Editor.ts:348-366 | The text is spliced in at the cursor, and the cursor ends after it. The result can be undone and cannot be redone. |
| Editor.Backspace | src/editor/Editor.ts:368-391 | At the very start of the buffer nothing happens. Anywhere else the edit is recorded, so it can be undone and nothing can be redone. |
| Editor.BackspaceInsideRow | src/editor/Editor.ts:371-380 | Inside a row, the character before the cursor is removed, the cursor steps back one column, and it stays consistent. |
| Editor.BackspaceJoinsRows | src/editor/Editor.ts:381-390 | At column 0 of a later row, the row joins the previous one and the cursor lands at the join point. |
| Editor.Delete | src/editor/Editor.ts:393-413 | Inside a row, the character under the cursor is removed. At a row end the next row is joined on. The cursor stays put, and at the very end nothing happens. |
| Editor.InsertNewline | src/editor/Editor.ts:415-422 | The row is split at the cursor, and the cursor goes to the start of the new row. |
| Editor.Reseat | src/editor/Editor.ts:431-440 | The reported row is kept, the column is clamped to the row, and the display column is recomputed. |
| Editor.Undo | src/editor/Editor.ts:425-446 | With nothing to undo nothing changes. Otherwise the history's undo is applied and the cursor is re-seated at the reported position: same row, column clamped to the row length, display column recomputed. |
| Editor.Redo | src/editor/Editor.ts:454-475 | With nothing to redo nothing changes. Otherwise the history's redo is applied and the cursor is re-seated at the reported position: same row, column clamped to the row length, display column recomputed. |
| Editor.PrintableIsOneCharacter | src/editor/Editor.ts:245-248 | A key that passes the filter is one character and not a line break. |
| Editor.Update | src/editor/Editor.ts:128-131 | After the update the cursor is inside the window. |
| Editor.HandleEditableKey | src/editor/Editor.ts:195-253 | After the key's intent the window is scrolled so the cursor shows. |
| Editor.HandleEditableKeyKeepsInv | src/editor/Editor.ts:195-253 | Every editable key other than undo and redo keeps the invariant: a well-formed buffer, a consistent cursor and well-formed history payloads. Afterwards the cursor row is in the window. |
| Editor.UndoKeepsInv | src/editor/Editor.ts:425-446 | Undo keeps the buffer and history well-formed, and keeps the cursor consistent when the reported row exists. |
| Editor.RedoKeepsInv | src/editor/Editor.ts:454-475 | Redo keeps the buffer and history well-formed, and keeps the cursor consistent when the reported row exists. |
| Editor.InsertTextKeepsInv | src/editor/Editor.ts:348-366 | Typing a printable character keeps the invariant. |
| Editor.BackspaceKeepsInv | src/editor/Editor.ts:368-391 | Backspace keeps the invariant on both of its paths. |
| Editor.DeleteKeepsInv | src/editor/Editor.ts:393-413 | A forward delete keeps the invariant on both of its paths. |
| Editor.InsertNewlineKeepsInv | src/editor/Editor.ts:415-422 | Enter keeps the invariant. |
| Editor.MotionsKeepInv | src/editor/Editor.ts:256-345 | Every motion leaves the buffer and history alone and keeps the cursor consistent. |
| Editor.DispatchKeepsInv | src/editor/Editor.ts:195-253 | Every editable key other than undo and redo keeps the invariant before the screen update. |
| Editor.TypeThenUndoRestores | src/editor/Editor.ts:425-446 | A keystroke after a pause, undone, restores the lines, the cursor and the undo stack. |
| Editor.NewlineThenUndoRestores | src/editor/Editor.ts:415-446 | Enter after a pause, undone, restores the lines, the cursor and the undo stack. |
| Editor.DeleteThenUndoRestores | src/editor/Editor.ts:425-446 | A forward delete after a pause, undone, restores the lines, the cursor and the undo stack. |
| Editor.BackspaceThenUndoLandsBefore | src/editor/Editor.ts:425-446 | A backspace after a pause, undone, restores the lines, but the cursor lands one column left of where it was. |
| Editor.EnterAtRowEnd | src/editor/Editor.ts:415-422 | Enter at the end of "ab" in ["ab","cd"] gives ["ab","","cd"] with the cursor at (1,0). |
| Editor.BackspaceAtRowStart | src/editor/Editor.ts:381-390 | Backspace at the start of "cd" in ["ab","cd"] gives ["abcd"] with the cursor at (0,2). |
| Editor.RedoOfTypedPairLandsBetween | src/editor/Editor.ts:454-475 | Typing "a" then "b" quickly, undoing and redoing leaves the cursor between "a" and "b". |

## Left out

- Terminal I/O, the screen, the status messages, file loading and saving, debugging output, the command-line entry point, the start/exit lifecycle and the read-only key mode are outside the editable-text core.
- The width cache in `getCharWidth` only speeds up a pure function, and `getStringInfo` is a debugging summary.
- `maxLineLength` and `updateMaxLineLength` form a sampled statistic that nothing in the core reads.
- `Cursor.moveTo`, `getPosition`, `Viewport.getInfo`, `getScrollPosition`, `isModified` and `getDebugInfo` become plain field reads or assignments in a value model.
- `Date.now()` becomes the `now` argument of the edit operations.
- Code points outside the Basic Multilingual Plane are not modelled. They take two UTF-16 units in the source's column arithmetic but one step in its width loops.
- The negative-row branch of `constrainToBuffer` cannot arise, because rows are natural numbers.
- Editor.InsertText: the contract describes text other than "\n". The key handler only passes one printable character, so it never inserts a line break through this path.
- Editor.UndoKeepsInv: the cursor invariant is stated only when the reported row exists. The source does not clamp the row it finally uses, and whether the history can report a missing row depends on the whole edit sequence, which is not modelled.
- Editor.RedoKeepsInv: the cursor invariant is stated only when the reported row exists, for the same reason as for undo.
- The merge window and the undo depth are the source's constants (1000 ms, 1000 entries). Time is an unbounded integer, so clock wrap-around is not modelled.
