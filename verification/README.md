# kilo editor core in Dafny

This project models the editing core of `kilo.c`, a single-file terminal text
editor, and proves properties of that model. The core covers:

- **Rows.** A row holds its raw bytes (`chars`) and a tab-expanded copy (`render`).
  `editorUpdateRow` rebuilds `render`, and `editorRowCxToRx` maps a byte index to a
  render column (tab stop 8).
- **Row array.** `editorInsertRow`, `editorAppendRow` and `editorDelRow` splice
  rows. `editorRowInsertChar`, `editorRowDelChar` and `editorRowAppendString` edit
  bytes inside a row.
- **Editing and movement.** `editorInsertChar`, `editorInsertNewline` and
  `editorDelChar` edit at the cursor. `editorMoveCursor`, the key dispatch of
  `editorProcessKeypress` (including the Page Up / Page Down loop) and the viewport
  ratchet of `editorScroll` move it.
- **Serialisation.** `editorRowsToString` ends every row, the last one included, with a newline. It is
  paired with the line splitting and end-of-line stripping of `editorOpen`.
- **Key decoder.** `editorReadKey` turns input bytes into keys. It recognises the
  ECMA-48 control sequences `ESC [ A`..`D` and `ESC [ 3~`, `5~`, `6~`.
- **Frame.** `abAppend` and `editorDrawRows` build the frame, with the
  right-justify loop of `editorDrawStatusBar`, the message bar and the
  cursor-placement sequence of `editorRefreshScreen`.
- **Prompt.** `editorPrompt` edits a line-input buffer.

Modules, one per file:

- `Wrappers`: `Option`.
- `Bytes`: bytes, the signed `char` view, spaces.
- `Keys`: key codes and `ReadKey`.
- `Tabs`: `Render` and `RenderCol`, the mathematics of tab expansion.
- `Rows`: the `Row` value, the `UpdateRow` and `RowCxToRx` loops, and byte and
  row splices.
- `Text`: `Serialize` and its inverse `Load`.
- `Editing`: a value `State` of the editor, with one function per operation that
  changes it.
- `Editor`: the global `E` as a class whose methods update its fields. Each method
  promises the new state that the matching `Editing` function describes.
- `Frame`: the append buffer and the drawing methods.
- `Prompt`: the line input.

The cursor may sit on the "virtual" row one past the last row; `cy` can even go
further, because arrow-down is bounded by the screen height. Where the C code
would then index past the end of the row array, the model states a precondition
(`Editing.MoveDefined`, `Editing.KeyDefined`). The one exception is ARROW_RIGHT at
`cy == numrows`: the C code reads the row past the end there, and the model treats
that row as absent.

The code has quirks that the model keeps:

- Backspace does nothing.
- Delete moves right and then deletes before the cursor.
- Arrow-right, arrow-down and Page Down bound `cy` by `screenrows`, not by the
  number of rows.
- The visible slice of a row is limited by `screenrows`, not by `screencols`.
- The message bar starts with `ESC [ k` (lower case).

## Model

| member | source | states |
|---|---|---|
| Bytes.SignedChar | kilo.c:108 | a byte read into `char c`, taken as signed, lies in -128..127, is negative exactly for bytes from 0x80, and is congruent to the byte modulo 256 |
| Keys.EncodeKey | kilo.c:119-141 | each special key's sequence has 3 or 4 bytes and starts with ESC `[` |
| Keys.ReadKey | kilo.c:106-151 | there is no key only for empty input; 1 to 4 bytes are consumed; a first byte other than ESC is one key, congruent to the byte; a special key is returned only when the consumed bytes are exactly its sequence; ESC is returned only when the first byte is ESC |
| Keys.ReadKeyEncoded | kilo.c:119-141 | every special key decodes from its own sequence, whatever bytes follow |
| Keys.ReadKeyTruncated | kilo.c:116-123 | a special-key sequence cut short after n bytes (the read timed out) yields ESC with n bytes consumed |
| Keys.ReadKeyRecognises | kilo.c:113-147 | after an ESC, the decoded key differs from ESC if and only if the input starts with some special key's sequence |
| Keys.ReadKeyLiteral | kilo.c:148-150 | a byte other than ESC is returned alone, as a negative code for bytes from 0x80 |
| Tabs.TabWidth | kilo.c:169-172 | a tab at any column takes 1 to 8 columns and ends on a multiple of 8 |
| Tabs.RenderLength | kilo.c:178-196 | `rsize` equals the render column of the end of the row, i.e. `editorRowCxToRx(row, size)` |
| Tabs.RenderHasNoTab | kilo.c:185-192 | the rendered row contains no tab byte |
| Tabs.RenderColBounds | kilo.c:179-183 | `size <= rsize <= size + 7 * tabs`, so the allocation of `size + 7 * tabs + 1` bytes suffices |
| Tabs.RenderColWithoutTabs | kilo.c:166-176 | with no tab before `cx`, the render column is `cx` |
| Tabs.RenderWithoutTabs | kilo.c:185-192 | a row without tabs renders to itself |
| Tabs.RenderIdempotent | kilo.c:178-196 | rendering a rendered row changes nothing |
| Tabs.RenderColIncreasing | kilo.c:166-176 | the map from `cx` to `rx` is strictly increasing |
| Tabs.RenderPrefix | kilo.c:185-192 | rendering a prefix of a row yields a prefix of its rendering |
| Tabs.RenderPlacement | kilo.c:185-192 | a non-tab byte is copied to its render column and advances it by one; a tab becomes spaces up to the next multiple of 8, 1 to 8 of them |
| Tabs.RenderStep | kilo.c:185-192 | rendering one more byte appends its expansion at the current column and advances the column accordingly |
| Tabs.RenderExample | kilo.c:185-192 | `a<TAB>b` renders as `a`, seven spaces, `b`, and the column after the tab is 8 |
| Rows.CountTabs | kilo.c:179-182 | the first loop counts the tabs of the row |
| Rows.PadTab | kilo.c:187-188 | the space-padding loop writes exactly the tab's width of spaces and stops on the next tab stop |
| Rows.UpdateRow | kilo.c:178-196 | the rebuilt row is the row's bytes with their rendering, written into a buffer of `size + 7 * tabs + 1` bytes that never overflows (the NUL included) |
| Rows.RowCxToRx | kilo.c:166-176 | the accumulator loop returns the render column of `cx` |
| Rows.InsertIndex | kilo.c:248 | an out-of-range `at` is clamped to `size`; an in-range one is kept |
| Rows.InsertByte | kilo.c:247-256 | one byte longer, holding `c` at the clamped index, same bytes plus `c` |
| Rows.DeleteByte | kilo.c:267-273 | for `0 <= at < size`, one byte shorter with byte `at` removed; otherwise unchanged |
| Rows.DeleteAfterInsert | kilo.c:247-273 | deleting the byte just inserted restores the row |
| Rows.InsertAfterDelete | kilo.c:247-273 | re-inserting a deleted byte at its index restores the row |
| Rows.InsertRowAt | kilo.c:198-212 | a no-op unless `0 <= at <= numrows`; otherwise one more row, with the new rendered row at `at`; rendering stays up to date |
| Rows.InsertRowAtShifts | kilo.c:201-202 | the rows before `at` are kept and the later rows move up by one |
| Rows.DeleteRowAt | kilo.c:239-245 | a no-op unless `0 <= at < numrows`; otherwise one row fewer; rendering stays up to date |
| Rows.DeleteRowAtShifts | kilo.c:242 | exactly row `at` is removed: the rows before it are kept and the later rows move down by one |
| Rows.DeleteAfterInsertRow | kilo.c:198-245 | deleting the row just inserted restores the rows |
| Text.SerializeLength | kilo.c:320-323 | the buffer length is the sum of `size + 1` over the rows |
| Text.SerializeConcat | kilo.c:329-334 | serialising two row lists one after the other is serialising their concatenation |
| Text.SerializeCons | kilo.c:329-334 | the first row's bytes come first, followed by one newline, then the rest |
| Text.Stripped | kilo.c:355-357 | the stripped line is a prefix without a trailing newline or CR, and only newlines and CRs were removed |
| Text.StripLineEnding | kilo.c:355-357 | the stripping loop's length gives the stripped line |
| Text.LineEnd | kilo.c:354 | one line read by `getline` ends at its first newline, or at the end of the input |
| Text.LoadFirstLine | kilo.c:353-358 | a file whose first line holds no newline and does not end in CR loads as that line followed by the lines of the rest |
| Text.FirstLineThenRest | kilo.c:353-358 | a CR-free file is its stripped first line, a newline, and the rest, with a final newline added if it was missing |
| Text.LoadSerialize | kilo.c:319-363 | reading back the serialised rows gives the rows' bytes, when no row holds a newline or ends with a CR |
| Text.SerializeLoad | kilo.c:319-363 | loading a CR-free file and serialising it yields the file, with a final newline added if it was missing |
| Editing.AfterInsertChar | kilo.c:277-284 | inserting keeps the cursor on its row, moves it right by one and keeps it within the row; on the virtual row a row is created first |
| Editing.AfterNewline | kilo.c:286-299 | after Enter the cursor is at column 0 of the next row |
| Editing.AfterDelChar | kilo.c:301-315 | the cursor stays within its row and within the document |
| Editing.AfterMove | kilo.c:446-488 | only the cursor moves, and it ends within its row (`cx` clamped to the row length, 0 past the last row) |
| Editing.MovedTimes | kilo.c:521-524 | repeated arrow moves change only the cursor and leave it within its row |
| Editing.AfterPage | kilo.c:514-525 | Page Up / Page Down change only the cursor and leave it within its row |
| Editing.AfterKeypress | kilo.c:490-536 | every handled key leaves the cursor within its row and the rendering up to date |
| Editing.Ratchet | kilo.c:544-555 | the new offset shows the position: `off <= pos < off + size` |
| Editing.CursorRx | kilo.c:540-543 | `rx >= cx`, and `rx == cx` when there is no tab before the cursor |
| Editing.AfterScroll | kilo.c:539-556 | after scrolling, `rowoff <= cy < rowoff + screenrows` and `coloff <= rx < coloff + screencols`; only `rx` and the offsets change |
| Editing.NewlineSplits | kilo.c:286-299 | Enter leaves rows `cy` and `cy+1` whose bytes concatenate to the old row; one more row; other rows kept; one more change |
| Editing.TypingEditsRow | kilo.c:277-284 | typing on a real row puts the byte at the cursor in that row, keeps the row count and every other row, moves the cursor one right and counts one change |
| Editing.TypingPastEndAppends | kilo.c:278-281 | typing on the virtual row past the end appends a row holding just the typed byte, puts the cursor after it and counts two changes |
| Editing.BackspaceEditsRow | kilo.c:306-308 | inside a row, delete removes the byte before the cursor from that row, keeps the row count and every other row, and moves the cursor one left |
| Editing.BackspaceJoinsRows | kilo.c:309-313 | at column 0 below the first row, delete leaves one row fewer: the previous row holds both rows' bytes, the rows above are kept and the rows below move up by one; the cursor lands at the previous row's old end and two changes are counted |
| Editing.JoinRestores | kilo.c:309-313 | joining two rows whose bytes concatenate to an original row, in an otherwise unchanged document, gives the original document |
| Editing.SplitThenJoin | kilo.c:286-315 | deleting at the start of the row Enter created restores rows and cursor exactly (three more changes) |
| Editing.InsertThenDelete | kilo.c:277-315 | deleting after typing a byte restores rows and cursor (two more changes) |
| Editing.JoinExample | kilo.c:307-313 | joining `["ab", "cd"]` at the start of the second row gives `["abcd"]` with the cursor after `ab` |
| Editing.DelKeyDeletesUnderCursor | kilo.c:507-510 | inside a row, Delete removes the byte under the cursor and leaves the cursor where it was |
| Editing.LeftAtOriginStays | kilo.c:451-458 | arrow-left at the top-left corner changes nothing |
| Editing.RightUndoesLeft | kilo.c:451-467 | arrow-right undoes arrow-left, across a row boundary too, on rows the screen bound lets it reach |
| Editing.MovedUpTimes | kilo.c:468-472 | n arrow-up moves stop at row 0 |
| Editing.MovedDownTimes | kilo.c:473-477 | n arrow-down moves stop at `screenrows`, not at the last row |
| Editing.PageUpLands | kilo.c:514-525 | Page Up lands `screenrows` above the top of the window, or on row 0 |
| Editing.PageDownLands | kilo.c:514-525 | Page Down always lands on row `screenrows`, whatever the document length |
| Editing.RatchetMinimal | kilo.c:544-555 | an offset that already shows the cursor is kept; otherwise it moves no further than any other offset that shows it |
| Editor.Editor.constructor | kilo.c:658-673 | an empty document with the cursor at the origin, and two screen lines kept for the bars |
| Editor.Editor.InsertRow | kilo.c:198-212 | the rows become `InsertRowAt(old rows, at, s)`; the change count grows only when `at` was in range |
| Editor.Editor.AppendRow | kilo.c:214-232 | the row is added after the last one and the change count grows by one |
| Editor.Editor.DelRow | kilo.c:239-245 | the rows become `DeleteRowAt(old rows, at)`; the change count grows only when `at` was in range |
| Editor.Editor.RowInsertChar | kilo.c:247-256 | only row `r` changes, to the inserted bytes, re-rendered |
| Editor.Editor.RowAppendString | kilo.c:258-265 | only row `r` changes, to its bytes followed by `s`, re-rendered |
| Editor.Editor.RowDelChar | kilo.c:267-273 | only row `r` changes, to its bytes without byte `at`; a no-op (no change counted) when `at` is out of range |
| Editor.Editor.InsertChar | kilo.c:277-284 | the new state is `Editing.AfterInsertChar` of the old |
| Editor.Editor.InsertNewline | kilo.c:286-299 | the new state is `Editing.AfterNewline` of the old |
| Editor.Editor.DelChar | kilo.c:301-315 | the new state is `Editing.AfterDelChar` of the old |
| Editor.Editor.DeleteBeforeCursor | kilo.c:306-308 | the `cx > 0` branch: the new state is `Editing.AfterDelChar` of the old |
| Editor.Editor.JoinWithPrevious | kilo.c:309-313 | the `cx == 0` branch: the new state is `Editing.AfterDelChar` of the old |
| Editor.Editor.MoveCursor | kilo.c:446-488 | the new state is `Editing.AfterMove` of the old |
| Editor.Editor.Page | kilo.c:514-525 | the `while (times--)` loop performs `screenrows` moves: the new state is `Editing.AfterPage` of the old |
| Editor.Editor.ProcessKeypress | kilo.c:490-536 | the new state is `Editing.AfterKeypress` of the old; quitting is reported exactly for Ctrl-Q |
| Editor.Editor.Scroll | kilo.c:539-556 | the new state is `Editing.AfterScroll` of the old |
| Editor.Editor.RowsToString | kilo.c:319-341 | the buffer is every row's bytes followed by a newline, in row order, and its length is the sum of `size + 1` |
| Editor.CopyLine | kilo.c:330-333 | one `memcpy` and newline write the row's bytes and `'\n'` after the bytes already there |
| Frame.AppendBuffer.constructor | kilo.c:400 | a new buffer is empty |
| Frame.AppendBuffer.Append | kilo.c:402-408 | the first `len` bytes of `s` are added at the end |
| Frame.Banner | kilo.c:563-574 | the welcome line never exceeds the screen width |
| Frame.BannerCentred | kilo.c:563-574 | the welcome text ends the line, cut to the width; the free columns on its right equal those on its left or one more; a `~` keeps the first column when there is padding |
| Frame.TextLine | kilo.c:579-582 | the drawn part of a row starts at `coloff`, holds the row's render bytes from there, and is limited to `screenrows` bytes |
| Frame.DrawBanner | kilo.c:563-574 | the padding loop and welcome text append exactly the banner |
| Frame.DrawLine | kilo.c:559-587 | one pass appends screen line `i`, erase-to-end-of-line and CR LF |
| Frame.DrawRows | kilo.c:558-588 | appends the `screenrows` screen lines in order |
| Frame.RightJustify | kilo.c:599-608 | the right-justify loop appends the status fill |
| Frame.DrawStatusBar | kilo.c:590-611 | appends the status bar: reverse video, left part, fill, normal video, CR LF |
| Frame.DrawMessageBar | kilo.c:613-620 | appends `ESC [ k` and the message cut to the width, only when it is non-empty and recent |
| Frame.StatusFillJustifies | kilo.c:599-608 | the fill is spaces followed by the right part when it fits in the remaining width, and only spaces otherwise |
| Frame.StatusBarLayout | kilo.c:590-611 | the visible status bar is exactly `screencols` wide and ends with the right part when it fits |
| Frame.Decimal | kilo.c:638 | a number is printed as one or more decimal digits |
| Frame.DecimalValue | kilo.c:638 | the printed digits read back as the number |
| Frame.DrawPanels | kilo.c:631-633 | appends the text area, the status bar and the message bar, in that order |
| Frame.PlaceCursor | kilo.c:635-640 | appends the cursor-position sequence and then show-cursor |
| Frame.BuildFrame | kilo.c:625-641 | the frame is hide-cursor, home, the text area, status bar, message bar, cursor placement, show-cursor |
| Frame.RefreshScreen | kilo.c:622-646 | scrolls as `Editing.AfterScroll` says, then returns the frame for the scrolled state |
| Frame.CursorByteShown | kilo.c:579-582 | after scrolling, the byte under the cursor is drawn at the cursor's screen column, when that column is below `screenrows` |
| Frame.ShortScreenClipsRow | kilo.c:581 | with a one-line text area, only the first byte of `abc` is drawn on an 80-column screen |
| Frame.EmptyDocumentLines | kilo.c:560-577 | an empty document shows `~` on every line but line `screenrows / 3`, which shows the banner |
| Prompt.Step | kilo.c:424-442 | an erase key drops the last byte; ESC cancels, and only ESC does; Enter finishes only with a non-empty line; a typable key appends its byte |
| Prompt.Run | kilo.c:415-444 | the prompt reads no more keys than given, and at least one when it ends |
| Prompt.Grow | kilo.c:436-439 | the enlarged buffer holds the old contents first |
| Prompt.PutByte | kilo.c:435-441 | the buffer doubles exactly when only the terminator's slot is left and is otherwise the same array, and afterwards holds the old line followed by the byte and a terminating NUL |
| Prompt.Prompt | kilo.c:415-444 | the loop, with its doubling NUL-terminated buffer, ends as `Run` says after the same number of keys |
| Prompt.EraseUndoesTyping | kilo.c:424-441 | an erase key right after a typed key restores the line |
| Prompt.NotControlTyped | kilo.c:435-441 | a byte that is not a control byte, read as a key, is appended as that same byte |
| Prompt.TypedLineEntered | kilo.c:415-444 | typing a non-empty line free of control bytes and then Enter returns exactly that line |
| Prompt.EnteredHasNoControl | kilo.c:415-444 | a returned line is non-empty and holds no control bytes |

## Left out

- Terminal and OS I/O are not modelled: `die`, raw mode, `getWindowSize`, the blocking `read` loop of `editorReadKey`, the final `write` of a frame, and the `exit` on Ctrl-Q. The decoder takes the bytes that arrived as a sequence; a short sequence stands for a timed-out read. Ctrl-Q returns a quit flag. The window size is a constructor parameter.
- File I/O in `editorOpen` and `editorSave` is not modelled. Their byte-level parts are: the `getline` line splitting and line-ending stripping, as `Text.Load` and `Text.StripLineEnding`, and the save buffer, as `RowsToString`. Whether the save wrote the whole file is the `saved` parameter of `ProcessKeypress`; when it did, the change count is cleared. The file name, and the prompt for it, are not part of the editor state.
- `editorSetStatusMessage` and the clock are not modelled. The message text and whether it is under five seconds old are parameters of the message bar.
- `snprintf` formatting of the status strings is not modelled; those strings are parameters. The cursor-placement sequence is modelled with plain decimal digits.
- Allocation failures and freeing are not modelled. Rows and the append buffer are sequences. The 128-byte prompt buffer and the render buffer are arrays.
- Integers are unbounded. The `int` fields of the editor (`dirty`, `cx`, `cy`, offsets) do not wrap at 32 bits.
- Editor.Editor.constructor: requires a window of at least 3 rows and 1 column, so that `screenrows` and `screencols` are positive. The C code accepts smaller windows, with an empty or negative text area.
- Editor.Editor.MoveCursor: ARROW_RIGHT at `cy == numrows` reads a row past the end of the array in the C code. The model treats that row as absent.
- Editor.Editor.ProcessKeypress: requires `Editing.KeyDefined`, i.e. `cy <= numrows` for the keys whose handling indexes the current or previous row. Past that row the C code reads outside the row array.
- Prompt.Prompt: `iscntrl` is modelled as ASCII 0-31 and 127 for every key code. Key codes of 128 and above are never appended, whatever `iscntrl` returns for them. The prompt's status-message and refresh calls are not modelled. When the keys run out, the prompt is reported as still typing, where the C code would wait for more input.
- Bytes.SignedChar: assumes a signed plain `char`, as on x86 ABIs; its signedness is implementation-defined. On ABIs with an unsigned `char` (ARM and PowerPC Linux), `editorReadKey` returns 128..255 for high bytes and the `c < 128` test of `editorPrompt` drops them, whereas the model turns them into negative keys that the prompt appends.
- Frame.CursorByteShown: holds only when the cursor's column in the window is below `screenrows`, because the slice length is limited by the screen height.
