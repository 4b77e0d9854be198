# Toms Editor core in Dafny

A model of the in-memory editing core of `tomsEditor.c`, a terminal text editor.
The model follows the C file function by function.

The editor keeps one global `struct EditorConfig E`. Here it is the class `Editor.Editor`, and the field updates are the class's methods. The fields are:

- the cursor `cx`/`cy`;
- the screen size;
- the rows;
- the scroll offsets;
- the modified counter;
- the quit counter of `editorProcessKeypress`, which is a `static` variable in C.

Every method is proved to leave the editor in the state computed by a pure function of module `Engine` over the value `EditorState`. The properties the source promises are proved as lemmas about those functions.

Each row holds its raw bytes and its rendered bytes. In the rendered form, tabs are expanded to the next multiple of 8. `Tabs.Expand` specifies that expansion. `Tabs.RenderRow` is the two-loop `editorUpdateRow` working on an array, and it is proved equal to `Expand`. Every operation keeps every row well formed, meaning its rendered bytes are the expansion of its raw bytes.

The modules are:

- `Bytes`: the byte type, control bytes, `Option`, and `memcpy` on arrays.
- `Tabs`: tab expansion and `editorUpdateRow`.
- `Rows`: the `EditorRow` value and the row-level insert and delete operations.
- `Cursor`: the raw and rendered column helpers, and the word-move loops as functions.
- `Keys`: the decoder of `editorKeyRead` over a byte stream, returning the key and the bytes it consumed.
- `Engine`: the editor state and every state change as a function, plus the key dispatcher and the quit counter.
- `Lines`: `editorRowsToString`, the way `getline` cuts a file into lines, and the CR/LF strip loop of `editorOpen`.
- `AppendBuffers`: `struct abuf` and `abufAppend`.
- `Screen`: the frame built by `editorRefreshScreen` and `editorDrawRows`, with the clock as a parameter.
- `Editor`: the class `Editor` standing for `E`.

The C code uses several values in ways that can go out of range:

- `editorInsertNewLine` uses a rendered column as a raw index.
- The join in `editorDeleteChar` reads the previous row.
- `editorMoveCursor` reads the current line for END and the word moves.

The model keeps these behaviours. It states, as preconditions (`Engine.NewLineOk`, `Engine.DeleteOk`, `Engine.MoveOk`, `Engine.KeyOk`), the conditions under which the C code stays within its arrays.

Three behaviours of the code are kept as written, though a reader might expect otherwise:

- `getCursorPositionInRawFileLine` walks the rendered bytes, not the raw bytes, although its comment at tomsEditor.c:272 says it will compensate for tabs. The rendered bytes hold no tab, so the walk never meets one. The result is the rendered column clamped into [0, rawLength], not a tab-aware mapping back to a raw offset.
- `editorInsertNewLine` splits the row at the rendered column used as a raw index, not at the raw offset under the cursor.
- `editorInsertNewLine` does not change `fileModified`.

## Model

| member | source | states |
|---|---|---|
| Bytes.CopyBytes | tomsEditor.c:311 | `memcpy` into an array: the bytes of `src` replace those from `at` on, and every other byte is kept |
| Tabs.TabWidth | tomsEditor.c:340-342 | a tab emits 1 to 8 spaces; they end on a multiple of 8 and no multiple of 8 lies strictly inside |
| Tabs.ExpandLength | tomsEditor.c:337 | the rendered length is at least the raw length and at most 7 more per tab, so the allocation of `editorUpdateRow` always suffices |
| Tabs.ExpandTabFree | tomsEditor.c:339-346 | the rendered form never contains a tab |
| Tabs.ExpandIdentity | tomsEditor.c:339-346 | a line without tabs renders as itself |
| Tabs.ExpandIdempotent | tomsEditor.c:327-350 | rendering the rendered form again gives the same bytes |
| Tabs.ExpandPrefix | tomsEditor.c:339-346 | rendering a prefix of the raw bytes gives a prefix of the rendered bytes |
| Tabs.ExpandByte | tomsEditor.c:339-346 | a non-tab byte is copied unchanged to its rendered column and takes one column; a tab becomes 1 to 8 spaces that end on a multiple of 8 |
| Tabs.ExpandExample | tomsEditor.c:339-346 | "a", TAB, "b" renders as "a", seven spaces, "b": rendered length 9 |
| Tabs.PadTab | tomsEditor.c:341-342 | the padding loop writes TabWidth(start) spaces and leaves the index on the next multiple of 8 |
| Tabs.CountRowTabs | tomsEditor.c:332-334 | the first loop counts exactly the tabs of the raw bytes |
| Tabs.CopyRendered | tomsEditor.c:339-346 | the copy loop leaves the expansion of the raw bytes in the buffer, with room left for the NUL |
| Tabs.RenderRow | tomsEditor.c:327-350 | `editorUpdateRow` produces exactly the expansion of the raw bytes |
| Rows.NewRow | tomsEditor.c:360-368 | a new row holds the given raw bytes and is well formed |
| Rows.InsertRowAt | tomsEditor.c:352-374 | nothing changes unless 0 <= at <= count; otherwise the count grows by one, the new row sits at `at`, and the rows before and after keep their order |
| Rows.DeleteRowAt | tomsEditor.c:405-412 | nothing changes unless 0 <= at < count; otherwise exactly that row goes and the later rows move down by one |
| Rows.SetRowWellFormed | tomsEditor.c:402 | replacing a row by a recomputed one keeps every row well formed |
| Rows.InsertRowWellFormed | tomsEditor.c:368 | inserting a row keeps every row well formed |
| Rows.DeleteRowWellFormed | tomsEditor.c:405-412 | deleting a row keeps every row well formed |
| Rows.DeleteUndoesInsert | tomsEditor.c:405-412 | deleting the row just inserted gives back the original rows |
| Rows.InsertPosition | tomsEditor.c:420 | an out-of-range insert position becomes the raw length |
| Rows.InsertByteAt | tomsEditor.c:419-426 | the raw bytes grow by one, with `c` at the clamped position and the other bytes shifted around it |
| Rows.DeleteByteAt | tomsEditor.c:443-447 | the raw bytes shrink by one; the bytes after `at` move down, and for `at` == rawLength the last byte goes |
| Rows.DeleteByteUndoesInsert | tomsEditor.c:443-447 | deleting the byte just inserted gives back the original raw bytes |
| Cursor.RenderedColumnOf | tomsEditor.c:290-292 | the rendered column lies left of the screen column |
| Cursor.RawColumn | tomsEditor.c:275-288 | the raw column lies in [0, rawLength]. It equals the rendered column exactly when that column lies in [0, rawLength]. It is rawLength when the rendered column is past rawLength, and 0 when the rendered column is not positive |
| Cursor.RawColumnTabFreeRoundTrip | tomsEditor.c:275-292 | on a line without tabs, a cursor placed on rendered column `col` maps to raw column `col`, which renders back at `col` |
| Cursor.SelectedChar | tomsEditor.c:580-583 | NUL beyond the rendered length. Otherwise it is the rendered byte at the raw column, or the terminating NUL when the raw column reaches the rendered length |
| Cursor.SkipRight | tomsEditor.c:732-738 | the right-going loop stops at the limit or at the first position whose "is a space" differs, and every position passed matched. From at or past the limit it does not move |
| Cursor.SkipLeft | tomsEditor.c:723-729 | the left-going loop stops at 0 or at the first position whose "is a space" differs, and every position passed matched. From column 0 or less it does not move |
| Cursor.WordRight | tomsEditor.c:731-739 | Ctrl-Right runs in two phases. It first passes non-space bytes up to a point `m`, which is the limit or a space, then passes spaces up to `r`. It stops at lineLength + 1 or on a byte that is not a space, never moves left, and does not move from at or past lineLength + 1 |
| Cursor.WordLeft | tomsEditor.c:721-730 | Ctrl-Left jumps to lineLength + 1 from beyond the line. Otherwise it passes non-space bytes down to a point `m`, which is 0 or a space, then spaces down to `r`. It stops at 0 or on a byte that is not a space, and does not move from column 0 or less |
| Keys.CtrlKey | tomsEditor.c:26 | `CTRL_KEY` keeps the low five bits |
| Keys.SignedChar | tomsEditor.c:248 | a byte returned as a signed `char` is the byte modulo 256, in [-128, 128) |
| Keys.LetterKey | tomsEditor.c:234-240 | the letter switch keeps the count of bytes consumed |
| Keys.DecodeEscape | tomsEditor.c:205-244 | ESC followed by anything but '[' is ESC after 3 bytes. Exactly the digit-and-semicolon sequences read more than 4 bytes, and then they read up to 6. `ESC [ d ; x C/D` is Ctrl-Right/Left for every digit `d` and every byte `x`. An unrecognised digit sequence is ESC |
| Keys.DecodeKey | tomsEditor.c:195-249 | no key exactly when the stream is empty; a byte other than ESC is its own key and consumes one byte; an ESC with fewer than two bytes after it is ESC after the bytes there are; a longer ESC sequence is what DecodeEscape reads, consuming 1 to 6 bytes |
| Keys.DecodeEscapeIff | tomsEditor.c:202-246 | a stream starting with ESC gives a key other than ESC exactly when it starts with a recognised sequence, and that key is a special key |
| Keys.DecodeKeySequence | tomsEditor.c:202-246 | each special key's escape sequence decodes back to that key, whatever bytes follow |
| Keys.DecodeCtrlArrow | tomsEditor.c:222-229 | `ESC [ d ; x C` and `ESC [ d ; x D` decode to Ctrl-Right and Ctrl-Left after six bytes for every digit `d` and every byte `x`, whatever follows |
| Keys.KeySequence | tomsEditor.c:66-78 | each special key has an escape sequence of 3 to 6 bytes starting with ESC |
| Keys.Encode | tomsEditor.c:195-249 | each decodable key has an encoding of 1 to 6 bytes |
| Keys.DecodeAllEncodeAll | tomsEditor.c:195-249 | decoding the encoding of any sequence of keys, one key read at a time, gives back the keys |
| Engine.CursorRawColumn | tomsEditor.c:275-288 | the raw column on the edit row is within that row's raw length |
| Engine.InsertChar | tomsEditor.c:430-436 | the state stays valid; nothing changes on a line above the first or past the one after the last |
| Engine.InsertCharEffect | tomsEditor.c:430-441 | on the edit line or the one after the last: an empty row is appended first when needed, the byte goes in at the raw column, the other rows stay, the cursor moves right unless it is past the new rendered length, `fileModified` grows by one, and nothing else changes |
| Engine.WithEditRow | tomsEditor.c:432-434 | the row after the last one gets an empty row; any other edit line keeps the rows |
| Engine.InsertIntoEditRow | tomsEditor.c:437-440 | the insert into an existing edit row keeps the state valid; InsertIntoEditRowEffect states its effect |
| Engine.StepAfterInsert | tomsEditor.c:438-440 | `cx` grows by one unless it is past the edit row's rendered length; `fileModified` grows by one; nothing else changes |
| Engine.InsertIntoEditRowEffect | tomsEditor.c:437-440 | insert into an existing edit row: that row's raw bytes gain the byte at the raw column, and only that row, `cx` and `fileModified` change |
| Engine.InsertNewLine | tomsEditor.c:376-393 | at rendered column 0 an empty row goes in before the edit row. Elsewhere the row splits into raw[..at] and raw[at..], whose concatenation is the old row, with one row more and the others in order. `cy` grows by one, `cx` becomes the line start, and nothing else changes |
| Engine.RowDelChar | tomsEditor.c:443-450 | nothing changes unless 0 <= at < the rendered length. Otherwise the row's raw bytes lose the byte at `at`, which is the last one when `at` is the raw length; the other rows and every other field are kept, and every row stays well formed |
| Engine.DeleteChar | tomsEditor.c:452-456 | the state stays valid; nothing changes outside the rows |
| Engine.DeleteCharEffect | tomsEditor.c:452-471 | on a row, left of the gutter: the previous row's raw bytes gain the edit row's rendered bytes, the edit row goes, the count drops by one, `cy` drops by one and `cx` goes to the old join point. Otherwise, with the raw column before the rendered length, the raw byte there goes; at or past the rendered length the rows stay as they are. In every case `cx` moves left and `fileModified` grows by one, and nothing else changes |
| Engine.JoinRows | tomsEditor.c:457-464 | the join keeps the state valid; JoinRowsEffect states its effect |
| Engine.DeleteAtCursor | tomsEditor.c:465-469 | the rows are those of `editorRowDelChar` at the raw column; `cx` drops by one and `fileModified` grows by one; nothing else changes |
| Engine.JoinRowsEffect | tomsEditor.c:457-464 | the join alone: the previous row gains the rendered bytes, later rows move down by one, the cursor goes to the join point on the row above |
| Engine.ClampInto | tomsEditor.c:693-703 | the scroll clamp: the result lies in [0, hi], and a value already in range is kept |
| Engine.ScrollScreenY | tomsEditor.c:693-697 | `yScroll` lies in [0, numberOfRows] for any offset, and moves by the offset when that stays in range; nothing else changes |
| Engine.ScrollScreenX | tomsEditor.c:699-703 | `xScroll` lies in [0, screenCols] for any offset, and moves by the offset when that stays in range; nothing else changes |
| Engine.ClampCursor | tomsEditor.c:745-761 | `cx` ends in [0, screenCols] and `cy` in [0, screenRows]; a coordinate past a bound takes that bound and nudges its scroll by one in that direction |
| Engine.WordMoveTarget | tomsEditor.c:705-739 | the word moves read the current line's length. Ctrl-Right never moves left nor beyond lineLength + 1, and does not move from at or past lineLength + 1. Ctrl-Left jumps to lineLength + 1 from beyond the line; otherwise it never moves right, never goes below 0 from a column of 0 or more, and does not move from column 0 or less |
| Engine.Moved | tomsEditor.c:708-739 | the arrows change `cx` or `cy` by one in their direction, the word moves set `cx` to WordMoveTarget, any other key changes nothing, and only `cx` and `cy` ever change |
| Engine.MoveCursor | tomsEditor.c:705-762 | END puts the cursor on the line's last rendered column, with no clamping. Any other key is its move of `Moved` followed by the clamp, leaving `cx` in [0, screenCols] and `cy` in [0, screenRows]. The rows never change, and `yScroll` stays in [0, numberOfRows] |
| Engine.Save | tomsEditor.c:679-686 | a save that could open and truncate the file clears `fileModified`; nothing else changes |
| Engine.ProcessKeypress | tomsEditor.c:765-825 | the editor exits exactly on Ctrl-Q when the file is unmodified or the counter is at most 1. A Ctrl-Q that does not exit only decrements the counter. Every other key resets the counter to 3 |
| Engine.Dispatch | tomsEditor.c:769-822 | every key's operation keeps the rows well formed; Ctrl-L and ESC change nothing; Ctrl-S is the save |
| Engine.DeleteKey | tomsEditor.c:774-780 | Backspace and Ctrl-H run `editorDeleteChar` with `cx` one column to the left, Delete runs it in place; then `cx` steps right |
| Engine.BackspaceJoinExample | tomsEditor.c:774-780 | Backspace at rendered column 0 of "bar" below "foo" leaves one row "foobar", the cursor on row 1 after "foo", and one modification |
| Engine.Run | tomsEditor.c:892-895 | the dispatch loop over any key sequence whose keys meet what their operations need keeps the rows well formed |
| Engine.FreeKeysRunOk | tomsEditor.c:892-895 | a sequence of keys that need nothing of the state can always be run |
| Engine.QuitPresses | tomsEditor.c:782-787 | with unsaved changes and the counter at q, n consecutive Ctrl-Q presses exit exactly when n >= q; before that the counter has dropped by n |
| Engine.QuitNeedsThreePresses | tomsEditor.c:764-787 | with unsaved changes, two Ctrl-Q presses do not exit and the third does |
| Engine.OtherKeyRestartsCount | tomsEditor.c:824 | any other key between Ctrl-Q presses, edits included, restarts the count: two further presses do not exit |
| Engine.QuitWhenUnmodified | tomsEditor.c:782-792 | with no unsaved change, one Ctrl-Q exits |
| Engine.ViewportKeysKeepScroll | tomsEditor.c:693-762 | any run of arrow and page keys never exits, leaves the rows alone and keeps `yScroll` in [0, numberOfRows]; after an arrow key the cursor is on the screen |
| Lines.TotalLength | tomsEditor.c:649-651 | the total length counts at least one byte per row |
| Lines.SerialisedLength | tomsEditor.c:645-666 | the saved form is exactly `totalLength` bytes long |
| Lines.SerialisedAppend | tomsEditor.c:657-663 | saving two runs of rows gives their saved forms one after the other |
| Lines.SerialisedCons | tomsEditor.c:657-663 | the saved form is the first row's rendered bytes, a newline, then the rest |
| Lines.SumLengths | tomsEditor.c:649-651 | the first loop computes the total length |
| Lines.CopyRows | tomsEditor.c:657-663 | the copy loop fills the buffer with exactly the saved form |
| Lines.StripLineEnd | tomsEditor.c:632-634 | the stripped line is a prefix of the line, does not end in CR or LF, and everything cut from it is CR or LF |
| Lines.StripIdempotent | tomsEditor.c:632-634 | stripping twice strips nothing more |
| Lines.StripSuffix | tomsEditor.c:632-634 | a body not ending in CR/LF, followed by any mix of CR and LF, strips to the body |
| Lines.StripLength | tomsEditor.c:632-634 | the strip loop computes the length of the stripped line |
| Lines.LineLength | tomsEditor.c:629 | each line `getline` returns ends at its first LF, or at the end of the file |
| Lines.GetLinesSerialised | tomsEditor.c:629-637 | reading a saved file line by line gives each row's rendered bytes with its newline |
| Lines.SaveThenOpen | tomsEditor.c:629-666 | saving and reopening gives back each row's rendered bytes, for rows without LF and not ending in CR |
| AppendBuffers.AppendBuffer.Contents | tomsEditor.c:300-303 | the bytes held are `length` bytes long |
| AppendBuffers.AppendBuffer.constructor | tomsEditor.c:305 | `ABUF_INIT` holds no bytes |
| AppendBuffers.AppendBuffer.Append | tomsEditor.c:307-314 | `abufAppend`: the buffer holds its old bytes followed by the appended ones |
| Screen.Digits | tomsEditor.c:556 | `%d` prints at least one decimal digit |
| Screen.ParseDecimal | tomsEditor.c:556 | a number printed without a minus sign reads back as non-negative |
| Screen.DigitsRoundTrip | tomsEditor.c:556 | the digits printed read back as the number |
| Screen.DecimalRoundTrip | tomsEditor.c:556 | what `%d` prints, sign included, reads back as the number |
| Screen.HeaderLength | tomsEditor.c:490-496 | the header message is cut to the screen width: all 20 bytes from 20 columns on, exactly screenCols bytes below that |
| Screen.HeaderPadding | tomsEditor.c:497-503 | the padding after its decrement lies in [-1, screenCols) |
| Screen.PostDecrementLoopCount | tomsEditor.c:506 | `while (i--)` runs i times from i >= 0, and i + 2^32 times from a negative i |
| Screen.HeaderOverflowAsWritten | tomsEditor.c:503-506 | on a screen at most 21 columns wide the padding is -1 and the header as written exceeds 2^32 - 1 bytes |
| Screen.HeaderWidth | tomsEditor.c:493-515 | the corrected header is at most one column wider than the screen. From 22 columns it is the screen width or one column less, and agrees with the code |
| Screen.BodyCount | tomsEditor.c:517 | the body has exactly screenRows - 2 lines, or none when the screen has fewer than 2 rows |
| Screen.Slice | tomsEditor.c:527-529 | a positive length takes that many bytes from the scroll offset; otherwise nothing |
| Screen.BodyLengthAsWritten | tomsEditor.c:524-525 | the line length as the code cuts it never reaches past the row |
| Screen.BodyLength | tomsEditor.c:524-525 | the corrected cut never reaches past the row |
| Screen.BodyOverflowAsWritten | tomsEditor.c:524-528 | a row whose visible part is longer than screenCols - 2 but at most screenCols is written in full and runs past the screen |
| Screen.BodyOverflowExample | tomsEditor.c:524-528 | on a 10-column screen a 10-byte row is drawn 12 columns wide |
| Screen.BodyWidth | tomsEditor.c:517-535 | a corrected body line never runs past a screen of two or more columns, and shows the row's rendered bytes from the scroll offset on, up to its end or the screen edge |
| Screen.StatusBarWidth | tomsEditor.c:568-571 | the status bar spans the screen width, or its text when that is wider |
| Screen.AppendSpaces | tomsEditor.c:506 | the padding loop appends exactly `n` spaces |
| Screen.AppendHeaderText | tomsEditor.c:502-511 | appends the corrected header text |
| Screen.DrawHeader | tomsEditor.c:493-515 | appends the header block |
| Screen.AppendBodyText | tomsEditor.c:521-529 | appends one body line's gutter and visible text |
| Screen.DrawBodyLine | tomsEditor.c:520-534 | appends one cleared body line ending in CR LF |
| Screen.DrawBody | tomsEditor.c:517-535 | appends every body line |
| Screen.AppendStatusText | tomsEditor.c:549-566 | appends the status text, and `len` counts exactly its bytes |
| Screen.DrawStatusBar | tomsEditor.c:537-573 | appends the status bar padded to the screen width |
| Screen.DrawRows | tomsEditor.c:486-574 | appends the header, the body and the status bar |
| Screen.RefreshScreen | tomsEditor.c:585-606 | the frame handed to `write` is: hide the cursor, home, the drawn rows (with "N/A" once the message has expired), place the cursor, show it |
| Editor.Editor.constructor | tomsEditor.c:841-866 | `initEditor`: cursor and scrolls at 0, no rows, unmodified, counter at 3 |
| Editor.Editor.SetRow | tomsEditor.c:327-350 | recomputing a row whose raw bytes changed is the state function's row update |
| Editor.Editor.InsertRow | tomsEditor.c:352-374 | `editorInsertRow` on the rows, keeping them well formed |
| Editor.Editor.DelRow | tomsEditor.c:405-412 | `editorDelRow` on the rows, keeping them well formed |
| Editor.Editor.RowAppendString | tomsEditor.c:395-403 | the row's raw bytes gain `str` and `fileModified` grows by one |
| Editor.Editor.RowInsertChar | tomsEditor.c:419-428 | the row's raw bytes gain `c` at the clamped position |
| Editor.Editor.RowDelChar | tomsEditor.c:443-450 | `editorRowDelChar` in place leaves the state `Engine.RowDelChar` computes: no change outside [0, rendered length), otherwise one raw byte fewer |
| Editor.Editor.CursorPositionInRawFileLine | tomsEditor.c:275-288 | the walk over the rendered bytes returns the clamped raw column |
| Editor.Editor.CurrentLine | tomsEditor.c:576-578 | `getCurrentLine` adds the vertical scroll to the edit line |
| Editor.Editor.CurrentSelectedChar | tomsEditor.c:580-583 | the byte under the cursor, as `SelectedChar` defines it |
| Editor.Editor.InsertChar | tomsEditor.c:430-441 | `editorInsertChar` in place leaves the state `Engine.InsertChar` computes |
| Editor.Editor.InsertIntoEditRow | tomsEditor.c:437-440 | the insert into an existing row leaves the state `Engine.InsertIntoEditRow` computes |
| Editor.Editor.StepAfterInsert | tomsEditor.c:438-440 | the cursor step and the modified mark leave the state `Engine.StepAfterInsert` computes |
| Editor.Editor.InsertNewLine | tomsEditor.c:376-393 | `editorInsertNewLine` in place leaves the state `Engine.InsertNewLine` computes |
| Editor.Editor.DeleteChar | tomsEditor.c:452-471 | `editorDeleteChar` in place leaves the state `Engine.DeleteChar` computes, whose cases DeleteCharEffect states |
| Editor.Editor.JoinRows | tomsEditor.c:457-464 | the join in place leaves the state `Engine.JoinRows` computes |
| Editor.Editor.DeleteAtCursor | tomsEditor.c:465-469 | the byte deletion in place leaves the state `Engine.DeleteAtCursor` computes: `editorRowDelChar` at the raw column, `cx` one left, one modification more |
| Editor.Editor.ScrollScreenY | tomsEditor.c:693-697 | `scrollScreenY` in place |
| Editor.Editor.ScrollScreenX | tomsEditor.c:699-703 | `scrollScreenX` in place |
| Editor.Editor.StepLeftWhile | tomsEditor.c:723-729 | each left-going word loop stops where `SkipLeft` says |
| Editor.Editor.StepRightWhile | tomsEditor.c:732-738 | each right-going word loop stops where `SkipRight` says |
| Editor.Editor.MovePosition | tomsEditor.c:708-739 | the switch of `editorMoveCursor` in place leaves `Engine.Moved`: each arrow moves by one, each word move goes to its target |
| Editor.Editor.WordLeft | tomsEditor.c:721-730 | the Ctrl-Left loops reach `Cursor.WordLeft`: over the word, then over the spaces before it |
| Editor.Editor.WordRight | tomsEditor.c:731-739 | the Ctrl-Right loops reach `Cursor.WordRight`: over the word, then over the spaces after it |
| Editor.Editor.ClampCursor | tomsEditor.c:745-761 | the clamping tail in place |
| Editor.Editor.MoveCursor | tomsEditor.c:705-762 | `editorMoveCursor` in place leaves `Engine.MoveCursor`: END without clamping, any other key its move and then the clamp |
| Editor.Editor.RowsToString | tomsEditor.c:645-666 | the returned buffer and length are exactly the saved form of the rows |
| Editor.Editor.Save | tomsEditor.c:668-690 | the bytes written are the saved form; a successful write clears `fileModified` |
| Editor.Editor.Open | tomsEditor.c:629-638 | each line of the file, stripped of CR/LF, is appended as a row after the existing ones |
| Editor.Editor.AppendLine | tomsEditor.c:631-636 | one pass of the loop: the line without its trailing CR and LF bytes becomes a new last row |
| Editor.Editor.ProcessKeypress | tomsEditor.c:765-825 | `editorProcessKeypress` in place, with the exit as the `quit` result |
| Editor.Editor.Dispatch | tomsEditor.c:769-822 | the key switch in place |
| Editor.Editor.DeleteKey | tomsEditor.c:774-780 | Backspace, Ctrl-H and Delete in place leave the state `Engine.DeleteKey` computes |

## Left out

- Terminal mode handling, `atexit`, `die` and `exit`: these are operating-system calls. The exit of Ctrl-Q is the `quit` flag, and the two escape sequences it writes before exiting are not modelled.
- The blocking `read` loop of `editorKeyRead`: the decoder takes the bytes that arrive as a sequence, and a read that returns no byte is the end of that sequence.
- Debug logging, `getWindowSize` and `getCursorPosition`: these are terminal and file I/O. The window size is a constructor parameter.
- `fopen`, `getline`, `open`, `ftruncate` and `write`: these are file I/O. `editorOpen` takes the file's bytes, and `editorSave` takes whether the file could be opened and truncated as `storageOk`. The failed `fopen` that ends in `die` is not modelled.
- Editor.Editor.Save: the early return when no file path is set is `storageOk` false. In that case the code does not build the buffer, while the model still returns the saved form.
- `editorSetStatusMessage`: `vsnprintf` and the `time` call are library calls. The messages set by save and by Ctrl-Q are not modelled.
- Screen.RefreshScreen: when the status message has expired, `editorDrawRows` also stores "N/A" and the current time in `E`. The model only shows "N/A" and does not model that state change. The clock is the parameter `now`.
- Screen.RefreshScreen: the file path is a byte sequence, and a missing path appends nothing. The status message is at most 79 bytes (`statusMsg[80]`), so the `snprintf` into `tempStr[80]` does not cut it.
- Failure of `malloc` or `realloc`, including the early return of `abufAppend` on NULL: allocation always succeeds here.
- `main` and its endless render and dispatch loop: `Engine.Run` stands for the dispatch half over a finite key sequence.
- Integer widths: `cx`, `cy`, the scroll offsets and `fileModified` are unbounded here. The model does not cover 32-bit overflow after more than 2^31 edits or moves, nor the `short` width of the quit counter. Only the header loop's wrap-around, where it matters, is written out (`Screen.PostDecrementLoopCount`).
- Keys.SignedChar: assumes `char` is signed, so bytes from 128 on are returned as negative keys. An unsigned `char` would return 128 to 255.
- Engine.MoveOk: the code reads `E.rows[getCurrentLine()].length` for every key, even when it does not use it. The model requires that row only for END and the word moves, which do use it. For the word moves it also requires the edit row, which `getCurrentSelctedChar` reads only inside the loop bodies. That is slightly stronger than the code's reads: Ctrl-Left from beyond the line and a move whose loops do not run read no edit row, for example with cy = 0 and yScroll > 0.
- Engine.Dispatch: its own contract states only that rows stay well formed, plus the Ctrl-L/ESC and Ctrl-S cases. The other keys' effects are stated by the operations it calls, and the class method is proved equal to it.
- Screen.AppendBodyText: the body line is cut whenever it is longer than screenCols - 2 columns, the corrected cut of the first Findings row. The code cuts only lines longer than screenCols, and lines of screenCols - 1 or screenCols visible bytes then overrun the screen. `Screen.BodyTextAsWritten` is the code's cut.
- Screen.DrawBodyLine: it draws the corrected body line of Screen.AppendBodyText, not the code's.
- Screen.DrawBody: every body line is the corrected one of Screen.AppendBodyText.
- Screen.AppendHeaderText: it skips a negative padding, the corrected header of the second Findings row. For screenCols <= 21 the code runs `while (i--)` from -1, which is a signed overflow with undefined behaviour. `Screen.HeaderTextAsWritten` is the code's header.
- Screen.DrawHeader: it draws the corrected header of Screen.AppendHeaderText.
- Screen.DrawRows: its header and body are the corrected ones of Screen.DrawHeader and Screen.DrawBody.
- Screen.RefreshScreen: the frame is built from the corrected header and body cut, not from tomsEditor.c:503-506 and 524-525 as written.
- Screen drawing requires `Engine.ViewInRange`: the screen size and `yScroll` are not negative, and `xScroll` lies in [0, screenCols]. `initEditor`, `scrollScreenX` and `scrollScreenY` keep these conditions.

## Findings

| source | as written | input that shows it | evidently intended | confidence | as-written member | corrected member |
|---|---|---|---|---|---|---|
| tomsEditor.c:524-525 | `if (len > E.screenCols) len = E.screenCols - LINE_START_SIZE;` cuts the line only when it is longer than the whole screen | screenCols = 10, xScroll = 0, a row of 10 bytes: the gutter and all 10 bytes are written, 12 columns on a 10-column screen | cut whenever `len > E.screenCols - LINE_START_SIZE`, so that the gutter and the text fit | not executed | Screen.BodyOverflowExample | Screen.BodyWidth |
| tomsEditor.c:503-506 | `headerPadding--` then `i = headerPadding; while (i--)` | screenCols = 21: headerLen = 20, headerPadding = (21 - 20) / 2 - 1 = -1, and `while (i--)` counts down from -1. With wrap-around it appends 2^32 - 1 spaces; in C the signed overflow is undefined | pad only when the padding is positive | not executed | Screen.HeaderOverflowAsWritten | Screen.HeaderWidth |
