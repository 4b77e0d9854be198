/**
 * The editor's state (`struct EditorConfig E`) as a value, and what each
 * operation that changes it does: the edit engine, the viewport and the key
 * dispatcher. The class in editor.dfy performs these operations in place and
 * is proved to agree with the functions here.
 */
module Engine {
  import opened Bytes
  import opened Tabs
  import opened Rows
  import opened Cursor
  import opened Keys

  const QUIT_ATTEMPTS: int := 3

  /**
   * The fields of `E` that the core reads or writes; `numberOfRows` is |rows|,
   * and `quitAttempts` is the static counter of `editorProcessKeypress`.
   */
  datatype EditorState = EditorState(
    cx: int, cy: int,
    screenRows: int, screenCols: int,
    rows: seq<Row>,
    yScroll: int, xScroll: int,
    fileModified: nat,
    quitAttempts: int)

  /** The screen size and the scroll offsets are in range. */
  predicate ViewInRange(s: EditorState)
  {
    && s.screenRows >= 0 && s.screenCols >= 0
    && s.yScroll >= 0
    && 0 <= s.xScroll <= s.screenCols
  }

  /** Every row's rendered form is its raw form expanded, and the view is in range. */
  predicate Valid(s: EditorState)
  {
    AllWellFormed(s.rows) && ViewInRange(s)
  }

  /** The row the edit operations work on: cy - HEADER_SIZE (the vertical scroll is not added). */
  function EditLine(s: EditorState): int
  {
    s.cy - HEADER_SIZE
  }

  /** `getCurrentLine`: the row the cursor is on once the vertical scroll is added. */
  function CurrentLine(s: EditorState): int
  {
    s.cy + s.yScroll - HEADER_SIZE
  }

  /** `getCursorPositionInRawFileLine` for the edit line. */
  function CursorRawColumn(s: EditorState): (i: nat)
    requires 0 <= EditLine(s) < |s.rows|
    ensures i <= |s.rows[EditLine(s)].rawChars|
  {
    RawColumn(|s.rows[EditLine(s)].rawChars|, s.cx)
  }

  /** The state with row `i` holding the raw bytes `raw` (its rendered form recomputed). */
  function SetRaw(s: EditorState, i: int, raw: seq<Byte>): (r: EditorState)
    requires 0 <= i < |s.rows|
  {
    s.(rows := s.rows[i := NewRow(raw)])
  }

  /**
   * `editorInsertChar`: on the row after the last one an empty row is added
   * first; on a row further down or above the first nothing happens.
   * InsertCharEffect states what happens otherwise.
   */
  function InsertChar(s: EditorState, c: Byte): (r: EditorState)
    requires Valid(s)
    ensures Valid(r)
    ensures EditLine(s) < 0 || EditLine(s) > |s.rows| ==> r == s
  {
    var line := EditLine(s);
    if line > |s.rows| || line < 0 then s
    else InsertIntoEditRow(WithEditRow(s), c)
  }

  /**
   * The byte goes in at the raw column, the other rows stay, the cursor moves
   * right unless it is beyond the new rendered length, and the file is marked
   * modified; nothing else changes.
   */
  lemma InsertCharEffect(s: EditorState, c: Byte)
    requires Valid(s) && 0 <= EditLine(s) <= |s.rows|
    ensures var r, line := InsertChar(s, c), EditLine(s);
      var old_raw := if line == |s.rows| then [] else s.rows[line].rawChars;
      && |r.rows| == (if line == |s.rows| then |s.rows| + 1 else |s.rows|)
      && r.rows[line].rawChars == InsertByteAt(old_raw, RawColumn(|old_raw|, s.cx), c)
      && (forall i :: 0 <= i < |s.rows| && i != line ==> r.rows[i] == s.rows[i])
      && r.cx == (if s.cx <= |r.rows[line].chars| then s.cx + 1 else s.cx)
      && r.fileModified == s.fileModified + 1
      && r.(rows := s.rows, cx := s.cx, fileModified := s.fileModified) == s
  {
    var s1 := WithEditRow(s);
    InsertIntoEditRowEffect(s1, c);
  }

  /** `editorInsertChar` once the edit row exists; InsertIntoEditRowEffect states its effect. */
  function InsertIntoEditRow(s: EditorState, c: Byte): (r: EditorState)
    requires Valid(s) && 0 <= EditLine(s) < |s.rows|
    ensures Valid(r)
  {
    var line := EditLine(s);
    var raw := InsertByteAt(s.rows[line].rawChars, CursorRawColumn(s), c);
    SetRowWellFormed(s.rows, line, raw);
    StepAfterInsert(SetRaw(s, line, raw))
  }

  /** The end of `editorInsertChar`: the cursor moves right unless beyond the edit row's rendered length; the file is marked modified. */
  function StepAfterInsert(s: EditorState): (r: EditorState)
    requires Valid(s) && 0 <= EditLine(s) < |s.rows|
    ensures Valid(r)
    ensures r.cx == (if s.cx <= |s.rows[EditLine(s)].chars| then s.cx + 1 else s.cx)
    ensures r.fileModified == s.fileModified + 1
    ensures r.(cx := s.cx, fileModified := s.fileModified) == s
  {
    var s1 := if s.cx <= |s.rows[EditLine(s)].chars| then s.(cx := s.cx + 1) else s;
    s1.(fileModified := s1.fileModified + 1)
  }

  /** Only the edit row, `cx` and `fileModified` change, as `editorInsertChar` says. */
  lemma InsertIntoEditRowEffect(s: EditorState, c: Byte)
    requires Valid(s) && 0 <= EditLine(s) < |s.rows|
    ensures var r, line := InsertIntoEditRow(s, c), EditLine(s);
      var old_raw := s.rows[line].rawChars;
      && |r.rows| == |s.rows|
      && r.rows[line].rawChars == InsertByteAt(old_raw, RawColumn(|old_raw|, s.cx), c)
      && (forall i :: 0 <= i < |s.rows| && i != line ==> r.rows[i] == s.rows[i])
      && r.cx == (if s.cx <= |r.rows[line].chars| then s.cx + 1 else s.cx)
      && r.fileModified == s.fileModified + 1
      && r.(rows := s.rows, cx := s.cx, fileModified := s.fileModified) == s
  {
  }

  /** The state with an empty row added when the edit line is the row after the last one. */
  function WithEditRow(s: EditorState): (r: EditorState)
    requires Valid(s) && 0 <= EditLine(s) <= |s.rows|
    ensures Valid(r) && EditLine(r) < |r.rows|
    ensures r.(rows := s.rows) == s
    ensures EditLine(s) == |s.rows| ==> r.rows == s.rows + [NewRow([])]
    ensures EditLine(s) < |s.rows| ==> r.rows == s.rows
  {
    if EditLine(s) == |s.rows| then
      InsertRowWellFormed(s.rows, |s.rows|, []);
      s.(rows := InsertRowAt(s.rows, |s.rows|, []))
    else s
  }

  /**
   * What `editorInsertNewLine` needs to stay within its row: a split at a
   * rendered column other than 0 reads the edit row and uses that column as a
   * raw index, so the row must exist and the column lie in [0, rawLength].
   */
  predicate NewLineOk(s: EditorState)
  {
    var line, at := EditLine(s), RenderedColumnOf(s.cx);
    at == 0 || (0 <= line < |s.rows| && 0 <= at <= |s.rows[line].rawChars|)
  }

  /**
   * `editorInsertNewLine`: at rendered column 0 an empty row is inserted before
   * the edit row (nothing if that index is out of range); elsewhere the row is
   * split at that column used as a raw index. The cursor goes to the start of
   * the next screen row.
   */
  function InsertNewLine(s: EditorState): (r: EditorState)
    requires Valid(s) && NewLineOk(s)
    ensures Valid(r)
    ensures r.cy == s.cy + 1 && r.cx == LINE_START_SIZE
    ensures r.(rows := s.rows, cx := s.cx, cy := s.cy) == s
    ensures var line, at := EditLine(s), RenderedColumnOf(s.cx);
      && (at == 0 ==> r.rows == InsertRowAt(s.rows, line, []))
      && (at != 0 ==>
        && |r.rows| == |s.rows| + 1
        && r.rows[line] == NewRow(s.rows[line].rawChars[..at])
        && r.rows[line + 1] == NewRow(s.rows[line].rawChars[at..])
        && r.rows[line].rawChars + r.rows[line + 1].rawChars == s.rows[line].rawChars
        && (forall i :: 0 <= i < line ==> r.rows[i] == s.rows[i])
        && (forall i :: line + 1 < i < |r.rows| ==> r.rows[i] == s.rows[i - 1]))
  {
    var line, at := EditLine(s), RenderedColumnOf(s.cx);
    var s1 :=
      if at == 0 then s.(rows := InsertRowAt(s.rows, line, []))
      else
        var raw := s.rows[line].rawChars;
        var t := s.(rows := InsertRowAt(s.rows, line + 1, raw[at..]));
        SetRaw(t, line, raw[..at]);
    assert at != 0 ==> s1.rows[line].rawChars + s1.rows[line + 1].rawChars == s.rows[line].rawChars by {
      if at != 0 {
        assert s.rows[line].rawChars[..at] + s.rows[line].rawChars[at..] == s.rows[line].rawChars;
      }
    }
    s1.(cy := s1.cy + 1, cx := LINE_START_SIZE)
  }

  /** A join (cursor left of the gutter) reads the previous row, so it needs an edit row past the first. */
  predicate DeleteOk(s: EditorState)
  {
    var line := EditLine(s);
    0 <= line < |s.rows| && RenderedColumnOf(s.cx) < 0 ==> line >= 1
  }

  /**
   * `editorRowDelChar` on the state: nothing unless 0 <= at < the rendered
   * length; otherwise a raw byte goes (the last one when at == rawLength).
   */
  function RowDelChar(s: EditorState, line: int, at: int): (r: EditorState)
    requires Valid(s) && 0 <= line < |s.rows| && at <= |s.rows[line].rawChars|
    ensures Valid(r)
    ensures at < 0 || at >= |s.rows[line].chars| ==> r == s
    ensures 0 <= at < |s.rows[line].chars| ==>
      && s.rows[line].rawChars != []
      && |r.rows| == |s.rows|
      && r.rows[line].rawChars == DeleteByteAt(s.rows[line].rawChars, at)
      && (forall i :: 0 <= i < |s.rows| && i != line ==> r.rows[i] == s.rows[i])
      && r.(rows := s.rows) == s
  {
    var row := s.rows[line];
    if at < 0 || at >= |row.chars| then s
    else
      ExpandLength(row.rawChars);
      SetRaw(s, line, DeleteByteAt(row.rawChars, at))
  }

  /**
   * `editorDeleteChar`: nothing outside the rows; left of the gutter the edit
   * row is joined to the previous one, otherwise the byte at the raw column
   * goes. DeleteCharEffect states the two cases.
   */
  function DeleteChar(s: EditorState): (r: EditorState)
    requires Valid(s) && DeleteOk(s)
    ensures Valid(r)
    ensures EditLine(s) >= |s.rows| || EditLine(s) < 0 ==> r == s
  {
    var line := EditLine(s);
    if line >= |s.rows| || line < 0 then s
    else if RenderedColumnOf(s.cx) < 0 then JoinRows(s)
    else DeleteAtCursor(s)
  }

  /** The join of `editorDeleteChar`: the previous row gains the edit row's rendered bytes and the edit row goes. */
  function JoinRows(s: EditorState): (r: EditorState)
    requires Valid(s) && 1 <= EditLine(s) < |s.rows|
    ensures Valid(r)
  {
    var line := EditLine(s);
    var newCx := |s.rows[line - 1].chars| + LINE_START_SIZE - 1;
    SetRowWellFormed(s.rows, line - 1, s.rows[line - 1].rawChars + s.rows[line].chars);
    var s1 := SetRaw(s, line - 1, s.rows[line - 1].rawChars + s.rows[line].chars);
    var s1 := s1.(fileModified := s1.fileModified + 1);
    DeleteRowWellFormed(s1.rows, line);
    var s2 := s1.(rows := DeleteRowAt(s1.rows, line));
    s2.(cy := s2.cy - 1, cx := newCx)
  }

  /** The other case of `editorDeleteChar`: `editorRowDelChar` at the raw column, then the cursor steps left. */
  function DeleteAtCursor(s: EditorState): (r: EditorState)
    requires Valid(s) && 0 <= EditLine(s) < |s.rows|
    ensures Valid(r)
    ensures r.rows == RowDelChar(s, EditLine(s), CursorRawColumn(s)).rows
    ensures r.cx == s.cx - 1 && r.fileModified == s.fileModified + 1
    ensures r.(rows := s.rows, cx := s.cx, fileModified := s.fileModified) == s
  {
    var s1 := RowDelChar(s, EditLine(s), CursorRawColumn(s));
    s1.(fileModified := s1.fileModified + 1, cx := s1.cx - 1)
  }

  /**
   * Left of the gutter the previous row's raw bytes gain the edit row's
   * rendered bytes, the edit row goes, the cursor moves to the join point on
   * the row above; otherwise the byte at the raw column goes and the cursor
   * moves left. Both count as a modification; nothing else changes.
   */
  lemma DeleteCharEffect(s: EditorState)
    requires Valid(s) && DeleteOk(s) && 0 <= EditLine(s) < |s.rows|
    ensures var r, line := DeleteChar(s), EditLine(s);
      && (RenderedColumnOf(s.cx) < 0 ==>
        && |r.rows| == |s.rows| - 1
        && r.rows[line - 1].rawChars == s.rows[line - 1].rawChars + s.rows[line].chars
        && (forall i :: 0 <= i < line - 1 ==> r.rows[i] == s.rows[i])
        && (forall i :: line <= i < |r.rows| ==> r.rows[i] == s.rows[i + 1])
        && r.cy == s.cy - 1
        && r.cx == |s.rows[line - 1].chars| + LINE_START_SIZE - 1
        && r.fileModified == s.fileModified + 1
        && r.(rows := s.rows, cx := s.cx, cy := s.cy, fileModified := s.fileModified) == s)
      && (RenderedColumnOf(s.cx) >= 0 ==>
        var at := CursorRawColumn(s);
        && (at < |s.rows[line].chars| ==>
          && s.rows[line].rawChars != []
          && |r.rows| == |s.rows|
          && r.rows[line].rawChars == DeleteByteAt(s.rows[line].rawChars, at)
          && (forall i :: 0 <= i < |s.rows| && i != line ==> r.rows[i] == s.rows[i]))
        && (at >= |s.rows[line].chars| ==> r.rows == s.rows)
        && r.cx == s.cx - 1
        && r.fileModified == s.fileModified + 1
        && r.(rows := s.rows, cx := s.cx, fileModified := s.fileModified) == s)
  {
    if RenderedColumnOf(s.cx) < 0 {
      JoinRowsEffect(s);
    }
  }

  lemma JoinRowsEffect(s: EditorState)
    requires Valid(s) && 1 <= EditLine(s) < |s.rows|
    ensures var r, line := JoinRows(s), EditLine(s);
      && |r.rows| == |s.rows| - 1
      && r.rows[line - 1].rawChars == s.rows[line - 1].rawChars + s.rows[line].chars
      && (forall i :: 0 <= i < line - 1 ==> r.rows[i] == s.rows[i])
      && (forall i :: line <= i < |r.rows| ==> r.rows[i] == s.rows[i + 1])
      && r.cy == s.cy - 1
      && r.cx == |s.rows[line - 1].chars| + LINE_START_SIZE - 1
      && r.fileModified == s.fileModified + 1
      && r.(rows := s.rows, cx := s.cx, cy := s.cy, fileModified := s.fileModified) == s
  {
  }

  /** The clamp of the scroll functions: below 0 becomes 0, then above `hi` becomes `hi`. */
  function ClampInto(v: int, hi: int): (r: int)
    ensures hi >= 0 ==> 0 <= r <= hi
    ensures 0 <= v <= hi ==> r == v
    ensures v < 0 && hi >= 0 ==> r == 0
    ensures v > hi ==> r == hi
  {
    var a := if v < 0 then 0 else v;
    if a > hi then hi else a
  }

  /** `scrollScreenY`: the vertical offset moves by `offset`, clamped to [0, numberOfRows]. */
  function ScrollScreenY(s: EditorState, offset: int): (r: EditorState)
    ensures 0 <= r.yScroll <= |s.rows|
    ensures 0 <= s.yScroll + offset <= |s.rows| ==> r.yScroll == s.yScroll + offset
    ensures r.(yScroll := s.yScroll) == s
  {
    s.(yScroll := ClampInto(s.yScroll + offset, |s.rows|))
  }

  /** `scrollScreenX`: the horizontal offset moves by `offset`, clamped to [0, screenCols]. */
  function ScrollScreenX(s: EditorState, offset: int): (r: EditorState)
    requires s.screenCols >= 0
    ensures 0 <= r.xScroll <= s.screenCols
    ensures 0 <= s.xScroll + offset <= s.screenCols ==> r.xScroll == s.xScroll + offset
    ensures r.(xScroll := s.xScroll) == s
  {
    s.(xScroll := ClampInto(s.xScroll + offset, s.screenCols))
  }

  predicate IsMoveKey(key: int)
  {
    key in {ARROW_UP, ARROW_DOWN, ARROW_LEFT, ARROW_RIGHT, END, CTRL_ARROW_LEFT, CTRL_ARROW_RIGHT}
  }

  /**
   * The rows `editorMoveCursor` reads: END and the word moves read the current
   * line's length, the word moves also read the edit row through
   * `getCursorPositionInRawFileLine`.
   */
  predicate MoveOk(s: EditorState, key: int)
  {
    && (key in {END, CTRL_ARROW_LEFT, CTRL_ARROW_RIGHT} ==> 0 <= CurrentLine(s) < |s.rows|)
    && (key in {CTRL_ARROW_LEFT, CTRL_ARROW_RIGHT} ==> 0 <= EditLine(s) < |s.rows|)
  }

  /** The cursor column after a word move, before clamping. */
  function WordMoveTarget(s: EditorState, key: int): (x: int)
    requires MoveOk(s, key) && key in {CTRL_ARROW_LEFT, CTRL_ARROW_RIGHT}
    ensures var lineLength := |s.rows[CurrentLine(s)].chars|;
      && (key == CTRL_ARROW_RIGHT ==> x >= s.cx && (s.cx < lineLength - 1 + LINE_START_SIZE ==> x <= lineLength - 1 + LINE_START_SIZE))
      && (key == CTRL_ARROW_RIGHT && s.cx >= lineLength - 1 + LINE_START_SIZE ==> x == s.cx)
      && (key == CTRL_ARROW_LEFT && s.cx > lineLength ==> x == lineLength + LINE_START_SIZE - 1)
      && (key == CTRL_ARROW_LEFT && s.cx <= lineLength ==> x <= s.cx && (s.cx >= 0 ==> x >= 0))
      && (key == CTRL_ARROW_LEFT && s.cx <= 0 ==> x == s.cx)
  {
    var chars := s.rows[CurrentLine(s)].chars;
    var rawLength := |s.rows[EditLine(s)].rawChars|;
    if key == CTRL_ARROW_LEFT then WordLeft(chars, rawLength, |chars|, s.cx)
    else WordRight(chars, rawLength, |chars|, s.cx)
  }

  /**
   * The clamping tail of `editorMoveCursor`: a coordinate below 0 becomes 0 and
   * nudges its scroll back by one; a column beyond screenCols or a row beyond
   * screenRows becomes that bound and nudges its scroll on by one.
   */
  function ClampCursor(s: EditorState): (r: EditorState)
    requires Valid(s)
    ensures Valid(r)
    ensures 0 <= r.cx <= s.screenCols && 0 <= r.cy <= s.screenRows
    ensures 0 <= s.cx <= s.screenCols ==> r.cx == s.cx && r.xScroll == s.xScroll
    ensures 0 <= s.cy <= s.screenRows ==> r.cy == s.cy && r.yScroll == s.yScroll
    ensures s.cx < 0 ==> r.cx == 0 && r.xScroll == ClampInto(s.xScroll - 1, s.screenCols)
    ensures s.cx > s.screenCols ==> r.cx == s.screenCols && r.xScroll == ClampInto(s.xScroll + 1, s.screenCols)
    ensures s.cy < 0 ==> r.cy == 0 && r.yScroll == ClampInto(s.yScroll - 1, |s.rows|)
    ensures s.cy > s.screenRows ==> r.cy == s.screenRows && r.yScroll == ClampInto(s.yScroll + 1, |s.rows|)
    ensures r.(cx := s.cx, cy := s.cy, xScroll := s.xScroll, yScroll := s.yScroll) == s
  {
    var s1 := if s.cx < 0 then ScrollScreenX(s.(cx := 0), -1) else s;
    var s2 := if s1.cy < 0 then ScrollScreenY(s1.(cy := 0), -1) else s1;
    var s3 := if s2.cx > s2.screenCols then ScrollScreenX(s2.(cx := s2.screenCols), 1) else s2;
    if s3.cy > s3.screenRows then ScrollScreenY(s3.(cy := s3.screenRows), 1) else s3
  }

  /** The cursor after the switch of `editorMoveCursor`, for a key other than END and before clamping. */
  function Moved(s: EditorState, key: int): (r: EditorState)
    requires MoveOk(s, key)
    ensures r.(cx := s.cx, cy := s.cy) == s
    ensures key == ARROW_LEFT ==> r.cx == s.cx - 1 && r.cy == s.cy
    ensures key == ARROW_RIGHT ==> r.cx == s.cx + 1 && r.cy == s.cy
    ensures key == ARROW_DOWN ==> r.cx == s.cx && r.cy == s.cy + 1
    ensures key == ARROW_UP ==> r.cx == s.cx && r.cy == s.cy - 1
    ensures key in {CTRL_ARROW_LEFT, CTRL_ARROW_RIGHT} ==> r.cx == WordMoveTarget(s, key) && r.cy == s.cy
    ensures !(key in {ARROW_LEFT, ARROW_RIGHT, ARROW_DOWN, ARROW_UP, CTRL_ARROW_LEFT, CTRL_ARROW_RIGHT}) ==> r == s
  {
    var nx :=
      if key == ARROW_LEFT then s.cx - 1
      else if key == ARROW_RIGHT then s.cx + 1
      else if key in {CTRL_ARROW_LEFT, CTRL_ARROW_RIGHT} then WordMoveTarget(s, key)
      else s.cx;
    var ny :=
      if key == ARROW_DOWN then s.cy + 1
      else if key == ARROW_UP then s.cy - 1
      else s.cy;
    s.(cx := nx, cy := ny)
  }

  /**
   * `editorMoveCursor`: END puts the cursor on the current line's last
   * rendered column and returns before any clamping; every other key moves the
   * cursor, then clamps it to the screen.
   */
  function MoveCursor(s: EditorState, key: int): (r: EditorState)
    requires Valid(s) && MoveOk(s, key)
    ensures Valid(r)
    ensures r.rows == s.rows && r.fileModified == s.fileModified && r.quitAttempts == s.quitAttempts
    ensures r.screenRows == s.screenRows && r.screenCols == s.screenCols
    ensures key == END ==> r == s.(cx := |s.rows[CurrentLine(s)].chars| - 1 + LINE_START_SIZE)
    ensures key != END ==> 0 <= r.cx <= s.screenCols && 0 <= r.cy <= s.screenRows
    ensures key != END ==> r == ClampCursor(Moved(s, key))
    ensures 0 <= s.yScroll <= |s.rows| ==> 0 <= r.yScroll <= |s.rows|
  {
    if key == END then s.(cx := |s.rows[CurrentLine(s)].chars| - 1 + LINE_START_SIZE)
    else ClampCursor(Moved(s, key))
  }

  /** `editorSave` on the state: a successful write clears the modified flag. */
  function Save(s: EditorState, storageOk: bool): (r: EditorState)
    ensures r.fileModified == (if storageOk then 0 else s.fileModified)
    ensures r.(fileModified := s.fileModified) == s
  {
    if storageOk then s.(fileModified := 0) else s
  }

  /** What each key needs of the state for the operation it triggers. */
  predicate KeyOk(s: EditorState, key: int)
  {
    && (key == ENTER ==> NewLineOk(s))
    && (key in {BACKSPACE, CTRL_H} ==> DeleteOk(s.(cx := s.cx - 1)))
    && (key == DELETE_KEY ==> DeleteOk(s))
    && (IsMoveKey(key) ==> MoveOk(s, key))
  }

  /** The state after a key, and whether the editor exits. */
  datatype Step = Step(state: EditorState, quit: bool)

  /**
   * `editorProcessKeypress` for a decoded key. Backspace and Ctrl-H move the
   * cursor left, delete as the Delete key does, and move it right again.
   * Ctrl-Q exits unless the file is modified and the counter is above 1, in
   * which case it only decrements the counter; every other key resets the
   * counter to QUIT_ATTEMPTS. A key with no binding is inserted as a byte.
   */
  function ProcessKeypress(s: EditorState, key: int, storageOk: bool): (r: Step)
    requires Valid(s) && KeyOk(s, key)
    ensures Valid(r.state)
    ensures r.quit <==> key == CTRL_Q && !(s.quitAttempts > 1 && s.fileModified != 0)
    ensures key == CTRL_Q && !r.quit ==> r.state == s.(quitAttempts := s.quitAttempts - 1)
    ensures key != CTRL_Q ==> r.state.quitAttempts == QUIT_ATTEMPTS
  {
    if key == CTRL_Q then
      if s.quitAttempts > 1 && s.fileModified != 0 then Step(s.(quitAttempts := s.quitAttempts - 1), false)
      else Step(s, true)
    else
      var t := Dispatch(s, key, storageOk);
      Step(t.(quitAttempts := QUIT_ATTEMPTS), false)
  }

  /** The operation a key other than Ctrl-Q triggers, before the quit counter is reset. */
  function Dispatch(s: EditorState, key: int, storageOk: bool): (r: EditorState)
    requires Valid(s) && KeyOk(s, key) && key != CTRL_Q
    ensures Valid(r)
    ensures key == CTRL_L || key == ESC_KEY ==> r == s
    ensures key == CTRL_S ==> r == Save(s, storageOk)
  {
    if key == ENTER then InsertNewLine(s)
    else if key == BACKSPACE || key == CTRL_H || key == DELETE_KEY then DeleteKey(s, key)
    else if key == CTRL_S then Save(s, storageOk)
    else if IsMoveKey(key) then MoveCursor(s, key)
    else if key == PAGE_UP then ScrollScreenY(s, -1)
    else if key == PAGE_DOWN then ScrollScreenY(s, 1)
    else if key == CTRL_L || key == ESC_KEY then s
    else InsertChar(s, key % 256)
  }

  /** Backspace and Ctrl-H delete with the cursor one column to the left, Delete under it; the cursor then steps right. */
  function DeleteKey(s: EditorState, key: int): (r: EditorState)
    requires Valid(s) && KeyOk(s, key) && (key == BACKSPACE || key == CTRL_H || key == DELETE_KEY)
    ensures Valid(r)
    ensures var d := DeleteChar(if key == DELETE_KEY then s else s.(cx := s.cx - 1));
      r == d.(cx := d.cx + 1)
  {
    var d := DeleteChar(if key == DELETE_KEY then s else s.(cx := s.cx - 1));
    d.(cx := d.cx + 1)
  }

  /**
   * Backspace at rendered column 0 of the row "bar" below the row "foo" joins
   * them into the one row "foobar" and leaves the cursor after "foo".
   */
  lemma BackspaceJoinExample()
    ensures var s := EditorState(LINE_START_SIZE, HEADER_SIZE + 1, 10, 20, [NewRow([102, 111, 111]), NewRow([98, 97, 114])], 0, 0, 0, QUIT_ATTEMPTS);
      && Valid(s) && KeyOk(s, BACKSPACE)
      && var r := DeleteKey(s, BACKSPACE);
        && |r.rows| == 1 && r.rows[0].rawChars == [102, 111, 111, 98, 97, 114]
        && r.cy == HEADER_SIZE && r.cx == 3 + LINE_START_SIZE
        && r.fileModified == 1
  {
    var foo, bar := [102, 111, 111], [98, 97, 114];
    ExpandIdentity(foo);
    ExpandIdentity(bar);
    var s := EditorState(LINE_START_SIZE, HEADER_SIZE + 1, 10, 20, [NewRow(foo), NewRow(bar)], 0, 0, 0, QUIT_ATTEMPTS);
    assert s.rows[0].chars == foo && s.rows[1].chars == bar;
    assert Valid(s);
    var t := s.(cx := s.cx - 1);
    assert DeleteOk(t);
    JoinRowsEffect(t);
    assert DeleteChar(t) == JoinRows(t);
    assert foo + bar == [102, 111, 111, 98, 97, 114];
  }

  /** Keys whose operation needs nothing of the state. */
  predicate FreeKey(key: int)
  {
    && key != ENTER && key != BACKSPACE && key != CTRL_H && key != DELETE_KEY
    && key != END && key != CTRL_ARROW_LEFT && key != CTRL_ARROW_RIGHT
  }

  lemma FreeKeyOk(s: EditorState, key: int)
    requires FreeKey(key)
    ensures KeyOk(s, key)
  {
  }

  /** Every key the main loop reaches, up to the one that quits, meets what its operation needs. */
  predicate RunOk(s: EditorState, keys: seq<int>, storageOk: bool)
    decreases |keys|
  {
    keys == [] ||
    (Valid(s) && KeyOk(s, keys[0]) &&
      var step := ProcessKeypress(s, keys[0], storageOk);
      step.quit || RunOk(step.state, keys[1..], storageOk))
  }

  /** Keys that need nothing of the state can always be run. */
  lemma {:induction false} FreeKeysRunOk(s: EditorState, keys: seq<int>, storageOk: bool)
    requires Valid(s) && forall i :: 0 <= i < |keys| ==> FreeKey(keys[i])
    ensures RunOk(s, keys, storageOk)
    decreases |keys|
  {
    if keys != [] {
      assert FreeKey(keys[0]);
      FreeKeyOk(s, keys[0]);
      var step := ProcessKeypress(s, keys[0], storageOk);
      FreeKeysRunOk(step.state, keys[1..], storageOk);
    }
  }

  /** The main loop over a sequence of keys, stopping at the key that quits. */
  function Run(s: EditorState, keys: seq<int>, storageOk: bool): (r: Step)
    requires Valid(s) && RunOk(s, keys, storageOk)
    ensures Valid(r.state)
    decreases |keys|
  {
    if keys == [] then Step(s, false)
    else
      var step := ProcessKeypress(s, keys[0], storageOk);
      if step.quit then step else Run(step.state, keys[1..], storageOk)
  }

  function Repeat(key: int, n: nat): (keys: seq<int>)
    ensures |keys| == n && forall i :: 0 <= i < n ==> keys[i] == key
  {
    seq(n, _ => key)
  }

  /**
   * With unsaved changes and the counter at q >= 1, Ctrl-Q pressed n times in
   * a row exits exactly when n >= q; until then the counter has dropped by n.
   */
  lemma {:induction false} QuitPresses(s: EditorState, n: nat, storageOk: bool)
    requires Valid(s) && s.fileModified != 0 && s.quitAttempts >= 1
    decreases n
    ensures RunOk(s, Repeat(CTRL_Q, n), storageOk)
    ensures Run(s, Repeat(CTRL_Q, n), storageOk).quit <==> n >= s.quitAttempts
    ensures n < s.quitAttempts ==> Run(s, Repeat(CTRL_Q, n), storageOk).state == s.(quitAttempts := s.quitAttempts - n)
  {
    if n > 0 {
      var step := ProcessKeypress(s, CTRL_Q, storageOk);
      assert Repeat(CTRL_Q, n)[1..] == Repeat(CTRL_Q, n - 1);
      if !step.quit {
        QuitPresses(step.state, n - 1, storageOk);
      }
    }
  }

  /** The confirmation as the user meets it: with unsaved changes, the third consecutive Ctrl-Q exits. */
  lemma QuitNeedsThreePresses(s: EditorState, storageOk: bool)
    requires Valid(s) && s.fileModified != 0 && s.quitAttempts == QUIT_ATTEMPTS
    ensures RunOk(s, [CTRL_Q, CTRL_Q], storageOk) && RunOk(s, [CTRL_Q, CTRL_Q, CTRL_Q], storageOk)
    ensures !Run(s, [CTRL_Q, CTRL_Q], storageOk).quit
    ensures Run(s, [CTRL_Q, CTRL_Q, CTRL_Q], storageOk).quit
  {
    QuitPresses(s, 2, storageOk);
    QuitPresses(s, 3, storageOk);
    assert Repeat(CTRL_Q, 2) == [CTRL_Q, CTRL_Q];
    assert Repeat(CTRL_Q, 3) == [CTRL_Q, CTRL_Q, CTRL_Q];
  }

  /** Any other key between two Ctrl-Q presses starts the count again. */
  lemma OtherKeyRestartsCount(s: EditorState, key: int, storageOk: bool)
    requires Valid(s) && KeyOk(s, key) && key != CTRL_Q
    requires ProcessKeypress(s, key, storageOk).state.fileModified != 0
    ensures RunOk(s, [key, CTRL_Q, CTRL_Q], storageOk)
    ensures !Run(s, [key, CTRL_Q, CTRL_Q], storageOk).quit
  {
    var t := ProcessKeypress(s, key, storageOk).state;
    assert [key, CTRL_Q, CTRL_Q][1..] == Repeat(CTRL_Q, 2);
    QuitPresses(t, 2, storageOk);
  }

  /** With no unsaved change one Ctrl-Q exits. */
  lemma QuitWhenUnmodified(s: EditorState, storageOk: bool)
    requires Valid(s) && s.fileModified == 0
    ensures ProcessKeypress(s, CTRL_Q, storageOk).quit
  {
  }

  predicate IsViewportKey(key: int)
  {
    FreeKey(key) && key in {ARROW_UP, ARROW_DOWN, ARROW_LEFT, ARROW_RIGHT, PAGE_UP, PAGE_DOWN}
  }

  /**
   * Any sequence of arrow and page keys keeps the vertical offset in
   * [0, numberOfRows], leaves the rows alone, and ends with the cursor inside
   * the screen after an arrow key.
   */
  lemma {:induction false} ViewportKeysKeepScroll(s: EditorState, keys: seq<int>, storageOk: bool)
    requires Valid(s) && 0 <= s.yScroll <= |s.rows|
    requires forall i :: 0 <= i < |keys| ==> IsViewportKey(keys[i])
    ensures RunOk(s, keys, storageOk)
    ensures var r := Run(s, keys, storageOk);
      !r.quit && r.state.rows == s.rows && 0 <= r.state.yScroll <= |s.rows|
    ensures keys != [] && keys[|keys| - 1] in {ARROW_UP, ARROW_DOWN, ARROW_LEFT, ARROW_RIGHT} ==>
      var r := Run(s, keys, storageOk).state;
      0 <= r.cx <= r.screenCols && 0 <= r.cy <= r.screenRows
    decreases |keys|
  {
    if keys != [] {
      FreeKeyOk(s, keys[0]);
      var step := ProcessKeypress(s, keys[0], storageOk);
      assert step.state.rows == s.rows && 0 <= step.state.yScroll <= |s.rows|;
      ViewportKeysKeepScroll(step.state, keys[1..], storageOk);
      if |keys| == 1 {
        assert keys[1..] == [];
      } else {
        assert keys[1..][|keys[1..]| - 1] == keys[|keys| - 1];
      }
    }
  }
}
