/**
 * The global `struct EditorConfig E` and the functions that change it in
 * place. Every method is proved to leave the editor in the state the matching
 * function of Engine computes from the state before the call.
 */
module Editor {
  import opened Bytes
  import opened Tabs
  import opened Rows
  import opened Cursor
  import opened Keys
  import opened Lines
  import Engine

  class Editor {
    /** The cursor, as a screen column and a screen row. */
    var cx: int
    var cy: int
    var screenRows: int
    var screenCols: int
    /** `rows[0..numberOfRows)`. */
    var rows: seq<Row>
    var yScroll: int
    var xScroll: int
    var fileModified: nat
    /** The static counter of `editorProcessKeypress`. */
    var quitAttempts: int

    function State(): Engine.EditorState
      reads this
    {
      Engine.EditorState(cx, cy, screenRows, screenCols, rows, yScroll, xScroll, fileModified, quitAttempts)
    }

    predicate Valid()
      reads this
    {
      Engine.Valid(State())
    }

    /** `initEditor` with the window size it measured; the counter starts at QUIT_ATTEMPTS. */
    constructor (screenRows: int, screenCols: int)
      requires screenRows >= 0 && screenCols >= 0
      ensures Valid()
      ensures State() == Engine.EditorState(0, 0, screenRows, screenCols, [], 0, 0, 0, Engine.QUIT_ATTEMPTS)
    {
      this.cx := 0;
      this.cy := 0;
      this.screenRows := screenRows;
      this.screenCols := screenCols;
      this.rows := [];
      this.yScroll := 0;
      this.xScroll := 0;
      this.fileModified := 0;
      this.quitAttempts := Engine.QUIT_ATTEMPTS;
    }

    /** `editorUpdateRow` applied to row `at` once its raw bytes are `raw`. */
    method SetRow(at: int, raw: seq<Byte>)
      requires Valid() && 0 <= at < |rows|
      modifies this`rows
      ensures Valid()
      ensures State() == Engine.SetRaw(old(State()), at, raw)
    {
      var chars := RenderRow(raw);
      rows := rows[at := Row(chars, raw)];
    }

    /** `editorInsertRow`. */
    method InsertRow(at: int, raw: seq<Byte>)
      requires Valid()
      modifies this`rows
      ensures Valid()
      ensures State() == old(State()).(rows := InsertRowAt(old(rows), at, raw))
    {
      if at < 0 || at > |rows| {
        return;
      }
      var chars := RenderRow(raw);
      rows := rows[..at] + [Row(chars, raw)] + rows[at..];
    }

    /** `editorDelRow`. */
    method DelRow(rowIndex: int)
      requires Valid()
      modifies this`rows
      ensures Valid()
      ensures State() == old(State()).(rows := DeleteRowAt(old(rows), rowIndex))
    {
      if rowIndex < 0 || rowIndex >= |rows| {
        return;
      }
      rows := rows[..rowIndex] + rows[rowIndex + 1..];
    }

    /** `editorRowAppendString`: `str` goes after the row's raw bytes and the file counts as modified. */
    method RowAppendString(line: int, str: seq<Byte>)
      requires Valid() && 0 <= line < |rows|
      modifies this
      ensures Valid()
      ensures State() == Engine.SetRaw(old(State()), line, old(rows[line].rawChars) + str).(fileModified := old(fileModified) + 1)
    {
      var raw := rows[line].rawChars + str;
      fileModified := fileModified + 1;
      SetRow(line, raw);
    }

    /** `editorRowInsertChar`. */
    method RowInsertChar(line: int, at: int, c: Byte)
      requires Valid() && 0 <= line < |rows|
      modifies this`rows
      ensures Valid()
      ensures State() == Engine.SetRaw(old(State()), line, InsertByteAt(old(rows[line].rawChars), at, c))
    {
      var raw := rows[line].rawChars;
      var k := if at < 0 || at > |raw| then |raw| else at;
      SetRow(line, raw[..k] + [c] + raw[k..]);
    }

    /** `editorRowDelChar`: the bound is the rendered length, the byte removed a raw one. */
    method RowDelChar(line: int, at: int)
      requires Valid() && 0 <= line < |rows| && at <= |rows[line].rawChars|
      modifies this`rows
      ensures Valid()
      ensures State() == Engine.RowDelChar(old(State()), line, at)
    {
      if at < 0 || at >= |rows[line].chars| {
        return;
      }
      var raw := rows[line].rawChars;
      ExpandLength(raw);
      SetRow(line, if at < |raw| then raw[..at] + raw[at + 1..] else raw[..|raw| - 1]);
    }

    /**
     * `getCursorPositionInRawFileLine`: walks the edit row's rendered bytes,
     * counting TAB_SIZE for a tab and 1 for any other byte, until rawLength
     * steps or the rendered column under the cursor is reached.
     */
    method CursorPositionInRawFileLine() returns (i: nat)
      requires 0 <= cy - HEADER_SIZE < |rows| && WellFormed(rows[cy - HEADER_SIZE])
      ensures i == RawColumn(|rows[cy - HEADER_SIZE].rawChars|, cx)
    {
      var posInRender := RenderedColumnOf(cx);
      var row := rows[cy - HEADER_SIZE];
      ExpandTabFree(row.rawChars);
      ExpandLength(row.rawChars);
      i := 0;
      var total := 0;
      while i < |row.rawChars| && total < posInRender
        invariant 0 <= i <= |row.rawChars|
        invariant total == i
        invariant i == 0 || i <= posInRender
      {
        total := if row.chars[i] == TAB then total + TAB_SIZE else total + 1;
        i := i + 1;
      }
    }

    /** `getCurrentLine`. */
    function CurrentLine(): (line: int)
      reads this
      ensures line == Engine.CurrentLine(State())
    {
      cy + yScroll - HEADER_SIZE
    }

    /**
     * `getCurrentSelctedChar`: NUL beyond the current line's rendered length,
     * otherwise the current line's rendered byte at the edit row's raw column.
     */
    method CurrentSelectedChar() returns (b: Byte)
      requires 0 <= CurrentLine() < |rows| && 0 <= cy - HEADER_SIZE < |rows| && WellFormed(rows[cy - HEADER_SIZE])
      ensures b == SelectedChar(rows[CurrentLine()].chars, |rows[cy - HEADER_SIZE].rawChars|, cx)
    {
      var chars := rows[CurrentLine()].chars;
      if RenderedColumnOf(cx) > |chars| {
        return NUL;
      }
      var i := CursorPositionInRawFileLine();
      // the index equal to the length reads the terminating NUL
      b := if i < |chars| then chars[i] else NUL;
    }

    /** `editorInsertChar`. */
    method InsertChar(c: Byte)
      requires Valid()
      modifies this
      ensures Valid()
      ensures State() == Engine.InsertChar(old(State()), c)
    {
      var line := cy - HEADER_SIZE;
      if line == |rows| {
        InsertRow(|rows|, []);
      } else if line > |rows| {
        return;
      } else if line < 0 {
        return;
      }
      InsertIntoEditRow(c);
    }

    /** `editorInsertChar` once the edit row exists. */
    method InsertIntoEditRow(c: Byte)
      requires Valid() && 0 <= cy - HEADER_SIZE < |rows|
      modifies this
      ensures Valid()
      ensures State() == Engine.InsertIntoEditRow(old(State()), c)
    {
      var line := cy - HEADER_SIZE;
      var at := CursorPositionInRawFileLine();
      RowInsertChar(line, at, c);
      StepAfterInsert();
    }

    /** The end of `editorInsertChar`: the cursor step and the modified mark. */
    method StepAfterInsert()
      requires Valid() && 0 <= cy - HEADER_SIZE < |rows|
      modifies this`cx, this`fileModified
      ensures Valid()
      ensures State() == Engine.StepAfterInsert(old(State()))
    {
      if cx <= |rows[cy - HEADER_SIZE].chars| {
        cx := cx + 1;
      }
      fileModified := fileModified + 1;
    }

    /** `editorInsertNewLine`. */
    method InsertNewLine()
      requires Valid() && Engine.NewLineOk(State())
      modifies this
      ensures Valid()
      ensures State() == Engine.InsertNewLine(old(State()))
    {
      var line := cy - HEADER_SIZE;
      var at := RenderedColumnOf(cx);
      if at == 0 {
        InsertRow(line, []);
      } else {
        var raw := rows[line].rawChars;
        InsertRow(line + 1, raw[at..]);
        SetRow(line, raw[..at]);
      }
      cy := cy + 1;
      cx := LINE_START_SIZE;
    }

    /** `editorDeleteChar`. */
    method DeleteChar()
      requires Valid() && Engine.DeleteOk(State())
      modifies this
      ensures Valid()
      ensures State() == Engine.DeleteChar(old(State()))
    {
      var line := cy - HEADER_SIZE;
      if line >= |rows| || line < 0 {
        return;
      } else if RenderedColumnOf(cx) < 0 {
        JoinRows();
      } else {
        DeleteAtCursor();
      }
    }

    /** The join of `editorDeleteChar`. */
    method JoinRows()
      requires Valid() && 1 <= cy - HEADER_SIZE < |rows|
      modifies this
      ensures Valid()
      ensures State() == Engine.JoinRows(old(State()))
    {
      var line := cy - HEADER_SIZE;
      var newCx := |rows[line - 1].chars| + LINE_START_SIZE - 1;
      RowAppendString(line - 1, rows[line].chars);
      DelRow(line);
      cy := cy - 1;
      cx := newCx;
    }

    /** The other case of `editorDeleteChar`. */
    method DeleteAtCursor()
      requires Valid() && 0 <= cy - HEADER_SIZE < |rows|
      modifies this
      ensures Valid()
      ensures State() == Engine.DeleteAtCursor(old(State()))
    {
      var at := CursorPositionInRawFileLine();
      RowDelChar(cy - HEADER_SIZE, at);
      fileModified := fileModified + 1;
      cx := cx - 1;
    }

    /** `scrollScreenY`. */
    method ScrollScreenY(offset: int)
      modifies this`yScroll
      ensures State() == Engine.ScrollScreenY(old(State()), offset)
    {
      yScroll := yScroll + offset;
      if yScroll < 0 {
        yScroll := 0;
      }
      if yScroll > |rows| {
        yScroll := |rows|;
      }
    }

    /** `scrollScreenX`. */
    method ScrollScreenX(offset: int)
      requires screenCols >= 0
      modifies this`xScroll
      ensures State() == Engine.ScrollScreenX(old(State()), offset)
    {
      xScroll := xScroll + offset;
      if xScroll < 0 {
        xScroll := 0;
      }
      if xScroll > screenCols {
        xScroll := screenCols;
      }
    }

    /**
     * One loop of the CTRL_ARROW_LEFT case of `editorMoveCursor`: while cx > 0
     * and "the selected byte is a space" equals `overSpaces`, step left.
     */
    method StepLeftWhile(overSpaces: bool)
      requires 0 <= CurrentLine() < |rows| && 0 <= cy - HEADER_SIZE < |rows| && WellFormed(rows[cy - HEADER_SIZE])
      modifies this`cx
      ensures cx == SkipLeft(rows[CurrentLine()].chars, |rows[cy - HEADER_SIZE].rawChars|, old(cx), overSpaces)
    {
      ghost var chars, rawLength := rows[CurrentLine()].chars, |rows[cy - HEADER_SIZE].rawChars|;
      ghost var target := SkipLeft(chars, rawLength, cx, overSpaces);
      while cx > 0
        invariant chars == rows[CurrentLine()].chars && rawLength == |rows[cy - HEADER_SIZE].rawChars|
        invariant SkipLeft(chars, rawLength, cx, overSpaces) == target
        decreases cx
      {
        var ch := CurrentSelectedChar();
        if (ch == SPACE) != overSpaces {
          break;
        }
        cx := cx - 1;
      }
    }

    /**
     * One loop of the CTRL_ARROW_RIGHT case of `editorMoveCursor`: while
     * cx < limit and "the selected byte is a space" equals `overSpaces`, step right.
     */
    method StepRightWhile(limit: int, overSpaces: bool)
      requires 0 <= CurrentLine() < |rows| && 0 <= cy - HEADER_SIZE < |rows| && WellFormed(rows[cy - HEADER_SIZE])
      modifies this`cx
      ensures cx == SkipRight(rows[CurrentLine()].chars, |rows[cy - HEADER_SIZE].rawChars|, limit, old(cx), overSpaces)
    {
      ghost var chars, rawLength := rows[CurrentLine()].chars, |rows[cy - HEADER_SIZE].rawChars|;
      ghost var target := SkipRight(chars, rawLength, limit, cx, overSpaces);
      while cx < limit
        invariant chars == rows[CurrentLine()].chars && rawLength == |rows[cy - HEADER_SIZE].rawChars|
        invariant SkipRight(chars, rawLength, limit, cx, overSpaces) == target
        decreases limit - cx
      {
        var ch := CurrentSelectedChar();
        if (ch == SPACE) != overSpaces {
          break;
        }
        cx := cx + 1;
      }
    }

    /** The switch of `editorMoveCursor` for a key other than END. */
    method MovePosition(key: int)
      requires Valid() && Engine.MoveOk(State(), key) && key != END
      modifies this`cx, this`cy
      ensures State() == Engine.Moved(old(State()), key)
    {
      if key == ARROW_LEFT {
        cx := cx - 1;
      } else if key == ARROW_DOWN {
        cy := cy + 1;
      } else if key == ARROW_UP {
        cy := cy - 1;
      } else if key == ARROW_RIGHT {
        cx := cx + 1;
      } else if key == CTRL_ARROW_LEFT {
        WordLeft();
      } else if key == CTRL_ARROW_RIGHT {
        WordRight();
      }
    }

    /** The CTRL_ARROW_LEFT case of `editorMoveCursor`. */
    method WordLeft()
      requires Engine.MoveOk(State(), CTRL_ARROW_LEFT) && WellFormed(rows[cy - HEADER_SIZE])
      modifies this`cx
      ensures cx == Engine.WordMoveTarget(old(State()), CTRL_ARROW_LEFT)
    {
      var lineLength := |rows[CurrentLine()].chars|;
      if cx > lineLength {
        cx := lineLength + LINE_START_SIZE - 1;
      } else {
        StepLeftWhile(false);
        StepLeftWhile(true);
      }
    }

    /** The CTRL_ARROW_RIGHT case of `editorMoveCursor`. */
    method WordRight()
      requires Engine.MoveOk(State(), CTRL_ARROW_RIGHT) && WellFormed(rows[cy - HEADER_SIZE])
      modifies this`cx
      ensures cx == Engine.WordMoveTarget(old(State()), CTRL_ARROW_RIGHT)
    {
      ghost var chars, rawLength, cx0 := rows[CurrentLine()].chars, |rows[cy - HEADER_SIZE].rawChars|, cx;
      var lineLength := |rows[CurrentLine()].chars|;
      var limit := lineLength - 1 + LINE_START_SIZE;
      StepRightWhile(limit, false);
      assert cx == SkipRight(chars, rawLength, limit, cx0, false);
      StepRightWhile(limit, true);
    }

    /** The clamping tail of `editorMoveCursor`. */
    method ClampCursor()
      requires Valid()
      modifies this
      ensures Valid()
      ensures State() == Engine.ClampCursor(old(State()))
    {
      if cx < 0 {
        cx := 0;
        ScrollScreenX(-1);
      }
      if cy < 0 {
        cy := 0;
        ScrollScreenY(-1);
      }
      if cx > screenCols {
        cx := screenCols;
        ScrollScreenX(1);
      }
      if cy > screenRows {
        cy := screenRows;
        ScrollScreenY(1);
      }
    }

    /** `editorMoveCursor`. */
    method MoveCursor(key: int)
      requires Valid() && Engine.MoveOk(State(), key)
      modifies this
      ensures Valid()
      ensures State() == Engine.MoveCursor(old(State()), key)
    {
      if key == END {
        cx := |rows[CurrentLine()].chars| - 1 + LINE_START_SIZE;
        return;
      }
      MovePosition(key);
      ClampCursor();
    }

    /**
     * `editorRowsToString`: one pass adds up the lengths, a second copies each
     * row's rendered bytes into the buffer and puts a newline after them.
     */
    method RowsToString() returns (buf: array<Byte>, bufLength: int)
      ensures fresh(buf)
      ensures bufLength == buf.Length && buf[..] == Serialised(rows)
    {
      var totalLength := SumLengths(rows);
      bufLength := totalLength;
      buf := new Byte[totalLength];
      CopyRows(rows, buf);
    }

    /**
     * `editorSave`: the bytes written are the saved form of the rows; when the
     * file could be opened and truncated (`storageOk`) the modified count
     * returns to 0.
     */
    method Save(storageOk: bool) returns (written: seq<Byte>)
      modifies this`fileModified
      ensures written == Serialised(rows)
      ensures State() == Engine.Save(old(State()), storageOk)
    {
      var buf, len := RowsToString();
      written := buf[..len];
      if storageOk {
        fileModified := 0;
      }
    }

    /**
     * `editorOpen` after `getline` has cut the file into lines: each line,
     * stripped of its trailing CR/LF bytes, is appended as a row.
     */
    method Open(content: seq<Byte>)
      requires Valid()
      modifies this`rows
      ensures Valid()
      ensures |rows| == |old(rows)| + |OpenedLines(content)|
      ensures rows[..|old(rows)|] == old(rows)
      ensures forall i :: 0 <= i < |OpenedLines(content)| ==> rows[|old(rows)| + i] == NewRow(OpenedLines(content)[i])
      ensures State() == old(State()).(rows := rows)
    {
      var lines := GetLines(content);
      ghost var stripped := OpenedLines(content);
      var k := 0;
      while k < |lines|
        invariant 0 <= k <= |lines|
        invariant Valid()
        invariant |rows| == |old(rows)| + k && rows[..|old(rows)|] == old(rows)
        invariant forall i :: 0 <= i < k ==> rows[|old(rows)| + i] == NewRow(stripped[i])
      {
        AppendLine(lines[k]);
        k := k + 1;
      }
    }

    /** One pass of the `editorOpen` loop: the line, its trailing CR and LF bytes stripped, becomes a new last row. */
    method AppendLine(line: seq<Byte>)
      requires Valid()
      modifies this`rows
      ensures Valid()
      ensures rows == old(rows) + [NewRow(StripLineEnd(line))]
    {
      var lineLen := StripLength(line);
      InsertRow(|rows|, line[..lineLen]);
    }

    /** `editorProcessKeypress` for the key `editorKeyRead` returned; `quit` stands for `exit(0)`. */
    method ProcessKeypress(key: int, storageOk: bool) returns (quit: bool)
      requires Valid() && Engine.KeyOk(State(), key)
      modifies this
      ensures Valid()
      ensures Engine.Step(State(), quit) == Engine.ProcessKeypress(old(State()), key, storageOk)
    {
      quit := false;
      if key == CTRL_Q {
        if quitAttempts > 1 && fileModified != 0 {
          quitAttempts := quitAttempts - 1;
          return;
        }
        return true;
      }
      Dispatch(key, storageOk);
      quitAttempts := Engine.QUIT_ATTEMPTS;
    }

    /** The delete keys of `editorProcessKeypress`. */
    method DeleteKey(key: int)
      requires Valid() && Engine.KeyOk(State(), key) && (key == BACKSPACE || key == CTRL_H || key == DELETE_KEY)
      modifies this
      ensures Valid()
      ensures State() == Engine.DeleteKey(old(State()), key)
    {
      if key != DELETE_KEY {
        cx := cx - 1;
      }
      DeleteChar();
      cx := cx + 1;
    }

    /** The switch of `editorProcessKeypress` for a key other than Ctrl-Q. */
    method Dispatch(key: int, storageOk: bool)
      requires Valid() && Engine.KeyOk(State(), key) && key != CTRL_Q
      modifies this
      ensures Valid()
      ensures State() == Engine.Dispatch(old(State()), key, storageOk)
    {
      if key == ENTER {
        InsertNewLine();
      } else if key == BACKSPACE || key == CTRL_H || key == DELETE_KEY {
        DeleteKey(key);
      } else if key == CTRL_S {
        var _ := Save(storageOk);
      } else if Engine.IsMoveKey(key) {
        MoveCursor(key);
      } else if key == PAGE_UP {
        ScrollScreenY(-1);
      } else if key == PAGE_DOWN {
        ScrollScreenY(1);
      } else if key == CTRL_L || key == ESC_KEY {
      } else {
        InsertChar(key % 256);
      }
    }
  }
}
