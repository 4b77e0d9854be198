/**
 * What one refresh writes to the terminal (`editorRefreshScreen` and
 * `editorDrawRows`): a header line, one line per body row, a status bar, and
 * the escape sequences that hide, home, place and show the cursor.
 */
module Screen {
  import opened Bytes
  import opened Tabs
  import opened Cursor
  import opened Keys
  import opened Engine
  import opened AppendBuffers

  /** "TOMS EDITOR WELCOME!" */
  const HEADER_MESSAGE: seq<Byte> := [84, 79, 77, 83, 32, 69, 68, 73, 84, 79, 82, 32, 87, 69, 76, 67, 79, 77, 69, 33]
  const STATUS_MESSAGE_LIFE_TIME: int := 5
  /** `int` is 32 bits wide. */
  const INT_RANGE: int := 0x1_0000_0000

  // Terminal escape sequences and fixed texts, as bytes.
  /** ESC "[K" */
  const CLEAR_LINE: seq<Byte> := [ESC, 91, 75]
  /** ESC "[7m" */
  const INVERSE: seq<Byte> := [ESC, 91, 55, 109]
  /** ESC "[1m" */
  const BOLD: seq<Byte> := [ESC, 91, 49, 109]
  /** ESC "[0m" */
  const RESET: seq<Byte> := [ESC, 91, 48, 109]
  /** ESC "[m" */
  const RESET_SHORT: seq<Byte> := [ESC, 91, 109]
  /** ESC "[?25l" */
  const HIDE_CURSOR: seq<Byte> := [ESC, 91, 63, 50, 53, 108]
  /** ESC "[?25h" */
  const SHOW_CURSOR: seq<Byte> := [ESC, 91, 63, 50, 53, 104]
  /** ESC "[1;1H" */
  const HOME: seq<Byte> := [ESC, 91, 49, 59, 49, 72]
  const CRLF: seq<Byte> := [CR, LF]
  const GUTTER: seq<Byte> := [TILDE, SPACE]
  const MINUS: Byte := 45
  const SLASH: Byte := 47
  const LETTER_H: Byte := 72
  /** "N/A" */
  const NOT_AVAILABLE: seq<Byte> := [78, 47, 65]
  /** " FILE PATH: " */
  const FILE_PATH_LABEL: seq<Byte> := [32, 70, 73, 76, 69, 32, 80, 65, 84, 72, 58, 32]
  /** " LINE NUMBER: " */
  const LINE_NUMBER_LABEL: seq<Byte> := [32, 76, 73, 78, 69, 32, 78, 85, 77, 66, 69, 82, 58, 32]
  /** " STATUS MESSAGE: " */
  const STATUS_MESSAGE_LABEL: seq<Byte> := [32, 83, 84, 65, 84, 85, 83, 32, 77, 69, 83, 83, 65, 71, 69, 58, 32]

  /** The decimal digits of `n`, most significant first, as `%d` prints them. */
  function Digits(n: nat): (d: seq<Byte>)
    ensures 1 <= |d|
    ensures forall i :: 0 <= i < |d| ==> IsDigit(d[i])
  {
    if n < 10 then [DIGIT_0 + n] else Digits(n / 10) + [DIGIT_0 + n % 10]
  }

  /** `%d`: a minus sign for a negative number, then the digits of its magnitude. */
  function Decimal(n: int): seq<Byte>
  {
    if n < 0 then [MINUS] + Digits(-n) else Digits(n)
  }

  /** The value of a run of decimal digits. */
  function DigitsValue(d: seq<Byte>): nat
  {
    if d == [] then 0
    else
      var last := d[|d| - 1];
      DigitsValue(d[..|d| - 1]) * 10 + (if IsDigit(last) then last - DIGIT_0 else 0)
  }

  /** Reading back what `%d` printed. */
  function ParseDecimal(d: seq<Byte>): (n: int)
    ensures d != [] && d[0] != MINUS ==> n >= 0
  {
    if d != [] && d[0] == MINUS then 0 - DigitsValue(d[1..]) as int else DigitsValue(d)
  }

  lemma {:induction false} DigitsRoundTrip(n: nat)
    ensures DigitsValue(Digits(n)) == n
  {
    if n >= 10 {
      DigitsRoundTrip(n / 10);
      var d := Digits(n);
      assert d[..|d| - 1] == Digits(n / 10);
    }
  }

  /** What `%d` prints reads back as the number printed. */
  lemma DecimalRoundTrip(n: int)
    ensures ParseDecimal(Decimal(n)) == n
  {
    if n < 0 {
      DigitsRoundTrip(-n);
      assert Decimal(n)[1..] == Digits(-n);
    } else {
      DigitsRoundTrip(n);
      assert IsDigit(Digits(n)[0]);
    }
  }

  /** The bytes of the header message that fit: `headerLen`. */
  function HeaderLength(screenCols: int): (n: int)
    ensures n <= |HEADER_MESSAGE| == 20
    ensures screenCols >= 0 ==> 0 <= n <= screenCols
    ensures screenCols >= 20 ==> n == 20
    ensures screenCols < 20 ==> n == screenCols
  {
    if |HEADER_MESSAGE| > screenCols then screenCols else |HEADER_MESSAGE|
  }

  /** `headerPadding` after its decrement: half the free columns, less one for the '~'. */
  function HeaderPadding(screenCols: int): (p: int)
    requires screenCols >= 0
    ensures -1 <= p < screenCols
  {
    (screenCols - HeaderLength(screenCols)) / 2 - 1
  }

  /**
   * How many times `while (i--)` runs from a 32-bit `i`: `i` times when it is
   * not negative; from a negative start it counts down through the wrap-around
   * from INT_MIN to INT_MAX before it reaches 0.
   */
  function PostDecrementLoopCount(i: int): (n: nat)
    requires -INT_RANGE / 2 <= i < INT_RANGE / 2
    ensures i >= 0 ==> n == i
    ensures i < 0 ==> n == i + INT_RANGE
  {
    if i >= 0 then i else i + INT_RANGE
  }

  /** The header line's visible text as the code writes it: '~', padding, the message, padding. */
  function HeaderTextAsWritten(screenCols: int): seq<Byte>
    requires 0 <= screenCols < INT_RANGE / 2
  {
    var p := HeaderPadding(screenCols);
    [TILDE] + Spaces(PostDecrementLoopCount(p)) + HEADER_MESSAGE[..HeaderLength(screenCols)] + Spaces(p + 1)
  }

  /** On a screen at most 21 columns wide the first padding loop starts at -1 and runs 2^32 - 1 times. */
  lemma HeaderOverflowAsWritten(screenCols: int)
    requires 0 <= screenCols <= 21
    ensures HeaderPadding(screenCols) == -1
    ensures |HeaderTextAsWritten(screenCols)| > INT_RANGE - 1 > screenCols
  {
  }

  /** The header line's visible text with the first padding loop skipped when the padding is negative. */
  function HeaderText(screenCols: int): seq<Byte>
    requires screenCols >= 0
  {
    var p := HeaderPadding(screenCols);
    [TILDE] + Spaces(if p < 0 then 0 else p) + HEADER_MESSAGE[..HeaderLength(screenCols)] + Spaces(p + 1)
  }

  /**
   * The corrected header is centred: from 22 columns on it fills the screen
   * or leaves one column free, and it agrees with the code there; on a
   * narrower screen only the leading '~' can overhang.
   */
  lemma HeaderWidth(screenCols: int)
    requires screenCols >= 0
    ensures |HeaderText(screenCols)| <= screenCols + 1
    ensures screenCols >= 22 ==> screenCols - 1 <= |HeaderText(screenCols)| <= screenCols
    ensures 22 <= screenCols < INT_RANGE / 2 ==> HeaderText(screenCols) == HeaderTextAsWritten(screenCols)
  {
  }

  /** The header block of `editorDrawRows`. */
  function Header(screenCols: int): seq<Byte>
    requires screenCols >= 0
  {
    CLEAR_LINE + INVERSE + BOLD + HeaderText(screenCols) + RESET + CRLF
  }

  /** How many body lines `editorDrawRows` draws: all screen rows but the header and the status bar. */
  function BodyCount(s: EditorState): (n: nat)
    ensures s.screenRows >= HEADER_SIZE + 1 ==> n == s.screenRows - HEADER_SIZE - 1
    ensures s.screenRows < HEADER_SIZE + 1 ==> n == 0
  {
    if s.screenRows - HEADER_SIZE - 1 < 0 then 0 else s.screenRows - HEADER_SIZE - 1
  }

  /** The bytes of row `line` from column `xScroll` on, `len` of them, or none when `len` is not positive. */
  function Slice(chars: seq<Byte>, xScroll: nat, len: int): (r: seq<Byte>)
    requires len <= |chars| - xScroll
    ensures len > 0 ==> r == chars[xScroll..xScroll + len]
    ensures len <= 0 ==> r == []
  {
    if len > 0 then chars[xScroll..xScroll + len] else []
  }

  /** `len` of a body line as written: the row's length past the scroll, cut to screenCols - 2 only when it exceeds screenCols. */
  function BodyLengthAsWritten(s: EditorState, line: int): (len: int)
    requires ViewInRange(s) && 0 <= line < |s.rows|
    ensures len <= |s.rows[line].chars| - s.xScroll
  {
    var len := |s.rows[line].chars| - s.xScroll;
    if len > s.screenCols then s.screenCols - LINE_START_SIZE else len
  }

  /** `len` cut as soon as the line would not fit beside the gutter. */
  function BodyLength(s: EditorState, line: int): (len: int)
    requires ViewInRange(s) && 0 <= line < |s.rows|
    ensures len <= |s.rows[line].chars| - s.xScroll
  {
    var len := |s.rows[line].chars| - s.xScroll;
    if len > s.screenCols - LINE_START_SIZE then s.screenCols - LINE_START_SIZE else len
  }

  function BodyTextAsWritten(s: EditorState, y: nat): seq<Byte>
    requires ViewInRange(s)
  {
    var line := y + s.yScroll;
    GUTTER + (if line < |s.rows| then Slice(s.rows[line].chars, s.xScroll, BodyLengthAsWritten(s, line)) else [])
  }

  /**
   * A row whose visible part is longer than screenCols - 2 but not longer than
   * screenCols is written in full after the gutter and runs past the screen.
   */
  lemma BodyOverflowAsWritten(s: EditorState, y: nat)
    requires ViewInRange(s) && y + s.yScroll < |s.rows|
    requires s.screenCols - LINE_START_SIZE < |s.rows[y + s.yScroll].chars| - s.xScroll <= s.screenCols
    ensures |BodyTextAsWritten(s, y)| == LINE_START_SIZE + |s.rows[y + s.yScroll].chars| - s.xScroll > s.screenCols
  {
  }

  /** A concrete screen of 10 columns showing a 10-byte row: the line is 12 columns wide. */
  lemma BodyOverflowExample()
    ensures var s := EditorState(2, 1, 5, 10, [Rows.NewRow(Spaces(10))], 0, 0, 0, QUIT_ATTEMPTS);
      Valid(s) && |BodyTextAsWritten(s, 0)| == 12
  {
    var s := EditorState(2, 1, 5, 10, [Rows.NewRow(Spaces(10))], 0, 0, 0, QUIT_ATTEMPTS);
    ExpandIdentity(Spaces(10));
    BodyOverflowAsWritten(s, 0);
  }

  /** The visible text of body line `y`: the gutter, then the part of its row the screen can show. */
  function BodyText(s: EditorState, y: nat): seq<Byte>
    requires ViewInRange(s)
  {
    var line := y + s.yScroll;
    GUTTER + (if line < |s.rows| then Slice(s.rows[line].chars, s.xScroll, BodyLength(s, line)) else [])
  }

  /**
   * A body line never runs past the screen (from two columns on), and it shows
   * the row's rendered bytes from the horizontal scroll on, as many as fit.
   */
  lemma BodyWidth(s: EditorState, y: nat)
    requires ViewInRange(s)
    ensures s.screenCols >= LINE_START_SIZE ==> |BodyText(s, y)| <= s.screenCols
    ensures |BodyText(s, y)| <= LINE_START_SIZE || |BodyText(s, y)| <= s.screenCols
    ensures var line := y + s.yScroll;
      line < |s.rows| && s.xScroll < |s.rows[line].chars| && s.screenCols > LINE_START_SIZE ==>
        var shown := |BodyText(s, y)| - LINE_START_SIZE;
        && shown > 0
        && BodyText(s, y)[LINE_START_SIZE..] == s.rows[line].chars[s.xScroll..s.xScroll + shown]
        && (s.xScroll + shown == |s.rows[line].chars| || |BodyText(s, y)| == s.screenCols)
  {
  }

  /** The first `n` body lines. */
  function Body(s: EditorState, n: nat): seq<Byte>
    requires ViewInRange(s)
  {
    if n == 0 then [] else Body(s, n - 1) + CLEAR_LINE + BodyText(s, n - 1) + CRLF
  }

  /** The status message shown: "N/A" once it is more than STATUS_MESSAGE_LIFE_TIME seconds old at `now`. */
  function ShownMessage(statusMsg: seq<Byte>, statusMsgTime: int, now: int): seq<Byte>
  {
    if now - statusMsgTime > STATUS_MESSAGE_LIFE_TIME then NOT_AVAILABLE else statusMsg
  }

  /** The status bar's `"%d/%d"` of cy - 1 + yScroll and the number of rows. */
  function LinePosition(s: EditorState): seq<Byte>
  {
    Decimal(s.cy - 1 + s.yScroll) + [SLASH] + Decimal(|s.rows|)
  }

  /** The status bar's text: file path, "line/rows" and the status message. */
  function StatusText(s: EditorState, filePath: seq<Byte>, msg: seq<Byte>): seq<Byte>
  {
    FILE_PATH_LABEL + filePath + LINE_NUMBER_LABEL + LinePosition(s) + STATUS_MESSAGE_LABEL + msg
  }

  /** The spaces the padding loop adds: up to screenCols, none when the text is already as wide. */
  function StatusPadding(s: EditorState, filePath: seq<Byte>, msg: seq<Byte>): nat
  {
    var len := |StatusText(s, filePath, msg)|;
    if len < s.screenCols then s.screenCols - len else 0
  }

  function StatusBar(s: EditorState, filePath: seq<Byte>, msg: seq<Byte>): seq<Byte>
  {
    CLEAR_LINE + INVERSE + BOLD + StatusText(s, filePath, msg) + Spaces(StatusPadding(s, filePath, msg)) + RESET_SHORT
  }

  /** The inverse-video status bar spans the whole screen width, or its text if that is wider. */
  lemma StatusBarWidth(s: EditorState, filePath: seq<Byte>, msg: seq<Byte>)
    ensures var width := |StatusText(s, filePath, msg)| + StatusPadding(s, filePath, msg);
      width >= s.screenCols && width >= |StatusText(s, filePath, msg)|
      && (width == s.screenCols || width == |StatusText(s, filePath, msg)|)
  {
  }

  /** What `editorDrawRows` appends: the header, the body lines and the status bar. */
  function DrawnRows(s: EditorState, filePath: seq<Byte>, msg: seq<Byte>): seq<Byte>
    requires ViewInRange(s)
  {
    Header(s.screenCols) + Body(s, BodyCount(s)) + StatusBar(s, filePath, msg)
  }

  /** The sequence that puts the terminal cursor on 1-based row cy + 1, column cx + 1. */
  function CursorTo(s: EditorState): seq<Byte>
  {
    [ESC, LBRACKET] + Decimal(s.cy + 1) + [SEMICOLON] + Decimal(s.cx + 1) + [LETTER_H]
  }

  /** `editorRefreshScreen` with the clock reading `now`: everything it hands to `write`. */
  function Frame(s: EditorState, filePath: seq<Byte>, statusMsg: seq<Byte>, statusMsgTime: int, now: int): seq<Byte>
    requires ViewInRange(s)
  {
    HIDE_CURSOR + HOME + DrawnRows(s, filePath, ShownMessage(statusMsg, statusMsgTime, now)) + CursorTo(s) + SHOW_CURSOR
  }

  /** `while (i--) abufAppend(buff, " ", 1);` from a count that is not negative. */
  method AppendSpaces(buf: AppendBuffer, n: nat)
    requires buf.Valid()
    modifies buf
    ensures buf.Valid() && buf.Contents() == old(buf.Contents()) + Spaces(n)
  {
    var i := n;
    while i > 0
      invariant 0 <= i <= n
      invariant buf.Valid() && buf.Contents() == old(buf.Contents()) + Spaces(n - i)
    {
      i := i - 1;
      buf.Append([SPACE]);
    }
  }

  /**
   * The header line's text: '~', the padding, the message cut to the screen,
   * the padding again. The first padding loop runs only from a count that is
   * not negative.
   */
  method AppendHeaderText(buf: AppendBuffer, screenCols: int)
    requires screenCols >= 0 && buf.Valid()
    modifies buf
    ensures buf.Valid() && buf.Contents() == old(buf.Contents()) + HeaderText(screenCols)
  {
    var headerLen := |HEADER_MESSAGE|;
    if headerLen > screenCols {
      headerLen := screenCols;
    }
    var headerPadding := (screenCols - headerLen) / 2;
    ghost var p := HeaderPadding(screenCols);
    Concat4(buf.Contents(), [TILDE], Spaces(if p < 0 then 0 else p), HEADER_MESSAGE[..HeaderLength(screenCols)], Spaces(p + 1));
    buf.Append([TILDE]);
    headerPadding := headerPadding - 1;
    assert headerLen == HeaderLength(screenCols) && headerPadding == p;
    AppendSpaces(buf, if headerPadding < 0 then 0 else headerPadding);
    buf.Append(HEADER_MESSAGE[..headerLen]);
    AppendSpaces(buf, headerPadding + 1);
  }

  /** The header block of `editorDrawRows`, in inverse video. */
  method DrawHeader(buf: AppendBuffer, screenCols: int)
    requires screenCols >= 0 && buf.Valid()
    modifies buf
    ensures buf.Valid() && buf.Contents() == old(buf.Contents()) + Header(screenCols)
  {
    Concat6(buf.Contents(), CLEAR_LINE, INVERSE, BOLD, HeaderText(screenCols), RESET, CRLF);
    buf.Append(CLEAR_LINE);
    buf.Append(INVERSE);
    buf.Append(BOLD);
    AppendHeaderText(buf, screenCols);
    buf.Append(RESET);
    buf.Append(CRLF);
  }

  /** One body line's text: the gutter, then the visible part of its row, cut so that it fits beside the gutter. */
  method AppendBodyText(buf: AppendBuffer, s: EditorState, y: nat)
    requires ViewInRange(s) && buf.Valid()
    modifies buf
    ensures buf.Valid() && buf.Contents() == old(buf.Contents()) + BodyText(s, y)
  {
    var lineNumber := y + s.yScroll;
    buf.Append(GUTTER);
    if lineNumber < |s.rows| {
      var len := |s.rows[lineNumber].chars| - s.xScroll;
      if len > s.screenCols - LINE_START_SIZE {
        len := s.screenCols - LINE_START_SIZE;
      }
      if len > 0 {
        buf.Append(s.rows[lineNumber].chars[s.xScroll..s.xScroll + len]);
      } else {
        assert GUTTER + [] == GUTTER;
      }
    } else {
      assert GUTTER + [] == GUTTER;
    }
  }

  /** One body line: clear it, then its text, then CR LF. */
  method DrawBodyLine(buf: AppendBuffer, s: EditorState, y: nat)
    requires ViewInRange(s) && buf.Valid()
    modifies buf
    ensures buf.Valid() && buf.Contents() == old(buf.Contents()) + CLEAR_LINE + BodyText(s, y) + CRLF
  {
    buf.Append(CLEAR_LINE);
    AppendBodyText(buf, s, y);
    buf.Append(CRLF);
  }

  /** The body lines of `editorDrawRows` for the editor state `s`. */
  method DrawBody(buf: AppendBuffer, s: EditorState)
    requires ViewInRange(s) && buf.Valid()
    modifies buf
    ensures buf.Valid() && buf.Contents() == old(buf.Contents()) + Body(s, BodyCount(s))
  {
    ghost var c0 := buf.Contents();
    var y := 0;
    while y < s.screenRows - HEADER_SIZE - 1
      invariant 0 <= y <= BodyCount(s)
      invariant buf.Valid() && buf.Contents() == c0 + Body(s, y)
    {
      Concat4(c0, Body(s, y), CLEAR_LINE, BodyText(s, y), CRLF);
      DrawBodyLine(buf, s, y);
      y := y + 1;
    }
    assert y == BodyCount(s);
  }

  /** The status bar's text, returning how many bytes it appended as `len` counts them. */
  method AppendStatusText(buf: AppendBuffer, s: EditorState, filePath: seq<Byte>, msg: seq<Byte>) returns (len: int)
    requires buf.Valid()
    modifies buf
    ensures buf.Valid() && buf.Contents() == old(buf.Contents()) + StatusText(s, filePath, msg)
    ensures len == |StatusText(s, filePath, msg)|
  {
    Concat6(buf.Contents(), FILE_PATH_LABEL, filePath, LINE_NUMBER_LABEL, LinePosition(s), STATUS_MESSAGE_LABEL, msg);
    len := 0;
    buf.Append(FILE_PATH_LABEL);
    len := len + 12;
    buf.Append(filePath);
    len := len + |filePath|;
    buf.Append(LINE_NUMBER_LABEL);
    len := len + 14;
    var tempStr := LinePosition(s);
    buf.Append(tempStr);
    len := len + |tempStr|;
    buf.Append(STATUS_MESSAGE_LABEL);
    len := len + 17;
    buf.Append(msg);
    len := len + |msg|;
  }

  /** The status bar of `editorDrawRows`, padded with spaces up to the screen width. */
  method DrawStatusBar(buf: AppendBuffer, s: EditorState, filePath: seq<Byte>, msg: seq<Byte>)
    requires buf.Valid()
    modifies buf
    ensures buf.Valid() && buf.Contents() == old(buf.Contents()) + StatusBar(s, filePath, msg)
  {
    Concat6(buf.Contents(), CLEAR_LINE, INVERSE, BOLD, StatusText(s, filePath, msg), Spaces(StatusPadding(s, filePath, msg)), RESET_SHORT);
    buf.Append(CLEAR_LINE);
    buf.Append(INVERSE);
    buf.Append(BOLD);
    var len := AppendStatusText(buf, s, filePath, msg);
    ghost var text := buf.Contents();
    ghost var start := len;
    while len < s.screenCols
      invariant start <= len
      invariant len <= s.screenCols || len == start
      invariant buf.Valid() && buf.Contents() == text + Spaces(len - start)
    {
      buf.Append([SPACE]);
      len := len + 1;
    }
    assert len - start == StatusPadding(s, filePath, msg);
    buf.Append(RESET_SHORT);
  }

  /** `editorDrawRows` with the status message `msg` already chosen. */
  method DrawRows(buf: AppendBuffer, s: EditorState, filePath: seq<Byte>, msg: seq<Byte>)
    requires ViewInRange(s) && buf.Valid()
    modifies buf
    ensures buf.Valid() && buf.Contents() == old(buf.Contents()) + DrawnRows(s, filePath, msg)
  {
    Concat3(buf.Contents(), Header(s.screenCols), Body(s, BodyCount(s)), StatusBar(s, filePath, msg));
    DrawHeader(buf, s.screenCols);
    DrawBody(buf, s);
    DrawStatusBar(buf, s, filePath, msg);
  }

  /**
   * `editorRefreshScreen` for the editor state `s` with the clock reading
   * `now`: the frame it hands to `write`, built in an append buffer. The status
   * message is "N/A" once it has expired.
   */
  method RefreshScreen(s: EditorState, filePath: seq<Byte>, statusMsg: seq<Byte>, statusMsgTime: int, now: int)
    returns (frame: seq<Byte>)
    requires ViewInRange(s)
    ensures frame == Frame(s, filePath, statusMsg, statusMsgTime, now)
  {
    var buf := new AppendBuffer();
    buf.Append(HIDE_CURSOR);
    buf.Append(HOME);
    var msg := statusMsg;
    if now - statusMsgTime > STATUS_MESSAGE_LIFE_TIME {
      msg := NOT_AVAILABLE;
    }
    assert buf.Contents() == HIDE_CURSOR + HOME;
    DrawRows(buf, s, filePath, msg);
    buf.Append(CursorTo(s));
    buf.Append(SHOW_CURSOR);
    frame := buf.Contents();
  }
}
