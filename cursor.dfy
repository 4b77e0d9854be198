/**
 * Cursor/column mapping. The cursor column `cx` is a screen column: the first
 * LINE_START_SIZE columns are the "~ " gutter, so the rendered column is
 * cx - LINE_START_SIZE. The cursor row `cy` is a screen row below a header of
 * HEADER_SIZE rows.
 */
module Cursor {
  import opened Bytes
  import opened Tabs

  const HEADER_SIZE: int := 1
  const LINE_START_SIZE: int := 2

  /** `getCursorPositionInRenderdFileLine`: the rendered column under the cursor. */
  function RenderedColumnOf(cx: int): (col: int)
    ensures col < cx
  {
    cx - LINE_START_SIZE
  }

  /**
   * `getCursorPositionInRawFileLine`. Its loop walks the rendered bytes (not
   * the raw bytes) adding 8 for a tab and 1 otherwise, for at most rawLength
   * steps and until the total reaches cx - LINE_START_SIZE. The rendered form
   * holds no tab, so the walk amounts to clamping the rendered column into
   * [0, rawLength].
   */
  function RawColumn(rawLength: nat, cx: int): (i: nat)
    ensures i <= rawLength
    ensures i <= RenderedColumnOf(cx) || i == 0
    ensures 0 <= RenderedColumnOf(cx) <= rawLength <==> i == RenderedColumnOf(cx)
    ensures RenderedColumnOf(cx) > rawLength ==> i == rawLength
  {
    var col := RenderedColumnOf(cx);
    if col <= 0 then 0 else if col > rawLength then rawLength else col
  }

  /**
   * On a line without tabs the raw column under a cursor placed on rendered
   * column `col` is `col` itself, and it is where the byte at `col` renders.
   */
  lemma RawColumnTabFreeRoundTrip(raw: seq<Byte>, col: nat)
    requires TabFree(raw) && col <= |raw|
    ensures RawColumn(|raw|, col + LINE_START_SIZE) == col
    ensures RenderedColumn(raw, RawColumn(|raw|, col + LINE_START_SIZE)) == col
  {
    ExpandIdentity(raw[..col]);
  }

  /**
   * `getCurrentSelctedChar`, given the rendered bytes of the current line
   * (`chars`) and the raw length of the line that `getCursorPositionInRawFileLine`
   * reads: 0 when the cursor is past the end, else the byte at the raw column,
   * where the index equal to the length reads the terminating NUL.
   */
  function SelectedChar(chars: seq<Byte>, rawLength: nat, cx: int): (b: Byte)
    ensures RenderedColumnOf(cx) > |chars| ==> b == NUL
    ensures RawColumn(rawLength, cx) < |chars| && RenderedColumnOf(cx) <= |chars| ==> b == chars[RawColumn(rawLength, cx)]
    ensures RawColumn(rawLength, cx) >= |chars| ==> b == NUL
  {
    if RenderedColumnOf(cx) > |chars| then NUL
    else
      var i := RawColumn(rawLength, cx);
      assert i <= |chars|;
      if i < |chars| then chars[i] else NUL
  }

  /**
   * One word-move loop of `editorMoveCursor` going right: while cx < limit,
   * step right as long as "the selected byte is a space" equals `overSpaces`.
   */
  function SkipRight(chars: seq<Byte>, rawLength: nat, limit: int, cx: int, overSpaces: bool): (r: int)
    ensures r >= cx
    ensures cx < limit ==> r <= limit
    ensures cx >= limit ==> r == cx
    ensures forall p :: cx <= p < r ==> (SelectedChar(chars, rawLength, p) == SPACE) == overSpaces
    ensures r >= limit || (SelectedChar(chars, rawLength, r) == SPACE) != overSpaces
    decreases limit - cx
  {
    if cx < limit && (SelectedChar(chars, rawLength, cx) == SPACE) == overSpaces then
      SkipRight(chars, rawLength, limit, cx + 1, overSpaces)
    else cx
  }

  /**
   * One word-move loop of `editorMoveCursor` going left: while cx > 0, step
   * left as long as "the selected byte is a space" equals `overSpaces`.
   */
  function SkipLeft(chars: seq<Byte>, rawLength: nat, cx: int, overSpaces: bool): (r: int)
    ensures r <= cx
    ensures cx > 0 ==> r >= 0
    ensures cx <= 0 ==> r == cx
    ensures forall p :: r < p <= cx ==> (SelectedChar(chars, rawLength, p) == SPACE) == overSpaces
    ensures r <= 0 || (SelectedChar(chars, rawLength, r) == SPACE) != overSpaces
    decreases cx
  {
    if cx > 0 && (SelectedChar(chars, rawLength, cx) == SPACE) == overSpaces then
      SkipLeft(chars, rawLength, cx - 1, overSpaces)
    else cx
  }

  /**
   * CTRL_ARROW_RIGHT: skip the rest of the word, then the spaces after it,
   * stopping at lineLength + 1. The first phase ends at `m`: the bytes under
   * [cx, m) are not spaces, those under [m, r) are, and the move stops at the
   * limit or on a byte that is not a space.
   */
  function WordRight(chars: seq<Byte>, rawLength: nat, lineLength: nat, cx: int): (r: int)
    ensures r >= cx
    ensures cx >= lineLength - 1 + LINE_START_SIZE ==> r == cx
    ensures cx < lineLength - 1 + LINE_START_SIZE ==> r <= lineLength - 1 + LINE_START_SIZE
    ensures var limit, m := lineLength - 1 + LINE_START_SIZE, SkipRight(chars, rawLength, lineLength - 1 + LINE_START_SIZE, cx, false);
      && cx <= m <= r
      && (forall p :: cx <= p < m ==> SelectedChar(chars, rawLength, p) != SPACE)
      && (m >= limit || SelectedChar(chars, rawLength, m) == SPACE)
      && (forall p :: m <= p < r ==> SelectedChar(chars, rawLength, p) == SPACE)
      && (r >= limit || SelectedChar(chars, rawLength, r) != SPACE)
  {
    var limit := lineLength - 1 + LINE_START_SIZE;
    SkipRight(chars, rawLength, limit, SkipRight(chars, rawLength, limit, cx, false), true)
  }

  /**
   * CTRL_ARROW_LEFT: from beyond the line length jump to lineLength + 1;
   * otherwise skip back over the word, then over the spaces before it. The
   * first phase ends at `m`: the bytes under (m, cx] are not spaces, those
   * under (r, m] are, and the move stops at column 0 or on a byte that is not
   * a space.
   */
  function WordLeft(chars: seq<Byte>, rawLength: nat, lineLength: nat, cx: int): (r: int)
    ensures cx > lineLength ==> r == lineLength + LINE_START_SIZE - 1
    ensures cx <= 0 ==> r == cx
    ensures cx <= lineLength ==> r <= cx && (cx > 0 ==> r >= 0)
    ensures cx <= lineLength ==>
      var m := SkipLeft(chars, rawLength, cx, false);
      && r <= m <= cx
      && (forall p :: m < p <= cx ==> SelectedChar(chars, rawLength, p) != SPACE)
      && (m <= 0 || SelectedChar(chars, rawLength, m) == SPACE)
      && (forall p :: r < p <= m ==> SelectedChar(chars, rawLength, p) == SPACE)
      && (r <= 0 || SelectedChar(chars, rawLength, r) != SPACE)
  {
    if cx > lineLength then lineLength + LINE_START_SIZE - 1
    else SkipLeft(chars, rawLength, SkipLeft(chars, rawLength, cx, false), true)
  }
}
