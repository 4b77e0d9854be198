/**
 * The row store: an `EditorRow` holds a line's raw bytes and its rendered
 * bytes, and the editor keeps an ordered sequence of them. The functions here
 * are the row-level operations that the editor's methods apply.
 */
module Rows {
  import opened Bytes
  import opened Tabs

  /** `EditorRow`: `length` is |chars|, `rawLength` is |rawChars|. */
  datatype Row = Row(chars: seq<Byte>, rawChars: seq<Byte>)

  /** The rendered bytes are the expansion of the raw bytes. */
  predicate WellFormed(r: Row)
  {
    r.chars == Expand(r.rawChars)
  }

  /** Every row's rendered form is the expansion of its raw form. */
  predicate AllWellFormed(rows: seq<Row>)
  {
    forall i :: 0 <= i < |rows| ==> WellFormed(rows[i])
  }

  /** A row holding `raw`, with its rendered form recomputed. */
  function NewRow(raw: seq<Byte>): (r: Row)
    ensures WellFormed(r) && r.rawChars == raw
  {
    Row(Expand(raw), raw)
  }

  /**
   * `editorInsertRow`: nothing happens unless 0 <= at <= |rows|; otherwise the
   * new row lands at index `at` and the rows at and after it move up by one.
   */
  function InsertRowAt(rows: seq<Row>, at: int, raw: seq<Byte>): (r: seq<Row>)
    ensures !(0 <= at <= |rows|) ==> r == rows
    ensures 0 <= at <= |rows| ==>
      && |r| == |rows| + 1
      && r[at] == NewRow(raw)
      && (forall i :: 0 <= i < at ==> r[i] == rows[i])
      && (forall i :: at < i < |r| ==> r[i] == rows[i - 1])
  {
    if at < 0 || at > |rows| then rows
    else rows[..at] + [NewRow(raw)] + rows[at..]
  }

  /**
   * `editorDelRow`: nothing happens unless 0 <= at < |rows|; otherwise the row
   * at `at` goes and the rows after it move down by one.
   */
  function DeleteRowAt(rows: seq<Row>, at: int): (r: seq<Row>)
    ensures !(0 <= at < |rows|) ==> r == rows
    ensures 0 <= at < |rows| ==>
      && |r| == |rows| - 1
      && (forall i :: 0 <= i < at ==> r[i] == rows[i])
      && (forall i :: at <= i < |r| ==> r[i] == rows[i + 1])
  {
    if at < 0 || at >= |rows| then rows
    else rows[..at] + rows[at + 1..]
  }

  /** Replacing a row by a new one, inserting and deleting rows keep every row well formed. */
  lemma SetRowWellFormed(rows: seq<Row>, i: nat, raw: seq<Byte>)
    requires AllWellFormed(rows) && i < |rows|
    ensures AllWellFormed(rows[i := NewRow(raw)])
  {
  }

  lemma InsertRowWellFormed(rows: seq<Row>, at: int, raw: seq<Byte>)
    requires AllWellFormed(rows)
    ensures AllWellFormed(InsertRowAt(rows, at, raw))
  {
  }

  lemma DeleteRowWellFormed(rows: seq<Row>, at: int)
    requires AllWellFormed(rows)
    ensures AllWellFormed(DeleteRowAt(rows, at))
  {
  }

  /** Deleting the row just inserted gives back the original rows. */
  lemma DeleteUndoesInsert(rows: seq<Row>, at: int, raw: seq<Byte>)
    requires 0 <= at <= |rows|
    ensures DeleteRowAt(InsertRowAt(rows, at, raw), at) == rows
  {
    var r := DeleteRowAt(InsertRowAt(rows, at, raw), at);
    assert forall i :: 0 <= i < |rows| ==> r[i] == rows[i];
  }

  /** The index `editorRowInsertChar` writes to: `at`, or the raw length when `at` is out of range. */
  function InsertPosition(raw: seq<Byte>, at: int): (k: nat)
    ensures k <= |raw|
    ensures 0 <= at <= |raw| ==> k == at
    ensures !(0 <= at <= |raw|) ==> k == |raw|
  {
    if at < 0 || at > |raw| then |raw| else at
  }

  /** `editorRowInsertChar` on the raw bytes: `c` goes in at the clamped position. */
  function InsertByteAt(raw: seq<Byte>, at: int, c: Byte): (r: seq<Byte>)
    ensures |r| == |raw| + 1
    ensures r[InsertPosition(raw, at)] == c
    ensures forall i :: 0 <= i < InsertPosition(raw, at) ==> r[i] == raw[i]
    ensures forall i :: InsertPosition(raw, at) < i < |r| ==> r[i] == raw[i - 1]
  {
    var k := InsertPosition(raw, at);
    raw[..k] + [c] + raw[k..]
  }

  /**
   * The raw bytes after `editorRowDelChar` has passed its bounds check: the
   * memmove shifts the bytes after `at` down by one and the raw length drops by
   * one, so for at == |raw| (possible because the check is against the
   * rendered length) it is the last raw byte that goes.
   */
  function DeleteByteAt(raw: seq<Byte>, at: nat): (r: seq<Byte>)
    requires at <= |raw| && raw != []
    ensures |r| == |raw| - 1
    ensures forall i :: 0 <= i < |r| ==> r[i] == (if i < at then raw[i] else raw[i + 1])
  {
    if at < |raw| then raw[..at] + raw[at + 1..] else raw[..|raw| - 1]
  }

  /** Deleting the byte just inserted gives back the original raw bytes. */
  lemma DeleteByteUndoesInsert(raw: seq<Byte>, at: int, c: Byte)
    ensures DeleteByteAt(InsertByteAt(raw, at, c), InsertPosition(raw, at)) == raw
  {
    var r := DeleteByteAt(InsertByteAt(raw, at, c), InsertPosition(raw, at));
    assert forall i :: 0 <= i < |raw| ==> r[i] == raw[i];
  }
}
