/**
 * The file side of the row store: how `editorRowsToString` lays the rows out
 * for saving, how `getline` cuts a file into lines, and how `editorOpen` strips
 * each line's trailing CR/LF bytes before it becomes a row.
 */
module Lines {
  import opened Bytes
  import opened Tabs
  import opened Rows

  /** The saved form: every row's rendered bytes followed by a newline. */
  function Serialised(rows: seq<Row>): seq<Byte>
  {
    if rows == [] then []
    else Serialised(rows[..|rows| - 1]) + rows[|rows| - 1].chars + [LF]
  }

  /** `totalLength` of `editorRowsToString`: the rendered lengths plus one per row. */
  function TotalLength(rows: seq<Row>): (n: nat)
    ensures n >= |rows|
  {
    if rows == [] then 0
    else TotalLength(rows[..|rows| - 1]) + |rows[|rows| - 1].chars| + 1
  }

  lemma {:induction false} TotalLengthPrefix(rows: seq<Row>, j: nat)
    requires j <= |rows|
    ensures TotalLength(rows[..j]) <= TotalLength(rows)
    decreases |rows| - j
  {
    if j == |rows| {
      assert rows[..j] == rows;
    } else {
      var init := rows[..|rows| - 1];
      TotalLengthPrefix(init, j);
      assert init[..j] == rows[..j];
    }
  }

  lemma {:induction false} SerialisedLength(rows: seq<Row>)
    ensures |Serialised(rows)| == TotalLength(rows)
  {
    if rows != [] {
      SerialisedLength(rows[..|rows| - 1]);
    }
  }

  /** Saving two runs of rows gives the two saved forms one after the other. */
  lemma {:induction false} SerialisedAppend(a: seq<Row>, b: seq<Row>)
    ensures Serialised(a + b) == Serialised(a) + Serialised(b)
    decreases |b|
  {
    if b == [] {
      assert a + b == a;
    } else {
      var init, last := b[..|b| - 1], b[|b| - 1];
      SerialisedAppend(a, init);
      assert (a + b)[..|a + b| - 1] == a + init;
      assert (a + b)[|a + b| - 1] == last;
      assert Serialised(a + b) == Serialised(a + init) + last.chars + [LF];
      assert Serialised(b) == Serialised(init) + last.chars + [LF];
      assert Serialised(a) + Serialised(init) + last.chars + [LF] == Serialised(a) + (Serialised(init) + last.chars + [LF]);
    }
  }

  /** Every row's rendered bytes appear in the saved form, each followed by a newline. */
  lemma SerialisedCons(r: Row, rest: seq<Row>)
    ensures Serialised([r] + rest) == r.chars + [LF] + Serialised(rest)
  {
    SerialisedAppend([r], rest);
    assert [r][..0] == [];
  }

  /** One more row adds its rendered bytes and a newline to the saved form and to the total length. */
  lemma SerialisedNext(rows: seq<Row>, i: nat)
    requires i < |rows|
    ensures Serialised(rows[..i + 1]) == Serialised(rows[..i]) + rows[i].chars + [LF]
    ensures TotalLength(rows[..i + 1]) == TotalLength(rows[..i]) + |rows[i].chars| + 1
  {
    assert rows[..i + 1][..i] == rows[..i];
  }

  /** The first loop of `editorRowsToString`: the rendered lengths plus one newline per row. */
  method SumLengths(rows: seq<Row>) returns (total: nat)
    ensures total == TotalLength(rows)
  {
    total := 0;
    var i := 0;
    while i < |rows|
      invariant 0 <= i <= |rows|
      invariant total == TotalLength(rows[..i])
    {
      SerialisedNext(rows, i);
      total := total + |rows[i].chars| + 1;
      i := i + 1;
    }
    assert rows[..i] == rows;
  }

  /** The second loop of `editorRowsToString`: each row's rendered bytes, then a newline, into `buf`. */
  method CopyRows(rows: seq<Row>, buf: array<Byte>)
    requires buf.Length == TotalLength(rows)
    modifies buf
    ensures buf[..] == Serialised(rows)
  {
    var p := 0;
    var i := 0;
    while i < |rows|
      invariant 0 <= i <= |rows|
      invariant p == TotalLength(rows[..i]) <= buf.Length
      invariant buf[..p] == Serialised(rows[..i])
    {
      SerialisedNext(rows, i);
      TotalLengthPrefix(rows, i + 1);
      ghost var done := buf[..p];
      CopyBytes(buf, p, rows[i].chars);
      assert buf[..p + |rows[i].chars|] == done + rows[i].chars;
      p := p + |rows[i].chars|;
      buf[p] := LF;
      assert buf[..p + 1] == buf[..p] + [LF];
      p := p + 1;
      i := i + 1;
    }
    assert rows[..i] == rows;
    assert buf[..] == buf[..p];
  }

  /** Whether a byte is one of the line ends `editorOpen` strips. */
  predicate IsLineEnd(b: Byte)
  {
    b == LF || b == CR
  }

  /**
   * The line as `editorOpen` stores it: trailing LF and CR bytes removed, in
   * any mix and number; nothing before them changes.
   */
  function StripLineEnd(line: seq<Byte>): (r: seq<Byte>)
    ensures |r| <= |line| && r == line[..|r|]
    ensures r == [] || !IsLineEnd(r[|r| - 1])
    ensures forall i :: |r| <= i < |line| ==> IsLineEnd(line[i])
  {
    if line != [] && IsLineEnd(line[|line| - 1]) then StripLineEnd(line[..|line| - 1])
    else line
  }

  /** Stripping twice strips nothing more. */
  lemma StripIdempotent(line: seq<Byte>)
    ensures StripLineEnd(StripLineEnd(line)) == StripLineEnd(line)
  {
  }

  /** A line whose bytes after `body` are all line ends strips to `body` when `body` does not end in one. */
  lemma {:induction false} StripSuffix(body: seq<Byte>, ends: seq<Byte>)
    requires body == [] || !IsLineEnd(body[|body| - 1])
    requires forall i :: 0 <= i < |ends| ==> IsLineEnd(ends[i])
    ensures StripLineEnd(body + ends) == body
    decreases |ends|
  {
    if ends == [] {
      assert body + ends == body;
    } else {
      var line := body + ends;
      assert line[..|line| - 1] == body + ends[..|ends| - 1];
      StripSuffix(body, ends[..|ends| - 1]);
    }
  }

  /** Dropping a trailing line end does not change what the line strips to. */
  lemma StripStep(line: seq<Byte>, n: nat)
    requires 0 < n <= |line| && IsLineEnd(line[n - 1])
    ensures StripLineEnd(line[..n - 1]) == StripLineEnd(line[..n])
  {
    assert line[..n][..n - 1] == line[..n - 1];
  }

  /** A line that does not end in a line end strips to itself. */
  lemma StripNone(line: seq<Byte>)
    requires line == [] || !IsLineEnd(line[|line| - 1])
    ensures StripLineEnd(line) == line
  {
  }

  /** The strip loop of `editorOpen`: shorten the length while the last byte is '\n' or '\r'. */
  method StripLength(line: seq<Byte>) returns (n: nat)
    ensures n <= |line| && line[..n] == StripLineEnd(line)
  {
    n := |line|;
    assert line[..n] == line;
    while n > 0 && (line[n - 1] == LF || line[n - 1] == CR)
      invariant 0 <= n <= |line|
      invariant StripLineEnd(line[..n]) == StripLineEnd(line)
    {
      StripStep(line, n);
      n := n - 1;
    }
    StripNone(line[..n]);
  }

  /** The length of the line `getline` returns from the front of `s`: up to and including the first LF. */
  function LineLength(s: seq<Byte>): (n: nat)
    requires s != []
    ensures 1 <= n <= |s|
    ensures forall i :: 0 <= i < n - 1 ==> s[i] != LF
    ensures s[n - 1] == LF || n == |s|
  {
    if s[0] == LF || |s| == 1 then 1 else 1 + LineLength(s[1..])
  }

  /** The lines successive `getline` calls return: each ends with its LF, the last may lack one. */
  function GetLines(content: seq<Byte>): (lines: seq<seq<Byte>>)
    decreases |content|
  {
    if content == [] then []
    else
      var n := LineLength(content);
      [content[..n]] + GetLines(content[n..])
  }

  /** The raw bytes of the rows `editorOpen` appends for a file holding `content`. */
  function OpenedLines(content: seq<Byte>): (lines: seq<seq<Byte>>)
  {
    var raw := GetLines(content);
    seq(|raw|, i requires 0 <= i < |raw| => StripLineEnd(raw[i]))
  }

  /** Rendered bytes that survive a save and reopen: no LF inside, no CR at the end. */
  predicate Reloadable(chars: seq<Byte>)
  {
    (forall i :: 0 <= i < |chars| ==> chars[i] != LF) && (chars == [] || chars[|chars| - 1] != CR)
  }

  /** `getline` over a saved file returns each row's rendered bytes with their newline. */
  lemma {:induction false} GetLinesSerialised(rows: seq<Row>)
    requires forall i :: 0 <= i < |rows| ==> Reloadable(rows[i].chars)
    ensures |GetLines(Serialised(rows))| == |rows|
    ensures forall i :: 0 <= i < |rows| ==> GetLines(Serialised(rows))[i] == rows[i].chars + [LF]
    decreases |rows|
  {
    if rows != [] {
      var line := rows[0].chars + [LF];
      var rest := Serialised(rows[1..]);
      SerialisedCons(rows[0], rows[1..]);
      assert [rows[0]] + rows[1..] == rows;
      var content := line + rest;
      assert LineLength(content) == |line| by {
        assert forall i :: 0 <= i < |line| - 1 ==> content[i] == rows[0].chars[i];
        assert content[|line| - 1] == LF;
      }
      assert content[..|line|] == line;
      assert content[|line|..] == rest;
      GetLinesSerialised(rows[1..]);
    }
  }

  /**
   * Saving rows and opening the file again gives back, row by row, the rendered
   * bytes: tabs come back as spaces, everything else is kept.
   */
  lemma SaveThenOpen(rows: seq<Row>)
    requires forall i :: 0 <= i < |rows| ==> Reloadable(rows[i].chars)
    ensures |OpenedLines(Serialised(rows))| == |rows|
    ensures forall i :: 0 <= i < |rows| ==> OpenedLines(Serialised(rows))[i] == rows[i].chars
  {
    GetLinesSerialised(rows);
    forall i | 0 <= i < |rows|
      ensures OpenedLines(Serialised(rows))[i] == rows[i].chars
    {
      StripSuffix(rows[i].chars, [LF]);
    }
  }
}
