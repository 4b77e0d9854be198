/**
 * Tab expansion: how a row's rendered bytes (`chars`) are derived from its raw
 * bytes (`rawChars`) by `editorUpdateRow`.
 */
module Tabs {
  import opened Bytes

  const TAB_SIZE: nat := 8

  /** The number of spaces a tab emits when the rendered text so far is `col` bytes long. */
  function TabWidth(col: nat): (w: nat)
    ensures 1 <= w <= TAB_SIZE
    ensures (col + w) % TAB_SIZE == 0
    ensures forall m :: col < m < col + w ==> m % TAB_SIZE != 0
  {
    TAB_SIZE - col % TAB_SIZE
  }

  function Spaces(n: nat): (s: seq<Byte>)
    ensures |s| == n
    ensures forall i :: 0 <= i < n ==> s[i] == SPACE
  {
    seq(n, _ => SPACE)
  }

  /**
   * The rendered form of `raw`: every byte but a tab is copied; a tab becomes
   * the spaces that carry the rendered text to the next multiple of TAB_SIZE
   * (at least one space).
   */
  function Expand(raw: seq<Byte>): seq<Byte>
  {
    if raw == [] then []
    else
      var prefix := Expand(raw[..|raw| - 1]);
      if raw[|raw| - 1] == TAB then prefix + Spaces(TabWidth(|prefix|))
      else prefix + [raw[|raw| - 1]]
  }

  function CountTabs(raw: seq<Byte>): (n: nat)
    ensures n <= |raw|
  {
    if raw == [] then 0
    else CountTabs(raw[..|raw| - 1]) + (if raw[|raw| - 1] == TAB then 1 else 0)
  }

  predicate TabFree(s: seq<Byte>)
  {
    forall i :: 0 <= i < |s| ==> s[i] != TAB
  }

  lemma {:induction false} CountTabsPrefix(raw: seq<Byte>, j: nat)
    requires j <= |raw|
    ensures CountTabs(raw[..j]) <= CountTabs(raw)
    ensures CountTabs(raw[..j]) + (|raw| - j) >= CountTabs(raw)
    decreases |raw| - j
  {
    if j < |raw| {
      CountTabsPrefix(raw[..|raw| - 1], j);
      assert raw[..|raw| - 1][..j] == raw[..j];
    } else {
      assert raw[..j] == raw;
    }
  }

  /** The rendered length is at least the raw length and at most 7 more per tab. */
  lemma {:induction false} ExpandLength(raw: seq<Byte>)
    ensures |raw| <= |Expand(raw)| <= |raw| + (TAB_SIZE - 1) * CountTabs(raw)
  {
    if raw != [] {
      ExpandLength(raw[..|raw| - 1]);
    }
  }

  /** The rendered form never contains a tab. */
  lemma {:induction false} ExpandTabFree(raw: seq<Byte>)
    ensures TabFree(Expand(raw))
  {
    if raw != [] {
      ExpandTabFree(raw[..|raw| - 1]);
    }
  }

  /** A line without tabs renders as itself. */
  lemma {:induction false} ExpandIdentity(raw: seq<Byte>)
    requires TabFree(raw)
    ensures Expand(raw) == raw
  {
    if raw != [] {
      ExpandIdentity(raw[..|raw| - 1]);
      assert raw[..|raw| - 1] + [raw[|raw| - 1]] == raw;
    }
  }

  /** Rendering the rendered form again changes nothing. */
  lemma ExpandIdempotent(raw: seq<Byte>)
    ensures Expand(Expand(raw)) == Expand(raw)
  {
    ExpandTabFree(raw);
    ExpandIdentity(Expand(raw));
  }

  /** Rendering a prefix of the raw bytes gives a prefix of the rendered bytes. */
  lemma {:induction false} ExpandPrefix(raw: seq<Byte>, j: nat)
    requires j <= |raw|
    ensures |Expand(raw[..j])| <= |Expand(raw)|
    ensures Expand(raw)[..|Expand(raw[..j])|] == Expand(raw[..j])
    decreases |raw| - j
  {
    if j == |raw| {
      assert raw[..j] == raw;
    } else {
      var init := raw[..|raw| - 1];
      ExpandPrefix(init, j);
      assert init[..j] == raw[..j];
    }
  }

  /**
   * The rendered column of the raw byte at index `j`: where its expansion
   * starts in the rendered form.
   */
  function RenderedColumn(raw: seq<Byte>, j: nat): nat
    requires j <= |raw|
  {
    |Expand(raw[..j])|
  }

  /**
   * Every byte but a tab is copied unchanged to its rendered column and takes
   * one column; a tab becomes one or more spaces and ends on a multiple of 8.
   */
  lemma ExpandByte(raw: seq<Byte>, j: nat)
    requires j < |raw|
    ensures RenderedColumn(raw, j + 1) <= |Expand(raw)|
    ensures raw[j] != TAB ==>
      RenderedColumn(raw, j + 1) == RenderedColumn(raw, j) + 1 &&
      Expand(raw)[RenderedColumn(raw, j)] == raw[j]
    ensures raw[j] == TAB ==>
      RenderedColumn(raw, j) < RenderedColumn(raw, j + 1) <= RenderedColumn(raw, j) + TAB_SIZE &&
      RenderedColumn(raw, j + 1) % TAB_SIZE == 0 &&
      forall k :: RenderedColumn(raw, j) <= k < RenderedColumn(raw, j + 1) ==> Expand(raw)[k] == SPACE
  {
    ExpandNext(raw, j);
    ExpandPrefix(raw, j + 1);
    PlacedByte(Expand(raw), Expand(raw[..j]), Expand(raw[..j + 1]), raw[j]);
  }

  /**
   * When `whole` starts with `e1`, the expansion `e0` followed by that of `b`,
   * the bytes after `e0` are `b` or the spaces of a tab.
   */
  lemma PlacedByte(whole: seq<Byte>, e0: seq<Byte>, e1: seq<Byte>, b: Byte)
    requires |e1| <= |whole| && whole[..|e1|] == e1
    requires e1 == e0 + (if b == TAB then Spaces(TabWidth(|e0|)) else [b])
    ensures b != TAB ==> |e1| == |e0| + 1 && whole[|e0|] == b
    ensures b == TAB ==>
      |e0| < |e1| <= |e0| + TAB_SIZE && |e1| % TAB_SIZE == 0 &&
      forall k :: |e0| <= k < |e1| ==> whole[k] == SPACE
  {
    var tail := if b == TAB then Spaces(TabWidth(|e0|)) else [b];
    SliceAfter(whole, e0, tail);
    if b != TAB {
      assert whole[|e0|] == tail[0];
    }
  }

  /** Rendering one more raw byte appends its expansion. */
  lemma ExpandSnoc(init: seq<Byte>, b: Byte)
    ensures Expand(init + [b]) == Expand(init) + (if b == TAB then Spaces(TabWidth(|Expand(init)|)) else [b])
  {
    assert (init + [b])[..|init + [b]| - 1] == init;
  }

  /** When `whole` starts with `p + t`, the bytes of `t` sit in `whole` right after `p`. */
  lemma SliceAfter(whole: seq<Byte>, p: seq<Byte>, t: seq<Byte>)
    requires |p + t| <= |whole| && whole[..|p + t|] == p + t
    ensures forall k :: |p| <= k < |p| + |t| ==> whole[k] == t[k - |p|]
  {
    forall k | |p| <= k < |p| + |t|
      ensures whole[k] == t[k - |p|]
    {
      assert whole[k] == whole[..|p + t|][k];
    }
  }

  /** The worked case of a line "a<TAB>b": 'a', seven spaces, 'b'. */
  lemma ExpandExample()
    ensures Expand([97, TAB, 98]) == [97] + Spaces(7) + [98]
    ensures |Expand([97, TAB, 98])| == 9
  {
    assert [97, TAB, 98][..2] == [97, TAB];
    assert [97, TAB][..1] == [97];
    assert [97][..0] == [];
    assert Expand([97]) == [97];
    assert TabWidth(1) == 7;
    assert Expand([97, TAB]) == [97] + Spaces(7);
  }

  /** The padding step of `editorUpdateRow`: one space, then spaces until the index is a multiple of 8. */
  method PadTab(buf: array<Byte>, start: nat) returns (idx: nat)
    requires start + TabWidth(start) <= buf.Length
    modifies buf
    ensures idx == start + TabWidth(start)
    ensures buf[..idx] == old(buf[..start]) + Spaces(TabWidth(start))
  {
    buf[start] := SPACE;
    idx := start + 1;
    while idx % 8 != 0
      invariant start < idx <= start + TabWidth(start)
      invariant buf[..idx] == old(buf[..start]) + Spaces(idx - start)
      decreases start + TabWidth(start) - idx
    {
      buf[idx] := SPACE;
      idx := idx + 1;
    }
  }

  /** The first loop of `editorUpdateRow`: count the tabs of the raw bytes. */
  method CountRowTabs(raw: seq<Byte>) returns (tabs: nat)
    ensures tabs == CountTabs(raw)
  {
    tabs := 0;
    var j := 0;
    while j < |raw|
      invariant 0 <= j <= |raw|
      invariant tabs == CountTabs(raw[..j])
    {
      assert raw[..j + 1][..j] == raw[..j];
      if raw[j] == TAB {
        tabs := tabs + 1;
      }
      j := j + 1;
    }
    assert raw[..j] == raw;
  }

  /** Rendering the raw bytes up to index j + 1 appends the expansion of byte j. */
  lemma ExpandNext(raw: seq<Byte>, j: nat)
    requires j < |raw|
    ensures Expand(raw[..j + 1]) == Expand(raw[..j]) + (if raw[j] == TAB then Spaces(TabWidth(|Expand(raw[..j])|)) else [raw[j]])
  {
    assert raw[..j + 1] == raw[..j] + [raw[j]];
    ExpandSnoc(raw[..j], raw[j]);
  }

  /** Every rendered prefix fits in the worst-case allocation of `editorUpdateRow`. */
  lemma ExpandFits(raw: seq<Byte>, j: nat)
    requires j <= |raw|
    ensures |Expand(raw[..j])| <= |raw| + (TAB_SIZE - 1) * CountTabs(raw)
  {
    ExpandLength(raw[..j]);
    CountTabsPrefix(raw, j);
  }

  /**
   * The second loop of `editorUpdateRow`: copy the bytes into `buf`, padding
   * each tab with spaces until the rendered index is a multiple of 8; `idx`
   * ends as the rendered length.
   */
  method CopyRendered(raw: seq<Byte>, buf: array<Byte>) returns (idx: nat)
    requires |raw| + CountTabs(raw) * (TAB_SIZE - 1) < buf.Length
    modifies buf
    ensures idx < buf.Length && buf[..idx] == Expand(raw)
  {
    idx := 0;
    var j := 0;
    while j < |raw|
      invariant 0 <= j <= |raw|
      invariant idx <= buf.Length && buf[..idx] == Expand(raw[..j])
    {
      ExpandNext(raw, j);
      ExpandFits(raw, j + 1);
      if raw[j] == TAB {
        idx := PadTab(buf, idx);
      } else {
        buf[idx] := raw[j];
        idx := idx + 1;
      }
      j := j + 1;
    }
    ExpandFits(raw, j);
    assert raw[..j] == raw;
  }

  /**
   * `editorUpdateRow`: count the tabs, allocate room for the worst case plus
   * a NUL terminator, copy the bytes expanding the tabs, and terminate.
   */
  method RenderRow(raw: seq<Byte>) returns (chars: seq<Byte>)
    ensures chars == Expand(raw)
  {
    var tabs := CountRowTabs(raw);
    var buf := new Byte[|raw| + tabs * (TAB_SIZE - 1) + 1];
    var idx := CopyRendered(raw, buf);
    buf[idx] := NUL;
    chars := buf[..idx];
  }
}
