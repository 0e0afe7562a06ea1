/**
 * The row store: one `Row` per line (`erow`), its in-row byte edits and the
 * splices on the sequence of rows. The byte buffers the C code grows with
 * `realloc` and shifts with `memmove` are sequences here; each edit is the
 * splice it performs.
 */
module Rows {
  import opened Bytes
  import opened Tabs

  /** A line: its raw bytes (`chars`, `size`) and their rendered form (`render`, `rsize`). */
  datatype Row = Row(chars: seq<Byte>, render: seq<Byte>)

  /** The render buffer is up to date with the raw bytes. */
  predicate Rendered(row: Row)
  {
    row.render == Render(row.chars)
  }

  predicate AllRendered(rows: seq<Row>)
  {
    forall i {:trigger Rendered(rows[i])} :: 0 <= i < |rows| ==> Rendered(rows[i])
  }

  /** A row holding `line`, rendered. */
  function MakeRow(line: seq<Byte>): (row: Row)
    ensures row.chars == line && Rendered(row)
  {
    Row(line, Render(line))
  }

  lemma {:induction false} TabCountSplit(s: seq<Byte>, k: nat)
    requires k <= |s|
    ensures TabCount(s[..k]) <= TabCount(s)
    decreases |s|
  {
    if k < |s| {
      assert s[..|s| - 1][..k] == s[..k];
      TabCountSplit(s[..|s| - 1], k);
    } else {
      assert s[..k] == s;
    }
  }

  /** A column strictly inside a tab's span that is on a tab stop cannot exist. */
  lemma TabStopReached(col: nat, idx: nat)
    requires col < idx <= col + TabWidth(col) && idx % TAB_STOP == 0
    ensures idx == col + TabWidth(col)
  {
  }

  /** The first loop of `editorUpdateRow`: the number of tabs in the row. */
  method CountTabs(chars: seq<Byte>) returns (tabs: nat)
    ensures tabs == TabCount(chars)
  {
    tabs := 0;
    for j := 0 to |chars|
      invariant tabs == TabCount(chars[..j])
    {
      assert chars[..j + 1][..j] == chars[..j];
      if chars[j] == TAB {
        tabs := tabs + 1;
      }
    }
    assert chars[..|chars|] == chars;
  }

  /**
   * The tab branch of `editorUpdateRow`: one space, then spaces until the
   * write position is on a tab stop.
   */
  method PadTab(render: array<Byte>, col: nat) returns (idx: nat)
    requires col + TabWidth(col) <= render.Length
    modifies render
    ensures idx == col + TabWidth(col)
    ensures render[..idx] == old(render[..col]) + Spaces(TabWidth(col))
  {
    ghost var before := render[..col];
    render[col] := SPACE;
    idx := col + 1;
    while idx % TAB_STOP != 0
      invariant col < idx <= col + TabWidth(col)
      invariant render[..idx] == before + Spaces(idx - col)
      decreases col + TabWidth(col) - idx
    {
      render[idx] := SPACE;
      idx := idx + 1;
    }
    TabStopReached(col, idx);
  }

  /**
   * `editorUpdateRow`: counts the tabs, allocates `size + tabs*7 + 1` bytes
   * and writes the expansion and a terminating NUL into them. The array
   * bounds checks show the allocation is always large enough.
   */
  method UpdateRow(row: Row) returns (updated: Row)
    ensures updated == MakeRow(row.chars)
  {
    var chars := row.chars;
    var tabs := CountTabs(chars);
    var render := new Byte[|chars| + tabs * (TAB_STOP - 1) + 1];
    var idx := 0;
    for j := 0 to |chars|
      invariant idx == RenderCol(chars[..j])
      invariant idx <= |chars| + tabs * (TAB_STOP - 1)
      invariant render[..idx] == Render(chars[..j])
    {
      ghost var pre := chars[..j];
      RenderStep(chars, j);
      RenderLength(pre);
      RenderColBounds(chars[..j + 1]);
      TabCountSplit(chars, j + 1);
      if chars[j] == TAB {
        idx := PadTab(render, idx);
      } else {
        ghost var before := render[..idx];
        render[idx] := chars[j];
        idx := idx + 1;
        assert render[..idx] == before + [chars[j]];
      }
    }
    assert chars[..|chars|] == chars;
    render[idx] := 0;
    updated := Row(chars, render[..idx]);
  }

  /** `editorRowCxToRx`: the render column of character index `cx`. */
  method RowCxToRx(row: Row, cx: nat) returns (rx: nat)
    requires cx <= |row.chars|
    ensures rx == RenderCol(row.chars[..cx])
  {
    rx := 0;
    for j := 0 to cx
      invariant rx == RenderCol(row.chars[..j])
    {
      assert row.chars[..j + 1][..j] == row.chars[..j];
      if row.chars[j] == TAB {
        rx := rx + (TAB_STOP - 1) - rx % TAB_STOP;
      }
      rx := rx + 1;
    }
  }

  /** Where `editorRowInsertChar` puts the byte: `at`, or the end when `at` is out of range. */
  function InsertIndex(s: seq<Byte>, at: int): (k: nat)
    ensures k <= |s|
    ensures 0 <= at <= |s| ==> k == at
    ensures !(0 <= at <= |s|) ==> k == |s|
  {
    if at < 0 || at > |s| then |s| else at
  }

  /** The bytes after `editorRowInsertChar(row, at, c)`. */
  function InsertByte(s: seq<Byte>, at: int, c: Byte): (r: seq<Byte>)
    ensures |r| == |s| + 1 && r[InsertIndex(s, at)] == c
    ensures multiset(r) == multiset(s) + multiset{c}
  {
    var k := InsertIndex(s, at);
    assert s == s[..k] + s[k..];
    s[..k] + [c] + s[k..]
  }

  /** The bytes after `editorRowDelChar(row, at)`: unchanged unless `at` indexes a byte. */
  function DeleteByte(s: seq<Byte>, at: int): (r: seq<Byte>)
    ensures 0 <= at < |s| ==> |r| == |s| - 1 && multiset(r) + multiset{s[at]} == multiset(s)
    ensures !(0 <= at < |s|) ==> r == s
  {
    if at < 0 || at >= |s| then s else
      assert s == s[..at] + [s[at]] + s[at + 1..];
      s[..at] + s[at + 1..]
  }

  /** Deleting the byte just inserted restores the row. */
  lemma DeleteAfterInsert(s: seq<Byte>, at: int, c: Byte)
    ensures DeleteByte(InsertByte(s, at, c), InsertIndex(s, at)) == s
  {
    var k := InsertIndex(s, at);
    var r := InsertByte(s, at, c);
    assert r[..k] == s[..k] && r[k + 1..] == s[k..];
  }

  /** Re-inserting a deleted byte where it was restores the row. */
  lemma InsertAfterDelete(s: seq<Byte>, at: nat)
    requires at < |s|
    ensures InsertByte(DeleteByte(s, at), at, s[at]) == s
  {
    var d := DeleteByte(s, at);
    assert d[..at] == s[..at] && d[at..] == s[at + 1..];
  }

  /** The rows after `editorInsertRow(at, line)`: a no-op unless `0 <= at <= numrows`. */
  function InsertRowAt(rows: seq<Row>, at: int, line: seq<Byte>): (r: seq<Row>)
    ensures 0 <= at <= |rows| ==> |r| == |rows| + 1 && r[at] == MakeRow(line)
    ensures !(0 <= at <= |rows|) ==> r == rows
    ensures AllRendered(rows) ==> AllRendered(r)
  {
    if 0 <= at <= |rows| then rows[..at] + [MakeRow(line)] + rows[at..] else rows
  }

  /** Inserting a row keeps the rows before `at` and shifts the rest up by one. */
  lemma InsertRowAtShifts(rows: seq<Row>, at: nat, line: seq<Byte>)
    requires at <= |rows|
    ensures var r := InsertRowAt(rows, at, line);
            && (forall i :: 0 <= i < at ==> r[i] == rows[i])
            && (forall i :: at < i <= |rows| ==> r[i] == rows[i - 1])
  {
  }

  /** The rows after `editorDelRow(at)`: a no-op unless `0 <= at < numrows`. */
  function DeleteRowAt(rows: seq<Row>, at: int): (r: seq<Row>)
    ensures 0 <= at < |rows| ==> |r| == |rows| - 1
    ensures !(0 <= at < |rows|) ==> r == rows
    ensures AllRendered(rows) ==> AllRendered(r)
  {
    if 0 <= at < |rows| then rows[..at] + rows[at + 1..] else rows
  }

  /** Deleting a row keeps the rows before `at` and shifts the rest down by one. */
  lemma DeleteRowAtShifts(rows: seq<Row>, at: nat)
    requires at < |rows|
    ensures var r := DeleteRowAt(rows, at);
            && (forall i :: 0 <= i < at ==> r[i] == rows[i])
            && (forall i :: at <= i < |r| ==> r[i] == rows[i + 1])
  {
  }

  /** Deleting the row just inserted restores the rows. */
  lemma DeleteAfterInsertRow(rows: seq<Row>, at: nat, line: seq<Byte>)
    requires at <= |rows|
    ensures DeleteRowAt(InsertRowAt(rows, at, line), at) == rows
  {
    var r := InsertRowAt(rows, at, line);
    assert r[..at] == rows[..at] && r[at + 1..] == rows[at..];
  }
}
