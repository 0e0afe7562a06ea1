/**
 * What each operation on the editor state does, as functions from the state
 * before to the state after. The `Editor` class implements them in place;
 * the lemmas here state the properties of the editing model: split and join
 * undo each other, insertion and deletion undo each other, the cursor stays
 * on the text, and scrolling keeps the cursor on screen.
 */
module Editing {
  import opened Bytes
  import opened Keys
  import opened Tabs
  import opened Rows

  /** The mutable fields of the editor (`E`); `numrows` is `|rows|`. */
  datatype State = State(rows: seq<Row>, cx: nat, cy: nat, rx: nat, rowoff: nat, coloff: nat, dirty: nat)

  /** The length of row `cy`, or 0 for the virtual row(s) past the end. */
  function RowLen(rows: seq<Row>, cy: nat): nat
  {
    if cy < |rows| then |rows[cy].chars| else 0
  }

  /** The cursor lies within its row (at column 0 past the last row). */
  predicate CursorOk(s: State)
  {
    s.cx <= RowLen(s.rows, s.cy)
  }

  /** `editorInsertChar(c)`: on the virtual row a row is appended first; `c` is stored as a `char`. */
  function AfterInsertChar(s: State, c: int): (r: State)
    requires CursorOk(s) && s.cy <= |s.rows|
    ensures CursorOk(r) && r.cy == s.cy && r.cx == s.cx + 1
    ensures AllRendered(s.rows) ==> AllRendered(r.rows)
  {
    var grown := s.cy == |s.rows|;
    var base := if grown then InsertRowAt(s.rows, |s.rows|, []) else s.rows;
    var dirty := if grown then s.dirty + 1 else s.dirty;
    var line := if grown then [] else s.rows[s.cy].chars;
    assert |base| == |s.rows| + (if grown then 1 else 0) && base[s.cy].chars == line;
    s.(rows := base[s.cy := MakeRow(InsertByte(line, s.cx, ToByte(c)))],
       cx := s.cx + 1, dirty := dirty + 1)
  }

  /** `editorInsertNewline`: split row `cy` at `cx` and move to the start of the next row. */
  function AfterNewline(s: State): (r: State)
    requires CursorOk(s)
    ensures CursorOk(r) && r.cx == 0 && r.cy == s.cy + 1
    ensures AllRendered(s.rows) ==> AllRendered(r.rows)
  {
    if s.cx == 0 then
      s.(rows := InsertRowAt(s.rows, s.cy, []),
         dirty := if s.cy <= |s.rows| then s.dirty + 1 else s.dirty,
         cx := 0, cy := s.cy + 1)
    else
      var chars := s.rows[s.cy].chars;
      var rows := InsertRowAt(s.rows, s.cy + 1, chars[s.cx..]);
      s.(rows := rows[s.cy := MakeRow(chars[..s.cx])], dirty := s.dirty + 1, cx := 0, cy := s.cy + 1)
  }

  /**
   * `editorDelChar`: delete the byte before the cursor, or at column 0 join
   * the row onto the previous one; nothing happens on the virtual row or at
   * the very start of the document.
   */
  function AfterDelChar(s: State): (r: State)
    requires CursorOk(s) && s.cy <= |s.rows|
    ensures CursorOk(r) && r.cy <= |r.rows|
    ensures AllRendered(s.rows) ==> AllRendered(r.rows)
  {
    if s.cy == |s.rows| || (s.cx == 0 && s.cy == 0) then s
    else if s.cx > 0 then
      s.(rows := s.rows[s.cy := MakeRow(DeleteByte(s.rows[s.cy].chars, s.cx - 1))],
         cx := s.cx - 1, dirty := s.dirty + 1)
    else
      var prev := s.rows[s.cy - 1].chars;
      var joined := s.rows[s.cy - 1 := MakeRow(prev + s.rows[s.cy].chars)];
      s.(rows := DeleteRowAt(joined, s.cy), cx := |prev|, cy := s.cy - 1, dirty := s.dirty + 2)
  }

  /**
   * The C code reads the previous row when ARROW_LEFT wraps; that row exists
   * only when `cy <= numrows`.
   */
  predicate MoveDefined(s: State, key: int)
  {
    key == ARROW_LEFT && s.cx == 0 && s.cy > 0 ==> s.cy <= |s.rows|
  }

  /**
   * `editorMoveCursor(key)`. ARROW_RIGHT and ARROW_DOWN bound `cy` by the
   * screen height, as the source does. Afterwards `cx` is clamped to the
   * length of the row the cursor is on.
   */
  function AfterMove(s: State, screenrows: nat, key: int): (r: State)
    requires MoveDefined(s, key)
    ensures CursorOk(r) && r == s.(cx := r.cx, cy := r.cy)
    ensures key == ARROW_RIGHT && s.cy <= |s.rows| ==> r.cy <= |s.rows|
  {
    var (cx, cy) :=
      if key == ARROW_LEFT then
        if s.cx != 0 then (s.cx - 1, s.cy)
        else if s.cy > 0 then (|s.rows[s.cy - 1].chars|, s.cy - 1)
        else (s.cx, s.cy)
      else if key == ARROW_RIGHT then
        if s.cy < |s.rows| && s.cx < |s.rows[s.cy].chars| then (s.cx + 1, s.cy)
        else if s.cy < |s.rows| && s.cy < screenrows then (0, s.cy + 1)
        else (s.cx, s.cy)
      else if key == ARROW_UP then (s.cx, if s.cy != 0 then s.cy - 1 else s.cy)
      else if key == ARROW_DOWN then (s.cx, if s.cy < screenrows then s.cy + 1 else s.cy)
      else (s.cx, s.cy);
    var rowlen := RowLen(s.rows, cy);
    s.(cx := if cx > rowlen then rowlen else cx, cy := cy)
  }

  /** `n` vertical moves, as the Page Up / Page Down loop makes them. */
  function MovedTimes(s: State, screenrows: nat, key: int, n: nat): (r: State)
    requires key == ARROW_UP || key == ARROW_DOWN
    ensures n > 0 ==> CursorOk(r)
    ensures r == s.(cx := r.cx, cy := r.cy)
  {
    if n == 0 then s else AfterMove(MovedTimes(s, screenrows, key, n - 1), screenrows, key)
  }

  /** Page Up starts from the top screen row, Page Down from the bottom one (bounded by the screen height). */
  function PageStart(s: State, screenrows: nat, c: int): nat
    requires screenrows >= 1
  {
    if c == PAGE_UP then s.rowoff else Min(s.rowoff + screenrows - 1, screenrows)
  }

  /** The PAGE_UP / PAGE_DOWN case of `editorProcessKeypress`. */
  function AfterPage(s: State, screenrows: nat, c: int): (r: State)
    requires screenrows >= 1 && (c == PAGE_UP || c == PAGE_DOWN)
    ensures CursorOk(r) && r == s.(cx := r.cx, cy := r.cy)
  {
    MovedTimes(s.(cy := PageStart(s, screenrows, c)), screenrows,
               if c == PAGE_UP then ARROW_UP else ARROW_DOWN, screenrows)
  }

  /**
   * Keys whose handling in the C code would read a row past the end of the
   * row array when the cursor is below the virtual row (`cy > numrows`).
   */
  predicate KeyDefined(s: State, c: int)
  {
    s.cy <= |s.rows|
    || c in {ENTER, CTRL_Q, CTRL_S, BACKSPACE, PAGE_UP, PAGE_DOWN, ARROW_RIGHT, ARROW_UP, ARROW_DOWN, ESC as int}
  }

  predicate IsArrow(c: int)
  {
    c in {ARROW_LEFT, ARROW_RIGHT, ARROW_UP, ARROW_DOWN}
  }

  /**
   * `editorProcessKeypress` for key `c`. Ctrl-Q leaves the state as it is (the
   * process exits); Ctrl-S clears `dirty` when the save wrote the file
   * (`saved`); Backspace does nothing; Delete moves right and deletes before
   * the cursor; every key not handled otherwise is inserted.
   */
  function AfterKeypress(s: State, screenrows: nat, c: int, saved: bool): (r: State)
    requires CursorOk(s) && KeyDefined(s, c) && screenrows >= 1
    ensures CursorOk(r)
    ensures AllRendered(s.rows) ==> AllRendered(r.rows)
  {
    if c == ENTER then AfterNewline(s)
    else if c == CTRL_Q then s
    else if c == CTRL_S then (if saved then s.(dirty := 0) else s)
    else if c == BACKSPACE then s
    else if c == DEL_KEY then AfterDelChar(AfterMove(s, screenrows, ARROW_RIGHT))
    else if c == PAGE_UP || c == PAGE_DOWN then AfterPage(s, screenrows, c)
    else if IsArrow(c) then AfterMove(s, screenrows, c)
    else if c == ESC as int then s
    else AfterInsertChar(s, c)
  }

  /**
   * One offset of `editorScroll`: moved back to `pos` when `pos` is before it,
   * forward just far enough when `pos` is past the window of `size`.
   */
  function Ratchet(off: nat, pos: nat, size: nat): (r: nat)
    requires size >= 1
    ensures r <= pos < r + size
  {
    var o := if pos < off then pos else off;
    if pos >= o + size then pos - size + 1 else o
  }

  /** The render column of the cursor (`E.rx`). */
  function CursorRx(s: State): (rx: nat)
    requires CursorOk(s)
    ensures rx >= s.cx
    ensures s.cy < |s.rows| && TAB !in s.rows[s.cy].chars[..s.cx] ==> rx == s.cx
  {
    if s.cy < |s.rows| then
      var prefix := s.rows[s.cy].chars[..s.cx];
      RenderColBounds(prefix);
      if TAB !in prefix then RenderColWithoutTabs(prefix); RenderCol(prefix)
      else RenderCol(prefix)
    else s.cx
  }

  /** `editorScroll`: computes `rx` and moves the offsets so the cursor is inside the window. */
  function AfterScroll(s: State, screenrows: nat, screencols: nat): (r: State)
    requires CursorOk(s) && screenrows >= 1 && screencols >= 1
    ensures r.rowoff <= r.cy < r.rowoff + screenrows
    ensures r.coloff <= r.rx < r.coloff + screencols
    ensures r == s.(rx := r.rx, rowoff := r.rowoff, coloff := r.coloff)
  {
    var rx := CursorRx(s);
    s.(rx := rx, rowoff := Ratchet(s.rowoff, s.cy, screenrows),
       coloff := Ratchet(s.coloff, rx, screencols))
  }

  // ---------------------------------------------------------------------------
  // Properties

  /** `rows` is `orig` with row `at` split in two: the rows around it are kept or shifted by one. */
  predicate SplitAt(orig: seq<Row>, at: nat, rows: seq<Row>)
    requires at < |orig|
  {
    && |rows| == |orig| + 1
    && rows[at].chars + rows[at + 1].chars == orig[at].chars
    && (forall i :: 0 <= i < at ==> rows[i] == orig[i])
    && (forall i :: at + 1 < i < |rows| ==> rows[i] == orig[i - 1])
  }

  /** Enter splits the row at the cursor into two rows whose bytes concatenate to the original. */
  lemma NewlineSplits(s: State)
    requires CursorOk(s) && s.cy < |s.rows|
    ensures var r := AfterNewline(s);
            && |r.rows| == |s.rows| + 1
            && r.rows[s.cy].chars == s.rows[s.cy].chars[..s.cx]
            && r.rows[s.cy].chars + r.rows[s.cy + 1].chars == s.rows[s.cy].chars
            && (forall i :: 0 <= i < s.cy ==> r.rows[i] == s.rows[i])
            && (forall i :: s.cy + 1 < i < |r.rows| ==> r.rows[i] == s.rows[i - 1])
            && r.dirty == s.dirty + 1
  {
    if s.cx == 0 {
      NewlineAtRowStart(s.rows, s.cy);
    } else {
      NewlineInsideRow(s.rows, s.cy, s.cx);
    }
  }

  lemma NewlineAtRowStart(rows: seq<Row>, at: nat)
    requires at < |rows|
    ensures var r := InsertRowAt(rows, at, []);
            SplitAt(rows, at, r) && r[at].chars == rows[at].chars[..0]
  {
    var r := InsertRowAt(rows, at, []);
    InsertRowAtShifts(rows, at, []);
    assert r[at + 1] == rows[at];
    assert [] + rows[at].chars == rows[at].chars;
  }

  lemma NewlineInsideRow(rows: seq<Row>, at: nat, cx: nat)
    requires at < |rows| && cx <= |rows[at].chars|
    ensures var chars := rows[at].chars;
            var r := InsertRowAt(rows, at + 1, chars[cx..])[at := MakeRow(chars[..cx])];
            SplitAt(rows, at, r) && r[at].chars == chars[..cx]
  {
    var chars := rows[at].chars;
    InsertRowAtShifts(rows, at + 1, chars[cx..]);
    assert chars[..cx] + chars[cx..] == chars;
  }

  /** Joining rows `at` and `at + 1` of a split document gives the document back. */
  lemma JoinRestores(rows: seq<Row>, at: nat, orig: seq<Row>)
    requires at < |orig| && |rows| == |orig| + 1 && Rendered(orig[at])
    requires rows[at].chars + rows[at + 1].chars == orig[at].chars
    requires forall i :: 0 <= i < at ==> rows[i] == orig[i]
    requires forall i :: at + 1 < i < |rows| ==> rows[i] == orig[i - 1]
    ensures DeleteRowAt(rows[at := MakeRow(rows[at].chars + rows[at + 1].chars)], at + 1) == orig
  {
    var joined := rows[at := MakeRow(orig[at].chars)];
    assert MakeRow(orig[at].chars) == orig[at];
    var r := DeleteRowAt(joined, at + 1);
    assert |r| == |orig|;
    forall i | 0 <= i < |orig|
      ensures r[i] == orig[i]
    {
      if i > at {
        assert r[i] == joined[i + 1] == rows[i + 1];
      }
    }
  }

  /** Backspace at the start of the row Enter created joins it back: the document is restored. */
  lemma SplitThenJoin(s: State)
    requires CursorOk(s) && s.cy < |s.rows| && AllRendered(s.rows)
    ensures AfterDelChar(AfterNewline(s)) == s.(dirty := s.dirty + 3)
  {
    NewlineSplits(s);
    var split := AfterNewline(s);
    JoinRestores(split.rows, s.cy, s.rows);
  }

  /** Typing on a real row replaces that row and moves the cursor one to the right. */
  lemma InsertCharOnRow(s: State, c: int)
    requires CursorOk(s) && s.cy < |s.rows|
    ensures AfterInsertChar(s, c)
            == s.(rows := s.rows[s.cy := MakeRow(InsertByte(s.rows[s.cy].chars, s.cx, ToByte(c)))],
                  cx := s.cx + 1, dirty := s.dirty + 1)
  {
  }

  /** Deleting inside a row replaces that row and moves the cursor one to the left. */
  lemma DelCharInRow(s: State)
    requires CursorOk(s) && s.cy < |s.rows| && s.cx > 0
    ensures AfterDelChar(s)
            == s.(rows := s.rows[s.cy := MakeRow(DeleteByte(s.rows[s.cy].chars, s.cx - 1))],
                  cx := s.cx - 1, dirty := s.dirty + 1)
  {
  }

  /** At the start of a row, delete joins the row onto the previous one. */
  lemma DelCharJoins(s: State)
    requires CursorOk(s) && 0 < s.cy < |s.rows| && s.cx == 0
    ensures var prev := s.rows[s.cy - 1].chars;
            AfterDelChar(s)
            == s.(rows := DeleteRowAt(s.rows[s.cy - 1 := MakeRow(prev + s.rows[s.cy].chars)], s.cy),
                  cx := |prev|, cy := s.cy - 1, dirty := s.dirty + 2)
  {
  }

  /**
   * Typing on a real row puts the byte at the cursor in that row, leaves
   * every other row as it was and moves the cursor one to the right.
   */
  lemma TypingEditsRow(s: State, c: int)
    requires CursorOk(s) && s.cy < |s.rows|
    ensures var r := AfterInsertChar(s, c);
            var chars := s.rows[s.cy].chars;
            && |r.rows| == |s.rows|
            && r.rows[s.cy].chars == chars[..s.cx] + [ToByte(c)] + chars[s.cx..]
            && (forall i :: 0 <= i < |s.rows| && i != s.cy ==> r.rows[i] == s.rows[i])
            && r == s.(rows := r.rows, cx := s.cx + 1, dirty := s.dirty + 1)
  {
    InsertCharOnRow(s, c);
  }

  /** Typing on the virtual row past the end appends a row holding just that byte. */
  lemma TypingPastEndAppends(s: State, c: int)
    requires CursorOk(s) && s.cy == |s.rows|
    ensures var r := AfterInsertChar(s, c);
            && r.rows == s.rows + [MakeRow([ToByte(c)])]
            && r == s.(rows := r.rows, cx := 1, dirty := s.dirty + 2)
  {
    var grown := InsertRowAt(s.rows, |s.rows|, []);
    assert grown == s.rows + [MakeRow([])];
    assert InsertByte([], s.cx, ToByte(c)) == [ToByte(c)];
  }

  /**
   * Inside a row, delete removes the byte before the cursor from that row,
   * leaves every other row as it was and moves the cursor one to the left.
   */
  lemma BackspaceEditsRow(s: State)
    requires CursorOk(s) && s.cy < |s.rows| && s.cx > 0
    ensures var r := AfterDelChar(s);
            var chars := s.rows[s.cy].chars;
            && |r.rows| == |s.rows|
            && r.rows[s.cy].chars == chars[..s.cx - 1] + chars[s.cx..]
            && (forall i :: 0 <= i < |s.rows| && i != s.cy ==> r.rows[i] == s.rows[i])
            && r == s.(rows := r.rows, cx := s.cx - 1, dirty := s.dirty + 1)
  {
    DelCharInRow(s);
  }

  /**
   * At column 0 below the first row, delete appends the row to the previous
   * one and removes it: the rows above stay, the rows below move up by one,
   * and the cursor lands where the previous row used to end.
   */
  lemma BackspaceJoinsRows(s: State)
    requires CursorOk(s) && 0 < s.cy < |s.rows| && s.cx == 0
    ensures var r := AfterDelChar(s);
            var prev := s.rows[s.cy - 1].chars;
            && |r.rows| == |s.rows| - 1
            && r.rows[s.cy - 1].chars == prev + s.rows[s.cy].chars
            && (forall i :: 0 <= i < s.cy - 1 ==> r.rows[i] == s.rows[i])
            && (forall i :: s.cy <= i < |r.rows| ==> r.rows[i] == s.rows[i + 1])
            && r == s.(rows := r.rows, cx := |prev|, cy := s.cy - 1, dirty := s.dirty + 2)
  {
    var prev := s.rows[s.cy - 1].chars;
    var joined := s.rows[s.cy - 1 := MakeRow(prev + s.rows[s.cy].chars)];
    DelCharJoins(s);
    DeleteRowAtShifts(joined, s.cy);
  }

  /** Deleting right after typing a byte restores the document and the cursor. */
  lemma InsertThenDelete(s: State, c: int)
    requires CursorOk(s) && s.cy < |s.rows| && AllRendered(s.rows)
    ensures AfterDelChar(AfterInsertChar(s, c)) == s.(dirty := s.dirty + 2)
  {
    var chars := s.rows[s.cy].chars;
    var typed := InsertByte(chars, s.cx, ToByte(c));
    InsertCharOnRow(s, c);
    var t := AfterInsertChar(s, c);
    DelCharInRow(t);
    assert t.rows[t.cy].chars == typed && t.cx - 1 == s.cx;
    DeleteAfterInsert(chars, s.cx, ToByte(c));
    assert DeleteByte(typed, s.cx) == chars;
    RowReplacedBack(s.rows, s.cy, typed);
  }

  /** Putting a rendered row's own bytes back over a replaced row restores the document. */
  lemma RowReplacedBack(rows: seq<Row>, at: nat, line: seq<Byte>)
    requires at < |rows| && Rendered(rows[at])
    ensures rows[at := MakeRow(line)][at := MakeRow(rows[at].chars)] == rows
  {
    assert MakeRow(rows[at].chars) == rows[at];
  }

  /** The example of joining `["ab", "cd"]` at the start of the second row. */
  lemma JoinExample(d: nat)
    ensures var s := State([MakeRow([97, 98]), MakeRow([99, 100])], 0, 1, 0, 0, 0, d);
            var r := AfterDelChar(s);
            r.rows == [MakeRow([97, 98, 99, 100])] && r.cy == 0 && r.cx == 2
  {
    var s := State([MakeRow([97, 98]), MakeRow([99, 100])], 0, 1, 0, 0, 0, d);
    assert s.rows[0].chars + s.rows[1].chars == [97, 98, 99, 100];
  }

  /** Delete inside a row removes the byte under the cursor and leaves the cursor where it is. */
  lemma DelKeyDeletesUnderCursor(s: State, screenrows: nat, saved: bool)
    requires CursorOk(s) && screenrows >= 1 && s.cy < |s.rows| && s.cx < |s.rows[s.cy].chars|
    ensures var r := AfterKeypress(s, screenrows, DEL_KEY, saved);
            r == s.(rows := s.rows[s.cy := MakeRow(DeleteByte(s.rows[s.cy].chars, s.cx))], dirty := s.dirty + 1)
  {
    var m := AfterMove(s, screenrows, ARROW_RIGHT);
    assert m == s.(cx := s.cx + 1);
  }

  /** ARROW_LEFT at the top-left corner changes nothing. */
  lemma LeftAtOriginStays(s: State, screenrows: nat)
    requires s.cx == 0 && s.cy == 0
    ensures AfterMove(s, screenrows, ARROW_LEFT) == s
  {
  }

  /** ARROW_RIGHT undoes ARROW_LEFT, across a row boundary too, on every row the screen bound lets it reach. */
  lemma RightUndoesLeft(s: State, screenrows: nat)
    requires CursorOk(s) && s.cy < |s.rows| && (s.cx > 0 || s.cy > 0) && s.cy <= screenrows
    ensures AfterMove(AfterMove(s, screenrows, ARROW_LEFT), screenrows, ARROW_RIGHT) == s
  {
    var l := AfterMove(s, screenrows, ARROW_LEFT);
    if s.cx > 0 {
      assert l == s.(cx := s.cx - 1);
    } else {
      assert l == s.(cx := |s.rows[s.cy - 1].chars|, cy := s.cy - 1);
    }
  }

  /** `n` ARROW_UP moves stop at row 0. */
  lemma {:induction false} MovedUpTimes(s: State, screenrows: nat, n: nat)
    ensures MovedTimes(s, screenrows, ARROW_UP, n).cy == if s.cy >= n then s.cy - n else 0
  {
    if n > 0 {
      MovedUpTimes(s, screenrows, n - 1);
    }
  }

  /** `n` ARROW_DOWN moves stop at the screen height, not at the last row. */
  lemma {:induction false} MovedDownTimes(s: State, screenrows: nat, n: nat)
    requires s.cy <= screenrows
    ensures MovedTimes(s, screenrows, ARROW_DOWN, n).cy == Min(s.cy + n, screenrows)
  {
    if n > 0 {
      MovedDownTimes(s, screenrows, n - 1);
    }
  }

  /** Page Up lands one screen above the top of the window, or on row 0. */
  lemma PageUpLands(s: State, screenrows: nat)
    requires screenrows >= 1
    ensures AfterPage(s, screenrows, PAGE_UP).cy == if s.rowoff >= screenrows then s.rowoff - screenrows else 0
  {
    MovedUpTimes(s.(cy := s.rowoff), screenrows, screenrows);
  }

  /** Page Down always lands on row `screenrows`, however long the document is. */
  lemma PageDownLands(s: State, screenrows: nat)
    requires screenrows >= 1
    ensures AfterPage(s, screenrows, PAGE_DOWN).cy == screenrows
  {
    MovedDownTimes(s.(cy := PageStart(s, screenrows, PAGE_DOWN)), screenrows, screenrows);
  }

  /**
   * Scrolling is a ratchet: an offset that already shows the cursor stays,
   * and otherwise the offset moves no further than any other offset that
   * would show the cursor.
   */
  lemma RatchetMinimal(off: nat, pos: nat, size: nat, other: nat)
    requires size >= 1 && other <= pos < other + size
    ensures off <= pos < off + size ==> Ratchet(off, pos, size) == off
    ensures var r := Ratchet(off, pos, size);
            (if r >= off then r - off else off - r) <= (if other >= off then other - off else off - other)
  {
  }
}
