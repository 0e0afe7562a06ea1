/**
 * The editor's global state `E` as a class. Its fields are the fields of
 * `editorConfig` that the core reads and writes; every method that changes
 * them says, through `Snapshot`, which function of `Editing` it computes.
 */
module Editor {
  import opened Bytes
  import opened Keys
  import opened Tabs
  import opened Rows
  import opened Text
  import opened Editing

  class Editor {
    var rows: seq<Row>
    var cx: nat
    var cy: nat
    var rx: nat
    var rowoff: nat
    var coloff: nat
    const screenrows: nat
    const screencols: nat
    var dirty: nat

    function Snapshot(): State
      reads this
    {
      State(rows, cx, cy, rx, rowoff, coloff, dirty)
    }

    /** Every row is rendered, the cursor is on its row and the screen has room for text. */
    ghost predicate Valid()
      reads this
    {
      screenrows >= 1 && screencols >= 1 && AllRendered(rows) && CursorOk(Snapshot())
    }

    /**
     * `initEditor`: an empty document with the cursor at the top left. The
     * window size comes from the terminal; two lines are kept for the status
     * and message bars.
     */
    constructor (windowRows: nat, windowCols: nat)
      requires windowRows >= 3 && windowCols >= 1
      ensures Valid() && Snapshot() == State([], 0, 0, 0, 0, 0, 0)
      ensures screenrows == windowRows - 2 && screencols == windowCols
    {
      rows, cx, cy, rx, rowoff, coloff, dirty := [], 0, 0, 0, 0, 0, 0;
      screenrows, screencols := windowRows - 2, windowCols;
    }

    // --- row operations ------------------------------------------------------

    /** `editorInsertRow(at, s, len)`. */
    method InsertRow(at: int, s: seq<Byte>)
      requires AllRendered(rows)
      modifies this`rows, this`dirty
      ensures AllRendered(rows) && rows == InsertRowAt(old(rows), at, s)
      ensures dirty == if 0 <= at <= |old(rows)| then old(dirty) + 1 else old(dirty)
    {
      if at < 0 || at > |rows| {
        return;
      }
      var row := UpdateRow(Row(s, []));
      rows := rows[..at] + [row] + rows[at..];
      dirty := dirty + 1;
    }

    /** `editorAppendRow(s, len)`: always adds the row after the last one. */
    method AppendRow(s: seq<Byte>)
      requires AllRendered(rows)
      modifies this`rows, this`dirty
      ensures AllRendered(rows) && rows == old(rows) + [MakeRow(s)] && dirty == old(dirty) + 1
    {
      var row := UpdateRow(Row(s, []));
      rows := rows + [row];
      dirty := dirty + 1;
    }

    /** `editorDelRow(at)`. */
    method DelRow(at: int)
      requires AllRendered(rows)
      modifies this`rows, this`dirty
      ensures AllRendered(rows) && rows == DeleteRowAt(old(rows), at)
      ensures dirty == if 0 <= at < |old(rows)| then old(dirty) + 1 else old(dirty)
    {
      if at < 0 || at >= |rows| {
        return;
      }
      rows := rows[..at] + rows[at + 1..];
      dirty := dirty + 1;
    }

    /** `editorRowInsertChar(&E.row[r], at, c)`. */
    method RowInsertChar(r: nat, at: int, c: int)
      requires AllRendered(rows) && r < |rows|
      modifies this`rows, this`dirty
      ensures AllRendered(rows) && dirty == old(dirty) + 1
      ensures rows == old(rows)[r := MakeRow(InsertByte(old(rows[r].chars), at, ToByte(c)))]
    {
      var chars := rows[r].chars;
      var k := if at < 0 || at > |chars| then |chars| else at;
      var row := UpdateRow(Row(chars[..k] + [ToByte(c)] + chars[k..], rows[r].render));
      rows := rows[r := row];
      dirty := dirty + 1;
    }

    /** `editorRowAppendString(&E.row[r], s, len)`. */
    method RowAppendString(r: nat, s: seq<Byte>)
      requires AllRendered(rows) && r < |rows|
      modifies this`rows, this`dirty
      ensures AllRendered(rows) && dirty == old(dirty) + 1
      ensures rows == old(rows)[r := MakeRow(old(rows[r].chars) + s)]
    {
      var row := UpdateRow(Row(rows[r].chars + s, rows[r].render));
      rows := rows[r := row];
      dirty := dirty + 1;
    }

    /** `editorRowDelChar(&E.row[r], at)`. */
    method RowDelChar(r: nat, at: int)
      requires AllRendered(rows) && r < |rows|
      modifies this`rows, this`dirty
      ensures AllRendered(rows)
      ensures dirty == if 0 <= at < |old(rows[r].chars)| then old(dirty) + 1 else old(dirty)
      ensures rows == old(rows)[r := MakeRow(DeleteByte(old(rows[r].chars), at))]
    {
      var chars := rows[r].chars;
      if at < 0 || at >= |chars| {
        assert Rendered(rows[r]) && MakeRow(chars) == rows[r];
        return;
      }
      var row := UpdateRow(Row(chars[..at] + chars[at + 1..], rows[r].render));
      rows := rows[r := row];
      dirty := dirty + 1;
    }

    // --- editor operations ---------------------------------------------------

    /** `editorInsertChar(c)`. */
    method InsertChar(c: int)
      requires Valid() && cy <= |rows|
      modifies this`rows, this`dirty, this`cx
      ensures Valid() && Snapshot() == AfterInsertChar(old(Snapshot()), c)
    {
      ghost var s0 := Snapshot();
      ghost var grown := cy == |rows|;
      if cy == |rows| {
        InsertRow(|rows|, []);
      }
      assert rows == (if grown then InsertRowAt(s0.rows, |s0.rows|, []) else s0.rows);
      assert dirty == (if grown then s0.dirty + 1 else s0.dirty);
      RowInsertChar(cy, cx, c);
      cx := cx + 1;
      assert Snapshot() == AfterInsertChar(s0, c);
    }

    /** `editorInsertNewline`. */
    method InsertNewline()
      requires Valid()
      modifies this`rows, this`dirty, this`cx, this`cy
      ensures Valid() && Snapshot() == AfterNewline(old(Snapshot()))
    {
      if cx == 0 {
        InsertRow(cy, []);
      } else {
        var chars := rows[cy].chars;
        InsertRow(cy + 1, chars[cx..]);
        var row := UpdateRow(Row(chars[..cx], rows[cy].render));
        rows := rows[cy := row];
      }
      cy := cy + 1;
      cx := 0;
    }

    /** `editorDelChar`. */
    method DelChar()
      requires Valid() && cy <= |rows|
      modifies this`rows, this`dirty, this`cx, this`cy
      ensures Valid() && Snapshot() == AfterDelChar(old(Snapshot()))
    {
      if cy == |rows| || (cx == 0 && cy == 0) {
        // nothing to delete
      } else if cx > 0 {
        DeleteBeforeCursor();
      } else {
        JoinWithPrevious();
      }
    }

    /** The `if` branch of `editorDelChar`: the byte before the cursor is removed. */
    method DeleteBeforeCursor()
      requires Valid() && cy < |rows| && cx > 0
      modifies this`rows, this`dirty, this`cx
      ensures Valid() && Snapshot() == AfterDelChar(old(Snapshot()))
    {
      ghost var s0 := State(rows, cx, cy, rx, rowoff, coloff, dirty);
      DelCharInRow(s0);
      RowDelChar(cy, cx - 1);
      cx := cx - 1;
    }

    /** The `else` branch of `editorDelChar`: row `cy` is appended to row `cy - 1` and removed. */
    method JoinWithPrevious()
      requires Valid() && 0 < cy < |rows| && cx == 0
      modifies this`rows, this`dirty, this`cx, this`cy
      ensures Valid() && Snapshot() == AfterDelChar(old(Snapshot()))
    {
      DelCharJoins(Snapshot());
      var prev, line := rows[cy - 1].chars, rows[cy].chars;
      cx := |prev|;
      RowAppendString(cy - 1, line);
      DelRow(cy);
      cy := cy - 1;
    }

    /**
     * `editorMoveCursor(key)`. At `cy == numrows` the C code points one row
     * past the array and reads that row's size; the model treats that row as
     * absent, as it is when the document is empty.
     */
    method MoveCursor(key: int)
      requires AllRendered(rows) && MoveDefined(Snapshot(), key)
      modifies this`cx, this`cy
      ensures CursorOk(Snapshot()) && Snapshot() == AfterMove(old(Snapshot()), screenrows, key)
    {
      var hasRow := cy < |rows|;
      if key == ARROW_LEFT {
        if cx != 0 {
          cx := cx - 1;
        } else if cy > 0 {
          cy := cy - 1;
          cx := |rows[cy].chars|;
        }
      } else if key == ARROW_RIGHT {
        if hasRow && cx < |rows[cy].chars| {
          cx := cx + 1;
        } else if hasRow && cy < screenrows {
          cy := cy + 1;
          cx := 0;
        }
      } else if key == ARROW_UP {
        if cy != 0 {
          cy := cy - 1;
        }
      } else if key == ARROW_DOWN {
        if cy < screenrows {
          cy := cy + 1;
        }
      }
      var rowlen := if cy < |rows| then |rows[cy].chars| else 0;
      if cx > rowlen {
        cx := rowlen;
      }
    }

    /**
     * `editorProcessKeypress` for an already decoded key `c`. `saved` is the
     * outcome of the file write that Ctrl-S triggers; `quit` reports Ctrl-Q,
     * where the source exits.
     */
    method ProcessKeypress(c: int, saved: bool) returns (quit: bool)
      requires Valid() && KeyDefined(Snapshot(), c)
      modifies this`rows, this`dirty, this`cx, this`cy
      ensures Valid() && (quit <==> c == CTRL_Q)
      ensures Snapshot() == AfterKeypress(old(Snapshot()), screenrows, c, saved)
    {
      quit := false;
      if c == ENTER {
        InsertNewline();
      } else if c == CTRL_Q {
        quit := true;
      } else if c == CTRL_S {
        if saved {
          dirty := 0;
        }
      } else if c == BACKSPACE {
      } else if c == DEL_KEY {
        MoveCursor(ARROW_RIGHT);
        DelChar();
      } else if c == PAGE_UP || c == PAGE_DOWN {
        Page(c);
      } else if IsArrow(c) {
        MoveCursor(c);
      } else if c == ESC as int {
      } else {
        InsertChar(c);
      }
    }

    /**
     * The PAGE_UP / PAGE_DOWN case of `editorProcessKeypress`: put the cursor
     * on the first or last screen row, then send one arrow move per screen
     * row (the `while (times--)` loop).
     */
    method Page(c: int)
      requires Valid() && (c == PAGE_UP || c == PAGE_DOWN)
      modifies this`cx, this`cy
      ensures Valid() && Snapshot() == AfterPage(old(Snapshot()), screenrows, c)
    {
      if c == PAGE_UP {
        cy := rowoff;
      } else {
        cy := rowoff + screenrows - 1;
        if cy > screenrows {
          cy := screenrows;
        }
      }
      var dir := if c == PAGE_UP then ARROW_UP else ARROW_DOWN;
      ghost var start := Snapshot();
      var times: nat := screenrows;
      while times != 0
        invariant times <= screenrows && AllRendered(rows)
        decreases times
        invariant Snapshot() == MovedTimes(start, screenrows, dir, screenrows - times)
      {
        times := times - 1;
        MoveCursor(dir);
      }
    }

    /** `editorScroll`. */
    method Scroll()
      requires Valid()
      modifies this`rx, this`rowoff, this`coloff
      ensures Valid() && Snapshot() == AfterScroll(old(Snapshot()), screenrows, screencols)
    {
      rx := cx;
      if cy < |rows| {
        rx := RowCxToRx(rows[cy], cx);
      }
      if cy < rowoff {
        rowoff := cy;
      }
      if cy >= rowoff + screenrows {
        rowoff := cy - screenrows + 1;
      }
      if rx < coloff {
        coloff := rx;
      }
      if rx >= coloff + screencols {
        coloff := rx - screencols + 1;
      }
    }

    /**
     * `editorRowsToString`: sums the row lengths, allocates that many bytes
     * and copies each row and a newline into them. The array bounds checks
     * show the copies fill the buffer exactly.
     */
    method RowsToString() returns (buf: seq<Byte>, buflen: nat)
      ensures buf == Serialize(rows) && buflen == |buf| == TotalLen(rows)
    {
      var totlen := 0;
      for i := 0 to |rows|
        invariant totlen == TotalLen(rows[..i])
      {
        assert rows[..i + 1][..i] == rows[..i];
        totlen := totlen + |rows[i].chars| + 1;
      }
      assert rows[..|rows|] == rows;
      buflen := totlen;
      var a := new Byte[totlen];
      var p := 0;
      for j := 0 to |rows|
        invariant p == TotalLen(rows[..j]) <= a.Length
        invariant a[..p] == Serialize(rows[..j])
      {
        assert rows[..j + 1][..j] == rows[..j];
        TotalLenPrefix(rows, j + 1);
        p := CopyLine(a, p, rows[j].chars);
      }
      SerializeLength(rows);
      buf := a[..];
    }
  }

  /** One row's `memcpy` and the `'\n'` after it; returns the position after the newline. */
  method CopyLine(a: array<Byte>, p: nat, chars: seq<Byte>) returns (next: nat)
    requires p + |chars| + 1 <= a.Length
    modifies a
    ensures next == p + |chars| + 1
    ensures a[..next] == old(a[..p]) + chars + [NL]
  {
    forall k | 0 <= k < |chars| {
      a[p + k] := chars[k];
    }
    a[p + |chars|] := NL;
    next := p + |chars| + 1;
    assert a[..next] == a[..p] + a[p..p + |chars|] + [NL];
  }
}
