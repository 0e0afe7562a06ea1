/**
 * Assembly of one screen refresh: the append buffer `abuf`, the text area
 * drawn by `editorDrawRows`, the status and message bars, and the cursor
 * placement that ends the frame. Every drawing method appends to an
 * `AppendBuffer` exactly the bytes a function of this module describes.
 */
module Frame {
  import opened Bytes
  import opened Keys
  import opened Tabs
  import opened Rows
  import opened Editing
  import Editor

  /** `abT`: the bytes of one frame, grown by `abAppend`. */
  class AppendBuffer {
    var b: seq<Byte>

    /** `ABUF_INIT`. */
    constructor ()
      ensures b == []
    {
      b := [];
    }

    /** `abAppend(ab, s, len)`: the first `len` bytes of `s` go at the end. */
    method Append(s: seq<Byte>, len: nat)
      requires len <= |s|
      modifies this
      ensures b == old(b) + s[..len]
      ensures len == |s| ==> b == old(b) + s
    {
      assert len == |s| ==> s[..len] == s;
      b := b + s[..len];
    }
  }

  // ---------------------------------------------------------------------------
  // Escape sequences (ECMA-48 control sequences introduced by ESC '[')

  // Each constant is ESC, `[` and the ASCII bytes of the rest of its comment.
  /** `[?25l` */
  const HIDE_CURSOR: seq<Byte> := [ESC, LBRACKET, 63, 50, 53, 108]
  /** `[?25h` */
  const SHOW_CURSOR: seq<Byte> := [ESC, LBRACKET, 63, 50, 53, 104]
  /** `[H` */
  const CURSOR_HOME: seq<Byte> := [ESC, LBRACKET, 72]
  /** `[K`: erase to end of line. */
  const CLEAR_LINE: seq<Byte> := [ESC, LBRACKET, 75]
  /** `[7m` */
  const REVERSE_VIDEO: seq<Byte> := [ESC, LBRACKET, 55, 109]
  /** `[m` */
  const NORMAL_VIDEO: seq<Byte> := [ESC, LBRACKET, 109]
  /** `[k`: the message bar opens with a lower-case `k`, which is not the erase-line final byte. */
  const MESSAGE_BAR_START: seq<Byte> := [ESC, LBRACKET, 107]
  const CRLF: seq<Byte> := [CR, NL]

  const WELCOME: seq<Byte> := Ascii("Kilo editor -- version 0.0.1")

  // ---------------------------------------------------------------------------
  // Text area

  /**
   * The welcome line of an empty document, cut to the screen width and
   * centred: the text starts `padding` columns in, and the first of those
   * columns keeps the `~` of an empty line.
   */
  function Banner(cols: nat): (line: seq<Byte>)
    ensures |line| <= cols
  {
    var shown := Min(|WELCOME|, cols);
    var padding := (cols - shown) / 2;
    (if padding > 0 then [TILDE] + Spaces(padding - 1) else []) + WELCOME[..shown]
  }

  /**
   * The visible part of a row's `render`, from column `coloff`. The length
   * is limited by `limit`, which the source passes as the screen HEIGHT.
   */
  function TextLine(render: seq<Byte>, coloff: nat, limit: nat): (line: seq<Byte>)
    ensures |line| == if |render| <= coloff then 0 else Min(|render| - coloff, limit)
    ensures forall k :: 0 <= k < |line| ==> line[k] == render[coloff + k]
  {
    if |render| <= coloff then [] else render[coloff..coloff + Min(|render| - coloff, limit)]
  }

  /** Screen line `i` of the text area: a row's text, the banner, or `~`. */
  function ScreenLine(s: State, screenrows: nat, screencols: nat, i: nat): seq<Byte>
  {
    var filerow := i + s.rowoff;
    if filerow >= |s.rows| then
      if |s.rows| == 0 && i == screenrows / 3 then Banner(screencols) else [TILDE]
    else
      TextLine(s.rows[filerow].render, s.coloff, screenrows)
  }

  /** Screen line `i` followed by an erase-line and CR LF. */
  function LineBytes(s: State, screenrows: nat, screencols: nat, i: nat): seq<Byte>
  {
    ScreenLine(s, screenrows, screencols, i) + CLEAR_LINE + CRLF
  }

  /** The first `n` screen lines as drawn. */
  function DrawnRows(s: State, screenrows: nat, screencols: nat, n: nat): seq<Byte>
  {
    if n == 0 then [] else DrawnRows(s, screenrows, screencols, n - 1) + LineBytes(s, screenrows, screencols, n - 1)
  }

  /** The padding loop and welcome text of `editorDrawRows`. */
  method DrawBanner(ab: AppendBuffer, cols: nat)
    modifies ab
    ensures ab.b == old(ab.b) + Banner(cols)
  {
    var welcomeLen := |WELCOME|;
    if welcomeLen > cols {
      welcomeLen := cols;
    }
    var padding: nat := (cols - welcomeLen) / 2;
    ghost var pad: seq<Byte> := if padding > 0 then [TILDE] + Spaces(padding - 1) else [];
    assert Banner(cols) == pad + WELCOME[..welcomeLen];
    if padding != 0 {
      ab.Append([TILDE], 1);
      padding := padding - 1;
      ConcatAssoc(old(ab.b), [TILDE], Spaces(padding));
    }
    ghost var start := ab.b;
    ghost var total := padding;
    assert old(ab.b) + pad == start + Spaces(total);
    while padding != 0
      invariant padding <= total && ab.b == start + Spaces(total - padding)
      decreases padding
    {
      SpacesSnoc(start, total - padding);
      ab.Append([SPACE], 1);
      padding := padding - 1;
    }
    ab.Append(WELCOME, welcomeLen);
    ConcatAssoc(old(ab.b), pad, WELCOME[..welcomeLen]);
  }

  lemma SpacesSnoc(a: seq<Byte>, k: nat)
    ensures a + Spaces(k) + [SPACE] == a + Spaces(k + 1)
  {
    assert Spaces(k) + [SPACE] == Spaces(k + 1);
    ConcatAssoc(a, Spaces(k), [SPACE]);
  }

  /** One pass of the loop in `editorDrawRows`: screen line `i` and its line ending. */
  method DrawLine(ab: AppendBuffer, s: State, screenrows: nat, screencols: nat, i: nat)
    modifies ab
    ensures ab.b == old(ab.b) + LineBytes(s, screenrows, screencols, i)
  {
    var filerow := i + s.rowoff;
    if filerow >= |s.rows| {
      if |s.rows| == 0 && i == screenrows / 3 {
        DrawBanner(ab, screencols);
      } else {
        ab.Append([TILDE], 1);
      }
    } else {
      var render := s.rows[filerow].render;
      var len := |render| - s.coloff;
      if len < 0 {
        len := 0;
      }
      if len > screenrows {
        len := screenrows;
      }
      var from := Min(s.coloff, |render|);
      ab.Append(render[from..], len);
      assert render[from..][..len] == TextLine(render, s.coloff, screenrows);
    }
    ghost var line := ScreenLine(s, screenrows, screencols, i);
    ab.Append(CLEAR_LINE, 3);
    ConcatAssoc(old(ab.b), line, CLEAR_LINE);
    ab.Append(CRLF, 2);
    ConcatAssoc(old(ab.b), line + CLEAR_LINE, CRLF);
  }

  /** `editorDrawRows`, reading the editor state `s`: one line per screen row. */
  method DrawRows(s: State, screenrows: nat, screencols: nat, ab: AppendBuffer)
    modifies ab
    ensures ab.b == old(ab.b) + DrawnRows(s, screenrows, screencols, screenrows)
  {
    ghost var start := ab.b;
    var i := 0;
    while i < screenrows
      invariant i <= screenrows
      invariant ab.b == start + DrawnRows(s, screenrows, screencols, i)
    {
      ghost var drawn := DrawnRows(s, screenrows, screencols, i);
      ghost var line := LineBytes(s, screenrows, screencols, i);
      DrawLine(ab, s, screenrows, screencols, i);
      ConcatAssoc(start, drawn, line);
      i := i + 1;
    }
  }

  // ---------------------------------------------------------------------------
  // Status and message bars

  /** What the right-justify loop appends after `len` status columns. */
  function StatusFill(len: nat, cols: nat, rstatus: seq<Byte>): seq<Byte>
    decreases cols - len
  {
    if len >= cols then []
    else if cols - len == |rstatus| then rstatus
    else [SPACE] + StatusFill(len + 1, cols, rstatus)
  }

  /**
   * `editorDrawStatusBar` for the formatted left part `status` and right
   * part `rstatus`, in reverse video.
   */
  function StatusBar(status: seq<Byte>, rstatus: seq<Byte>, cols: nat): seq<Byte>
  {
    var len := Min(|status|, cols);
    REVERSE_VIDEO + status[..len] + StatusFill(len, cols, rstatus) + NORMAL_VIDEO + CRLF
  }

  /** The right-justify loop of `editorDrawStatusBar`, from column `len`. */
  method RightJustify(ab: AppendBuffer, len: nat, cols: nat, rstatus: seq<Byte>)
    modifies ab
    ensures ab.b == old(ab.b) + StatusFill(len, cols, rstatus)
  {
    var col := len;
    while col < cols
      invariant old(ab.b) + StatusFill(len, cols, rstatus) == ab.b + StatusFill(col, cols, rstatus)
      decreases cols - col
    {
      if cols - col == |rstatus| {
        ab.Append(rstatus, |rstatus|);
        assert rstatus[..|rstatus|] == rstatus;
        break;
      } else {
        ab.Append([SPACE], 1);
        col := col + 1;
      }
    }
  }

  /** `editorDrawStatusBar`. */
  method DrawStatusBar(ab: AppendBuffer, status: seq<Byte>, rstatus: seq<Byte>, cols: nat)
    modifies ab
    ensures ab.b == old(ab.b) + StatusBar(status, rstatus, cols)
  {
    ab.Append(REVERSE_VIDEO, 4);
    var len := |status|;
    if len > cols {
      len := cols;
    }
    ab.Append(status, len);
    RightJustify(ab, len, cols, rstatus);
    ab.Append(NORMAL_VIDEO, 3);
    ab.Append(CRLF, 2);
  }

  /** `editorDrawMessageBar`; `recent` is whether the message is under five seconds old. */
  function MessageBar(msg: seq<Byte>, recent: bool, cols: nat): seq<Byte>
  {
    var len := Min(|msg|, cols);
    MESSAGE_BAR_START + (if len != 0 && recent then msg[..len] else [])
  }

  method DrawMessageBar(ab: AppendBuffer, msg: seq<Byte>, recent: bool, cols: nat)
    modifies ab
    ensures ab.b == old(ab.b) + MessageBar(msg, recent, cols)
  {
    ab.Append(MESSAGE_BAR_START, 3);
    var msgLen := |msg|;
    if msgLen > cols {
      msgLen := cols;
    }
    if msgLen != 0 && recent {
      ab.Append(msg, msgLen);
    }
  }

  // ---------------------------------------------------------------------------
  // Cursor placement

  /** `%d` of a natural number: its decimal digits, most significant first. */
  function Decimal(n: nat): (r: seq<Byte>)
    ensures |r| >= 1 && forall i :: 0 <= i < |r| ==> DIGIT_0 <= r[i] <= DIGIT_9
    decreases n
  {
    if n < 10 then [DIGIT_0 + n] else Decimal(n / 10) + [DIGIT_0 + n % 10]
  }

  /** The number a string of decimal digits denotes. */
  function DigitsValue(d: seq<Byte>): nat
    requires forall i :: 0 <= i < |d| ==> DIGIT_0 <= d[i]
  {
    if d == [] then 0 else 10 * DigitsValue(d[..|d| - 1]) + (d[|d| - 1] - DIGIT_0)
  }

  /** `ESC [ row ; col H` (59 and 72 are `;` and `H`): moves the terminal cursor to a 1-based position. */
  function CursorTo(row: nat, col: nat): seq<Byte>
  {
    [ESC, LBRACKET] + Decimal(row) + [59] + Decimal(col) + [72]
  }

  /** Everything `editorRefreshScreen` writes, for an already scrolled state. */
  function Screen(s: State, screenrows: nat, screencols: nat, status: seq<Byte>, rstatus: seq<Byte>,
                  msg: seq<Byte>, recent: bool): seq<Byte>
    requires s.cy >= s.rowoff && s.rx >= s.coloff
  {
    HIDE_CURSOR + CURSOR_HOME
    + Panels(s, screenrows, screencols, status, rstatus, msg, recent)
    + CursorTo(s.cy - s.rowoff + 1, s.rx - s.coloff + 1)
    + SHOW_CURSOR
  }

  /** The text area, status bar and message bar, in that order. */
  function Panels(s: State, screenrows: nat, screencols: nat, status: seq<Byte>, rstatus: seq<Byte>,
                  msg: seq<Byte>, recent: bool): seq<Byte>
  {
    DrawnRows(s, screenrows, screencols, screenrows)
    + StatusBar(status, rstatus, screencols)
    + MessageBar(msg, recent, screencols)
  }

  /**
   * `editorRefreshScreen`: scrolls, then builds the frame. The formatted
   * status strings and whether the message is recent come in as parameters;
   * the returned bytes are what the source writes to the terminal.
   */
  method RefreshScreen(e: Editor.Editor, status: seq<Byte>, rstatus: seq<Byte>, msg: seq<Byte>, recent: bool)
    returns (frame: seq<Byte>)
    requires e.Valid()
    modifies e`rx, e`rowoff, e`coloff
    ensures e.Valid() && e.Snapshot() == AfterScroll(old(e.Snapshot()), e.screenrows, e.screencols)
    ensures frame == Screen(e.Snapshot(), e.screenrows, e.screencols, status, rstatus, msg, recent)
  {
    e.Scroll();
    frame := BuildFrame(e.Snapshot(), e.screenrows, e.screencols, status, rstatus, msg, recent);
  }

  /** The appends of `editorRefreshScreen` after the scroll, for the editor state `s`. */
  method BuildFrame(s: State, screenrows: nat, screencols: nat, status: seq<Byte>, rstatus: seq<Byte>,
                    msg: seq<Byte>, recent: bool) returns (frame: seq<Byte>)
    requires s.cy >= s.rowoff && s.rx >= s.coloff
    ensures frame == Screen(s, screenrows, screencols, status, rstatus, msg, recent)
  {
    var row, col := s.cy - s.rowoff + 1, s.rx - s.coloff + 1;
    var ab := new AppendBuffer();
    ab.Append(HIDE_CURSOR, 6);
    assert ab.b == HIDE_CURSOR;
    ab.Append(CURSOR_HOME, 3);
    DrawPanels(ab, s, screenrows, screencols, status, rstatus, msg, recent);
    PlaceCursor(ab, row, col);
    frame := ab.b;
  }

  /** The end of `editorRefreshScreen`: the cursor position escape, then showing the cursor. */
  method PlaceCursor(ab: AppendBuffer, row: nat, col: nat)
    modifies ab
    ensures ab.b == old(ab.b) + CursorTo(row, col) + SHOW_CURSOR
  {
    var pos := CursorTo(row, col);
    ab.Append(pos, |pos|);
    ab.Append(SHOW_CURSOR, 6);
  }

  /** The three draw calls in the middle of `editorRefreshScreen`. */
  method DrawPanels(ab: AppendBuffer, s: State, screenrows: nat, screencols: nat, status: seq<Byte>,
                    rstatus: seq<Byte>, msg: seq<Byte>, recent: bool)
    modifies ab
    ensures ab.b == old(ab.b) + Panels(s, screenrows, screencols, status, rstatus, msg, recent)
  {
    ghost var drawn := DrawnRows(s, screenrows, screencols, screenrows);
    ghost var bar := StatusBar(status, rstatus, screencols);
    DrawRows(s, screenrows, screencols, ab);
    DrawStatusBar(ab, status, rstatus, screencols);
    ConcatAssoc(old(ab.b), drawn, bar);
    DrawMessageBar(ab, msg, recent, screencols);
    ConcatAssoc(old(ab.b), drawn + bar, MessageBar(msg, recent, screencols));
  }

  // ---------------------------------------------------------------------------
  // Properties

  /** The right-justify loop pads with spaces and puts `rstatus` flush right when it fits. */
  lemma {:induction false} StatusFillJustifies(len: nat, cols: nat, rstatus: seq<Byte>)
    requires len <= cols
    ensures StatusFill(len, cols, rstatus)
            == if |rstatus| <= cols - len then Spaces(cols - len - |rstatus|) + rstatus else Spaces(cols - len)
    decreases cols - len
  {
    if len < cols && cols - len != |rstatus| {
      StatusFillJustifies(len + 1, cols, rstatus);
      if |rstatus| <= cols - len {
        assert [SPACE] + Spaces(cols - (len + 1) - |rstatus|) == Spaces(cols - len - |rstatus|);
      } else {
        assert [SPACE] + Spaces(cols - (len + 1)) == Spaces(cols - len);
      }
    }
  }

  /**
   * The status bar fills exactly the screen width: the left part cut to the
   * width, then spaces, then the right part when it fits in what is left.
   */
  lemma StatusBarLayout(status: seq<Byte>, rstatus: seq<Byte>, cols: nat)
    ensures var len := Min(|status|, cols);
            var fill := StatusFill(len, cols, rstatus);
            StatusBar(status, rstatus, cols) == REVERSE_VIDEO + status[..len] + fill + NORMAL_VIDEO + CRLF
            && |status[..len] + fill| == cols
            && (|rstatus| <= cols - len ==> fill[|fill| - |rstatus|..] == rstatus)
  {
    StatusFillJustifies(Min(|status|, cols), cols, rstatus);
  }

  /**
   * The banner is centred: it ends with the welcome text (cut to the
   * width), the columns left free on its right are as many as those before
   * the text or one more, and the column before the text holds `~` then
   * spaces.
   */
  lemma BannerCentred(cols: nat)
    ensures var line := Banner(cols);
            var shown := Min(|WELCOME|, cols);
            |line| >= shown && line[|line| - shown..] == WELCOME[..shown]
            && (cols - |line|) - (|line| - shown) in {0, 1}
            && (|line| > shown ==> line[0] == TILDE)
            && (forall k :: 0 < k < |line| - shown ==> line[k] == SPACE)
  {
  }

  /** Decimal digits read back as the number they were made from. */
  lemma {:induction false} DecimalValue(n: nat)
    ensures DigitsValue(Decimal(n)) == n
    decreases n
  {
    if n >= 10 {
      DecimalValue(n / 10);
      var d := Decimal(n);
      assert d[..|d| - 1] == Decimal(n / 10);
    }
  }

  /**
   * After scrolling, the byte under the cursor is drawn at the cursor's
   * screen position, provided the cursor column is within the first
   * `screenrows` columns of the window (the slice length limit).
   */
  lemma CursorByteShown(s: State, screenrows: nat, screencols: nat)
    requires CursorOk(s) && screenrows >= 1 && screencols >= 1
    requires var t := AfterScroll(s, screenrows, screencols);
             t.cy < |t.rows| && t.rx < |t.rows[t.cy].render| && t.rx - t.coloff < screenrows
    ensures var t := AfterScroll(s, screenrows, screencols);
            var line := ScreenLine(t, screenrows, screencols, t.cy - t.rowoff);
            t.rx - t.coloff < |line| && line[t.rx - t.coloff] == t.rows[t.cy].render[t.rx]
  {
  }

  /**
   * The slice limit is the screen height: on a one-line text area only the
   * first byte of "abc" is drawn, though the screen is 80 columns wide.
   */
  lemma ShortScreenClipsRow()
    ensures var s := State([MakeRow(Ascii("abc"))], 0, 0, 0, 0, 0, 0);
            ScreenLine(s, 1, 80, 0) == Ascii("a")
  {
    var abc := Ascii("abc");
    RenderWithoutTabs(abc);
  }

  /** An empty document shows `~` on every line except the banner on line `screenrows / 3`. */
  lemma EmptyDocumentLines(s: State, screenrows: nat, screencols: nat, i: nat)
    requires s.rows == []
    ensures ScreenLine(s, screenrows, screencols, i)
            == if i == screenrows / 3 then Banner(screencols) else [TILDE]
  {
  }
}
