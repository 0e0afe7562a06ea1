/**
 * The document as file contents. `Serialize` is what `editorRowsToString`
 * produces; `Load` is its partner, the rows that reading a file line by line
 * (as `getline` does) and stripping line endings (kilo.c:355-357) yields.
 */
module Text {
  import opened Bytes
  import opened Rows

  /** Every row's bytes followed by one newline, in row order. */
  function Serialize(rows: seq<Row>): seq<Byte>
  {
    if rows == [] then [] else Serialize(rows[..|rows| - 1]) + rows[|rows| - 1].chars + [NL]
  }

  /** The buffer length `editorRowsToString` computes first: the sum of `size + 1`. */
  function TotalLen(rows: seq<Row>): nat
  {
    if rows == [] then 0 else TotalLen(rows[..|rows| - 1]) + |rows[|rows| - 1].chars| + 1
  }

  lemma {:induction false} SerializeLength(rows: seq<Row>)
    ensures |Serialize(rows)| == TotalLen(rows)
  {
    if rows != [] {
      SerializeLength(rows[..|rows| - 1]);
    }
  }

  lemma {:induction false} TotalLenPrefix(rows: seq<Row>, j: nat)
    requires j <= |rows|
    ensures TotalLen(rows[..j]) <= TotalLen(rows)
    decreases |rows|
  {
    if j < |rows| {
      assert rows[..|rows| - 1][..j] == rows[..j];
      TotalLenPrefix(rows[..|rows| - 1], j);
    } else {
      assert rows[..j] == rows;
    }
  }

  lemma {:induction false} SerializeConcat(a: seq<Row>, b: seq<Row>)
    ensures Serialize(a + b) == Serialize(a) + Serialize(b)
    decreases |b|
  {
    if b == [] {
      assert a + b == a;
    } else {
      var ab, init, last := a + b, b[..|b| - 1], b[|b| - 1];
      assert ab[..|ab| - 1] == a + init && ab[|ab| - 1] == last;
      SerializeConcat(a, init);
      ConcatAssoc(Serialize(a), Serialize(init), last.chars);
      ConcatAssoc(Serialize(a), Serialize(init) + last.chars, [NL]);
    }
  }

  /** Serialising a first row and the rest: the first row's line comes first. */
  lemma SerializeCons(rows: seq<Row>)
    requires rows != []
    ensures Serialize(rows) == rows[0].chars + [NL] + Serialize(rows[1..])
  {
    assert rows == [rows[0]] + rows[1..];
    SerializeConcat([rows[0]], rows[1..]);
    assert [rows[0]][..0] == [];
  }

  function IsLineEnding(b: Byte): bool
  {
    b == NL || b == CR
  }

  /** A line with every trailing `\n` and `\r` removed. */
  function Stripped(line: seq<Byte>): (r: seq<Byte>)
    ensures r <= line
    ensures |r| > 0 ==> !IsLineEnding(r[|r| - 1])
    ensures forall i :: |r| <= i < |line| ==> IsLineEnding(line[i])
  {
    if |line| > 0 && IsLineEnding(line[|line| - 1]) then Stripped(line[..|line| - 1]) else line
  }

  /** The stripping loop of `editorOpen`: the length of the line without its ending. */
  method StripLineEnding(line: seq<Byte>) returns (len: nat)
    ensures len <= |line| && line[..len] == Stripped(line)
  {
    len := |line|;
    assert line[..len] == line;
    while len > 0 && IsLineEnding(line[len - 1])
      invariant len <= |line|
      invariant Stripped(line[..len]) == Stripped(line)
    {
      assert line[..len][..len - 1] == line[..len - 1];
      len := len - 1;
    }
  }

  /** The length of the first line `getline` returns from `s`, its `\n` included. */
  function LineEnd(s: seq<Byte>): (k: nat)
    requires |s| > 0
    ensures 1 <= k <= |s|
    ensures NL !in s[..k - 1]
    ensures s[k - 1] == NL || k == |s|
  {
    if s[0] == NL || |s| == 1 then 1 else
      var k := 1 + LineEnd(s[1..]);
      assert s[..k - 1] == [s[0]] + s[1..][..k - 2];
      k
  }

  /** The lines of a file as `editorOpen` reads them: split after each `\n`, endings stripped. */
  function Load(s: seq<Byte>): seq<seq<Byte>>
    decreases |s|
  {
    if s == [] then [] else
      var k := LineEnd(s);
      [Stripped(s[..k])] + Load(s[k..])
  }

  function RowChars(rows: seq<Row>): (lines: seq<seq<Byte>>)
    ensures |lines| == |rows| && forall i :: 0 <= i < |rows| ==> lines[i] == rows[i].chars
  {
    seq(|rows|, i requires 0 <= i < |rows| => rows[i].chars)
  }

  function MakeRows(lines: seq<seq<Byte>>): (rows: seq<Row>)
    ensures RowChars(rows) == lines && AllRendered(rows)
  {
    seq(|lines|, i requires 0 <= i < |lines| => MakeRow(lines[i]))
  }

  /** A row that survives a save and a reload: no newline inside, no `\r` at its end. */
  predicate Reloadable(line: seq<Byte>)
  {
    NL !in line && (|line| > 0 ==> line[|line| - 1] != CR)
  }

  lemma {:induction false} LineEndAfter(c: seq<Byte>, rest: seq<Byte>)
    requires NL !in c
    ensures LineEnd(c + [NL] + rest) == |c| + 1
    decreases |c|
  {
    if c != [] {
      var s := c + [NL] + rest;
      assert s[1..] == c[1..] + [NL] + rest;
      LineEndAfter(c[1..], rest);
    }
  }

  lemma StrippedNewline(c: seq<Byte>)
    requires Reloadable(c)
    ensures Stripped(c + [NL]) == c
  {
    assert (c + [NL])[..|c|] == c;
  }

  /** Reading a file whose first line is `c` yields `c` and then the lines of the rest. */
  lemma LoadFirstLine(c: seq<Byte>, rest: seq<Byte>)
    requires Reloadable(c)
    ensures Load(c + [NL] + rest) == [c] + Load(rest)
  {
    var s := c + [NL] + rest;
    LineEndAfter(c, rest);
    assert s[..|c| + 1] == c + [NL] && s[|c| + 1..] == rest;
    StrippedNewline(c);
  }

  lemma RowCharsCons(rows: seq<Row>)
    requires rows != []
    ensures RowChars(rows) == [rows[0].chars] + RowChars(rows[1..])
  {
  }

  /** Saving rows and reading the file back gives the same lines. */
  lemma {:induction false} LoadSerialize(rows: seq<Row>)
    requires forall i :: 0 <= i < |rows| ==> Reloadable(rows[i].chars)
    ensures Load(Serialize(rows)) == RowChars(rows)
    decreases |rows|
  {
    if rows != [] {
      var tail := rows[1..];
      assert forall i :: 0 <= i < |tail| ==> Reloadable(tail[i].chars) by {
        forall i | 0 <= i < |tail| ensures Reloadable(tail[i].chars) {
          assert tail[i] == rows[i + 1];
        }
      }
      SerializeCons(rows);
      LoadFirstLine(rows[0].chars, Serialize(tail));
      LoadSerialize(tail);
      RowCharsCons(rows);
    }
  }

  lemma StrippedLine(s: seq<Byte>)
    requires s != [] && CR !in s
    ensures var k := LineEnd(s);
            Stripped(s[..k]) == if s[k - 1] == NL then s[..k - 1] else s[..k]
  {
    var k := LineEnd(s);
    if s[k - 1] == NL {
      assert s[..k] == s[..k - 1] + [NL];
      if k > 1 {
        assert s[..k - 1][k - 2] == s[k - 2];
      }
    }
  }

  /** Saving rows made from a first line and the rest: the first line comes first. */
  lemma SerializeMakeRowsCons(line: seq<Byte>, lines: seq<seq<Byte>>)
    ensures Serialize(MakeRows([line] + lines)) == line + [NL] + Serialize(MakeRows(lines))
  {
    var rows := MakeRows([line] + lines);
    assert rows[0] == MakeRow(line);
    assert rows[1..] == MakeRows(lines);
    SerializeCons(rows);
  }

  /** A file split into its first line (ending included) and the rest. */
  lemma SplitFirstLine(s: seq<Byte>, k: nat, line: seq<Byte>, rest: seq<Byte>, tail: seq<Byte>)
    requires 1 <= k <= |s| && (s[k - 1] == NL || k == |s|) && rest == s[k..]
    requires line == if s[k - 1] == NL then s[..k - 1] else s[..k]
    requires tail == if rest == [] || rest[|rest| - 1] == NL then rest else rest + [NL]
    ensures line + [NL] + tail == if s[|s| - 1] == NL then s else s + [NL]
  {
    if rest != [] {
      assert rest[|rest| - 1] == s[|s| - 1];
    }
    if s[k - 1] == NL {
      assert s[..k] == line + [NL];
      assert s == line + [NL] + rest;
    } else {
      assert s[..k] == s;
      assert tail == [];
    }
  }

  /** The file is its first line, stripped, then a newline, then what saving the rest gives. */
  lemma FirstLineThenRest(s: seq<Byte>, tail: seq<Byte>)
    requires s != [] && CR !in s
    requires var rest := s[LineEnd(s)..];
             tail == if rest == [] || rest[|rest| - 1] == NL then rest else rest + [NL]
    ensures Stripped(s[..LineEnd(s)]) + [NL] + tail == if s[|s| - 1] == NL then s else s + [NL]
  {
    var k := LineEnd(s);
    var rest := s[k..];
    StrippedLine(s);
    SplitFirstLine(s, k, Stripped(s[..k]), rest, tail);
  }

  lemma NoCRInSuffix(s: seq<Byte>, k: nat)
    requires CR !in s && k <= |s|
    ensures CR !in s[k..]
  {
    forall i | 0 <= i < |s| - k ensures s[k..][i] != CR {
      assert s[k..][i] == s[k + i];
    }
  }

  /**
   * Reading a file without `\r` and saving it gives the file back, with a
   * final newline added when the file lacked one.
   */
  lemma {:induction false} SerializeLoad(s: seq<Byte>)
    requires CR !in s
    ensures Serialize(MakeRows(Load(s))) == if s == [] || s[|s| - 1] == NL then s else s + [NL]
    decreases |s|
  {
    if s != [] {
      var k := LineEnd(s);
      var rest := s[k..];
      var line := Stripped(s[..k]);
      assert Load(s) == [line] + Load(rest);
      SerializeMakeRowsCons(line, Load(rest));
      NoCRInSuffix(s, k);
      SerializeLoad(rest);
      FirstLineThenRest(s, Serialize(MakeRows(Load(rest))));
    }
  }
}
