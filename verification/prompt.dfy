/**
 * The line input of `editorPrompt` (used to ask for a file name): a
 * NUL-terminated byte buffer that starts at 128 bytes and doubles when full,
 * edited one key at a time until Enter or Escape.
 */
module Prompt {
  import opened Bytes
  import opened Keys

  /** Where the prompt is after some keys: cancelled, finished with a line, or still reading. */
  datatype Outcome = Cancelled | Entered(text: seq<Byte>) | Typing(buf: seq<Byte>)

  /** How a run of the prompt ended and how many keys it read. */
  datatype Session = Session(outcome: Outcome, used: nat)

  /** `iscntrl` for the codes `editorReadKey` returns: ASCII 0-31 and 127. */
  predicate IsCntrl(c: int)
  {
    0 <= c < 32 || c == 127
  }

  /** A key that is appended to the line: not a control character and below 128. */
  predicate Typable(c: int)
  {
    !IsCntrl(c) && c < 128
  }

  predicate IsErase(c: int)
  {
    c == DEL_KEY || c == CTRL_H || c == BACKSPACE
  }

  /**
   * A byte that can end up in an entered line: not a control byte. Bytes
   * from 0x80 qualify, because a signed `char` turns them into negative
   * keys that pass the `c < 128` test.
   */
  predicate NotControl(b: Byte)
  {
    b >= 32 && b != 127
  }

  /** One pass of the `editorPrompt` loop, on line contents `buf`, for key `c`. */
  function Step(buf: seq<Byte>, c: int): (r: Outcome)
    ensures r.Typing? && IsErase(c) ==> r.buf == (if buf == [] then [] else buf[..|buf| - 1])
    ensures r.Entered? ==> r.text == buf != [] && c == ENTER
    ensures r.Cancelled? <==> c == ESC as int
    ensures r.Typing? && Typable(c) && !IsErase(c) ==> r.buf == buf + [ToByte(c)]
  {
    if IsErase(c) then Typing(if |buf| != 0 then buf[..|buf| - 1] else buf)
    else if c == ESC as int then Cancelled
    else if c == ENTER then (if |buf| != 0 then Entered(buf) else Typing(buf))
    else if Typable(c) then Typing(buf + [ToByte(c)])
    else Typing(buf)
  }

  /**
   * The prompt fed `keys`, from line contents `buf`: the outcome and how many
   * keys it read. When the keys run out first, the prompt is still reading.
   */
  function Run(buf: seq<Byte>, keys: seq<int>): (r: Session)
    ensures r.used <= |keys|
    ensures !r.outcome.Typing? ==> r.used >= 1
    decreases |keys|
  {
    if keys == [] then Session(Typing(buf), 0)
    else
      var step := Step(buf, keys[0]);
      if step.Typing? then
        var rest := Run(step.buf, keys[1..]);
        Session(rest.outcome, rest.used + 1)
      else Session(step, 1)
  }

  /** A session that started `n` keys later. */
  function Later(r: Session, n: nat): Session
  {
    Session(r.outcome, r.used + n)
  }

  /** `realloc` to a larger size: a new array holding the old contents first. */
  method Grow(a: array<Byte>, size: nat) returns (b: array<Byte>)
    requires size >= a.Length
    ensures fresh(b) && b.Length == size && b[..a.Length] == a[..]
  {
    b := new Byte[size];
    forall i | 0 <= i < a.Length {
      b[i] := a[i];
    }
  }

  /**
   * The typing branch of `editorPrompt`: doubles the buffer when only the
   * terminator's slot is left, then stores `b` and a new terminator.
   */
  method PutByte(buf: array<Byte>, buflen: nat, bufsize: nat, b: Byte)
    returns (next: array<Byte>, nextlen: nat, nextsize: nat)
    requires buf.Length == bufsize && buflen < bufsize
    modifies buf
    ensures next == buf || fresh(next)
    ensures next.Length == nextsize && nextlen == buflen + 1 && nextlen < nextsize && next[nextlen] == 0
    ensures next[..nextlen] == old(buf[..buflen]) + [b]
    ensures nextsize == if buflen == bufsize - 1 then 2 * bufsize else bufsize
    ensures buflen < bufsize - 1 ==> next == buf
  {
    next, nextsize := buf, bufsize;
    if buflen == bufsize - 1 {
      nextsize := bufsize * 2;
      next := Grow(buf, nextsize);
    }
    ghost var line := next[..buflen];
    next[buflen] := b;
    nextlen := buflen + 1;
    next[nextlen] := 0;
    assert next[..nextlen] == line + [b];
  }

  /**
   * `editorPrompt` reading `keys`. The buffer always has room for the
   * terminating NUL, and the line it holds is the one `Run` describes.
   */
  method Prompt(keys: seq<int>) returns (outcome: Outcome, used: nat)
    ensures Session(outcome, used) == Run([], keys)
  {
    var bufsize := 128;
    var buf := new Byte[bufsize];
    var buflen := 0;
    buf[0] := 0;
    var i := 0;
    ghost var line: seq<Byte> := [];
    while i < |keys|
      invariant i <= |keys|
      invariant fresh(buf) && buf.Length == bufsize && buflen < bufsize && buf[buflen] == 0
      invariant buf[..buflen] == line
      invariant Run([], keys) == Later(Run(line, keys[i..]), i)
    {
      var c := keys[i];
      ghost var rest := keys[i..];
      assert rest[0] == c && rest[1..] == keys[i + 1..];
      RunStep(line, rest);
      i := i + 1;
      if c == DEL_KEY || c == CTRL_H || c == BACKSPACE {
        if buflen != 0 {
          buflen := buflen - 1;
          buf[buflen] := 0;
        }
        line := Step(line, c).buf;
      } else if c == ESC as int {
        return Cancelled, i;
      } else if c == ENTER {
        if buflen != 0 {
          return Entered(buf[..buflen]), i;
        }
      } else if !IsCntrl(c) && c < 128 {
        buf, buflen, bufsize := PutByte(buf, buflen, bufsize, ToByte(c));
        line := Step(line, c).buf;
      }
    }
    return Typing(buf[..buflen]), i;
  }

  // ---------------------------------------------------------------------------
  // Properties

  /** The key `editorReadKey` returns for a typed byte. */
  function KeysFor(t: seq<Byte>): (keys: seq<int>)
    ensures |keys| == |t| && forall i :: 0 <= i < |t| ==> keys[i] == SignedChar(t[i])
  {
    if t == [] then [] else [SignedChar(t[0])] + KeysFor(t[1..])
  }

  /** Erasing right after typing a character restores the line. */
  lemma EraseUndoesTyping(buf: seq<Byte>, c: int, erase: int)
    requires Typable(c) && IsErase(erase)
    ensures Step(buf, c) == Typing(buf + [ToByte(c)])
    ensures Step(Step(buf, c).buf, erase) == Typing(buf)
  {
    assert (buf + [ToByte(c)])[..|buf|] == buf;
  }

  /** A byte that is not a control byte, read as a key, is appended to the line as that byte. */
  lemma NotControlTyped(b: Byte)
    requires NotControl(b)
    ensures var c := SignedChar(b);
            Typable(c) && !IsErase(c) && c != ESC as int && c != ENTER && ToByte(c) == b
  {
  }

  /** `Run` after its first key: the key ends the prompt or the rest of the keys continue it. */
  lemma RunStep(buf: seq<Byte>, keys: seq<int>)
    requires keys != []
    ensures var step := Step(buf, keys[0]);
            Run(buf, keys) == if step.Typing? then Later(Run(step.buf, keys[1..]), 1) else Session(step, 1)
  {
  }

  lemma ConcatFirst(buf: seq<Byte>, t: seq<Byte>)
    requires t != []
    ensures buf + [t[0]] + t[1..] == buf + t
  {
    assert [t[0]] + t[1..] == t;
  }

  /** Typing the bytes of a non-empty line free of control bytes and then Enter enters exactly that line. */
  lemma {:induction false} TypedLineEntered(buf: seq<Byte>, t: seq<Byte>)
    requires buf + t != []
    requires forall i :: 0 <= i < |t| ==> NotControl(t[i])
    ensures Run(buf, KeysFor(t) + [ENTER]) == Session(Entered(buf + t), |t| + 1)
    decreases |t|
  {
    var keys := KeysFor(t) + [ENTER];
    if t == [] {
      assert keys == [ENTER] && buf + t == buf;
      assert Step(buf, ENTER) == Entered(buf);
    } else {
      var b, rest := t[0], t[1..];
      NotControlTyped(b);
      assert keys[0] == SignedChar(b);
      assert Step(buf, keys[0]) == Typing(buf + [b]);
      assert keys[1..] == KeysFor(rest) + [ENTER];
      RunStep(buf, keys);
      assert forall i :: 0 <= i < |rest| ==> NotControl(rest[i]) by {
        forall i | 0 <= i < |rest| ensures NotControl(rest[i]) {
          assert rest[i] == t[i + 1];
        }
      }
      TypedLineEntered(buf + [b], rest);
      ConcatFirst(buf, t);
    }
  }

  /**
   * A line the prompt returns is never empty and holds no control bytes,
   * for keys as `editorReadKey` produces them (at least -128).
   */
  lemma {:induction false} EnteredHasNoControl(buf: seq<Byte>, keys: seq<int>)
    requires forall i :: 0 <= i < |buf| ==> NotControl(buf[i])
    requires forall i :: 0 <= i < |keys| ==> keys[i] >= -128
    ensures var o := Run(buf, keys).outcome;
            o.Entered? ==> o.text != [] && forall i :: 0 <= i < |o.text| ==> NotControl(o.text[i])
    decreases |keys|
  {
    if keys != [] {
      var r := Step(buf, keys[0]);
      if r.Typing? {
        if Typable(keys[0]) && !IsErase(keys[0]) {
          assert NotControl(ToByte(keys[0]));
        }
        EnteredHasNoControl(r.buf, keys[1..]);
      }
    }
  }
}
