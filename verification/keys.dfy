/**
 * The key decoder (`editorReadKey`). The terminal is in raw mode with a read
 * timeout, so the decoder sees the bytes that arrived in time: `input` holds
 * them, and input that ends early stands for a `read` that timed out.
 * The control sequences recognised are the CSI sequences of ECMA-48
 * (section 5.4): `ESC [` followed by a final byte `A`-`D` for the cursor keys,
 * or by a digit and `~` for Delete, Page Up and Page Down.
 */
module Keys {
  import opened Wrappers
  import opened Bytes

  /** Logical key codes above the byte range (`enum editorKey`). */
  const BACKSPACE: int := 127
  const ARROW_UP: int := 1000
  const ARROW_DOWN: int := 1001
  const ARROW_LEFT: int := 1002
  const ARROW_RIGHT: int := 1003
  const DEL_KEY: int := 1004
  const PAGE_UP: int := 1005
  const PAGE_DOWN: int := 1006

  const LBRACKET: Byte := '[' as int
  const DIGIT_0: Byte := '0' as int
  const DIGIT_9: Byte := '9' as int

  /** `CTRL_KEY(k)`: the key code a Ctrl chord produces (`k & 0x1f`). */
  function CtrlKey(k: char): int
    requires k as int < 256
  {
    (k as int) % 32
  }

  const ENTER: int := '\r' as int
  const CTRL_H: int := CtrlKey('h')
  const CTRL_Q: int := CtrlKey('q')
  const CTRL_S: int := CtrlKey('s')

  predicate IsSpecialKey(k: int)
  {
    k in {ARROW_UP, ARROW_DOWN, ARROW_LEFT, ARROW_RIGHT, DEL_KEY, PAGE_UP, PAGE_DOWN}
  }

  /** The byte sequence a terminal sends for a special key. */
  function EncodeKey(k: int): (s: seq<Byte>)
    requires IsSpecialKey(k)
    ensures 3 <= |s| <= 4 && s[0] == ESC && s[1] == LBRACKET
  {
    if k == ARROW_UP then [ESC, LBRACKET, 'A' as int]
    else if k == ARROW_DOWN then [ESC, LBRACKET, 'B' as int]
    else if k == ARROW_RIGHT then [ESC, LBRACKET, 'C' as int]
    else if k == ARROW_LEFT then [ESC, LBRACKET, 'D' as int]
    else if k == DEL_KEY then [ESC, LBRACKET, '3' as int, '~' as int]
    else if k == PAGE_UP then [ESC, LBRACKET, '5' as int, '~' as int]
    else [ESC, LBRACKET, '6' as int, '~' as int]
  }

  /** A decoded key and the number of input bytes the decoder read. */
  datatype Decoded = Decoded(key: int, consumed: nat)

  /** `ESC [ d ~` with `d` a digit. */
  function TildeKey(d: Byte): int
  {
    if d == '3' as int then DEL_KEY
    else if d == '5' as int then PAGE_UP
    else if d == '6' as int then PAGE_DOWN
    else ESC
  }

  /** `ESC [ x` with `x` not a digit. */
  function ArrowKey(x: Byte): int
  {
    if x == 'A' as int then ARROW_UP
    else if x == 'B' as int then ARROW_DOWN
    else if x == 'C' as int then ARROW_RIGHT
    else if x == 'D' as int then ARROW_LEFT
    else ESC
  }

  /**
   * Decodes the next key. `None` means no byte has arrived yet (the source
   * keeps waiting). A byte other than ESC is returned as the signed `char`
   * it was read into; a recognised sequence gives its logical key; a short
   * or unrecognised sequence gives a bare ESC.
   */
  function ReadKey(input: seq<Byte>): (r: Option<Decoded>)
    ensures r.Some? <==> |input| > 0
    ensures r.Some? ==> 1 <= r.value.consumed <= |input| && r.value.consumed <= 4
    ensures r.Some? ==> -128 <= r.value.key < 128 || IsSpecialKey(r.value.key)
    ensures r.Some? && IsSpecialKey(r.value.key) ==>
              input[..r.value.consumed] == EncodeKey(r.value.key)
    ensures r.Some? && r.value.key == ESC as int ==> input[0] == ESC
    ensures r.Some? && input[0] != ESC ==> r.value.consumed == 1 && r.value.key % 256 == input[0]
  {
    if |input| == 0 then None
    else if input[0] != ESC then Some(Decoded(SignedChar(input[0]), 1))
    else if |input| < 2 then Some(Decoded(ESC, 1))
    else if |input| < 3 then Some(Decoded(ESC, 2))
    else if input[1] == LBRACKET then
      if DIGIT_0 <= input[2] <= DIGIT_9 then
        if |input| < 4 then Some(Decoded(ESC, 3))
        else if input[3] == '~' as int then Some(Decoded(TildeKey(input[2]), 4))
        else Some(Decoded(ESC, 4))
      else Some(Decoded(ArrowKey(input[2]), 3))
    else Some(Decoded(ESC, 3))
  }

  /** Every special key is decoded from its own sequence, whatever follows it. */
  lemma {:induction false} ReadKeyEncoded(k: int, rest: seq<Byte>)
    requires IsSpecialKey(k)
    ensures ReadKey(EncodeKey(k) + rest) == Some(Decoded(k, |EncodeKey(k)|))
  {
    var s := EncodeKey(k) + rest;
    assert s[..|EncodeKey(k)|] == EncodeKey(k);
  }

  /** A sequence cut short by the read timeout degrades to a bare ESC. */
  lemma {:induction false} ReadKeyTruncated(k: int, n: nat)
    requires IsSpecialKey(k) && 1 <= n < |EncodeKey(k)|
    ensures ReadKey(EncodeKey(k)[..n]) == Some(Decoded(ESC, n))
  {
  }

  /**
   * After an ESC, the decoder reports something other than ESC exactly when
   * the input starts with the sequence of a special key.
   */
  lemma {:induction false} ReadKeyRecognises(input: seq<Byte>)
    requires |input| > 0 && input[0] == ESC
    ensures ReadKey(input).value.key != ESC as int <==>
              exists k :: IsSpecialKey(k) && EncodeKey(k) <= input
  {
    var d := ReadKey(input).value;
    if d.key != ESC as int {
      assert IsSpecialKey(d.key) && EncodeKey(d.key) == input[..d.consumed];
    }
    if k :| IsSpecialKey(k) && EncodeKey(k) <= input {
      assert input == EncodeKey(k) + input[|EncodeKey(k)|..];
      ReadKeyEncoded(k, input[|EncodeKey(k)|..]);
    }
  }

  /** A byte that is not ESC is one key by itself; bytes from 0x80 up come out negative. */
  lemma {:induction false} ReadKeyLiteral(b: Byte, rest: seq<Byte>)
    requires b != ESC
    ensures ReadKey([b] + rest) == Some(Decoded(if b < 128 then b else b - 256, 1))
  {
  }
}
