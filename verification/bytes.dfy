/**
 * Bytes as the editor stores them: rows, the render buffer and the output
 * frame are all byte strings. Assuming a signed `char` (as on x86 ABIs),
 * the key decoder and the character insertion go through the two
 * conversions below.
 */
module Bytes {
  type Byte = b: int | 0 <= b < 256

  const TAB: Byte := 9
  const NL: Byte := 10
  const CR: Byte := 13
  const ESC: Byte := 27
  const SPACE: Byte := 32
  const TILDE: Byte := 126

  /** The value a signed 8-bit `char` holding `b` takes when widened to `int`. */
  function SignedChar(b: Byte): (c: int)
    ensures -128 <= c < 128
    ensures c >= 0 <==> b < 128
    ensures c % 256 == b
  {
    if b < 128 then b else b - 256
  }

  /** Storing an `int` into a `char` keeps its low eight bits. */
  function ToByte(c: int): Byte
  {
    c % 256
  }

  /** `n` space bytes. */
  function Spaces(n: nat): (s: seq<Byte>)
    ensures |s| == n
    ensures forall i :: 0 <= i < n ==> s[i] == SPACE
  {
    seq(n, _ => SPACE)
  }

  /** The bytes of an ASCII string literal. */
  function Ascii(s: string): (r: seq<Byte>)
    ensures |r| == |s|
  {
    seq(|s|, i requires 0 <= i < |s| => (s[i] as int) % 256)
  }

  /** Concatenation regroups to the right. */
  lemma ConcatAssoc(a: seq<Byte>, b: seq<Byte>, c: seq<Byte>)
    ensures a + b + c == a + (b + c)
  {
  }

  function Min(a: int, b: int): int
  {
    if a < b then a else b
  }
}
