/**
 * Python-level text values.
 *
 * A Python `str` is a sequence of code points in 0..0x10FFFF, lone
 * surrogates included (file names that are not valid UTF-8 reach Python
 * as surrogate escapes).  Bytes are integers in 0..255.
 */
module Text {

  type CodePoint = c: int | 0 <= c < 0x11_0000
  type PyStr = seq<CodePoint>
  type Byte = b: int | 0 <= b < 0x100

  datatype Option<+T> = None | Some(value: T)

  const Colon: int := 0x3A
  const Slash: int := 0x2F
  const Dot: int := 0x2E
  const Minus: int := 0x2D

  /** The code points of a Dafny string literal, used for concrete names. */
  function FromString(s: string): (r: PyStr)
    ensures |r| == |s|
  {
    seq(|s|, i requires 0 <= i < |s| => s[i] as int)
  }
}
