/** Types shared by every part of the model. */
module Common {

  /** The value of a C `char` as an unsigned byte. */
  type byte = b: int | 0 <= b < 256

  const NUL: byte := 0
  const NEWLINE: byte := 10
  const RETURN: byte := 13
  const SPACE: byte := 32

  datatype Option<+T> = None | Some(value: T)

  function Min(a: int, b: int): int {
    if a < b then a else b
  }

  function Max(a: int, b: int): int {
    if a < b then b else a
  }

  /** The text held in a C string: no byte of it is the terminator. */
  predicate IsText(s: seq<byte>) {
    NUL !in s
  }

  /** A string constant of the C source as bytes. */
  function Bytes(s: string): (b: seq<byte>)
    ensures |b| == |s|
  {
    seq(|s|, i requires 0 <= i < |s| => s[i] as int % 256)
  }
}
