/** Bytes and the ASCII codes that the JSON and CSV code compares against. */
module Bytes {

  /** One `unsigned char`. */
  type Byte = b: int | 0 <= b < 256

  const NUL: Byte := 0x00
  const BS: Byte := 0x08
  const TAB: Byte := 0x09
  const LF: Byte := 0x0A
  const FF: Byte := 0x0C
  const CR: Byte := 0x0D
  const SPACE: Byte := 0x20
  const QUOTE: Byte := 0x22
  const COMMA: Byte := 0x2C
  const MINUS: Byte := 0x2D
  const DOT: Byte := 0x2E
  const ZERO: Byte := 0x30
  const COLON: Byte := 0x3A
  const LBRACKET: Byte := 0x5B
  const BACKSLASH: Byte := 0x5C
  const RBRACKET: Byte := 0x5D
  const LBRACE: Byte := 0x7B
  const RBRACE: Byte := 0x7D

  datatype Option<+T> = None | Some(value: T)

  predicate IsDigit(b: Byte) {
    0x30 <= b <= 0x39
  }

  predicate IsHexDigit(b: Byte) {
    0x30 <= b <= 0x39 || 0x41 <= b <= 0x46 || 0x61 <= b <= 0x66
  }

  function HexValue(b: Byte): (v: nat)
    requires IsHexDigit(b)
    ensures v < 16
  {
    if b <= 0x39 then b - 0x30 else if b <= 0x46 then b - 0x37 else b - 0x57
  }

  /** The lower-case digit that the `%x` conversion of `sprintf` prints. */
  function HexDigit(d: nat): (b: Byte)
    requires d < 16
    ensures IsHexDigit(b) && HexValue(b) == d
  {
    if d < 10 then 0x30 + d else 0x57 + d
  }
}
