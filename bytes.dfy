/** Bytes as the JVM sees them: `ByteArray` elements are signed 8-bit values. */
module Bytes {

  type byte = b: int | -128 <= b < 128

  const SPACE: byte := ' ' as int
  const TAB: byte := '\t' as int
  const LF: byte := '\n' as int
  const CR: byte := '\r' as int
  const QUOTE: byte := '"' as int
  const MINUS: byte := '-' as int
  const ZERO: byte := '0' as int
  const NINE: byte := '9' as int
  const LOWER_F: byte := 'f' as int
  const LOWER_N: byte := 'n' as int
  const LOWER_T: byte := 't' as int
  const LEFT_BRACKET: byte := '[' as int
  const LEFT_BRACE: byte := '{' as int

  /** The four bytes the tokenizer skips between tokens. */
  predicate IsWhitespace(c: byte) {
    c == SPACE || c == TAB || c == LF || c == CR
  }

  predicate IsDigit(c: byte) {
    ZERO <= c <= NINE
  }

  function DigitOf(c: byte): (d: nat)
    requires IsDigit(c)
    ensures d < 10
  {
    c - ZERO
  }

  function DigitByte(d: nat): (c: byte)
    requires d < 10
    ensures IsDigit(c) && DigitOf(c) == d
  {
    ZERO + d
  }
}
