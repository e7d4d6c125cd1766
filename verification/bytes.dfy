/** Bytes as Python's `bytes` objects hold them, and the ASCII character
    classes the byte-pattern regular expressions use. */
module Bytes {

  newtype byte = x: int | 0 <= x < 256

  /** The bytes of an ASCII (or Latin-1) text literal. */
  function Ascii(s: string): (r: seq<byte>)
    requires forall k | 0 <= k < |s| :: s[k] as int < 256
    ensures |r| == |s|
    ensures forall k | 0 <= k < |s| :: r[k] as int == s[k] as int
  {
    seq(|s|, k requires 0 <= k < |s| => s[k] as int as byte)
  }

  const NL: byte := 10
  const SP: byte := 32
  const QUOTE: byte := 34
  const SLASH: byte := 47
  const LT: byte := 60
  const GT: byte := 62

  /** `\s` in a bytes pattern: the ASCII whitespace `[ \t\n\r\f\v]`. */
  predicate IsSpace(b: byte) {
    b == SP || 9 <= b <= 13
  }

  /** `\d` in a bytes pattern: the ASCII digits `[0-9]`. */
  predicate IsDigit(b: byte) {
    48 <= b <= 57
  }
}
