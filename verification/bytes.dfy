/** Machine types and ASCII byte classes used by the chunk splitter and the
    chunk sorter. Integers are unbounded in Dafny, so the widths of Rust's
    `u8` and `i64` are written out as subset types. */
module Bytes {

  /** A Rust `u8`. */
  type u8 = x: int | 0 <= x < 0x100

  /** A Rust `i64`. */
  type i64 = x: int | InI64Range(x)

  predicate InI64Range(x: int) {
    -0x8000_0000_0000_0000 <= x < 0x8000_0000_0000_0000
  }

  const SPACE: u8 := 0x20
  const PLUS: u8 := 0x2B
  const MINUS: u8 := 0x2D
  const ZERO: u8 := 0x30

  /** ASCII part of Rust's `char::is_whitespace`, which `str::trim` uses:
      tab, line feed, vertical tab, form feed, carriage return and space. */
  predicate IsWhitespace(b: u8) {
    0x09 <= b <= 0x0D || b == SPACE
  }

  predicate IsDigit(b: u8) {
    ZERO <= b <= ZERO + 9
  }

  predicate AllDigits(s: seq<u8>) {
    forall i :: 0 <= i < |s| ==> IsDigit(s[i])
  }

  predicate IsAsciiText(s: string) {
    forall i :: 0 <= i < |s| ==> s[i] as int < 0x80
  }

  /** The bytes of an ASCII string literal. */
  function Ascii(s: string): (r: seq<u8>)
    requires IsAsciiText(s)
    ensures |r| == |s|
  {
    seq(|s|, i requires 0 <= i < |s| => s[i] as int)
  }

  function Min(a: int, b: int): int {
    if a <= b then a else b
  }
}
