/** Bytes, the fixed byte values of the SMTP line grammar, and the
    Ok/Err result shape shared by every reader and parser of the model. */
module Bytes {

  /** An unsigned 8-bit value, as Rust's `u8`. */
  newtype byte = b: int | 0 <= b < 256

  /** Carriage return and line feed, the line terminator of
      section 2.3.8 of RFC 5321. */
  const CR: byte := 0x0D
  const LF: byte := 0x0A
  const SP: byte := 0x20
  const LT: byte := 0x3C
  const GT: byte := 0x3E
  /** Bytes from this value upwards are rejected as non-ASCII by both readers. */
  const DEL: byte := 127

  const CRLF: seq<byte> := [CR, LF]

  /** Source-level success or error, as Rust's `Result<T, E>`. */
  datatype Result<+T, +E> = Ok(value: T) | Err(error: E)

  /** True when every character of `s` is 7-bit ASCII. */
  predicate IsAsciiText(s: string) {
    forall i | 0 <= i < |s| :: s[i] as int < 128
  }

  /** The bytes of an ASCII literal, as Rust's `b"..."`. */
  function Lit(s: string): (r: seq<byte>)
    requires IsAsciiText(s)
    ensures |r| == |s|
    ensures forall i | 0 <= i < |s| :: r[i] as int == s[i] as int
  {
    seq(|s|, i requires 0 <= i < |s| => s[i] as int as byte)
  }

  /** A byte below 127: what both readers accept as a character. The bound
      is one lower than the 7-bit bound of `IsAsciiText`, because the
      readers reject DEL (127) as well. */
  predicate IsReadable(b: byte) {
    b < DEL
  }

  /** `n` space bytes. */
  function Spaces(n: nat): (r: seq<byte>)
    ensures |r| == n
    ensures forall i | 0 <= i < n :: r[i] == SP
  {
    seq(n, _ => SP)
  }

  lemma AppendAssoc<T>(a: seq<T>, b: seq<T>, c: seq<T>)
    ensures a + (b + c) == a + b + c
  {
  }

  function Min(a: nat, b: nat): nat {
    if a <= b then a else b
  }

  // The two command keywords both parsers and the classifier test for.
  /** `MAIL` */
  const MAIL: seq<byte> := [0x4D, 0x41, 0x49, 0x4C]
  /** `DATA` */
  const DATA: seq<byte> := [0x44, 0x41, 0x54, 0x41]
}
