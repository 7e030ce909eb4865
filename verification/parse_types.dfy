/** The command and error types that both snapshots of `parse_command`
    (`src/parser.rs` and `parser.rs`) declare identically. */
module ParseTypes {
  import opened Bytes

  /** A recognised command; an address is the verbatim bytes of the line.
      `Rcpt` is declared by the source but no parser produces it. */
  datatype SmtpCommand = Mail(address: seq<byte>) | Rcpt(address: seq<byte>) | Data

  datatype ParseError = SyntaxError(reason: string) | InvalidLineEnding | UnknownCommand

  type ParseResult = Result<SmtpCommand, ParseError>

  /** The reasons a syntax error can carry. */
  const MissingSp: string := "Invalid MAIL command: Missing SP"
  const MissingGt: string := "Invalid MAIL command: Missing >"
  const InvalidMail: string := "Invalid MAIL command"
  const InvalidData: string := "Invalid DATA command"

  /** The last two bytes are CR then LF (section 2.3.8 of RFC 5321). */
  predicate EndsWithCrlf(line: seq<byte>) {
    |line| >= 2 && line[|line| - 2..] == CRLF
  }

  /** The line without its two terminator bytes. */
  function Stripped(line: seq<byte>): (s: seq<byte>)
    requires EndsWithCrlf(line)
    ensures s + CRLF == line
  {
    line[..|line| - 2]
  }

  // Sample bytes that the tests of both parsers use.
  /** The address of the parser tests, `mneumann@ntecs.de`. */
  const ExampleAddress: seq<byte> :=
    [0x6D, 0x6E, 0x65, 0x75, 0x6D, 0x61, 0x6E, 0x6E, 0x40, 0x6E, 0x74, 0x65, 0x63, 0x73, 0x2E, 0x64, 0x65]

  /** `data` and ` test`. */
  const LowerData: seq<byte> := [0x64, 0x61, 0x74, 0x61]
  const Test: seq<byte> := [0x20, 0x74, 0x65, 0x73, 0x74]
}
