/** The earlier `parse_command` of `parser.rs`, which cuts the line at
    fixed offsets instead of scanning it. Rust panics on a slice whose end
    lies past the end of the line; `Panicked` models exactly those panics.
    The two other aborts the source can reach, on a non-ASCII token byte
    (`to_ascii`) and on a non-UTF-8 address (`from_utf8(..).unwrap()`), are
    not modelled: on those inputs the model returns a result. */
module OffsetParser {
  import opened Bytes
  import opened Ascii
  import opened ParseTypes

  datatype Outcome = Returned(result: ParseResult) | Panicked

  /** ` FROM:<`, the seven bytes this parser expects after `MAIL`. */
  const FromOpen: seq<byte> := [0x20, 0x46, 0x52, 0x4F, 0x4D, 0x3A, 0x3C]

  /** The stripped lines on which one of the fixed-offset slices is out of
      range: the 4-byte token needs 4 bytes, the 7 bytes of ` FROM:<` after
      a `MAIL` token need 11, and taking all but the last byte of the empty
      rest after ` FROM:<` needs 12. */
  predicate SliceOutOfRange(s: seq<byte>) {
    || |s| < 4
    || (UpcaseCompare(s[..4], MAIL) && |s| < 11)
    || (UpcaseCompare(s[..4], MAIL) && |s| == 11 && UpcaseCompare(s[4..11], FromOpen))
  }

  /** `parse_command` as written, panics included. */
  function ParseCommand(line: seq<byte>): (r: Outcome)
    ensures r == Returned(Err(InvalidLineEnding)) <==> !EndsWithCrlf(line)
    ensures r == Panicked <==> EndsWithCrlf(line) && SliceOutOfRange(Stripped(line))
    ensures !(r.Returned? && r.result.Ok? && r.result.value.Rcpt?)
  {
    if |line| < 2 then Returned(Err(InvalidLineEnding))
    else if line[|line| - 2..] != CRLF then Returned(Err(InvalidLineEnding))
    else
      var s := line[..|line| - 2];
      if |s| < 4 then Panicked
      else if UpcaseCompare(s[..4], MAIL) then
        if |s| < 11 then Panicked
        else if UpcaseCompare(s[4..11], FromOpen) then
          if |s| < 12 then Panicked
          else if s[|s| - 1..] == [GT] then Returned(Ok(Mail(s[11..|s| - 1])))
          else Returned(Err(SyntaxError(MissingGt)))
        else Returned(Err(SyntaxError(InvalidMail)))
      else if UpcaseCompare(s[..4], DATA) then
        if |s[4..]| == 0 then Returned(Ok(Data)) else Returned(Err(SyntaxError(InvalidData)))
      else Returned(Err(UnknownCommand))
  }

  /** Completeness: a `MAIL` token and ` FROM:<` in any letter case, then
      an address, then `>` and CR LF, give that address. Nothing stops the
      address from holding `>` itself: only the last byte is checked. */
  lemma ParseMailLine(verb: seq<byte>, open: seq<byte>, addr: seq<byte>)
    requires UpcaseCompare(verb, MAIL) && UpcaseCompare(open, FromOpen)
    ensures ParseCommand(verb + open + addr + [GT] + CRLF) == Returned(Ok(Mail(addr)))
  {
    var line := verb + open + addr + [GT] + CRLF;
    var s := verb + open + addr + [GT];
    assert line[..|line| - 2] == s;
    assert s[..4] == verb && s[4..11] == open;
    assert s[|s| - 1..] == [GT] && s[11..|s| - 1] == addr;
  }

  /** Soundness: an accepted line is exactly that shape, its address the
      bytes between offset 11 and the final `>`. */
  lemma ParsedMailHasShape(line: seq<byte>, addr: seq<byte>)
    requires ParseCommand(line) == Returned(Ok(Mail(addr)))
    ensures |line| >= 14
    ensures UpcaseCompare(line[..4], MAIL) && UpcaseCompare(line[4..11], FromOpen)
    ensures line == line[..4] + line[4..11] + addr + [GT] + CRLF
  {
    var s := line[..|line| - 2];
    assert s[..4] == line[..4] && s[4..11] == line[4..11];
    assert s == line[..4] + line[4..11] + addr + [GT];
  }

  /** With the prefix right, the result turns on the last byte alone. */
  lemma ParseMissingGt(line: seq<byte>)
    requires EndsWithCrlf(line) && |line| >= 14
    requires UpcaseCompare(line[..4], MAIL) && UpcaseCompare(line[4..11], FromOpen)
    ensures ParseCommand(line) == Returned(Err(SyntaxError(MissingGt))) <==> line[|line| - 3] != GT
  {
    var s := line[..|line| - 2];
    assert s[..4] == line[..4] && s[4..11] == line[4..11];
    assert s[|s| - 1..] == [line[|line| - 3]];
  }

  /** A `MAIL` token followed by seven bytes that are not ` FROM:<` in any
      letter case is an invalid `MAIL` command, and nothing else is. */
  lemma ParseInvalidMail(line: seq<byte>)
    ensures ParseCommand(line) == Returned(Err(SyntaxError(InvalidMail))) <==>
              EndsWithCrlf(line) && |line| >= 13
              && UpcaseCompare(line[..4], MAIL) && !UpcaseCompare(line[4..11], FromOpen)
  {
    if EndsWithCrlf(line) && |line| >= 6 {
      var s := line[..|line| - 2];
      assert s[..4] == line[..4];
      if |line| >= 13 {
        assert s[4..11] == line[4..11] by {
          assert forall i | 4 <= i < 11 :: s[i] == line[i];
        }
      }
    }
  }

  /** `DATA` is accepted exactly when nothing but CR LF follows the token. */
  lemma ParseData(line: seq<byte>)
    ensures ParseCommand(line) == Returned(Ok(Data)) <==>
              |line| == 6 && UpcaseCompare(line[..4], DATA) && line[4..] == CRLF
    ensures ParseCommand(line) == Returned(Err(SyntaxError(InvalidData))) <==>
              EndsWithCrlf(line) && |line| > 6 && UpcaseCompare(line[..4], DATA)
  {
    if |line| >= 6 {
      var s := line[..|line| - 2];
      assert s[..4] == line[..4];
      if UpcaseCompare(line[..4], DATA) {
        UpcaseCompareEquivalence(DATA, line[..4], MAIL);
      }
    }
  }

  /** After a `DATA` token the result depends only on whether anything
      comes before CR LF. */
  lemma DataToken(line: seq<byte>)
    requires EndsWithCrlf(line) && |line| >= 6 && UpcaseCompare(line[..4], DATA)
    ensures ParseCommand(line) ==
              Returned(if |line| == 6 then Ok(Data) else Err(SyntaxError(InvalidData)))
  {
    var s := line[..|line| - 2];
    assert s[..4] == line[..4];
    UpcaseCompareEquivalence(DATA, line[..4], MAIL);
  }

  /** The intended parser: the same decisions, with each out-of-range
      slice replaced by the answer a clamped slice gives. A token cut short
      by the end of the line is unknown, a `MAIL` line too short for
      ` FROM:<` is not a valid `MAIL` command, and ` FROM:<` with nothing
      after it lacks its `>`. */
  function ParseCommandChecked(line: seq<byte>): (r: ParseResult)
    ensures r == Err(InvalidLineEnding) <==> !EndsWithCrlf(line)
    ensures r == Err(UnknownCommand) <==>
              EndsWithCrlf(line)
              && (|line| < 6 || (!UpcaseCompare(line[..4], MAIL) && !UpcaseCompare(line[..4], DATA)))
    ensures ParseCommand(line).Returned? ==> ParseCommand(line).result == r
  {
    if !EndsWithCrlf(line) then Err(InvalidLineEnding)
    else
      var s := Stripped(line);
      if |s| < 4 then Err(UnknownCommand)
      else if UpcaseCompare(s[..4], MAIL) then
        if |s| < 11 then Err(SyntaxError(InvalidMail))
        else if UpcaseCompare(s[4..11], FromOpen) then
          if |s| < 12 then Err(SyntaxError(MissingGt))
          else if s[|s| - 1] == GT then Ok(Mail(s[11..|s| - 1]))
          else Err(SyntaxError(MissingGt))
        else Err(SyntaxError(InvalidMail))
      else if UpcaseCompare(s[..4], DATA) then
        if |s| == 4 then Ok(Data) else Err(SyntaxError(InvalidData))
      else Err(UnknownCommand)
  }

  /** Lines on which the parser as written panics, although each has an
      evident answer: an unknown 2-byte token, a bare `MAIL`, and
      ` FROM:<` with nothing after it. */
  lemma ShortLinesPanic()
    ensures ParseCommand([0x48, 0x49, CR, LF]) == Panicked
    ensures ParseCommand(MAIL + CRLF) == Panicked
    ensures ParseCommand(MAIL + FromOpen + CRLF) == Panicked
    ensures ParseCommandChecked([0x48, 0x49, CR, LF]) == Err(UnknownCommand)
    ensures ParseCommandChecked(MAIL + CRLF) == Err(SyntaxError(InvalidMail))
    ensures ParseCommandChecked(MAIL + FromOpen + CRLF) == Err(SyntaxError(MissingGt))
  {
    assert (MAIL + CRLF)[..4] == MAIL;
    assert (MAIL + FromOpen + CRLF)[..|MAIL + FromOpen + CRLF| - 2] == MAIL + FromOpen;
    assert (MAIL + FromOpen)[..4] == MAIL && (MAIL + FromOpen)[4..11] == FromOpen;
  }

  /** The source's own examples of a bad terminator. */
  lemma LineEndingExamples()
    ensures ParseCommand([CR]) == Returned(Err(InvalidLineEnding))
    ensures ParseCommand([LF]) == Returned(Err(InvalidLineEnding))
    ensures ParseCommand([LF, CR]) == Returned(Err(InvalidLineEnding))
    ensures ParseCommand(MAIL + FromOpen + ExampleAddress + [GT]) == Returned(Err(InvalidLineEnding))
    ensures ParseCommand(MAIL + FromOpen + ExampleAddress + [GT, CR]) == Returned(Err(InvalidLineEnding))
    ensures ParseCommand(MAIL + FromOpen + ExampleAddress + [GT, LF]) == Returned(Err(InvalidLineEnding))
    ensures ParseCommand(MAIL + FromOpen + ExampleAddress + [GT, LF, CR]) == Returned(Err(InvalidLineEnding))
  {
    var m := MAIL + FromOpen + ExampleAddress;
    BadEnding(MAIL + FromOpen + ExampleAddress[..16], [ExampleAddress[16], GT]);
    assert MAIL + FromOpen + ExampleAddress[..16] + [ExampleAddress[16], GT] == m + [GT];
    BadEnding(m, [GT, CR]);
    BadEnding(m, [GT, LF]);
    BadEnding(m + [GT], [LF, CR]);
    assert m + [GT] + [LF, CR] == m + [GT, LF, CR];
  }

  /** Any last two bytes other than CR LF are an invalid line ending. */
  lemma BadEnding(p: seq<byte>, e: seq<byte>)
    requires |e| == 2 && e != CRLF
    ensures ParseCommand(p + e) == Returned(Err(InvalidLineEnding))
  {
    assert (p + e)[|p + e| - 2..] == e;
  }

  /** The source's own `MAIL` examples: without and with the closing `>`. */
  lemma MailExamples()
    ensures ParseCommand(MAIL + FromOpen + ExampleAddress + CRLF) == Returned(Err(SyntaxError(MissingGt)))
    ensures ParseCommand(MAIL + FromOpen + ExampleAddress + [GT] + CRLF) == Returned(Ok(Mail(ExampleAddress)))
  {
    var line := MAIL + FromOpen + ExampleAddress + CRLF;
    assert line[..4] == MAIL && line[4..11] == FromOpen && line[|line| - 3] == ExampleAddress[16];
    ParseMissingGt(line);
    ParseMailLine(MAIL, FromOpen, ExampleAddress);
  }

  /** The source's own `DATA` examples. */
  lemma DataExamples()
    ensures ParseCommand(DATA + CRLF) == Returned(Ok(Data))
    ensures ParseCommand(LowerData + CRLF) == Returned(Ok(Data))
    ensures ParseCommand(LowerData + Test + CRLF) == Returned(Err(SyntaxError(InvalidData)))
  {
    assert (DATA + CRLF)[..4] == DATA;
    DataToken(DATA + CRLF);
    assert (LowerData + CRLF)[..4] == LowerData;
    DataToken(LowerData + CRLF);
    assert (LowerData + Test + CRLF)[..4] == LowerData;
    DataToken(LowerData + Test + CRLF);
  }
}
