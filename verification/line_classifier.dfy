/** The 4-byte command classifier `parse_line` of `src/lib.rs`. It names
    the command a line starts with and ignores everything after the token. */
module LineClassifier {
  import opened Bytes
  import opened Ascii

  datatype SmtpCommand = Ehlo | Helo | Mail | Rcpt | Data | Unknown

  /** `EHLO`, `HELO` and `RCPT`, which only the classifier tests for. */
  const EHLO: seq<byte> := [0x45, 0x48, 0x4C, 0x4F]
  const HELO: seq<byte> := [0x48, 0x45, 0x4C, 0x4F]
  const RCPT: seq<byte> := [0x52, 0x43, 0x50, 0x54]

  /** The upper-case keyword each recognised command is matched against. */
  function Keyword(k: SmtpCommand): (t: seq<byte>)
    requires k != Unknown
    ensures |t| == 4 && IsUpperWord(t)
  {
    match k
    case Ehlo => EHLO
    case Helo => HELO
    case Mail => MAIL
    case Rcpt => RCPT
    case Data => DATA
  }

  /** No two keywords match the same token, so the order in which
      `parse_line` tries them does not matter. */
  lemma KeywordsDistinct(j: SmtpCommand, k: SmtpCommand, token: seq<byte>)
    requires j != Unknown && k != Unknown && j != k
    ensures !(UpcaseCompare(token, Keyword(j)) && UpcaseCompare(token, Keyword(k)))
  {
    if UpcaseCompare(token, Keyword(j)) {
      UpcaseCompareEquivalence(Keyword(j), token, Keyword(k));
    }
  }

  function ParseLine(line: seq<byte>): (r: SmtpCommand)
    ensures |line| < 4 ==> r == Unknown
    ensures r != Unknown ==> UpcaseCompare(line[..4], Keyword(r))
  {
    if |line| >= 4 then Classify(line[..4]) else Unknown
  }

  /** The chain of keyword tests on the 4-byte token, in source order. */
  function Classify(cmd: seq<byte>): (r: SmtpCommand)
    ensures r != Unknown ==> UpcaseCompare(cmd, Keyword(r))
  {
    if UpcaseCompare(cmd, EHLO) then Ehlo
    else if UpcaseCompare(cmd, HELO) then Helo
    else if UpcaseCompare(cmd, MAIL) then Mail
    else if UpcaseCompare(cmd, RCPT) then Rcpt
    else if UpcaseCompare(cmd, DATA) then Data
    else Unknown
  }

  /** `Unknown` comes back exactly when no keyword matches the token. */
  lemma ClassifyUnknown(cmd: seq<byte>)
    ensures Classify(cmd) == Unknown <==> forall k | k != Unknown :: !UpcaseCompare(cmd, Keyword(k))
  {
    if Classify(cmd) == Unknown {
      forall k | k != Unknown ensures !UpcaseCompare(cmd, Keyword(k)) {
        match k
        case Ehlo => assert Keyword(k) == EHLO;
        case Helo => assert Keyword(k) == HELO;
        case Mail => assert Keyword(k) == MAIL;
        case Rcpt => assert Keyword(k) == RCPT;
        case Data => assert Keyword(k) == DATA;
      }
    }
  }

  /** Only the first four bytes count: whatever follows the token,
      including the line terminator, leaves the result unchanged. */
  lemma ParseLineIgnoresTail(token: seq<byte>, tail: seq<byte>)
    requires |token| == 4
    ensures ParseLine(token + tail) == ParseLine(token)
  {
    assert (token + tail)[..4] == token;
    assert token[..4] == token;
  }

  /** Every letter-case variant of a keyword, followed by anything, is
      classified as that keyword's command; and a token is classified as a
      command only when it is a case variant of its keyword. */
  lemma ParseLineKeywordIff(token: seq<byte>, tail: seq<byte>, k: SmtpCommand)
    requires |token| == 4 && k != Unknown
    ensures ParseLine(token + tail) == k <==> UpcaseCompare(token, Keyword(k))
  {
    ParseLineIgnoresTail(token, tail);
    assert token[..4] == token;
    ClassifyUnknown(token);
    if UpcaseCompare(token, Keyword(k)) && ParseLine(token) != Unknown {
      if ParseLine(token) != k {
        KeywordsDistinct(ParseLine(token), k, token);
      }
    }
  }

  /** The examples of the source's own test of `parse_line`. */
  lemma ParseLineExamples()
    ensures ParseLine(Lit("ehlo") + Lit(" mail.ntecs.de\r\n")) == Ehlo
    ensures ParseLine(Lit("helo") + Lit(" mail.ntecs.de\r\n")) == Helo
    ensures ParseLine(DATA + CRLF) == Data
  {
    var host := Lit(" mail.ntecs.de\r\n");
    KeywordExample(Lit("ehlo"), [0x65, 0x68, 0x6C, 0x6F], host, Ehlo);
    KeywordExample(Lit("helo"), [0x68, 0x65, 0x6C, 0x6F], host, Helo);
    ParseLineKeywordIff(DATA, CRLF, Data);
  }

  /** One lower-case keyword example, given its bytes. */
  lemma KeywordExample(word: seq<byte>, bytes: seq<byte>, tail: seq<byte>, k: SmtpCommand)
    requires word == bytes && |bytes| == 4 && k != Unknown
    requires forall i | 0 <= i < 4 :: bytes[i] == Keyword(k)[i] + CaseOffset
    ensures ParseLine(word + tail) == k
  {
    UpcaseCompareKeyword(word, Keyword(k));
    ParseLineKeywordIff(word, tail, k);
  }
}
