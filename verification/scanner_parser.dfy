/** `parse_command` of `src/parser.rs`: one raw line, terminator included,
    becomes a `MAIL FROM` or `DATA` command or a classified error. Every
    step goes through the clamping scanner, so no slice runs past the end
    of the line. The two aborts the source can still reach, on a non-ASCII
    token byte and on a non-UTF-8 address, are not modelled: here every
    input gives a result. */
module ScannerParser {
  import opened Bytes
  import opened Ascii
  import opened SliceScanner
  import opened ParseTypes

  /** `FROM:`, the keyword after the spaces of a `MAIL` line. */
  const FROM: seq<byte> := [0x46, 0x52, 0x4F, 0x4D, 0x3A]

  /** ` blah`, the trailing bytes of the source's Missing > test. */
  const Blah: seq<byte> := [0x20, 0x62, 0x6C, 0x61, 0x68]

  predicate IsSp(b: byte) { b == SP }
  predicate IsNotSp(b: byte) { b != SP }
  predicate IsNotGt(b: byte) { b != GT }

  function ParseCommand(line: seq<byte>): (r: ParseResult)
    // the terminator is checked before anything else
    ensures r == Err(InvalidLineEnding) <==> !EndsWithCrlf(line)
    // the recipient command is declared but never produced
    ensures !(r.Ok? && r.value.Rcpt?)
  {
    var (crlf, body) := PopBack(Scanner(line), 2);
    if crlf != CRLF then Err(InvalidLineEnding)
    else
      var (cmd, rest) := PopFront(body, 4);
      if UpcaseCompare(cmd, MAIL) then ParseMailArgs(rest)
      else if UpcaseCompare(cmd, DATA) then
        if IsEmpty(rest) then Ok(Data) else Err(SyntaxError(InvalidData))
      else Err(UnknownCommand)
  }

  /** The view after the terminator and the (at most) 4-byte token. */
  function Args(line: seq<byte>): (s: seq<byte>)
    requires EndsWithCrlf(line)
  {
    line[Min(4, |line| - 2)..|line| - 2]
  }

  /** On a line ending in CR LF, `parse_command` classifies the token
      `line[..4]` (shorter when the line is) and hands the rest on. */
  lemma SplitToken(line: seq<byte>)
    requires EndsWithCrlf(line)
    ensures var token := line[..Min(4, |line| - 2)];
            ParseCommand(line) ==
              if UpcaseCompare(token, MAIL) then ParseMailArgs(Scanner(Args(line)))
              else if UpcaseCompare(token, DATA) then
                if Args(line) == [] then Ok(Data) else Err(SyntaxError(InvalidData))
              else Err(UnknownCommand)
  {
    var body := line[..|line| - 2];
    var n := Min(4, |body|);
    assert line == body + CRLF;
    assert line[..n] == body[..n];
    assert Args(line) == body[n..];
    ParseCommandBody(body);
  }

  /** `parse_command` on the bytes before CR LF. */
  lemma ParseCommandBody(body: seq<byte>)
    ensures var n := Min(4, |body|);
            ParseCommand(body + CRLF) ==
              if UpcaseCompare(body[..n], MAIL) then ParseMailArgs(Scanner(body[n..]))
              else if UpcaseCompare(body[..n], DATA) then
                if body[n..] == [] then Ok(Data) else Err(SyntaxError(InvalidData))
              else Err(UnknownCommand)
  {
    PopBackConcat(body, CRLF);
    var n := Min(4, |body|);
    assert body == body[..n] + body[n..];
    PopFrontConcat(body[..n], body[n..]);
  }

  /** A token that is not a 4-byte `MAIL` or `DATA` in any letter case,
      including every token cut short by the end of the line, is an unknown
      command. */
  lemma ParseCommandUnknown(line: seq<byte>)
    ensures ParseCommand(line) == Err(UnknownCommand) <==>
              EndsWithCrlf(line)
              && (|line| < 6 || (!UpcaseCompare(line[..4], MAIL) && !UpcaseCompare(line[..4], DATA)))
  {
    if EndsWithCrlf(line) {
      SplitToken(line);
    }
  }

  /** `DATA` is accepted exactly when nothing but CR LF follows the token;
      anything else after it is a syntax error. */
  lemma ParseCommandData(line: seq<byte>)
    ensures ParseCommand(line) == Ok(Data) <==>
              |line| == 6 && UpcaseCompare(line[..4], DATA) && line[4..] == CRLF
    ensures ParseCommand(line) == Err(SyntaxError(InvalidData)) <==>
              EndsWithCrlf(line) && |line| > 6 && UpcaseCompare(line[..4], DATA)
  {
    if EndsWithCrlf(line) && |line| >= 6 && UpcaseCompare(line[..4], DATA) {
      DataToken(line);
      if |line| == 6 {
        assert line[4..] == line[|line| - 2..];
      }
    } else if EndsWithCrlf(line) {
      SplitToken(line);
    } else if |line| == 6 {
      assert line[4..] == line[|line| - 2..];
    }
  }

  /** After a `DATA` token the result depends only on whether anything
      comes before CR LF. */
  lemma DataToken(line: seq<byte>)
    requires EndsWithCrlf(line) && |line| >= 6 && UpcaseCompare(line[..4], DATA)
    ensures ParseCommand(line) == if |line| == 6 then Ok(Data) else Err(SyntaxError(InvalidData))
  {
    UpcaseCompareEquivalence(DATA, line[..4], MAIL);
    SplitToken(line);
  }

  /** A `MAIL` token must be followed by at least one space. */
  lemma ParseCommandMissingSp(line: seq<byte>)
    ensures ParseCommand(line) == Err(SyntaxError(MissingSp)) <==>
              EndsWithCrlf(line) && |line| >= 6 && UpcaseCompare(line[..4], MAIL)
              && (|line| == 6 || line[4] != SP)
  {
    if EndsWithCrlf(line) {
      SplitToken(line);
    }
  }

  /** The `MAIL` branch, given the view after the 4-byte token. */
  function ParseMailArgs(s: Scanner<byte>): (r: ParseResult)
    ensures r.Ok? ==> r.value.Mail?
    ensures r.Err? ==> r.error.SyntaxError? && r.error.reason != InvalidData
    ensures r == Err(SyntaxError(MissingSp)) <==> Len(s) == 0 || s.data[0] != SP
  {
    var (spaces, s1) := PopWhile(s, IsSp);
    if |spaces| == 0 then Err(SyntaxError(MissingSp))
    else
      var (from, s2) := PopFront(s1, 5);
      if UpcaseCompare(from, FROM) then ParseAddress(s2)
      else Err(SyntaxError(InvalidMail))
  }

  /** The address after `FROM:`: in angle brackets when the next byte is
      `<`, otherwise bare up to the next space; nothing may follow it. */
  function ParseAddress(s: Scanner<byte>): (r: ParseResult)
    ensures r.Ok? ==> r.value.Mail?
    ensures r.Err? ==> r.error.SyntaxError? && r.error.reason != MissingSp && r.error.reason != InvalidData
  {
    if RefFront(s, 1) == [LT] then
      var (_, s3) := PopFront(s, 1);
      var (addr, s4) := PopWhile(s3, IsNotGt);
      var (gt, s5) := PopFront(s4, 1);
      if gt != [GT] then Err(SyntaxError(MissingGt))
      else if IsEmpty(s5) then Ok(Mail(addr))
      else Err(SyntaxError(InvalidMail))
    else
      var (addr, s3) := PopWhile(s, IsNotSp);
      if IsEmpty(s3) then Ok(Mail(addr)) else Err(SyntaxError(InvalidMail))
  }

  /** The wire form of a `MAIL FROM` line: a token, one or more spaces,
      the `FROM:` keyword, the address bare or in angle brackets, CR LF. */
  function MailLine(verb: seq<byte>, k: nat, from: seq<byte>, addr: seq<byte>, bracketed: bool): seq<byte> {
    verb + (Spaces(k) + from + AddrForm(addr, bracketed)) + CRLF
  }

  function AddrForm(addr: seq<byte>, bracketed: bool): seq<byte> {
    if bracketed then [LT] + addr + [GT] else addr
  }

  /** An address that the byte closing it cannot cut short: no `>` inside
      brackets; no space in a bare address, which also cannot start with `<`. */
  predicate AddrOk(addr: seq<byte>, bracketed: bool) {
    if bracketed then GT !in addr
    else SP !in addr && (addr == [] || addr[0] != LT)
  }

  /** What the parser accepts in each part: the two keywords in any letter
      case, at least one space, and an acceptable address. */
  predicate MailParts(verb: seq<byte>, k: nat, from: seq<byte>, addr: seq<byte>, bracketed: bool) {
    && UpcaseCompare(verb, MAIL)
    && k >= 1
    && UpcaseCompare(from, FROM)
    && AddrOk(addr, bracketed)
  }

  /** Once the line ends in CR LF and starts with a `MAIL` token, the
      result is that of the `MAIL` branch on the bytes between the two. */
  lemma MailBranch(line: seq<byte>)
    requires EndsWithCrlf(line) && |line| >= 6 && UpcaseCompare(line[..4], MAIL)
    ensures ParseCommand(line) == ParseMailArgs(Scanner(line[4..|line| - 2]))
  {
    SplitToken(line);
  }

  lemma ParseAddressForm(addr: seq<byte>, bracketed: bool)
    requires AddrOk(addr, bracketed)
    ensures ParseAddress(Scanner(AddrForm(addr, bracketed))) == Ok(Mail(addr))
  {
    var tail := AddrForm(addr, bracketed);
    if bracketed {
      assert RefFront(Scanner(tail), 1) == [LT];
      assert tail == [LT] + (addr + [GT]);
      PopFrontConcat([LT], addr + [GT]);
      PopWhileUnique(addr, [GT], IsNotGt);
      assert [GT] == [GT] + [];
      PopFrontConcat([GT], []);
    } else {
      assert RefFront(Scanner(tail), 1) != [LT];
      assert tail == addr + [];
      PopWhileUnique(addr, [], IsNotSp);
    }
  }

  lemma ParseAddressSound(s: Scanner<byte>, addr: seq<byte>)
    requires ParseAddress(s) == Ok(Mail(addr))
    ensures var bracketed := Len(s) > 0 && s.data[0] == LT;
            AddrOk(addr, bracketed) && s.data == AddrForm(addr, bracketed)
  {
    if RefFront(s, 1) == [LT] {
      var (lt, s3) := PopFront(s, 1);
      var (a, s4) := PopWhile(s3, IsNotGt);
      var (gt, s5) := PopFront(s4, 1);
      assert a == addr && s5.data == [];
      assert s.data == [LT] + addr + [GT];
    } else {
      var (a, s3) := PopWhile(s, IsNotSp);
      assert a == addr && s3.data == [];
      assert s.data == addr;
    }
  }

  lemma ParseMailArgsForm(k: nat, from: seq<byte>, tail: seq<byte>)
    requires k >= 1 && UpcaseCompare(from, FROM)
    ensures ParseMailArgs(Scanner(Spaces(k) + from + tail)) == ParseAddress(Scanner(tail))
  {
    UpcaseCompareKeyword(from, FROM);
    assert from[0] != SP;
    assert Spaces(k) + from + tail == Spaces(k) + (from + tail);
    PopWhileUnique(Spaces(k), from + tail, IsSp);
    PopFrontConcat(from, tail);
  }

  lemma SpacesRun(p: seq<byte>)
    requires forall i | 0 <= i < |p| :: IsSp(p[i])
    ensures p == Spaces(|p|)
  {
  }

  lemma ParseMailArgsSound(s: Scanner<byte>, addr: seq<byte>) returns (k: nat, from: seq<byte>, bracketed: bool)
    requires ParseMailArgs(s) == Ok(Mail(addr))
    ensures k >= 1 && UpcaseCompare(from, FROM) && AddrOk(addr, bracketed)
    ensures s.data == Spaces(k) + from + AddrForm(addr, bracketed)
  {
    var (spaces, s1) := PopWhile(s, IsSp);
    var s2;
    from, s2 := PopFront(s1, 5).0, PopFront(s1, 5).1;
    assert |spaces| != 0 && UpcaseCompare(from, FROM) && ParseAddress(s2) == Ok(Mail(addr));
    ParseAddressSound(s2, addr);
    k := |spaces|;
    SpacesRun(spaces);
    bracketed := Len(s2) > 0 && s2.data[0] == LT;
    var a := AddrForm(addr, bracketed);
    assert s1.data == from + a;
    assert s.data == Spaces(k) + (from + a);
    AppendAssoc(Spaces(k), from, a);
    assert k >= 1 && UpcaseCompare(from, FROM) && AddrOk(addr, bracketed);
  }

  /** Completeness: every well-formed `MAIL FROM` line parses to its address. */
  lemma ParseMailLine(verb: seq<byte>, k: nat, from: seq<byte>, addr: seq<byte>, bracketed: bool)
    requires MailParts(verb, k, from, addr, bracketed)
    ensures ParseCommand(MailLine(verb, k, from, addr, bracketed)) == Ok(Mail(addr))
  {
    var args := Spaces(k) + from + AddrForm(addr, bracketed);
    var line := MailLine(verb, k, from, addr, bracketed);
    assert line[..4] == verb;
    assert line[4..|line| - 2] == args;
    MailBranch(line);
    ParseMailArgsForm(k, from, AddrForm(addr, bracketed));
    ParseAddressForm(addr, bracketed);
  }

  /** Soundness: a line parses to `Mail(addr)` only if it is the wire form
      of `addr` built from acceptable parts. */
  lemma ParsedMailHasShape(line: seq<byte>, addr: seq<byte>)
    requires ParseCommand(line) == Ok(Mail(addr))
    ensures exists verb, k, from, bracketed ::
              MailParts(verb, k, from, addr, bracketed)
              && line == MailLine(verb, k, from, addr, bracketed)
  {
    MailAccepted(line, addr);
    var args := line[4..|line| - 2];
    var k, from, bracketed := ParseMailArgsSound(Scanner(args), addr);
    LineParts(line);
    assert MailParts(line[..4], k, from, addr, bracketed);
    assert line == MailLine(line[..4], k, from, addr, bracketed);
  }

  /** A line accepted as `MAIL` ends in CR LF after a 4-byte `MAIL` token,
      and its `MAIL` branch accepted the bytes in between. */
  lemma MailAccepted(line: seq<byte>, addr: seq<byte>)
    requires ParseCommand(line) == Ok(Mail(addr))
    ensures EndsWithCrlf(line) && |line| >= 6 && UpcaseCompare(line[..4], MAIL)
    ensures ParseMailArgs(Scanner(line[4..|line| - 2])) == Ok(Mail(addr))
  {
    SplitToken(line);
    MailBranch(line);
  }

  /** An opening `<` with no `>` after it is reported as a missing `>`. */
  lemma ParseMissingGt(verb: seq<byte>, k: nat, from: seq<byte>, addr: seq<byte>)
    requires UpcaseCompare(verb, MAIL) && k >= 1 && UpcaseCompare(from, FROM) && GT !in addr
    ensures ParseCommand(verb + (Spaces(k) + from + ([LT] + addr)) + CRLF) == Err(SyntaxError(MissingGt))
  {
    var line := verb + (Spaces(k) + from + ([LT] + addr)) + CRLF;
    assert line[..4] == verb;
    assert line[4..|line| - 2] == Spaces(k) + from + ([LT] + addr);
    MailBranch(line);
    ParseMailArgsForm(k, from, [LT] + addr);
    assert RefFront(Scanner([LT] + addr), 1) == [LT];
    PopFrontConcat([LT], addr);
    assert addr == addr + [];
    PopWhileUnique(addr, [], IsNotGt);
  }

  /** After the spaces, five bytes that are not `FROM:` in any letter case
      (or fewer bytes, when that is all the line holds) make an invalid
      `MAIL` command. */
  lemma ParseMailArgsNotFrom(k: nat, word: seq<byte>, tail: seq<byte>)
    requires k >= 1 && (word == [] || word[0] != SP)
    requires |word| == 5 || (|word| < 5 && tail == [])
    requires !UpcaseCompare(word, FROM)
    ensures ParseMailArgs(Scanner(Spaces(k) + word + tail)) == Err(SyntaxError(InvalidMail))
  {
    AppendAssoc(Spaces(k), word, tail);
    PopWhileUnique(Spaces(k), word + tail, IsSp);
    if |word| == 5 {
      PopFrontConcat(word, tail);
    } else {
      assert word + tail == word;
    }
  }

  /** The same on a whole line. */
  lemma ParseCommandNotFrom(verb: seq<byte>, k: nat, word: seq<byte>, tail: seq<byte>)
    requires UpcaseCompare(verb, MAIL) && k >= 1 && (word == [] || word[0] != SP)
    requires |word| == 5 || (|word| < 5 && tail == [])
    requires !UpcaseCompare(word, FROM)
    ensures ParseCommand(verb + (Spaces(k) + word + tail) + CRLF) == Err(SyntaxError(InvalidMail))
  {
    var line := verb + (Spaces(k) + word + tail) + CRLF;
    assert line[..4] == verb;
    assert line[4..|line| - 2] == Spaces(k) + word + tail;
    MailBranch(line);
    ParseMailArgsNotFrom(k, word, tail);
  }

  /** Bytes left over after the address, after the closing `>` or from the
      space that ends a bare address, make an invalid `MAIL` command. */
  lemma ParseAddressTrailing(addr: seq<byte>, bracketed: bool, extra: seq<byte>)
    requires AddrOk(addr, bracketed) && extra != []
    requires !bracketed ==> extra[0] == SP
    ensures ParseAddress(Scanner(AddrForm(addr, bracketed) + extra)) == Err(SyntaxError(InvalidMail))
  {
    if bracketed {
      assert AddrForm(addr, bracketed) + extra == [LT] + (addr + ([GT] + extra));
      PopFrontConcat([LT], addr + ([GT] + extra));
      PopWhileUnique(addr, [GT] + extra, IsNotGt);
      PopFrontConcat([GT], extra);
    } else {
      PopWhileUnique(addr, extra, IsNotSp);
    }
  }

  /** The same on a whole line. */
  lemma ParseCommandTrailing(verb: seq<byte>, k: nat, from: seq<byte>, addr: seq<byte>, bracketed: bool, extra: seq<byte>)
    requires MailParts(verb, k, from, addr, bracketed) && extra != []
    requires !bracketed ==> extra[0] == SP
    ensures ParseCommand(verb + (Spaces(k) + from + (AddrForm(addr, bracketed) + extra)) + CRLF)
            == Err(SyntaxError(InvalidMail))
  {
    var line := verb + (Spaces(k) + from + (AddrForm(addr, bracketed) + extra)) + CRLF;
    assert line[..4] == verb;
    assert line[4..|line| - 2] == Spaces(k) + from + (AddrForm(addr, bracketed) + extra);
    MailBranch(line);
    ParseMailArgsForm(k, from, AddrForm(addr, bracketed) + extra);
    ParseAddressTrailing(addr, bracketed, extra);
  }

  /** The address step reports a missing `>` exactly when the view opens
      with `<` and no `>` follows. */
  lemma ParseAddressMissingGtIff(s: Scanner<byte>)
    ensures ParseAddress(s) == Err(SyntaxError(MissingGt)) <==>
              Len(s) > 0 && s.data[0] == LT && GT !in s.data[1..]
  {
    if Len(s) > 0 && s.data[0] == LT {
      BracketMissingGt(s);
    }
  }

  /** After `<`, the `>` is missing exactly when no byte left is `>`. */
  lemma BracketMissingGt(s: Scanner<byte>)
    requires Len(s) > 0 && s.data[0] == LT
    ensures ParseAddress(s) == Err(SyntaxError(MissingGt)) <==> GT !in s.data[1..]
  {
    var t := s.data[1..];
    assert s == Scanner([LT] + t);
    PopFrontConcat([LT], t);
    NoClosingGt(t);
  }

  /** The scan up to `>` finds none exactly when the bytes hold none. */
  lemma NoClosingGt(t: seq<byte>)
    ensures PopFront(PopWhile(Scanner(t), IsNotGt).1, 1).0 != [GT] <==> GT !in t
  {
    var (a, s4) := PopWhile(Scanner(t), IsNotGt);
    if Len(s4) == 0 {
      assert t == a;
    } else {
      assert t[|a|] == GT;
      assert PopFront(s4, 1).0 == [GT];
    }
  }

  /** A `MAIL` result other than Missing SP and a wrong keyword comes from
      the address step, after the spaces and `FROM:`. */
  lemma ParseMailArgsSplit(s: Scanner<byte>) returns (k: nat, from: seq<byte>, s2: Scanner<byte>)
    requires ParseMailArgs(s).Ok? || ParseMailArgs(s) == Err(SyntaxError(MissingGt))
    ensures k >= 1 && UpcaseCompare(from, FROM)
    ensures s.data == Spaces(k) + from + s2.data
    ensures ParseMailArgs(s) == ParseAddress(s2)
  {
    var (spaces, s1) := PopWhile(s, IsSp);
    from, s2 := PopFront(s1, 5).0, PopFront(s1, 5).1;
    k := |spaces|;
    SpacesRun(spaces);
    AppendAssoc(Spaces(k), from, s2.data);
  }

  /** A line ending in CR LF is its 4-byte token, the bytes between, and
      CR LF. */
  lemma LineParts(line: seq<byte>)
    requires EndsWithCrlf(line) && |line| >= 6
    ensures line == line[..4] + line[4..|line| - 2] + CRLF
  {
    assert line == line[..|line| - 2] + line[|line| - 2..];
    assert line[..|line| - 2] == line[..4] + line[4..|line| - 2];
  }

  /** A line reported as missing its `>` ends in CR LF after a `MAIL`
      token, and the `MAIL` branch made the report. */
  lemma MissingGtBranch(line: seq<byte>)
    requires ParseCommand(line) == Err(SyntaxError(MissingGt))
    ensures EndsWithCrlf(line) && |line| >= 6 && UpcaseCompare(line[..4], MAIL)
    ensures ParseMailArgs(Scanner(line[4..|line| - 2])) == Err(SyntaxError(MissingGt))
  {
    SplitToken(line);
    MailBranch(line);
  }

  /** A line reported as missing its `>` has a `MAIL` token, spaces, the
      `FROM:` keyword, then `<` and bytes none of which is `>`. With
      `ParseMissingGt` this makes the report exact. */
  lemma MissingGtHasShape(line: seq<byte>) returns (k: nat, from: seq<byte>, addr: seq<byte>)
    requires ParseCommand(line) == Err(SyntaxError(MissingGt))
    ensures UpcaseCompare(line[..4], MAIL) && k >= 1 && UpcaseCompare(from, FROM) && GT !in addr
    ensures line == line[..4] + (Spaces(k) + from + ([LT] + addr)) + CRLF
  {
    MissingGtBranch(line);
    var args := line[4..|line| - 2];
    LineParts(line);
    var s2;
    k, from, s2 := ParseMailArgsSplit(Scanner(args));
    addr := UnclosedAddress(s2);
  }

  /** The view the address step reports as missing its `>`: `<` and bytes
      none of which is `>`. */
  lemma UnclosedAddress(s: Scanner<byte>) returns (addr: seq<byte>)
    requires ParseAddress(s) == Err(SyntaxError(MissingGt))
    ensures s.data == [LT] + addr && GT !in addr
  {
    ParseAddressMissingGtIff(s);
    addr := s.data[1..];
  }

  lemma BadEnding(p: seq<byte>, e: seq<byte>)
    requires |e| == 2 && e != CRLF
    ensures ParseCommand(p + e) == Err(InvalidLineEnding)
  {
    assert (p + e)[|p + e| - 2..] == e;
  }

  /** The source's own examples of a bad or missing terminator. */
  lemma LineEndingExamples()
    ensures ParseCommand([CR]) == Err(InvalidLineEnding)
    ensures ParseCommand([LF]) == Err(InvalidLineEnding)
    ensures ParseCommand([LF, CR]) == Err(InvalidLineEnding)
    ensures ParseCommand(MAIL + [SP] + FROM + [LT] + ExampleAddress + [GT]) == Err(InvalidLineEnding)
    ensures ParseCommand(MAIL + [SP] + FROM + [LT] + ExampleAddress + [GT, CR]) == Err(InvalidLineEnding)
    ensures ParseCommand(MAIL + [SP] + FROM + [LT] + ExampleAddress + [GT, LF]) == Err(InvalidLineEnding)
    ensures ParseCommand(MAIL + [SP] + FROM + [LT] + ExampleAddress + [GT, LF, CR]) == Err(InvalidLineEnding)
  {
    var m := MAIL + [SP] + FROM + [LT] + ExampleAddress;
    BadEnding(MAIL + [SP] + FROM + [LT] + ExampleAddress[..16], [ExampleAddress[16], GT]);
    assert MAIL + [SP] + FROM + [LT] + ExampleAddress[..16] + [ExampleAddress[16], GT] == m + [GT];
    BadEnding(m, [GT, CR]);
    BadEnding(m, [GT, LF]);
    BadEnding(m + [GT], [LF, CR]);
    assert m + [GT] + [LF, CR] == m + [GT, LF, CR];
  }

  /** The wire forms with a single space, written out byte group by byte group. */
  lemma MailLineWithOneSpace(verb: seq<byte>, from: seq<byte>, addr: seq<byte>)
    ensures verb + [SP] + from + [LT] + addr + [GT] + CRLF == MailLine(verb, 1, from, addr, true)
    ensures verb + [SP] + from + addr + CRLF == MailLine(verb, 1, from, addr, false)
    ensures verb + [SP] + from + [LT] + addr + CRLF == verb + (Spaces(1) + from + ([LT] + addr)) + CRLF
  {
    assert Spaces(1) == [SP];
  }

  /** The source's own example of an unclosed angle bracket. */
  lemma MissingGtExample()
    ensures ParseCommand(MAIL + [SP] + FROM + [LT] + (ExampleAddress + Blah) + CRLF)
            == Err(SyntaxError(MissingGt))
  {
    var blah := ExampleAddress + Blah;
    assert GT !in blah;
    ParseMissingGt(MAIL, 1, FROM, blah);
    MailLineWithOneSpace(MAIL, FROM, blah);
  }

  /** The source's own examples of `MAIL FROM` lines: bracketed and bare. */
  lemma MailExamples()
    ensures ParseCommand(MAIL + [SP] + FROM + [LT] + ExampleAddress + [GT] + CRLF) == Ok(Mail(ExampleAddress))
    ensures ParseCommand(MAIL + [SP] + FROM + ExampleAddress + CRLF) == Ok(Mail(ExampleAddress))
  {
    assert GT !in ExampleAddress && SP !in ExampleAddress;
    ParseMailLine(MAIL, 1, FROM, ExampleAddress, true);
    ParseMailLine(MAIL, 1, FROM, ExampleAddress, false);
    MailLineWithOneSpace(MAIL, FROM, ExampleAddress);
  }

  /** The source's own examples of `DATA` lines. */
  lemma DataExamples()
    ensures ParseCommand(DATA + CRLF) == Ok(Data)
    ensures ParseCommand(LowerData + CRLF) == Ok(Data)
    ensures ParseCommand((LowerData + Test) + CRLF) == Err(SyntaxError(InvalidData))
  {
    assert (DATA + CRLF)[..4] == DATA;
    DataToken(DATA + CRLF);
    assert (LowerData + CRLF)[..4] == LowerData;
    DataToken(LowerData + CRLF);
    assert ((LowerData + Test) + CRLF)[..4] == LowerData;
    DataToken((LowerData + Test) + CRLF);
  }
}
