/** The stream readers of `src/bin/smtp.rs`. The stream is the sequence
    of bytes still to come; each reader returns its result together with
    the bytes it left unread. Reading past the end is an error of kind
    `UnexpectedEof`, never a wait. */
module IoReader {
  import opened Bytes
  import opened Wire

  /** The `std::io::ErrorKind`s the readers produce. */
  datatype IoError = UnexpectedEof | InvalidData | InvalidInput

  datatype Read<+T> = Read(result: Result<T, IoError>, rest: seq<byte>)

  /** `read_ascii_char`: one byte, accepted when below 127. A rejected byte
      has been consumed; at the end of the stream nothing is. */
  function ReadAsciiChar(input: seq<byte>): (r: Read<byte>)
    ensures r.result.Ok? <==> |input| > 0 && IsReadable(input[0])
    ensures r.result.Ok? ==> r.result.value == input[0] && r.rest == input[1..]
    ensures |input| == 0 ==> r == Read(Err(UnexpectedEof), [])
    ensures |input| > 0 && !IsReadable(input[0]) ==> r == Read(Err(InvalidData), input[1..])
  {
    if |input| == 0 then Read(Err(UnexpectedEof), input)
    else if input[0] < DEL then Read(Ok(input[0]), input[1..])
    else Read(Err(InvalidData), input[1..])
  }

  /** `read_line`: bytes up to the first CR, which must be followed by LF.
      On success the line never holds CR or LF and the stream resumes
      right after the CR LF. */
  function ReadLine(input: seq<byte>): (r: Read<seq<byte>>)
    ensures |r.rest| <= |input|
    ensures r.result.Ok? ==> PlainText(r.result.value) && input == r.result.value + CRLF + r.rest
    decreases |input|
  {
    var c := ReadAsciiChar(input);
    match c.result
    case Err(e) => Read(Err(e), c.rest)
    case Ok(b) =>
      if b == CR then
        var d := ReadAsciiChar(c.rest);
        match d.result
        case Err(e) => Read(Err(e), d.rest)
        case Ok(b2) => if b2 == LF then Read(Ok([]), d.rest) else Read(Err(InvalidData), d.rest)
      else if b == LF then Read(Err(InvalidInput), c.rest)
      else
        var r := ReadLine(c.rest);
        match r.result
        case Ok(s) => Read(Ok([b] + s), r.rest)
        case Err(e) => r
  }

  /** Completeness: a plain line followed by CR LF is read back whole. */
  lemma {:induction false} ReadLineRoundTrip(s: seq<byte>, rest: seq<byte>)
    requires PlainText(s)
    ensures ReadLine(s + CRLF + rest) == Read(Ok(s), rest)
    decreases |s|
  {
    var input := s + CRLF + rest;
    if s == [] {
      assert input == [CR, LF] + rest;
      assert input[1..][1..] == rest;
    } else {
      assert input[1..] == s[1..] + CRLF + rest;
      ReadLineRoundTrip(s[1..], rest);
      assert [s[0]] + s[1..] == s;
    }
  }

  /** The index of the first byte at which `read_line`'s loop stops: a CR,
      an LF, or a byte of 127 or more; the length when there is none. */
  function StopAt(input: seq<byte>): (i: nat)
    ensures i <= |input|
    ensures forall j | 0 <= j < i :: IsReadable(input[j]) && input[j] != CR && input[j] != LF
    ensures i < |input| ==> !IsReadable(input[i]) || input[i] == CR || input[i] == LF
  {
    if |input| == 0 || !IsReadable(input[0]) || input[0] == CR || input[0] == LF then 0
    else 1 + StopAt(input[1..])
  }

  /** Reference reading of `read_line`, case by case on the byte where its
      loop stops and the byte after it. */
  function ReadLineSpec(input: seq<byte>): Read<seq<byte>> {
    var i := StopAt(input);
    if i == |input| then Read(Err(UnexpectedEof), [])
    else if !IsReadable(input[i]) then Read(Err(InvalidData), input[i + 1..])
    else if input[i] == LF then Read(Err(InvalidInput), input[i + 1..])
    else if i + 1 == |input| then Read(Err(UnexpectedEof), [])
    else if !IsReadable(input[i + 1]) then Read(Err(InvalidData), input[i + 2..])
    else if input[i + 1] == LF then Read(Ok(input[..i]), input[i + 2..])
    else Read(Err(InvalidData), input[i + 2..])
  }

  /** Every outcome of `read_line`, failures included: LF before CR, a
      byte other than LF after CR, a non-ASCII byte, or the end of the
      stream. */
  lemma {:induction false} ReadLineMatchesSpec(input: seq<byte>)
    ensures ReadLine(input) == ReadLineSpec(input)
    decreases |input|
  {
    if |input| > 0 && IsReadable(input[0]) && input[0] != CR && input[0] != LF {
      ReadLineMatchesSpec(input[1..]);
      ReadLineSpecStep(input);
    }
  }

  /** The reference reading after a plain first byte: that of the rest,
      with the byte put in front of a line read. */
  lemma ReadLineSpecStep(input: seq<byte>)
    requires |input| > 0 && IsReadable(input[0]) && input[0] != CR && input[0] != LF
    ensures var r := ReadLineSpec(input[1..]);
            ReadLineSpec(input) == if r.result.Ok? then Read(Ok([input[0]] + r.result.value), r.rest) else r
  {
    var i := StopAt(input[1..]);
    assert StopAt(input) == i + 1;
    if i < |input[1..]| {
      assert input[1..][i + 1..] == input[i + 2..];
      if i + 1 < |input[1..]| {
        assert input[1..][i + 2..] == input[i + 3..];
      }
    }
    assert [input[0]] + input[1..][..i] == input[..i + 1];
  }

  /** `read_expect` as written: it first reads `|want|` bytes into a
      buffer it never looks at, and then compares the bytes after them. */
  function ReadExpect(input: seq<byte>, want: seq<byte>): (r: (bool, seq<byte>))
    ensures |r.1| <= |input|
    // a stream too short for the skipped block is a mismatch
    ensures |input| < |want| ==> r == (false, [])
    // otherwise only the bytes after the skipped block are compared
    ensures r.0 <==> |input| >= |want| && AllPass(input[|want|..], want)
    // `true` leaves the stream after the skipped block and the compared part
    ensures r.0 ==> r.1 == input[Min(2 * |want|, |input|)..]
    // `false` leaves the stream right after the first compared byte that
    // differs
    ensures |input| >= |want| && !r.0 ==>
              r.1 == input[|want| + FirstFail(input[|want|..], want) + 1..]
  {
    if |input| < |want| then (false, [])
    else if AllPass(input[|want|..], want) then
      ReadExpectTrue(input, want);
      CompareEach(input[|want|..], want)
    else
      ReadExpectFalse(input, want, FirstFail(input[|want|..], want));
      CompareEach(input[|want|..], want)
  }

  /** When every compared position passes, the stream resumes after the
      skipped block and the compared part. */
  lemma ReadExpectTrue(input: seq<byte>, want: seq<byte>)
    requires |input| >= |want| && AllPass(input[|want|..], want)
    ensures CompareEach(input[|want|..], want) == (true, input[Min(2 * |want|, |input|)..])
  {
    CompareEachIff(input[|want|..], want);
    assert input[|want|..][Min(|want|, |input| - |want|)..] == input[Min(2 * |want|, |input|)..];
  }

  /** A mismatch at compared position `j`, after `j` positions that
      pass, leaves the stream right after byte `|want| + j`. */
  lemma ReadExpectFalse(input: seq<byte>, want: seq<byte>, j: nat)
    requires |input| >= |want| && j < |want| && !Passes(input[|want|..], want, j)
    requires forall i | 0 <= i < j :: Passes(input[|want|..], want, i)
    ensures CompareEach(input[|want|..], want) == (false, input[|want| + j + 1..])
  {
    CompareEachFalse(input[|want|..], want, j);
    assert input[|want|..][j + 1..] == input[|want| + j + 1..];
  }

  /** The comparison loop of `read_expect`: a byte that cannot be read is
      passed over, the first byte read that differs ends it with `false`
      and leaves the stream right after that byte. */
  function CompareEach(input: seq<byte>, want: seq<byte>): (r: (bool, seq<byte>))
    ensures |r.1| <= |input|
    ensures !r.0 ==> FirstFail(input, want) < |want| && r.1 == input[FirstFail(input, want) + 1..]
    decreases |want|
  {
    if want == [] then (true, input)
    else
      var c := ReadAsciiChar(input);
      match c.result
      case Ok(b) =>
        if b != want[0] then (false, c.rest)
        else
          var r := CompareEach(c.rest, want[1..]);
          assert !r.0 ==> input[1..][FirstFail(input[1..], want[1..]) + 1..] == input[FirstFail(input, want) + 1..];
          r
      case Err(_) =>
        var r := CompareEach(c.rest, want[1..]);
        assert |input| > 0 && !r.0 ==>
                 input[1..][FirstFail(input[1..], want[1..]) + 1..] == input[FirstFail(input, want) + 1..];
        r
  }

  /** The first compared position that stops the comparison, or `|want|`
      when every position passes. */
  function FirstFail(input: seq<byte>, want: seq<byte>): (j: nat)
    ensures j <= |want|
    ensures forall i | 0 <= i < j :: Passes(input, want, i)
    ensures j < |want| ==> j < |input| && !Passes(input, want, j)
    decreases |want|
  {
    if want == [] || !Passes(input, want, 0) then 0
    else if input == [] then |want|
    else
      PassesShift(input, want);
      1 + FirstFail(input[1..], want[1..])
  }

  /** Position `i + 1` passes exactly when position `i` passes against
      the stream and text without their first byte. */
  lemma PassesShift(input: seq<byte>, want: seq<byte>)
    requires |input| > 0 && |want| > 0
    ensures forall i | 1 <= i < |want| :: Passes(input, want, i) == Passes(input[1..], want[1..], i - 1)
  {
  }

  /** Whatever the rest of the stream, the comparison stops at the first
      position that does not pass and leaves the bytes after it. */
  lemma CompareEachFalse(input: seq<byte>, want: seq<byte>, j: nat)
    requires j < |want| && !Passes(input, want, j)
    requires forall i | 0 <= i < j :: Passes(input, want, i)
    ensures CompareEach(input, want) == (false, input[j + 1..])
  {
    CompareEachIff(input, want);
    var k := FirstFail(input, want);
  }

  /** Byte `j` of the stream does not stop the comparison: it is past the
      end, non-ASCII, or the expected byte. */
  predicate Passes(input: seq<byte>, want: seq<byte>, j: nat)
    requires j < |want|
  {
    j >= |input| || !IsReadable(input[j]) || input[j] == want[j]
  }

  /** No compared position stops the comparison. */
  predicate AllPass(input: seq<byte>, want: seq<byte>) {
    forall j | 0 <= j < |want| :: Passes(input, want, j)
  }

  /** The comparison loop answers `true` exactly when every compared
      position passes, and then leaves the stream after the compared part. */
  lemma {:induction false} CompareEachIff(input: seq<byte>, want: seq<byte>)
    ensures CompareEach(input, want).0 <==> AllPass(input, want)
    ensures CompareEach(input, want).0 ==>
              CompareEach(input, want).1 == input[Min(|want|, |input|)..]
    decreases |want|
  {
    if want != [] {
      var c := ReadAsciiChar(input);
      CompareEachIff(c.rest, want[1..]);
      if |input| == 0 {
        assert AllPass(input, want) && AllPass(input, want[1..]);
      } else {
        AllPassStep(input, want);
        if CompareEach(input, want).0 {
          assert input[1..][Min(|want| - 1, |input| - 1)..] == input[Min(|want|, |input|)..];
        }
      }
    }
  }

  /** Every position passes exactly when the first does and every later
      one passes against the rest of the text. */
  lemma AllPassStep(input: seq<byte>, want: seq<byte>)
    requires |input| > 0 && |want| > 0
    ensures AllPass(input, want) <==> Passes(input, want, 0) && AllPass(input[1..], want[1..])
  {
    if Passes(input, want, 0) && AllPass(input[1..], want[1..]) {
      forall j | 0 <= j < |want| ensures Passes(input, want, j) {
        if j > 0 { assert Passes(input[1..], want[1..], j - 1); }
      }
    }
    if AllPass(input, want) {
      forall j | 0 <= j < |want[1..]| ensures Passes(input[1..], want[1..], j) {
        assert Passes(input, want, j + 1);
      }
    }
  }

  /** What `read_expect` really accepts: any block of the right length,
      then the expected text (where each non-ASCII byte counts as a match). */
  lemma ReadExpectSkipsBlock(skipped: seq<byte>, rest: seq<byte>, want: seq<byte>)
    requires |skipped| == |want|
    ensures ReadExpect(skipped + want + rest, want) == (true, rest)
  {
    var input := skipped + want + rest;
    assert input[|want|..] == want + rest;
    CompareEachIff(want + rest, want);
    assert (want + rest)[|want|..] == rest;
  }

  /** Once the skipped block has been read, the end of the stream passes
      every comparison: `read_expect` answers `true`. */
  lemma ReadExpectTrueAtEnd(skipped: seq<byte>, want: seq<byte>)
    requires |skipped| == |want|
    ensures ReadExpect(skipped, want) == (true, [])
  {
    assert skipped[|want|..] == [];
    CompareEachIff([], want);
  }

  /** `read_expect` as evidently intended: the block it reads is the one
      compared with `want`. */
  function ReadExpectFixed(input: seq<byte>, want: seq<byte>): (r: (bool, seq<byte>))
    ensures r.0 <==> |input| >= |want| && input[..|want|] == want
    ensures r.0 ==> input == want + r.1
    ensures |input| < |want| ==> r.1 == []
  {
    if |input| < |want| then (false, [])
    else (input[..|want|] == want, input[|want|..])
  }

  /** A call of `read_command`: it returns (an I/O error only when the
      first byte cannot be read), or it panics when the `read_line` of a
      payload fails and is unwrapped. */
  datatype Outcome = Returned(result: Result<Command, IoError>, rest: seq<byte>) | Panicked

  /** `read_command`, with the `read_expect` it uses as a parameter so
      that the as-written and the intended reader share the rest. */
  function ReadCommandWith(input: seq<byte>, expectFn: (seq<byte>, seq<byte>) -> (bool, seq<byte>)): (r: Outcome)
    ensures |input| == 0 ==> r == Returned(Err(UnexpectedEof), [])
    ensures |input| > 0 && !IsReadable(input[0]) ==> r == Returned(Err(InvalidData), input[1..])
    ensures |input| > 0 && Dispatch(input[0]) == Invalid ==>
              r == Returned(if IsReadable(input[0]) then Ok(Invalid) else Err(InvalidData), input[1..])
    ensures r.Returned? && r.result.Err? ==> |input| == 0 || !IsReadable(input[0])
    // a failed comparison is `Invalid`, and the stream resumes where the
    // comparison stopped
    ensures |input| > 0 && IsReadable(input[0]) && Dispatch(input[0]) != Invalid
            && !expectFn(input[1..], Expected(Dispatch(input[0]))).0 ==>
              r == Returned(Ok(Invalid), expectFn(input[1..], Expected(Dispatch(input[0]))).1)
    // the `unwrap` of the payload's `read_line` panics exactly when that
    // read fails after a successful comparison
    ensures r == Panicked <==>
              |input| > 0 && IsReadable(input[0]) && Dispatch(input[0]) != Invalid
              && HasPayload(Dispatch(input[0]))
              && (var e := expectFn(input[1..], Expected(Dispatch(input[0])));
                  e.0 && ReadLine(e.1).result.Err?)
    // a command is returned only after a successful comparison, and its
    // payload is what the following `read_line` delivered
    ensures r.Returned? && r.result.Ok? && r.result.value != Invalid ==>
              |input| > 0 && IsReadable(input[0]) && input[0] == Initial(r.result.value)
              && (var e := expectFn(input[1..], Expected(r.result.value));
                  && e.0
                  && (HasPayload(r.result.value) ==> ReadLine(e.1) == Read(Ok(Payload(r.result.value)), r.rest))
                  && (!HasPayload(r.result.value) ==> r.rest == e.1))
  {
    var c := ReadAsciiChar(input);
    match c.result
    case Err(e) => Returned(Err(e), c.rest)
    case Ok(b) =>
      var shape := Dispatch(b);
      if shape == Invalid then Returned(Ok(Invalid), c.rest)
      else
        var (ok, rest) := expectFn(c.rest, Expected(shape));
        if !ok then Returned(Ok(Invalid), rest)
        else if !HasPayload(shape) then Returned(Ok(shape), rest)
        else
          var line := ReadLine(rest);
          match line.result
          case Ok(s) => Returned(Ok(WithPayload(shape, s)), line.rest)
          case Err(_) => Panicked
  }

  /** `read_command` as written: a command comes back only from a stream
      long enough to hold the initial and the skipped block. */
  function ReadCommand(input: seq<byte>): (r: Outcome)
    ensures r.Returned? && r.result.Ok? && r.result.value != Invalid ==>
              |input| >= 1 + |Expected(r.result.value)| && input[0] == Initial(r.result.value)
  {
    ReadCommandWith(input, ReadExpect)
  }

  /** `read_command` with the intended `read_expect`: a command comes back
      only from a stream that starts with its initial and fixed text. */
  function ReadCommandFixed(input: seq<byte>): (r: Outcome)
    ensures r.Returned? && r.result.Ok? && r.result.value != Invalid ==>
              |input| > |Expected(r.result.value)|
              && input[..1 + |Expected(r.result.value)|] == [Initial(r.result.value)] + Expected(r.result.value)
  {
    ReadCommandWith(input, ReadExpectFixed)
  }

  /** Payloads the readers can return: plain text for the four commands
      that carry one. */
  predicate PayloadOk(c: Command) {
    c != Invalid && (HasPayload(c) ==> PlainText(Payload(c)))
  }

  lemma DispatchOf(c: Command)
    requires c != Invalid
    ensures Dispatch(Initial(c)) != Invalid
    ensures HasPayload(Dispatch(Initial(c))) == HasPayload(c)
    ensures Expected(Dispatch(Initial(c))) == Expected(c)
    ensures HasPayload(c) ==> WithPayload(Dispatch(Initial(c)), Payload(c)) == c
    ensures !HasPayload(c) ==> Dispatch(Initial(c)) == c
  {
  }

  /** Round trip for the intended reader: every command a client can send
      is read back as itself, and the stream resumes right after it. */
  lemma ReadCommandFixedRoundTrip(c: Command, rest: seq<byte>)
    requires PayloadOk(c)
    ensures ReadCommandFixed(WireForm(c) + rest) == Returned(Ok(c), rest)
  {
    var input := WireForm(c) + rest;
    var tail := if HasPayload(c) then Payload(c) + CRLF + rest else rest;
    assert input == [Initial(c)] + (Expected(c) + tail);
    assert input[1..] == Expected(c) + tail;
    assert (Expected(c) + tail)[..|Expected(c)|] == Expected(c);
    assert (Expected(c) + tail)[|Expected(c)|..] == tail;
    if HasPayload(c) {
      ReadLineRoundTrip(Payload(c), rest);
    }
    ReadCommandAfterCompare(input, ReadExpectFixed, c, tail, rest);
  }

  /** Either reader returns `c` once the initial selects it, the comparison
      succeeds, and for a command with a payload the next line is that
      payload. */
  lemma ReadCommandAfterCompare(input: seq<byte>, expectFn: (seq<byte>, seq<byte>) -> (bool, seq<byte>),
                                c: Command, tail: seq<byte>, rest: seq<byte>)
    requires c != Invalid && |input| > 0 && input[0] == Initial(c)
    requires expectFn(input[1..], Expected(c)) == (true, tail)
    requires HasPayload(c) ==> ReadLine(tail) == Read(Ok(Payload(c)), rest)
    requires !HasPayload(c) ==> tail == rest
    ensures ReadCommandWith(input, expectFn) == Returned(Ok(c), rest)
  {
    DispatchOf(c);
  }

  /** What the reader as written accepts instead: after the initial, any
      block as long as the fixed text, then the fixed text, then the line. */
  lemma ReadCommandAsWrittenAccepts(c: Command, skipped: seq<byte>, rest: seq<byte>)
    requires PayloadOk(c) && |skipped| == |Expected(c)|
    ensures ReadCommand([Initial(c)] + skipped + Expected(c)
                        + (if HasPayload(c) then Payload(c) + CRLF else []) + rest)
            == Returned(Ok(c), rest)
  {
    var tail := if HasPayload(c) then Payload(c) + CRLF + rest else rest;
    var input := [Initial(c)] + skipped + Expected(c) + (if HasPayload(c) then Payload(c) + CRLF else []) + rest;
    assert input[1..] == skipped + Expected(c) + tail;
    ReadExpectSkipsBlock(skipped, tail, Expected(c));
    if HasPayload(c) {
      ReadLineRoundTrip(Payload(c), rest);
    }
    ReadCommandAfterCompare(input, ReadExpect, c, tail, rest);
  }

  /** Soundness of the intended reader: a command read back came off the
      stream as its wire form, and its payload is plain text. */
  lemma ReadCommandFixedSound(input: seq<byte>, c: Command, rest: seq<byte>)
    requires ReadCommandFixed(input) == Returned(Ok(c), rest) && c != Invalid
    ensures PayloadOk(c) && input == WireForm(c) + rest
  {
    var tail := ReadCommandCompared(input, ReadExpectFixed, c, rest);
    assert input == [Initial(c)] + input[1..];
    WireFormThen(c, tail, rest);
  }

  /** The initial and fixed text, then the payload line (if any) and the
      rest, are the wire form followed by the rest. */
  lemma WireFormThen(c: Command, tail: seq<byte>, rest: seq<byte>)
    requires c != Invalid
    requires HasPayload(c) ==> tail == Payload(c) + CRLF + rest
    requires !HasPayload(c) ==> tail == rest
    ensures [Initial(c)] + Expected(c) + tail == WireForm(c) + rest
  {
    if HasPayload(c) {
      AppendAssoc([Initial(c)] + Expected(c), Payload(c) + CRLF, rest);
    }
  }

  /** Soundness of the reader as written, the converse of
      `ReadCommandAsWrittenAccepts`: after the initial come a block of the
      fixed text's length that is never looked at, then bytes that each
      pass the comparison (the expected byte, a non-ASCII byte, or the end
      of the stream), then for a command with a payload the plain payload
      and CR LF. */
  lemma ReadCommandAsWrittenSound(input: seq<byte>, c: Command, rest: seq<byte>)
    requires ReadCommand(input) == Returned(Ok(c), rest) && c != Invalid
    ensures input[0] == Initial(c) && |input| >= 1 + |Expected(c)|
    ensures AllPass(input[1 + |Expected(c)|..], Expected(c))
    ensures HasPayload(c) ==>
              |input| >= 1 + 2 * |Expected(c)| && PlainText(Payload(c))
              && input[1 + 2 * |Expected(c)|..] == Payload(c) + CRLF + rest
    ensures !HasPayload(c) ==> rest == input[Min(1 + 2 * |Expected(c)|, |input|)..]
  {
    var tail := ReadCommandCompared(input, ReadExpect, c, rest);
    var n := |Expected(c)|;
    assert input[1..][n..] == input[1 + n..];
    assert input[1..][Min(2 * n, |input| - 1)..] == input[Min(1 + 2 * n, |input|)..];
  }

  /** The converse of `ReadCommandAfterCompare`: a command returned by
      either reader was selected by the initial, passed the comparison,
      and for one with a payload came with the next line. */
  lemma ReadCommandCompared(input: seq<byte>, expectFn: (seq<byte>, seq<byte>) -> (bool, seq<byte>),
                            c: Command, rest: seq<byte>) returns (tail: seq<byte>)
    requires ReadCommandWith(input, expectFn) == Returned(Ok(c), rest) && c != Invalid
    ensures |input| > 0 && input[0] == Initial(c)
    ensures expectFn(input[1..], Expected(c)) == (true, tail)
    ensures HasPayload(c) ==> ReadLine(tail) == Read(Ok(Payload(c)), rest)
    ensures !HasPayload(c) ==> tail == rest
  {
    tail := expectFn(input[1..], Expected(c)).1;
  }

  /** `HELO a` CR LF, a well-formed greeting, is read as `Invalid` by the
      reader as written: `a` CR LF and the end of the stream are compared
      with `ELO `, and `a` differs from `E`. The intended reader returns
      `Helo("a")`. */
  lemma WellFormedHeloRejected()
    ensures ReadCommand(WireForm(Helo([0x61]))) == Returned(Ok(Invalid), [CR, LF])
    ensures ReadCommandFixed(WireForm(Helo([0x61]))) == Returned(Ok(Helo([0x61])), [])
  {
    var input := WireForm(Helo([0x61]));
    assert input == [0x48, 0x45, 0x4C, 0x4F, 0x20, 0x61, CR, LF];
    assert input[1..][4..] == [0x61, CR, LF];
    ReadCommandFixedRoundTrip(Helo([0x61]), []);
    assert WireForm(Helo([0x61])) + [] == input;
  }

  /** `DATA` CR LF at the very end of the stream is accepted, but only
      because the comparison reads nothing and passes over every failed
      read. */
  lemma DataAtEndAccepted()
    ensures ReadCommand(WireForm(Data)) == Returned(Ok(Data), [])
  {
    var input := WireForm(Data);
    assert input[1..] == Expected(Data);
    ReadExpectTrueAtEnd(Expected(Data), Expected(Data));
  }
}
