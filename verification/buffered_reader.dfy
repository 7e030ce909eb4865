/** The readers of `smtp.rs`, the earlier server built on a buffered
    stream. They do not return errors: on a bad byte, the end of the
    stream or a malformed line they end the connection's task (`fail!`
    and failed `assert!`s), which the model writes `Failed`. */
module BufferedReader {
  import opened Bytes
  import opened Wire

  /** A reader either goes on with a value and the unread bytes, or the
      task has failed. */
  datatype Task<+T> = Live(value: T, rest: seq<byte>) | Failed

  /** `read_ascii`: one byte below 127, or failure (also at the end of the
      stream). */
  function ReadAscii(input: seq<byte>): (r: Task<byte>)
    ensures r.Live? <==> |input| > 0 && IsReadable(input[0])
    ensures r.Live? ==> r.value == input[0] && r.rest == input[1..]
  {
    if |input| > 0 && input[0] < DEL then Live(input[0], input[1..]) else Failed
  }

  /** The buffered stream's `read_line`: the bytes through the first LF,
      or everything left when no LF follows; at the end of the stream
      there is no line. */
  function TakeLine(input: seq<byte>): (r: Task<seq<byte>>)
    ensures r.Failed? <==> |input| == 0
    ensures r.Live? ==> r.value + r.rest == input && |r.value| > 0
    ensures r.Live? ==> forall i | 0 <= i < |r.value| - 1 :: r.value[i] != LF
    ensures r.Live? ==> r.value[|r.value| - 1] == LF || r.rest == []
    decreases |input|
  {
    if |input| == 0 then Failed
    else if input[0] == LF then Live([LF], input[1..])
    else
      var t := TakeLine(input[1..]);
      if t.Failed? then Live([input[0]], [])
      else Live([input[0]] + t.value, t.rest)
  }

  /** `read_line`: a line taken off the stream, which must end in CR LF,
      without those two bytes. A line cut off by the end of the stream, or
      ended by a bare LF, fails. */
  function ReadLine(input: seq<byte>): (r: Task<seq<byte>>)
    ensures r.Live? ==> input == r.value + CRLF + r.rest && LF !in r.value
  {
    var t := TakeLine(input);
    if t.Failed? then Failed
    else
      var line := t.value;
      if line[|line| - 1] != LF then Failed
      else if |line| < 2 || line[|line| - 2] != CR then Failed
      else
        assert line == line[..|line| - 2] + CRLF;
        Live(line[..|line| - 2], t.rest)
  }

  /** `read_line` fails exactly when the stream holds no LF, or its first
      LF does not follow a CR. */
  lemma ReadLineFails(input: seq<byte>)
    ensures ReadLine(input).Failed? <==>
              LF !in input
              || (var i := FirstLf(input); i == 0 || input[i - 1] != CR)
  {
    if LF in input {
      ReadLineThroughLf(input);
    } else if |input| > 0 {
      NoLfTakesAll(input);
      assert input[|input| - 1] != LF;
    }
  }

  /** On a stream holding an LF, `read_line` fails exactly when that first
      LF does not follow a CR. */
  lemma ReadLineThroughLf(input: seq<byte>)
    requires LF in input
    ensures ReadLine(input).Failed? <==> (var i := FirstLf(input); i == 0 || input[i - 1] != CR)
  {
    FirstLfOfTake(input);
    var i := FirstLf(input);
    var line := input[..i + 1];
    assert TakeLine(input) == Live(line, input[i + 1..]);
    assert |line| == i + 1 && line[i] == LF;
    assert i > 0 ==> line[i - 1] == input[i - 1];
  }

  /** The index of the first LF in a stream that holds one. */
  function FirstLf(input: seq<byte>): (i: nat)
    requires LF in input
    ensures i < |input| && input[i] == LF
    ensures forall j | 0 <= j < i :: input[j] != LF
  {
    if input[0] == LF then 0
    else
      assert LF in input[1..] by {
        var k :| 0 <= k < |input| && input[k] == LF;
        assert input[1..][k - 1] == LF;
      }
      1 + FirstLf(input[1..])
  }

  /** Removing a first byte that is not LF keeps LF in the stream or out
      of it. */
  lemma LfInTail(input: seq<byte>)
    requires |input| > 0 && input[0] != LF
    ensures LF in input <==> LF in input[1..]
  {
    if LF in input {
      var k :| 0 <= k < |input| && input[k] == LF;
      assert input[1..][k - 1] == LF;
    }
    if LF in input[1..] {
      var k :| 0 <= k < |input[1..]| && input[1..][k] == LF;
      assert input[k + 1] == LF;
    }
  }

  /** The line taken is the prefix through the first LF. */
  lemma {:induction false} FirstLfOfTake(input: seq<byte>)
    requires LF in input
    ensures TakeLine(input) == Live(input[..FirstLf(input) + 1], input[FirstLf(input) + 1..])
    decreases |input|
  {
    if input[0] != LF {
      LfInTail(input);
      FirstLfOfTake(input[1..]);
      var i := FirstLf(input[1..]);
      assert FirstLf(input) == i + 1;
      assert TakeLine(input) == Live([input[0]] + input[1..][..i + 1], input[1..][i + 1..]);
      assert [input[0]] + input[1..][..i + 1] == input[..i + 2];
      assert input[1..][i + 1..] == input[i + 2..];
    }
  }

  /** Without an LF the line taken is the whole stream. */
  lemma {:induction false} NoLfTakesAll(input: seq<byte>)
    requires LF !in input && |input| > 0
    ensures TakeLine(input) == Live(input, [])
    decreases |input|
  {
    LfInTail(input);
    if |input| > 1 {
      NoLfTakesAll(input[1..]);
      assert [input[0]] + input[1..] == input;
    } else {
      assert input == [input[0]];
    }
  }

  /** Round trip: a line without LF, then CR LF, is read back whole. */
  lemma ReadLineRoundTrip(s: seq<byte>, rest: seq<byte>)
    requires LF !in s
    ensures ReadLine(s + CRLF + rest) == Live(s, rest)
  {
    var input := s + CRLF + rest;
    assert input[|s| + 1] == LF;
    assert forall j | 0 <= j < |s| :: input[j] == s[j];
    assert FirstLf(input) == |s| + 1;
    FirstLfOfTake(input);
    assert input[..|s| + 2] == s + CRLF;
    assert input[|s| + 2..] == rest;
  }

  /** `read_expect`: each expected byte in turn must be read, and equal. */
  function ReadExpect(input: seq<byte>, want: seq<byte>): (r: Task<bool>)
    // `true` consumes exactly the text, which the stream started with
    ensures r.Live? && r.value ==> input == want + r.rest
    // `false` means the stream did not start with the text
    ensures r.Live? && !r.value ==> !(|input| >= |want| && input[..|want|] == want)
    decreases |want|
  {
    if want == [] then Live(true, input)
    else
      var c := ReadAscii(input);
      if c.Failed? then Failed
      else if c.value != want[0] then Live(false, c.rest)
      else
        assert |input| >= |want| && input[..|want|] == want ==> c.rest[..|want| - 1] == want[1..];
        ReadExpect(c.rest, want[1..])
  }

  /** The length of the common prefix of the stream and `want`. */
  function Agree(input: seq<byte>, want: seq<byte>): (n: nat)
    ensures n <= |input| && n <= |want|
    ensures forall j | 0 <= j < n :: input[j] == want[j]
    ensures n < |input| && n < |want| ==> input[n] != want[n]
  {
    if |input| == 0 || |want| == 0 || input[0] != want[0] then 0
    else 1 + Agree(input[1..], want[1..])
  }

  /** `read_expect` against the first point where stream and text part:
      `true` when the whole text is there, `false` after reading the first
      differing byte when it is ASCII, and failure when the stream ends
      first or that byte is not ASCII. Requires ASCII text, as every text
      the reader passes is. */
  lemma {:induction false} ReadExpectIff(input: seq<byte>, want: seq<byte>)
    requires forall j | 0 <= j < |want| :: IsReadable(want[j])
    ensures var n := Agree(input, want);
            ReadExpect(input, want) ==
              if n == |want| then Live(true, input[n..])
              else if n < |input| && IsReadable(input[n]) then Live(false, input[n + 1..])
              else Failed
    decreases |want|
  {
    if |want| > 0 && |input| > 0 && input[0] == want[0] {
      ReadExpectIff(input[1..], want[1..]);
      var n := Agree(input[1..], want[1..]);
      assert input[1..][n..] == input[n + 1..];
      if n < |input[1..]| {
        assert input[1..][n + 1..] == input[n + 2..];
      }
    }
  }

  /** `read_expect` on the text itself followed by anything. */
  lemma ReadExpectPrefix(want: seq<byte>, rest: seq<byte>)
    requires forall j | 0 <= j < |want| :: IsReadable(want[j])
    ensures ReadExpect(want + rest, want) == Live(true, rest)
  {
    ReadExpectIff(want + rest, want);
    AgreePrefix(want, rest);
    assert (want + rest)[|want|..] == rest;
  }

  lemma {:induction false} AgreePrefix(want: seq<byte>, rest: seq<byte>)
    ensures Agree(want + rest, want) == |want|
    decreases |want|
  {
    if |want| > 0 {
      assert (want + rest)[1..] == want[1..] + rest;
      AgreePrefix(want[1..], rest);
    }
  }

  /** `read_command`, failures included. */
  function ReadCommand(input: seq<byte>): (r: Task<Command>)
    ensures r.Live? && r.value != Invalid ==> |input| > 0 && Dispatch(input[0]) != Invalid
    ensures r.Live? && r.value != Invalid ==>
              ReadExpect(input[1..], Expected(Dispatch(input[0]))).Live?
              && ReadExpect(input[1..], Expected(Dispatch(input[0]))).value
    ensures |input| > 0 && IsReadable(input[0]) && Dispatch(input[0]) == Invalid ==>
              r == Live(Invalid, input[1..])
    ensures |input| == 0 || !IsReadable(input[0]) ==> r == Failed
    // after a known initial, an ASCII byte that differs from the fixed text
    // makes the command Invalid; the unread bytes follow that byte
    ensures |input| > 0 && IsReadable(input[0]) && Dispatch(input[0]) != Invalid ==>
              var e := ReadExpect(input[1..], Expected(Dispatch(input[0])));
              e.Live? && !e.value ==> r == Live(Invalid, e.rest)
    // the task fails on the first byte, inside the fixed text, or on the
    // payload line, and nowhere else
    ensures r == Failed <==>
              |input| == 0 || !IsReadable(input[0])
              || (Dispatch(input[0]) != Invalid
                  && var e := ReadExpect(input[1..], Expected(Dispatch(input[0])));
                     e.Failed? || (e.value && HasPayload(Dispatch(input[0])) && ReadLine(e.rest).Failed?))
  {
    var c := ReadAscii(input);
    if c.Failed? then Failed
    else
      var shape := Dispatch(c.value);
      if shape == Invalid then Live(Invalid, c.rest)
      else
        var e := ReadExpect(c.rest, Expected(shape));
        if e.Failed? then Failed
        else if !e.value then Live(Invalid, e.rest)
        else if !HasPayload(shape) then Live(shape, e.rest)
        else
          var line := ReadLine(e.rest);
          if line.Failed? then Failed
          else Live(WithPayload(shape, line.value), line.rest)
  }

  /** Round trip: every command whose payload holds no LF is read back as
      itself, and the stream resumes right after it. */
  lemma ReadCommandRoundTrip(c: Command, rest: seq<byte>)
    requires c != Invalid && (HasPayload(c) ==> LF !in Payload(c))
    ensures ReadCommand(WireForm(c) + rest) == Live(c, rest)
  {
    DispatchInitial(c);
    var shape := Dispatch(Initial(c));
    var input := WireForm(c) + rest;
    var tail := if HasPayload(c) then Payload(c) + CRLF + rest else rest;
    assert input == [Initial(c)] + (Expected(c) + tail);
    assert input[1..] == Expected(c) + tail;
    ReadExpectPrefix(Expected(c), tail);
    ReadCommandAfterExpect(input, shape, tail);
    if HasPayload(c) {
      ReadLineRoundTrip(Payload(c), rest);
      assert WithPayload(shape, Payload(c)) == c;
    }
  }

  /** `read_command` once the fixed text has been read: the bare command,
      or the payload line read next. */
  lemma ReadCommandAfterExpect(input: seq<byte>, shape: Command, tail: seq<byte>)
    requires |input| > 0 && IsReadable(input[0]) && shape == Dispatch(input[0]) && shape != Invalid
    requires ReadExpect(input[1..], Expected(shape)) == Live(true, tail)
    ensures !HasPayload(shape) ==> ReadCommand(input) == Live(shape, tail)
    ensures HasPayload(shape) ==>
              ReadCommand(input) ==
                (var line := ReadLine(tail);
                 if line.Failed? then Failed else Live(WithPayload(shape, line.value), line.rest))
  {
  }

  /** The fixed text a command's reading consumed. */
  lemma ReadCommandExpect(input: seq<byte>) returns (shape: Command, tail: seq<byte>)
    requires ReadCommand(input).Live? && ReadCommand(input).value != Invalid
    ensures shape == Dispatch(input[0]) && shape != Invalid
    ensures input == [Initial(shape)] + Expected(shape) + tail
    ensures ReadExpect(input[1..], Expected(shape)) == Live(true, tail)
  {
    shape := Dispatch(input[0]);
    tail := ReadExpect(input[1..], Expected(shape)).rest;
    assert input == [input[0]] + input[1..];
  }

  /** Soundness: a command read back came off the stream as its initial,
      its fixed text and, when it carries one, the payload and CR LF. */
  lemma ReadCommandSound(input: seq<byte>, c: Command, rest: seq<byte>)
    requires ReadCommand(input) == Live(c, rest) && c != Invalid
    ensures input == WireForm(c) + rest
  {
    var shape, tail := ReadCommandExpect(input);
    if HasPayload(shape) {
      var p := ReadLine(tail).value;
      assert tail == p + CRLF + rest;
      assert c == WithPayload(shape, p);
      assert Initial(c) == Initial(shape) && Expected(c) == Expected(shape);
      AppendAssoc([Initial(shape)] + Expected(shape), p + CRLF, rest);
    } else {
      assert c == shape;
    }
  }

  /** A known initial followed by a wrong byte of the fixed text:
      `DATX` CR LF is Invalid, and the stream resumes after the `X`. */
  lemma MisspelledDataInvalid()
    ensures ReadCommand([0x44, 0x41, 0x54, 0x58, CR, LF]) == Live(Invalid, [CR, LF])
  {
    var input: seq<byte> := [0x44, 0x41, 0x54, 0x58, CR, LF];
    ReadExpectIff(input[1..], Expected(Data));
    assert Agree(input[1..], Expected(Data)) == 2;
  }

  /** The case-sensitive dispatch: `helo` is not `HELO`. */
  lemma LowerCaseInvalid()
    ensures ReadCommand([0x68, 0x65, 0x6C, 0x6F, 0x20, 0x61, CR, LF]) == Live(Invalid, [0x65, 0x6C, 0x6F, 0x20, 0x61, CR, LF])
  {
  }
}
