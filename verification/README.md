# rust-smtp command layer, in Dafny

This project models the command-reading core of rust-smtp, a small SMTP
server. It covers five source files from three generations of the code:

- `src/lib.rs`: ASCII case folding (`ascii_upcase`,
  `ascii_upcase_compare`) and the 4-byte line classifier `parse_line`.
- `src/parser.rs`: the `SliceScanner` cursor over a byte slice and the
  `parse_command` built on it.
- `parser.rs`: the earlier `parse_command`, which cuts the line at fixed
  offsets.
- `src/bin/smtp.rs`: the stream readers of the server binary
  (`read_ascii_char`, `read_line`, `read_expect`, `read_command`).
- `smtp.rs`: the stream readers of the earliest server, built on a
  buffered stream (`read_ascii`, `read_line`, `read_expect`,
  `read_command`).

Bytes are a `byte` newtype over 0..255. A stream is the sequence of bytes
still to come, and every reader returns its result together with the bytes
it left unread. Where the source panics (out-of-range slices, `unwrap` on a
failed read, `fail!`, a failed `assert!`), the model returns an explicit
outcome: `Panicked` or `Failed`.

Modules:

| module | models |
|---|---|
| `Bytes` | byte type, line-ending constants, `Result` |
| `Ascii` | `ascii_upcase`, `ascii_upcase_compare`, and the `ascii_eq_ignore_case` of both parsers |
| `LineClassifier` | `SmtpCommand` and `parse_line` of `src/lib.rs` |
| `SliceScanner` | `SliceScanner` of `src/parser.rs` |
| `ParseTypes` | `SmtpCommand` and `ParseError`, which both parsers share |
| `ScannerParser` | `parse_command` of `src/parser.rs` |
| `OffsetParser` | `parse_command` of `parser.rs`, plus a corrected version |
| `Wire` | the `Command` enum and dispatch table that both readers share, and the bytes a client sends |
| `IoReader` | readers of `src/bin/smtp.rs`, plus a corrected `read_expect` |
| `BufferedReader` | readers of `smtp.rs` |

## Model

| member | source | states |
|---|---|---|
| Ascii.Upcase | src/lib.rs:2-8 | the result is never a lower-case letter; a lower-case letter becomes the capital 0x20 below it; every other byte is unchanged |
| Ascii.UpcaseIdempotent | src/lib.rs:2-8 | folding a folded byte changes nothing |
| Ascii.UpcaseEqualIff | src/lib.rs:2-8 | two bytes fold alike iff they are equal or are the two cases of one letter |
| Ascii.AllFoldEqual | src/lib.rs:18 | the short-circuit `all` over the zipped strings is true iff every position folds alike |
| Ascii.UpcaseCompare | src/lib.rs:16-19 | strings of different lengths never match; otherwise they match iff every position folds alike |
| Ascii.UpcaseCompareEquivalence | src/lib.rs:16-19 | the comparison is reflexive, symmetric and transitive |
| Ascii.UpcaseCompareKeyword | src/lib.rs:16-19 | against an all-capitals keyword, a string matches iff each byte is the keyword's byte or its lower-case letter |
| Ascii.UpcaseCompareIsFoldedEquality | src/parser.rs:19-26 | case-insensitive equality holds iff the two upper-cased strings are equal, and unequal lengths are false |
| Ascii.UpcaseAll | src/lib.rs:2-8 | folding a string keeps its length and folds each byte |
| LineClassifier.Keyword | src/lib.rs:43-55 | each command's keyword has 4 bytes and no lower-case letter |
| LineClassifier.KeywordsDistinct | src/lib.rs:43-55 | no 4-byte token matches two different keywords, so the order of the tests does not matter |
| LineClassifier.Classify | src/lib.rs:43-60 | a token classified as a command matches that command's keyword |
| LineClassifier.ClassifyUnknown | src/lib.rs:43-60 | a token is Unknown iff it matches none of the five keywords |
| LineClassifier.ParseLine | src/lib.rs:39-65 | a line shorter than 4 bytes is Unknown; any other result's keyword matches the first 4 bytes |
| LineClassifier.ParseLineIgnoresTail | src/lib.rs:40-41 | only the first 4 bytes decide the class |
| LineClassifier.ParseLineKeywordIff | src/lib.rs:39-65 | a line is classified as command k iff its first 4 bytes match k's keyword in any letter case |
| LineClassifier.ParseLineExamples | src/lib.rs:67-72 | `ehlo …`, `helo …` and `DATA` CR LF are Ehlo, Helo and Data |
| Ascii.UpcaseCompareExamples | src/lib.rs:21-27 | `ehlo` and `EHLO` match `EHLO`; `bHLO` and `EHLO ` do not |
| SliceScanner.SplitAt | src/parser.rs:87-90 | the front has `pos` items and front plus back is the data |
| SliceScanner.Len | src/parser.rs:38 | the length is zero iff no item is left |
| SliceScanner.IsEmpty | src/parser.rs:39 | true iff no item is left |
| SliceScanner.PopBack | src/parser.rs:43-49 | it removes min(n, len) items from the back; the rest plus the removed items is the data |
| SliceScanner.PopFront | src/parser.rs:52-59 | it removes min(n, len) items from the front; the removed items plus the rest is the data |
| SliceScanner.RefFront | src/parser.rs:62-68 | it returns what `pop_front` would remove, i.e. the first min(n, len) items |
| SliceScanner.CountWhile | src/parser.rs:70-80 | the count is at most len; the first `count` items satisfy the condition; the item at `count`, if any, does not |
| SliceScanner.PopWhile | src/parser.rs:82-85 | it removes the longest prefix satisfying the condition; prefix plus rest is the data |
| SliceScanner.PopFrontConcat | src/parser.rs:52-59 | popping `|p|` items off `p + q` returns `p` and leaves `q` |
| SliceScanner.PopBackConcat | src/parser.rs:43-49 | popping `|q|` items off the back of `p + q` returns `q` and leaves `p` |
| SliceScanner.PopWhileUnique | src/parser.rs:82-85 | on `p + q`, with all of `p` satisfying the condition and `q` starting with a byte that does not, it pops exactly `p` |
| SliceScanner.CountWhileUnique | src/parser.rs:70-80 | the count on such a `p + q` is `|p|` |
| ParseTypes.Stripped | parser.rs:38 | the line minus its terminator, followed by CR LF, is the line |
| ScannerParser.ParseCommand | src/parser.rs:94-100 | the result is InvalidLineEnding iff the last two bytes are not CR LF; Rcpt is never produced |
| ScannerParser.SplitToken | src/parser.rs:102-144 | on a CR LF line, the token (up to 4 bytes) selects the MAIL branch, the DATA branch or UnknownCommand |
| ScannerParser.ParseCommandBody | src/parser.rs:94-144 | on the bytes before CR LF, the token (up to 4 bytes) selects the MAIL branch on the rest, the DATA branch or UnknownCommand |
| ScannerParser.ParseCommandUnknown | src/parser.rs:142-144 | UnknownCommand iff the line ends in CR LF and its token is shorter than 4 bytes or matches neither MAIL nor DATA |
| ScannerParser.ParseCommandData | src/parser.rs:134-141 | Ok(Data) iff the line is a DATA token plus CR LF; InvalidData iff the DATA token is followed by more bytes |
| ScannerParser.DataToken | src/parser.rs:134-141 | after a DATA token, the line is Data when only CR LF follows and InvalidData otherwise |
| ScannerParser.ParseCommandMissingSp | src/parser.rs:104-106 | Missing SP iff a MAIL token is followed directly by CR LF or by a byte other than a space |
| ScannerParser.ParseMailArgs | src/parser.rs:103-133 | the MAIL branch yields only Mail or a syntax error other than Invalid DATA, and reports Missing SP iff the arguments do not start with a space |
| ScannerParser.ParseAddress | src/parser.rs:109-128 | the address step yields only Mail or a syntax error other than Missing SP and Invalid DATA |
| ScannerParser.MailBranch | src/parser.rs:102-103 | on a CR LF line with a MAIL token, the result is the MAIL branch run on the bytes in between |
| ScannerParser.MailAccepted | src/parser.rs:97-103 | a line accepted as MAIL ends in CR LF after a 4-byte MAIL token, and its MAIL branch accepted the bytes in between |
| ScannerParser.ParseAddressForm | src/parser.rs:110-125 | an address in brackets without `>`, or a bare address without a space that does not start with `<`, is returned as is |
| ScannerParser.ParseAddressSound | src/parser.rs:110-125 | an accepted address is the whole remaining view: the address in brackets if the view starts with `<`, bare otherwise |
| ScannerParser.ParseMailArgsForm | src/parser.rs:104-108 | after one or more spaces and `FROM:` in any case, the result is that of the address step on the rest |
| ScannerParser.ParseMailArgsSound | src/parser.rs:104-125 | accepted MAIL arguments are k >= 1 spaces, a `FROM:` keyword and the address form, and nothing else |
| ScannerParser.SpacesRun | src/parser.rs:104 | a run of spaces is `Spaces` of its length |
| ScannerParser.ParseMailLine | src/parser.rs:103-125 | every well-formed MAIL FROM line parses to its address (completeness) |
| ScannerParser.ParsedMailHasShape | src/parser.rs:103-125 | a line parses to Mail(addr) only if it is the wire form of addr built from acceptable parts (soundness) |
| ScannerParser.ParseMissingGt | src/parser.rs:110-115 | a `<` with no `>` after it is reported as Missing > |
| ScannerParser.ParseAddressMissingGtIff | src/parser.rs:110-115 | the address step reports Missing > iff the view starts with `<` and no `>` follows it |
| ScannerParser.BracketMissingGt | src/parser.rs:110-115 | after a leading `<`, Missing > is reported iff no byte left is `>` |
| ScannerParser.NoClosingGt | src/parser.rs:112-113 | the scan up to `>` is followed by something other than `>` iff the bytes hold no `>` |
| ScannerParser.UnclosedAddress | src/parser.rs:110-115 | a view reported as Missing > is `<` followed by bytes none of which is `>` |
| ScannerParser.ParseMailArgsSplit | src/parser.rs:104-109 | MAIL arguments that are accepted or Missing > are k >= 1 spaces, a `FROM:` keyword and the view the address step saw |
| ScannerParser.MissingGtBranch | src/parser.rs:97-103 | a line reported as Missing > ends in CR LF after a MAIL token, and the MAIL branch made the report |
| ScannerParser.MissingGtHasShape | src/parser.rs:102-115 | a line reported as Missing > is a MAIL token, k >= 1 spaces, `FROM:`, then `<` and bytes without `>`, and CR LF (the converse of ParseMissingGt) |
| ScannerParser.ParseMailArgsNotFrom | src/parser.rs:108-132 | after one or more spaces, five bytes (or fewer, at the end) that are not `FROM:` in any case give Invalid MAIL command |
| ScannerParser.ParseCommandNotFrom | src/parser.rs:102-132 | a MAIL line whose keyword after the spaces is not `FROM:` gives Invalid MAIL command |
| ScannerParser.ParseAddressTrailing | src/parser.rs:109-128 | any bytes after a closing `>`, or bytes starting with a space after a bare address, give Invalid MAIL command |
| ScannerParser.ParseCommandTrailing | src/parser.rs:102-128 | a well-formed MAIL FROM line with extra bytes after the address gives Invalid MAIL command |
| ScannerParser.BadEnding | src/parser.rs:97-100 | any last two bytes other than CR LF give InvalidLineEnding |
| ScannerParser.LineEndingExamples | src/parser.rs:170-176 | the source's bad-terminator examples give InvalidLineEnding |
| ScannerParser.MailLineWithOneSpace | src/parser.rs:178-181 | the examples' single-space lines are wire forms |
| ScannerParser.MissingGtExample | src/parser.rs:178 | `MAIL FROM:<mneumann@ntecs.de blah` CR LF gives Missing > |
| ScannerParser.MailExamples | src/parser.rs:180-181 | the bracketed and the bare example both give Mail(`mneumann@ntecs.de`) |
| ScannerParser.DataExamples | src/parser.rs:184-186 | `DATA` and `data` give Data; `data test` gives InvalidData |
| OffsetParser.ParseCommand | parser.rs:28-68 | InvalidLineEnding iff there is no CR LF terminator; a panic iff a fixed-offset slice falls outside the stripped line; Rcpt is never produced |
| OffsetParser.ParseMailLine | parser.rs:41-47 | MAIL plus ` FROM:<` in any case, then any bytes (even `>`), then `>` CR LF, gives those bytes as the address |
| OffsetParser.ParsedMailHasShape | parser.rs:41-47 | an accepted line is the 4-byte token, the 7-byte opener, the address and `>` CR LF |
| OffsetParser.ParseMissingGt | parser.rs:44-51 | once the prefix matches, Missing > is reported iff the byte before CR LF is not `>` |
| OffsetParser.ParseData | parser.rs:57-64 | Ok(Data) iff the line is a DATA token plus CR LF; InvalidData iff more bytes follow the token |
| OffsetParser.DataToken | parser.rs:57-64 | after a DATA token, the line is Data when only CR LF follows and InvalidData otherwise |
| OffsetParser.ParseInvalidMail | parser.rs:41-55 | Invalid MAIL command iff the CR LF line is at least 13 bytes long, starts with a MAIL token, and bytes 4 to 10 are not ` FROM:<` in any case |
| OffsetParser.ParseCommandChecked | parser.rs:28-68 | the corrected parser: InvalidLineEnding and UnknownCommand iffs, and it agrees with the original wherever the original does not panic |
| OffsetParser.ShortLinesPanic | parser.rs:40-43 | `HI` CR LF, `MAIL` CR LF and `MAIL FROM:<` CR LF panic as written; the corrected parser returns an error for each |
| OffsetParser.LineEndingExamples | parser.rs:93-99 | CR alone, LF alone and LF CR give InvalidLineEnding, and so does the example MAIL line without an ending or ending in CR, LF or LF CR |
| OffsetParser.BadEnding | parser.rs:29-36 | any last two bytes other than CR LF give InvalidLineEnding |
| OffsetParser.MailExamples | parser.rs:101-103 | the example address without `>` gives Missing >, and with `>` gives Mail of that address |
| OffsetParser.DataExamples | parser.rs:106-108 | `DATA` and `data` give Data; `data test` gives InvalidData |
| Wire.WithPayload | src/bin/smtp.rs:55-65 | it gives the same kind of command carrying the given payload |
| Wire.Expected | src/bin/smtp.rs:69-92 | every fixed text is non-empty and pure ASCII |
| Wire.Dispatch | src/bin/smtp.rs:68-95 | a byte that selects a command is that command's initial, and the payload starts empty |
| Wire.DispatchInitial | smtp.rs:48-76 | the table maps each command's initial back to that command's kind |
| IoReader.ReadAsciiChar | src/bin/smtp.rs:10-17 | a byte below 127 is returned and consumed; a byte of 127 or more is InvalidData and is consumed; an empty stream is UnexpectedEof |
| IoReader.ReadLine | src/bin/smtp.rs:22-38 | a line read successfully has no CR, no LF and no non-ASCII byte, and the stream was that line, CR LF, then the rest |
| IoReader.ReadLineRoundTrip | src/bin/smtp.rs:22-38 | a plain line followed by CR LF is read back whole, and the rest is left unread |
| IoReader.StopAt | src/bin/smtp.rs:25-31 | the index where the loop stops: all earlier bytes are plain ASCII, and the byte there is CR, LF or non-ASCII |
| IoReader.ReadLineMatchesSpec | src/bin/smtp.rs:22-38 | every outcome of `read_line`, errors and unread bytes included, follows the byte where the loop stops and the byte after it |
| IoReader.ReadExpect | src/bin/smtp.rs:40-53 | as written, a stream shorter than the text is false with nothing left; otherwise the answer is true iff every byte after the skipped block of the text's length passes (the expected byte, a non-ASCII byte, or past the end); true leaves the stream after twice the text's length, and false leaves it right after the first compared byte that differs |
| IoReader.ReadExpectTrue | src/bin/smtp.rs:40-53 | when every compared position passes, the stream resumes after the skipped block and the compared part |
| IoReader.ReadExpectFalse | src/bin/smtp.rs:40-53 | a mismatch at compared position j, after j positions that pass, is false and leaves the stream after the byte at the text's length plus j |
| IoReader.CompareEach | src/bin/smtp.rs:43-50 | the comparison loop never consumes more than the stream holds, and on false it leaves the stream right after the first position that does not pass |
| IoReader.FirstFail | src/bin/smtp.rs:43-50 | the first compared position that is inside the stream, ASCII and different from the expected byte, or the text's length when there is none |
| IoReader.CompareEachIff | src/bin/smtp.rs:43-50 | the loop answers true iff every compared position is past the end, non-ASCII, or equal to the expected byte |
| IoReader.CompareEachFalse | src/bin/smtp.rs:43-50 | whenever position j is the first that does not pass, the loop answers false and leaves the bytes after position j, whatever follows |
| IoReader.ReadExpectSkipsBlock | src/bin/smtp.rs:40-53 | as written, any block of the expected length followed by the expected text is accepted |
| IoReader.ReadExpectTrueAtEnd | src/bin/smtp.rs:40-53 | as written, a stream that ends right after the skipped block is accepted |
| IoReader.ReadExpectFixed | src/bin/smtp.rs:40-53 | the corrected comparison is true iff the stream starts with the expected text, and it then consumes exactly that text |
| IoReader.ReadCommandWith | src/bin/smtp.rs:67-97 | an empty stream or a non-ASCII first byte is an I/O error, an unknown initial is Invalid, and no other I/O error is returned; it panics iff the comparison for a command with a payload passes and the `read_line` after it fails; a failed comparison after a known initial is Invalid with the stream where the comparison stopped; a returned command passed the comparison, and its payload is the line read next |
| IoReader.ReadCommand | src/bin/smtp.rs:67-97 | as written, a command comes back only from a stream holding its initial and at least as many further bytes as its fixed text |
| IoReader.ReadCommandFixed | src/bin/smtp.rs:67-97 | with the corrected comparison, a command comes back only from a stream that starts with its initial and fixed text |
| IoReader.ReadCommandAfterCompare | src/bin/smtp.rs:67-97 | either reader returns a command once its initial selects it, the comparison passes and, for a command with a payload, the next line is that payload |
| IoReader.ReadCommandCompared | src/bin/smtp.rs:67-97 | conversely, a command either reader returns was selected by its initial, passed the comparison and, with a payload, came with the next line |
| IoReader.ReadCommandFixedSound | src/bin/smtp.rs:67-97 | with the corrected comparison, a command read back has a plain payload and came off the stream as its wire form followed by the rest |
| IoReader.ReadCommandFixedRoundTrip | src/bin/smtp.rs:67-97 | with the corrected comparison, every command with a plain payload is read back as itself |
| IoReader.ReadCommandAsWrittenAccepts | src/bin/smtp.rs:40-97 | as written, a command is read back when an extra block of the fixed text's length comes before the fixed text |
| IoReader.ReadCommandAsWrittenSound | src/bin/smtp.rs:40-97 | as written, a command read back came after its initial, a skipped block of the fixed text's length, and bytes that each pass the comparison; with a payload, the plain payload and CR LF follow, and without one the stream resumes after twice the text's length |
| IoReader.WellFormedHeloRejected | src/bin/smtp.rs:69-72 | the well-formed `HELO a` CR LF is Invalid as written, and Helo(`a`) with the fix |
| IoReader.DataAtEndAccepted | src/bin/smtp.rs:85-88 | `DATA` CR LF at the end of the stream is accepted only because the failed reads are skipped |
| BufferedReader.ReadAscii | smtp.rs:10-15 | a byte below 127 is returned and consumed; otherwise, or at the end of the stream, the task fails |
| BufferedReader.TakeLine | smtp.rs:18 | the bytes through the first LF, or everything when there is no LF; no line at the end of the stream |
| BufferedReader.ReadLine | smtp.rs:17-26 | a line read successfully has no LF, and the stream was that line, CR LF, then the rest |
| BufferedReader.FirstLf | smtp.rs:18 | the index of the first LF |
| BufferedReader.LfInTail | smtp.rs:18 | dropping a first byte that is not LF keeps an LF in the stream or out of it |
| BufferedReader.FirstLfOfTake | smtp.rs:18 | on a stream with an LF, the line taken is the prefix through the first LF |
| BufferedReader.NoLfTakesAll | smtp.rs:18 | on a non-empty stream without an LF, the line taken is the whole stream |
| BufferedReader.ReadLineFails | smtp.rs:17-26 | `read_line` fails iff the stream has no LF or its first LF does not follow a CR |
| BufferedReader.ReadLineThroughLf | smtp.rs:17-26 | on a stream holding an LF, `read_line` fails iff that first LF does not follow a CR |
| BufferedReader.ReadLineRoundTrip | smtp.rs:17-26 | a line without LF followed by CR LF is read back whole |
| BufferedReader.ReadExpect | smtp.rs:28-35 | true means the stream started with the text and exactly the text was consumed; false means it did not start with the text |
| BufferedReader.Agree | smtp.rs:28-35 | the length of the common prefix of stream and text |
| BufferedReader.ReadExpectIff | smtp.rs:28-35 | true when the whole text is there; false after reading the first differing ASCII byte; failure when the stream ends first or that byte is not ASCII |
| BufferedReader.ReadExpectPrefix | smtp.rs:28-35 | the text followed by anything is accepted and exactly the text is consumed |
| BufferedReader.AgreePrefix | smtp.rs:28-35 | the text agrees with itself followed by anything over its whole length |
| BufferedReader.ReadCommand | smtp.rs:47-77 | an empty stream or a non-ASCII first byte fails; an unknown initial is Invalid; after a known initial, an ASCII byte that differs from the fixed text gives Invalid with the stream resuming after that byte; the task fails iff the first byte, a byte of the fixed text, or the payload line cannot be read; a command other than Invalid has a known initial and passed the comparison |
| BufferedReader.MisspelledDataInvalid | smtp.rs:65-68 | `DATX` CR LF is Invalid and leaves CR LF unread |
| BufferedReader.ReadCommandRoundTrip | smtp.rs:47-77 | every command whose payload has no LF is read back as itself |
| BufferedReader.ReadCommandExpect | smtp.rs:48-70 | a command read back starts with its initial and its fixed text |
| BufferedReader.ReadCommandSound | smtp.rs:47-77 | a command read back is exactly its wire form followed by the rest of the stream |
| BufferedReader.LowerCaseInvalid | smtp.rs:48-76 | the dispatch is case-sensitive: `helo a` is Invalid and only its first byte is consumed |

## Left out

- `handle_connection` and `main` in both servers are left out. That includes the SMTP session state machine, replies, logging, the listener and the threads or tasks: they are I/O and control flow around the modelled readers.
- The `main` functions and test macros of `src/parser.rs` and `parser.rs` are left out. The tests are stated as example lemmas instead.
- Ascii.UpcaseCompare: the `to_ascii()` in `ascii_eq_ignore_case` (src/parser.rs:19-26, parser.rs:19-26) aborts on a byte of 128 or more in a token of the right length. The model compares such bytes like any others instead of failing.
- ScannerParser.ParseAddress: `from_utf8(addr).unwrap()` panics on an address that is not UTF-8. The model returns the address bytes unchecked.
- OffsetParser.ParseCommand: the same UTF-8 `unwrap` on the address is not modelled.
- BufferedReader.ReadLine: the buffered stream's UTF-8 check of the line is not modelled. An I/O error other than the end of the stream is not modelled either.
- IoReader.ReadExpect: when the skipping `read_exact` fails, all remaining bytes are taken as consumed. A real stream may stop earlier, which the model does not distinguish.
- IoReader.ReadLine: errors other than UnexpectedEof, InvalidData and InvalidInput, such as network failures or interrupted reads, are left out. The stream is a finite byte sequence.
- `SliceScanner::new` and `data` are the identity on the view, so they get no member of their own. The `debug!` calls in `pop_back`, `pop_front` and `ref_front` are logging.

## Findings

| source | as written | input that shows it | evidently intended | confidence | as-written member | corrected member |
|---|---|---|---|---|---|---|
| parser.rs:40-44 | slices `[0..4]`, `[4..11]` and `slice_from(11).init()` are taken without checking the line's length | `HI` CR LF; `MAIL` CR LF; `MAIL FROM:<` CR LF: each slice is out of range, so the call panics | UnknownCommand, Invalid MAIL command, and Missing > | high, not executed | OffsetParser.ShortLinesPanic | OffsetParser.ParseCommandChecked |
| src/bin/smtp.rs:40-53 | `read_expect` reads `expect.len()` bytes into a buffer it never inspects, then compares the following bytes; a byte that cannot be read is skipped | `HELO a` CR LF gives Invalid, because `a` CR LF is compared with `ELO `; `DATA` CR LF at the end of the stream is accepted only because every read after the skipped block fails | compare the block just read with `expect` | high, not executed | IoReader.WellFormedHeloRejected | IoReader.ReadCommandFixedRoundTrip |
