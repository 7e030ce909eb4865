/** The command type that both stream readers (`src/bin/smtp.rs` and
    `smtp.rs`) declare identically, the dispatch table they share, and the
    bytes a client sends for each command. */
module Wire {
  import opened Bytes

  /** A command read off the stream. Payloads are the verbatim rest of the
      line after the fixed text, so `MailFrom` carries `<addr>` with its
      brackets when the client sent them. */
  datatype Command =
    | Helo(host: seq<byte>)
    | Ehlo(host: seq<byte>)
    | MailFrom(from: seq<byte>)
    | RcptTo(to: seq<byte>)
    | Data
    | Quit
    | Invalid

  predicate HasPayload(c: Command) {
    c.Helo? || c.Ehlo? || c.MailFrom? || c.RcptTo?
  }

  function Payload(c: Command): seq<byte>
    requires HasPayload(c)
  {
    match c
    case Helo(h) => h
    case Ehlo(h) => h
    case MailFrom(a) => a
    case RcptTo(a) => a
  }

  /** The command of the same kind as `c` carrying payload `p`. */
  function WithPayload(c: Command, p: seq<byte>): (r: Command)
    requires HasPayload(c)
    ensures HasPayload(r) && Payload(r) == p
    ensures Initial(r) == Initial(c) && Expected(r) == Expected(c)
  {
    match c
    case Helo(_) => Helo(p)
    case Ehlo(_) => Ehlo(p)
    case MailFrom(_) => MailFrom(p)
    case RcptTo(_) => RcptTo(p)
  }

  /** The first byte that selects each command: `H`, `E`, `M`, `R`, `D`, `Q`. */
  function Initial(c: Command): byte
    requires c != Invalid
  {
    match c
    case Helo(_) => 0x48
    case Ehlo(_) => 0x45
    case MailFrom(_) => 0x4D
    case RcptTo(_) => 0x52
    case Data => 0x44
    case Quit => 0x51
  }

  /** The fixed text each reader expects after the first byte: `ELO `,
      `HLO `, `AIL FROM:`, `CPT TO:`, `ATA` CR LF and `UIT` CR LF. */
  function Expected(c: Command): (t: seq<byte>)
    requires c != Invalid
    ensures |t| > 0 && forall i | 0 <= i < |t| :: IsReadable(t[i])
  {
    match c
    case Helo(_) => [0x45, 0x4C, 0x4F, 0x20]
    case Ehlo(_) => [0x48, 0x4C, 0x4F, 0x20]
    case MailFrom(_) => [0x41, 0x49, 0x4C, 0x20, 0x46, 0x52, 0x4F, 0x4D, 0x3A]
    case RcptTo(_) => [0x43, 0x50, 0x54, 0x20, 0x54, 0x4F, 0x3A]
    case Data => [0x41, 0x54, 0x41, CR, LF]
    case Quit => [0x55, 0x49, 0x54, CR, LF]
  }

  /** The case-sensitive dispatch on the first byte: the kind of command
      it selects (with an empty payload), or `Invalid`. */
  function Dispatch(b: byte): (c: Command)
    ensures c != Invalid ==> Initial(c) == b && (HasPayload(c) ==> Payload(c) == [])
  {
    if b == 0x48 then Helo([])
    else if b == 0x45 then Ehlo([])
    else if b == 0x4D then MailFrom([])
    else if b == 0x52 then RcptTo([])
    else if b == 0x44 then Data
    else if b == 0x51 then Quit
    else Invalid
  }

  /** The table is a bijection between the six initials and the six kinds. */
  lemma DispatchInitial(c: Command)
    requires c != Invalid
    ensures Dispatch(Initial(c)) == (if HasPayload(c) then WithPayload(c, []) else c)
  {
  }

  /** The bytes a client sends for `c`: initial, fixed text, and for a
      command with a payload the payload and CR LF. */
  function WireForm(c: Command): seq<byte>
    requires c != Invalid
  {
    [Initial(c)] + Expected(c) + (if HasPayload(c) then Payload(c) + CRLF else [])
  }

  /** A payload the `src/bin/smtp.rs` line reader can deliver: ASCII, with
      no CR and no LF. */
  predicate PlainText(s: seq<byte>) {
    forall i | 0 <= i < |s| :: IsReadable(s[i]) && s[i] != CR && s[i] != LF
  }
}
