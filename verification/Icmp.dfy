/** ICMP messages (lib/src/protocols/ipv4/icmp.rs): all that are parsed, and the echo
    messages that are written. */
module Icmp {
  import opened Common
  import C = Checksum
  import H = Ipv4Header

  datatype EchoMessage = EchoMessage(identifier: U16, sequenceNumber: U16, data: seq<Byte>)

  const DATAGRAM_PORTION := 8

  /** Unreachable: the header of the packet that could not be delivered and the start
      of its payload. Control: one of the four kinds nobody looks into. */
  datatype Message =
    | EchoReply(echo: EchoMessage)
    | EchoRequest(echo: EchoMessage)
    | Unreachable(code: Byte, header: H.Header, datagram: seq<Byte>)
    | Control(kind: Byte)

  datatype ParseError = UnexpectedEof | ChecksumMismatch | InvalidKind | InvalidCode | InvalidHeader

  /** Panics: the header inside an unreachable message makes its parser panic. */
  datatype Parse = Parsed(message: Message) | Rejected(error: ParseError) | Panics

  function EchoOf(b: seq<Byte>): EchoMessage
    requires |b| >= 8
  {
    EchoMessage(C.U16Of(b[4], b[5]), C.U16Of(b[6], b[7]), b[8..])
  }

  predicate ChecksumMatches(b: seq<Byte>)
    requires |b| >= 8
  {
    [b[2], b[3]] == C.Of(b[..2] + [0, 0] + b[4..])
  }

  function UnreachableOf(code: Byte, rest: seq<Byte>): Parse
  {
    match H.FromBytes(rest)
    case Panics => Panics
    case Rejected(UnexpectedEof) => Rejected(UnexpectedEof)
    case Rejected(_) => Rejected(InvalidHeader)
    case Parsed(h) =>
      var length := 4 * h.headerLength;
      if |rest| < length + DATAGRAM_PORTION then Rejected(UnexpectedEof)
      else if code > 5 then Rejected(InvalidCode)
      else Parsed(Unreachable(code, h, rest[length..length + DATAGRAM_PORTION]))
  }

  function ControlOf(kind: Byte, valid: bool): Parse
  {
    if valid then Parsed(Control(kind)) else Rejected(InvalidCode)
  }

  function FromBytes(b: seq<Byte>): Parse
  {
    if |b| < 8 then Rejected(UnexpectedEof)
    else if !ChecksumMatches(b) then Rejected(ChecksumMismatch)
    else
      match b[0]
      case 0 => Parsed(EchoReply(EchoOf(b)))
      case 8 => Parsed(EchoRequest(EchoOf(b)))
      case 3 => UnreachableOf(b[1], b[8..])
      case 4 => ControlOf(4, true)
      case 5 => ControlOf(5, b[1] <= 3)
      case 11 => ControlOf(11, b[1] <= 1)
      case 12 => ControlOf(12, true)
      case _ => Rejected(InvalidKind)
  }

  /** In octets: an unreachable message under the right checksum, whose embedded header
      panics. */
  lemma PanicsExactly(b: seq<Byte>)
    ensures FromBytes(b).Panics? <==> |b| >= 8 && ChecksumMatches(b) && b[0] == 3 && H.HeaderPanics(b[8..])
  {
    if |b| >= 8 { H.PanicsExactly(b[8..]); }
  }

  /** An unreachable message that is accepted carries a whole accepted header and the
      eight octets after it. */
  lemma UnreachableSpans(b: seq<Byte>)
    requires FromBytes(b).Parsed? && FromBytes(b).message.Unreachable?
    ensures var m := FromBytes(b).message;
            && H.FromBytes(b[8..]) == H.Parsed(m.header) && m.code == b[1] <= 5 && |m.datagram| == DATAGRAM_PORTION
            && 8 + 4 * m.header.headerLength + DATAGRAM_PORTION <= |b|
            && m.datagram == b[8 + 4 * m.header.headerLength..][..DATAGRAM_PORTION]
  {
    var length := 4 * FromBytes(b).message.header.headerLength;
    assert b[8..][length..length + DATAGRAM_PORTION] == b[8 + length..][..DATAGRAM_PORTION];
  }

  predicate IsEcho(m: Message)
  {
    m.EchoReply? || m.EchoRequest?
  }

  function TypeAndCode(m: Message): seq<Byte>
    requires IsEcho(m)
  {
    [if m.EchoReply? then 0 else 8, 0]
  }

  function Body(e: EchoMessage): seq<Byte>
  {
    C.Bytes16(e.identifier) + C.Bytes16(e.sequenceNumber) + e.data
  }

  /** type_and_code, the checksum field, the body. */
  function Layout(m: Message, checksum: seq<Byte>): seq<Byte>
    requires IsEcho(m) && |checksum| == 2
  {
    TypeAndCode(m) + checksum + Body(m.echo)
  }

  function Encode(m: Message): seq<Byte>
    requires IsEcho(m)
  {
    Layout(m, C.Of(Layout(m, [0, 0])))
  }

  method ComputeChecksum(m: Message) returns (checksum: seq<Byte>)
    requires IsEcho(m)
    ensures checksum == C.Of(Layout(m, [0, 0]))
  {
    var accumulator := new C.Accumulator();
    accumulator.AddBytes(TypeAndCode(m));
    accumulator.AddBytes([0, 0]);
    AddToChecksum(m.echo, accumulator);
    checksum := accumulator.Value();
    assert accumulator.fed == Layout(m, [0, 0]);
  }

  method AddToChecksum(e: EchoMessage, accumulator: C.Accumulator)
    requires accumulator.Valid()
    modifies accumulator
    ensures accumulator.Valid() && accumulator.fed == old(accumulator.fed) + Body(e)
  {
    accumulator.AddBytes(C.Bytes16(e.identifier));
    accumulator.AddBytes(C.Bytes16(e.sequenceNumber));
    accumulator.AddBytes(e.data);
    assert accumulator.fed == old(accumulator.fed) + Body(e);
  }

  /** compute_checksum_and_update, then write_to_buffer. */
  method WriteToBuffer(m: Message, buffer: seq<Byte>) returns (written: seq<Byte>)
    requires IsEcho(m)
    ensures written == buffer + Encode(m)
  {
    var checksum := ComputeChecksum(m);
    written := buffer + TypeAndCode(m);
    written := written + checksum;
    written := written + C.Bytes16(m.echo.identifier);
    written := written + C.Bytes16(m.echo.sequenceNumber);
    written := written + m.echo.data;
    assert written == buffer + Layout(m, checksum);
  }

  /** Every echo message survives the wire. */
  lemma EchoRoundTrip(m: Message)
    requires IsEcho(m)
    ensures FromBytes(Encode(m)) == Parsed(m)
  {
    var b, c := Encode(m), C.Of(Layout(m, [0, 0]));
    assert b[..2] == TypeAndCode(m) && [b[2], b[3]] == c && b[4..] == Body(m.echo);
    assert b[..2] + [0, 0] + b[4..] == Layout(m, [0, 0]);
    assert [b[4], b[5]] == C.Bytes16(m.echo.identifier) && [b[6], b[7]] == C.Bytes16(m.echo.sequenceNumber);
    assert b[8..] == m.echo.data;
    C.Bytes16RoundTrip(m.echo.identifier);
    C.Bytes16RoundTrip(m.echo.sequenceNumber);
  }

  /** The reply to any byte string accepted as an echo request has its length and is
      accepted as an echo reply with its identifier, sequence number and data. It is
      the request's bytes from the fourth octet on, under a new type and checksum. */
  lemma ReplyToRequest(b: seq<Byte>)
    requires FromBytes(b).Parsed? && FromBytes(b).message.EchoRequest?
    ensures var reply := Encode(EchoReply(FromBytes(b).message.echo));
            && |reply| == |b| && reply[4..] == b[4..]
            && FromBytes(reply) == Parsed(EchoReply(FromBytes(b).message.echo))
  {
    EchoRoundTrip(EchoReply(EchoOf(b)));
    BodyOf(b);
  }

  lemma BodyOf(b: seq<Byte>)
    requires |b| >= 8
    ensures Body(EchoOf(b)) == b[4..]
  {
    var e := EchoOf(b);
    assert C.Bytes16(e.identifier) == b[4..6] && C.Bytes16(e.sequenceNumber) == b[6..8];
  }

  /** A request's checksum is accepted exactly when RFC 1071 verifies the message
      and it does not store 0xFFFF. */
  lemma AcceptsExactlyVerified(b: seq<Byte>)
    requires |b| >= 8 && b[0] == 8
    ensures FromBytes(b).Parsed? <==> C.Verifies(b) && !(b[2] == 0xFF && b[3] == 0xFF)
  {
    var stored := C.U16Of(b[2], b[3]);
    assert C.Bytes16(stored) == [b[2], b[3]];
    assert b == b[..2] + C.Bytes16(stored) + b[4..];
    assert C.WordSum(b[..2] + [0, 0] + b[4..]) > 0;
    C.CompareVersusVerify(b[..2], stored, b[4..]);
  }

  /** What is accepted, by its first two octets, under the right checksum. */
  lemma AcceptsExactly(b: seq<Byte>)
    ensures FromBytes(b).Parsed? <==>
              && |b| >= 8 && ChecksumMatches(b)
              && (|| b[0] in {0, 4, 8, 12}
                  || (b[0] == 5 && b[1] <= 3)
                  || (b[0] == 11 && b[1] <= 1)
                  || (&& b[0] == 3 && b[1] <= 5 && H.FromBytes(b[8..]).Parsed?
                      && |b| >= 8 + 4 * H.FromBytes(b[8..]).header.headerLength + 8))
    ensures FromBytes(b).Parsed? ==>
              match FromBytes(b).message
              case EchoReply(_) => b[0] == 0
              case EchoRequest(_) => b[0] == 8
              case Unreachable(code, _, _) => b[0] == 3 && b[1] == code
              case Control(kind) => b[0] == kind && kind in {4, 5, 11, 12}
  {
  }
}
