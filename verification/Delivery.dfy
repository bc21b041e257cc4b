/** From one stack to another: what IPv4Handler::recv
    (lib/src/runtime/interface/l3_ipv4.rs) makes of the bytes IPv4Handler::send wrote,
    up to the socket or the handler they are for. */
module Delivery {
  import opened Common
  import H = Ipv4Header
  import I = Icmp
  import U = UdpHeader
  import C = Checksum
  import opened Addresses
  import opened PortBinding
  import opened UdpDispatch

  const BROADCAST: Ipv4 := 0xFFFF_FFFF

  predicate IsMulticast(a: Ipv4)
  {
    0xE000_0000 <= a <= 0xEFFF_FFFF
  }

  /** No multicast group is ever joined. */
  predicate IsAcceptable(local: seq<Assigned>, a: Ipv4)
  {
    a == BROADCAST
    || (!IsMulticast(a) && exists i :: 0 <= i < |local| && (local[i].address == a || local[i].broadcast == a))
  }

  /** What a packet leads to. Panics: a slice is out of range. */
  datatype Inbound =
    | Ignored
    | Panics
    | Answer(source: Ipv4, destination: Ipv4, reply: I.Message)
    | Replied(source: Ipv4, echo: I.EchoMessage)
    | Undelivered(header: H.Header, datagram: seq<Byte>)
    | Control(kind: Byte)
    | Datagram(source: Ipv4, destination: Ipv4, bytes: seq<Byte>)

  function Receive(local: seq<Assigned>, bytes: seq<Byte>): Inbound
  {
    match H.FromBytes(bytes)
    case Rejected(_) => Ignored
    case Panics => Panics
    case Parsed(ip) =>
      if ip.fragment.moreFragments || ip.fragment.offset > 0 then Ignored
      else if !IsAcceptable(local, ip.destination) then Ignored
      else if !(4 * ip.headerLength <= ip.totalLength <= |bytes|) then Panics
      else ByProtocol(ip, bytes[4 * ip.headerLength..ip.totalLength])
  }

  function ByProtocol(ip: H.Header, payload: seq<Byte>): Inbound
  {
    match ip.protocol
    case ICMP => ReceiveIcmp(ip.source, ip.destination, payload)
    case UDP => Datagram(ip.source, ip.destination, payload)
    case TCP => Ignored
    case Other(_) => Ignored
  }

  /** An echo request is answered from the address it came to. */
  function ReceiveIcmp(source: Ipv4, destination: Ipv4, payload: seq<Byte>): Inbound
  {
    match I.FromBytes(payload)
    case Panics => Panics
    case Rejected(_) => Ignored
    case Parsed(Unreachable(_, header, datagram)) => Undelivered(header, datagram)
    case Parsed(EchoRequest(e)) => Answer(destination, source, I.EchoReply(e))
    case Parsed(EchoReply(e)) => Replied(source, e)
    case Parsed(Control(kind)) => Control(kind)
  }

  /** The packet IPv4Handler::send hands down. */
  function Sent(protocol: H.Protocol, source: Ipv4, destination: Ipv4, id: U16, payload: seq<Byte>): seq<Byte>
    requires |payload| < 0x1_0000
  {
    H.Encode(H.New(protocol, source, destination, |payload|, id), 0) + payload
  }

  lemma NewLength(protocol: H.Protocol, source: Ipv4, destination: Ipv4, length: U16, id: U16)
    requires H.LENGTH_NO_OPTIONS + length < 0x1_0000
    ensures H.New(protocol, source, destination, length, id).totalLength == H.LENGTH_NO_OPTIONS + length
  {
  }

  lemma WholePacket(local: seq<Assigned>, bytes: seq<Byte>, ip: H.Header)
    requires H.FromBytes(bytes) == H.Parsed(ip)
    requires !ip.fragment.moreFragments && ip.fragment.offset == 0 && IsAcceptable(local, ip.destination)
    requires ip.headerLength == 5 && 20 <= ip.totalLength <= |bytes|
    ensures Receive(local, bytes) == ByProtocol(ip, bytes[20..ip.totalLength])
  {
  }

  /** Every packet sent to an address of the receiver arrives whole, whatever padding
      the link appends. */
  lemma SentIsReceived(local: seq<Assigned>, protocol: H.Protocol, source: Ipv4, destination: Ipv4, id: U16,
                       payload: seq<Byte>, padding: seq<Byte>)
    requires H.LENGTH_NO_OPTIONS + |payload| < 0x1_0000 && H.Canonical(protocol) && IsAcceptable(local, destination)
    ensures Receive(local, Sent(protocol, source, destination, id, payload) + padding)
         == match protocol
            case ICMP => ReceiveIcmp(source, destination, payload)
            case UDP => Datagram(source, destination, payload)
            case _ => Ignored
  {
    var h := H.New(protocol, source, destination, |payload|, id);
    var bytes := Sent(protocol, source, destination, id, payload) + padding;
    assert bytes == H.Encode(h, 0) + (payload + padding);
    H.RoundTrip(h, 0, payload + padding);
    NewLength(protocol, source, destination, |payload|, id);
    assert bytes[20..20 + |payload|] == payload;
    WholePacket(local, bytes, H.FromBytes(bytes).header);
  }

  // ----- When the receive path panics -----

  predicate IsFragment(b: seq<Byte>)
    requires |b| >= 20
  {
    b[6] / 32 % 2 == 1 || b[6] % 32 > 0 || b[7] > 0
  }

  lemma FragmentOctets(b: seq<Byte>)
    requires |b| >= 20
    ensures var f := H.FragmentOf(b[4..8]);
            f.moreFragments || f.offset > 0 <==> IsFragment(b)
  {
    var high: nat, low: nat := b[6], b[7];
    LowBits(high, low);
  }

  lemma LowBits(high: nat, low: nat)
    requires high < 0x100 && low < 0x100
    ensures (0x100 * high + low) % 0x2000 == 0x100 * (high % 32) + low
  {
    assert high == 32 * (high / 32) + high % 32;
    assert 0x100 * high + low == 0x2000 * (high / 32) + (0x100 * (high % 32) + low);
  }

  /** The octets of a whole packet for this host: an accepted header, no fragment, one
      of its addresses. */
  predicate Whole(local: seq<Assigned>, b: seq<Byte>)
  {
    && |b| >= 20 && b[0] / 16 == 4 && 12 <= 4 * (b[0] % 16) <= |b|
    && [b[10], b[11]] == C.Of(H.Covered(b, 4 * (b[0] % 16)))
    && !IsFragment(b) && IsAcceptable(local, H.AddressOf(b[16..20]))
  }

  /** Its total length is at least the header's and no more than what came. */
  predicate Spans(b: seq<Byte>)
    requires |b| >= 20
  {
    4 * (b[0] % 16) <= C.U16Of(b[2], b[3]) <= |b|
  }

  function PayloadOf(b: seq<Byte>): seq<Byte>
    requires |b| >= 20 && Spans(b)
  {
    b[4 * (b[0] % 16)..C.U16Of(b[2], b[3])]
  }

  lemma HeaderIsRead(local: seq<Assigned>, b: seq<Byte>)
    requires !H.HeaderPanics(b)
    ensures var parse := H.FromBytes(b);
            && !parse.Panics?
            && (Whole(local, b) <==>
                  && parse.Parsed? && !(parse.header.fragment.moreFragments || parse.header.fragment.offset > 0)
                  && IsAcceptable(local, parse.header.destination))
            && (parse.Parsed? ==> |b| >= 20 && parse.header == H.Fields(b))
  {
    H.PanicsExactly(b);
    if |b| >= 20 { FragmentOctets(b); }
  }

  /** In octets, what becomes of a packet. */
  lemma ReceiveIs(local: seq<Assigned>, b: seq<Byte>)
    ensures Receive(local, b)
         == if H.HeaderPanics(b) then Panics
            else if !Whole(local, b) then Ignored
            else if !Spans(b) then Panics
            else
              var source, destination := H.AddressOf(b[12..16]), H.AddressOf(b[16..20]);
              if b[9] == 1 then ReceiveIcmp(source, destination, PayloadOf(b))
              else if b[9] == 17 then Datagram(source, destination, PayloadOf(b))
              else Ignored
  {
    H.PanicsExactly(b);
    if !H.HeaderPanics(b) {
      HeaderIsRead(local, b);
    }
  }

  /** An empty packet; or one of version 4 as long as its header length says, if that
      length is below 12 or the checksum matches and fewer than 20 octets came; or one
      for this host whose total length is below the header length or beyond what came,
      or whose payload is an ICMP message that reports a packet as undelivered under a
      header which is of the first two kinds. */
  lemma ReceivePanicsExactly(local: seq<Assigned>, b: seq<Byte>)
    ensures Receive(local, b).Panics? <==>
              || H.HeaderPanics(b)
              || (&& Whole(local, b)
                  && (|| !Spans(b)
                      || (&& b[9] == 1 && |PayloadOf(b)| >= 8 && I.ChecksumMatches(PayloadOf(b))
                          && PayloadOf(b)[0] == 3 && H.HeaderPanics(PayloadOf(b)[8..]))))
  {
    ReceiveIs(local, b);
    if Whole(local, b) && Spans(b) { I.PanicsExactly(PayloadOf(b)); }
  }

  lemma HeaderAlonePanics(local: seq<Assigned>, source: Ipv4, destination: Ipv4, length: U16, id: U16)
    requires 0 < length && H.LENGTH_NO_OPTIONS + length < 0x1_0000 && IsAcceptable(local, destination)
    ensures Receive(local, H.Encode(H.New(H.UDP, source, destination, length, id), 0)).Panics?
  {
    var h := H.New(H.UDP, source, destination, length, id);
    NewLength(H.UDP, source, destination, length, id);
    H.RoundTrip(h, 0, []);
    assert H.Encode(h, 0) + [] == H.Encode(h, 0);
    ShortPacket(local, H.Encode(h, 0), H.FromBytes(H.Encode(h, 0)).header);
  }

  const BARE_UNREACHABLE: seq<Byte> := [3, 0, 0xFC, 0xFF, 0, 0, 0, 0]

  lemma BarePanics()
    ensures I.FromBytes(BARE_UNREACHABLE).Panics?
  {
    var b := BARE_UNREACHABLE;
    var zeroed: seq<Byte> := [3, 0, 0, 0, 0, 0, 0, 0];
    assert b[..2] + [0, 0] + b[4..] == zeroed;
    assert zeroed[2..] == [0, 0, 0, 0, 0, 0] && zeroed[2..][2..] == [0, 0, 0, 0];
    assert C.WordSum([0, 0]) == 0;
    assert C.WordSum([0, 0, 0, 0]) == C.WordSum([0, 0, 0, 0][2..]) == 0;
    assert C.WordSum(zeroed) == 0x300 + C.WordSum(zeroed[2..]);
    assert C.WordSum(zeroed[2..]) == C.WordSum(zeroed[2..][2..]);
    assert C.Of(zeroed) == C.Bytes16(0xFCFF) == [0xFC, 0xFF];
  }

  lemma BareUnreachablePanics(local: seq<Assigned>, source: Ipv4, destination: Ipv4, id: U16)
    requires IsAcceptable(local, destination)
    ensures Receive(local, Sent(H.ICMP, source, destination, id, BARE_UNREACHABLE)).Panics?
  {
    var packet := Sent(H.ICMP, source, destination, id, BARE_UNREACHABLE);
    SentIsReceived(local, H.ICMP, source, destination, id, BARE_UNREACHABLE, []);
    assert packet + [] == packet;
    BarePanics();
  }

  /** Such packets: a lone first octet, a header whose payload did not come, and an
      unreachable message with nothing in it. */
  lemma PacketsThatPanic(local: seq<Assigned>, source: Ipv4, destination: Ipv4, length: U16, id: U16)
    requires 0 < length && H.LENGTH_NO_OPTIONS + length < 0x1_0000 && IsAcceptable(local, destination)
    ensures Receive(local, [0x40]).Panics?
    ensures Receive(local, H.Encode(H.New(H.UDP, source, destination, length, id), 0)).Panics?
    ensures Receive(local, Sent(H.ICMP, source, destination, id, BARE_UNREACHABLE)).Panics?
  {
    HeaderAlonePanics(local, source, destination, length, id);
    BareUnreachablePanics(local, source, destination, id);
  }

  lemma ShortPacket(local: seq<Assigned>, bytes: seq<Byte>, ip: H.Header)
    requires H.FromBytes(bytes) == H.Parsed(ip)
    requires !ip.fragment.moreFragments && ip.fragment.offset == 0 && IsAcceptable(local, ip.destination)
    requires ip.totalLength > |bytes|
    ensures Receive(local, bytes).Panics?
  {
  }

  // ----- UDP -----

  /** Panics: the length field is below 8 or beyond the datagram, and the slice that
      precedes every check is out of range. */
  datatype Outcome = Delivered(id: nat, source: SocketAddr, payload: seq<Byte>) | Dropped | Crashed

  function Lookup(ports: Ports, ip: Ip, port: U16): Option<Handle>
  {
    var first := Get(ports, PortBinding.SocketAddr(ip, port));
    if first.Some? then first else Get(ports, PortBinding.SocketAddr(ToUnspecified(ip), port))
  }

  /** What recv does with a datagram, once its header is read. */
  function Accept(ports: Ports, peers: seq<Option<SocketAddr>>, source: Ipv4, destination: Ipv4, h: U.Header,
                  payload: seq<Byte>): Outcome
    requires U.LengthFits(h, payload)
  {
    var from := PortBinding.SocketAddr(V4(source), h.sourcePort);
    if !U.ValidatesV4(h, source, destination, payload) then Dropped
    else
      match Lookup(ports, V4(destination), h.destinationPort)
      case None => Dropped
      case Some(s) =>
        if s.id < |peers| && peers[s.id].Some? && peers[s.id].value != from then Dropped
        else Delivered(s.id, from, payload)
  }

  /** UdpManager::recv; `peers` are the addresses the sockets are connected to. */
  function Demultiplex(ports: Ports, peers: seq<Option<SocketAddr>>, source: Ipv4, destination: Ipv4, bytes: seq<Byte>)
    : Outcome
  {
    match U.FromBytes(bytes)
    case None => Dropped
    case Some(h) =>
      if !(U.LENGTH <= h.length <= |bytes|) then Crashed
      else Accept(ports, peers, source, destination, h, bytes[U.LENGTH..h.length])
  }

  /** In octets: a header came, and its length field is below 8 or beyond what came. */
  lemma DemultiplexCrashesExactly(ports: Ports, peers: seq<Option<SocketAddr>>, source: Ipv4, destination: Ipv4,
                                  b: seq<Byte>)
    ensures Demultiplex(ports, peers, source, destination, b).Crashed? <==>
              |b| >= 8 && !(8 <= C.U16Of(b[4], b[5]) <= |b|)
    ensures Demultiplex(ports, peers, source, destination, [0, 7, 0, 9, 0, 0, 0, 0]).Crashed?
  {
    var lengthless: seq<Byte> := [0, 7, 0, 9, 0, 0, 0, 0];
    assert U.FromBytes(lengthless).value.length == 0;
  }

  /** The datagram a socket's send_ipv4 builds. */
  function Datagrammed(h: U.Header, source: Ipv4, destination: Ipv4, data: seq<Byte>): seq<Byte>
    requires U.LengthFits(h, data)
  {
    var c := U.ComputedV4(h, source, destination, data);
    U.Encode(h.(checksum := C.U16Of(c[0], c[1]))) + data
  }

  /** A live socket is the one its address is looked up as. */
  lemma BoundIsFound(ids: seq<Option<SocketAddr>>, ports: Ports, socket: nat, ip: Ip)
    requires Owned(ids, ports) && Live(ids, ports, socket) && Matches(TargetOf(ids[socket].value, true), ip)
    ensures Lookup(ports, ip, ids[socket].value.port) == Some(Handle(socket, false))
  {
    var p := ids[socket].value.port;
    var k :| 0 <= k < |ports[p]| && ports[p][k].handle.id == socket;
    FindIsUnique(ports[p], k, ip);
  }

  /** The datagram with its checksum is read back as its header and its data. */
  lemma DatagramIsRead(ports: Ports, peers: seq<Option<SocketAddr>>, source: Ipv4, destination: Ipv4, h: U.Header,
                       data: seq<Byte>)
    requires h.length == U.LENGTH + |data|
    ensures var c := U.ComputedV4(h, source, destination, data);
            var sent := h.(checksum := C.U16Of(c[0], c[1]));
            && U.ValidatesV4(sent, source, destination, data)
            && Demultiplex(ports, peers, source, destination, Datagrammed(h, source, destination, data))
            == Accept(ports, peers, source, destination, sent, data)
  {
    var datagram := Datagrammed(h, source, destination, data);
    U.SendThenReceive(h, source, destination, data);
    assert datagram[U.LENGTH..U.LENGTH + |data|] == data;
  }

  /** End to end: what one stack sends from a socket the other delivers, unchanged and
      under the sender's address, to exactly the live socket bound to where it was
      sent, unless that socket is connected elsewhere. */
  lemma UdpEndToEnd(local: seq<Assigned>, ids: seq<Option<SocketAddr>>, ports: Ports, peers: seq<Option<SocketAddr>>,
                    socket: nat, source: Ipv4, sourcePort: U16, destination: Ipv4, port: U16, data: seq<Byte>, id: U16,
                    padding: seq<Byte>)
    requires H.LENGTH_NO_OPTIONS + U.LENGTH + |data| < 0x1_0000 && IsAcceptable(local, destination)
    requires Owned(ids, ports) && Live(ids, ports, socket)
    requires ids[socket].value.port == port && Matches(TargetOf(ids[socket].value, true), V4(destination))
    ensures var h := U.Header(sourcePort, port, U.LENGTH + |data|, 0);
            var packet := Sent(H.UDP, source, destination, id, Datagrammed(h, source, destination, data)) + padding;
            var from := PortBinding.SocketAddr(V4(source), sourcePort);
            var inbound := Receive(local, packet);
            && inbound.Datagram?
            && Demultiplex(ports, peers, inbound.source, inbound.destination, inbound.bytes)
            == if socket < |peers| && peers[socket].Some? && peers[socket].value != from then Dropped
               else Delivered(socket, from, data)
  {
    var h := U.Header(sourcePort, port, U.LENGTH + |data|, 0);
    SentIsReceived(local, H.UDP, source, destination, id, Datagrammed(h, source, destination, data), padding);
    DatagramIsRead(ports, peers, source, destination, h, data);
    BoundIsFound(ids, ports, socket, V4(destination));
  }

  /** Conversely, only a datagram that RFC 768 verifies is delivered, to a live socket
      that is bound to its destination, with the data its length field spans. */
  lemma DeliveredSoundly(ids: seq<Option<SocketAddr>>, ports: Ports, peers: seq<Option<SocketAddr>>,
                         source: Ipv4, destination: Ipv4, bytes: seq<Byte>)
    requires Owned(ids, ports) && Demultiplex(ports, peers, source, destination, bytes).Delivered?
    ensures var d := Demultiplex(ports, peers, source, destination, bytes);
            var h := U.FromBytes(bytes).value;
            && d.payload == bytes[U.LENGTH..h.length] && h.checksum != 0
            && C.Verifies(U.Summed(h, source, destination, d.payload, h.checksum))
            && Live(ids, ports, d.id) && ids[d.id].value.port == h.destinationPort
            && Matches(TargetOf(ids[d.id].value, true), V4(destination))
  {
    var h := U.FromBytes(bytes).value;
    U.ValidatesExactly(h, source, destination, bytes[U.LENGTH..h.length]);
    var p := h.destinationPort;
    if p in ports && Find(ports[p], V4(destination)) == None { FallbackFindsNothing(ports[p], V4(destination)); }
    var k :| 0 <= k < |ports[p]| && Matches(ports[p][k].target, V4(destination))
          && ports[p][k].handle == Find(ports[p], V4(destination)).value;
  }
}
