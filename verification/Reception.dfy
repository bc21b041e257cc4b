/** A host that receives: IPv4Handler::recv (lib/src/runtime/interface/l3_ipv4.rs) with
    all that a packet sets off, from the answer to an echo request to the call that
    waits for a datagram. */
module Reception {
  import opened Common
  import C = Checksum
  import H = Ipv4Header
  import I = Icmp
  import U = UdpHeader
  import T = EchoTime
  import A = Arp
  import E = Ethernet
  import EthernetRuns
  import R = Routes
  import W = Worker
  import P = Pinging
  import PM = PingManagers
  import B = BlockingReceive
  import opened Addresses
  import opened PortBinding
  import opened UdpDispatch
  import opened Delivery

  datatype Host = Host(
    build: T.Build, mtu: nat, local: seq<Assigned>, routes: seq<R.Route>, ethernet: E.State,
    sessions: PM.Sessions, ports: Ports, peers: seq<Option<SocketAddr>>)

  // ----- Answering an echo request -----

  /** Crashes: the header's length overflows in a build that checks it, or the frame
      assertion fails. Sends: down to the Ethernet handler, for that hop. */
  datatype Response = Silent | Crashes | Sends(hop: Ipv4, source: Ipv4, packet: E.Packet)

  function Respond(host: Host, source: Ipv4, destination: Ipv4, payload: seq<Byte>, asked: nat, id: U16): Response
  {
    match W.Refusal(host.mtu, host.routes, destination, |payload|)
    case Some(_) => Silent
    case None =>
      var route := R.Lookup(host.routes, destination).value;
      var from, hop := W.OrUnspecified(source, route.source), W.NextHop(route, destination);
      var packet := E.Packet(H.New(H.ICMP, from, destination, |payload| % 0x1_0000, id), payload);
      if host.build.checked && H.LENGTH_NO_OPTIONS + |payload| % 0x1_0000 >= 0x1_0000 then Crashes
      else if E.SendTrips(host.mtu, host.ethernet, hop, from, packet, asked) then Crashes
      else Sends(hop, from, packet)
  }

  /** An answer of that many octets passes the size check and finds a route, and then
      either its length overflows or it is too long for a frame and its hop is known. */
  predicate AnswerCrashes(host: Host, destination: Ipv4, length: nat, asked: nat)
  {
    && 8 <= length <= host.mtu - H.LENGTH_NO_OPTIONS && R.Lookup(host.routes, destination).Some?
    && (|| (host.build.checked && H.LENGTH_NO_OPTIONS + length % 0x1_0000 >= 0x1_0000)
        || (&& length > host.mtu - H.LENGTH_NO_OPTIONS - E.ETHERNET_HEADER
            && match R.Lookup(host.routes, destination).value.nextHop
               case Some(gateway) => IsKnown(host, gateway, asked)
               case None => IsKnown(host, destination, asked)))
  }

  /** ARP answers for the hop, though it may ask again. */
  predicate IsKnown(host: Host, hop: Ipv4, asked: nat)
  {
    && hop in host.ethernet.arp && host.ethernet.arp[hop].Known?
    && Elapsed(asked, host.ethernet.arp[hop].lastSeen) < A.STALE_SEC * A.SECOND
  }

  lemma StaleInSeconds(nanos: nat)
    ensures nanos / A.SECOND < A.STALE_SEC <==> nanos < A.STALE_SEC * A.SECOND
  {
  }

  lemma RespondCrashesExactly(host: Host, source: Ipv4, destination: Ipv4, payload: seq<Byte>, asked: nat, id: U16)
    ensures Respond(host, source, destination, payload, asked, id).Crashes?
       <==> AnswerCrashes(host, destination, |payload|, asked)
  {
    if R.Lookup(host.routes, destination).Some? {
      var hop := W.NextHop(R.Lookup(host.routes, destination).value, destination);
      if hop in host.ethernet.arp && host.ethernet.arp[hop].Known? {
        StaleInSeconds(Elapsed(asked, host.ethernet.arp[hop].lastSeen));
      }
    }
  }

  // ----- When receiving ends the interface thread -----

  /** What a packet sets off panics, by the readings made when it is handled. */
  predicate SetsOffPanic(host: Host, inbound: Inbound, asked: nat, clocks: T.Clocks, id: U16)
  {
    match inbound
    case Panics => true
    case Answer(source, destination, reply) =>
      I.IsEcho(reply) && Respond(host, source, destination, I.Encode(reply), asked, id).Crashes?
    case Replied(source, e) =>
      && PM.Awaits(host.sessions, (source, e.identifier), e.sequenceNumber)
      && T.Measure(host.build, e.data, clocks).Fails?
    case Datagram(source, destination, bytes) =>
      Demultiplex(host.ports, host.peers, source, destination, bytes).Crashed?
    case _ => false
  }

  /** In octets: 56 at least, whose seconds and microseconds overflow a word, where
      that is checked, or a duration, or whose instant lies ahead of the time since
      boot while the system's clock is before the epoch. */
  predicate TimeFails(build: T.Build, data: seq<Byte>, clocks: T.Clocks)
  {
    && |data| >= 56
    && var seconds, micros := T.Word(build.bigEndian, data[..8]), T.Word(build.bigEndian, data[8..16]);
       || (build.checked && micros * 1_000 >= T.WORD)
       || seconds * T.SECOND + micros * 1_000 % T.WORD > T.DURATION_MAX
       || (&& T.Monotonic(build.bigEndian, data).Some? && clocks.sinceEpoch.None?
           && (clocks.sinceBoot.None? || clocks.sinceBoot.value < T.Monotonic(build.bigEndian, data).value))
  }

  lemma MeasureFailsExactly(build: T.Build, data: seq<Byte>, clocks: T.Clocks)
    ensures T.Measure(build, data, clocks).Fails? <==> TimeFails(build, data, clocks)
  {
  }

  /** An ICMP payload that ends the thread. */
  predicate IcmpPanics(host: Host, source: Ipv4, p: seq<Byte>, asked: nat, clocks: T.Clocks)
  {
    && |p| >= 8 && I.ChecksumMatches(p)
    && (|| (p[0] == 3 && H.HeaderPanics(p[8..]))
        || (p[0] == 8 && AnswerCrashes(host, source, |p|, asked))
        || (&& p[0] == 0
            && PM.Awaits(host.sessions, (source, C.U16Of(p[4], p[5])), C.U16Of(p[6], p[7]))
            && TimeFails(host.build, p[8..], clocks)))
  }

  lemma IcmpPanicsExactly(host: Host, source: Ipv4, destination: Ipv4, p: seq<Byte>, asked: nat, clocks: T.Clocks,
                          id: U16)
    ensures SetsOffPanic(host, ReceiveIcmp(source, destination, p), asked, clocks, id)
       <==> IcmpPanics(host, source, p, asked, clocks)
  {
    I.PanicsExactly(p);
    if |p| >= 8 && I.ChecksumMatches(p) {
      if p[0] == 8 {
        I.ReplyToRequest(p);
        RespondCrashesExactly(host, destination, source, I.Encode(I.EchoReply(I.EchoOf(p))), asked, id);
      }
      if p[0] == 0 { MeasureFailsExactly(host.build, p[8..], clocks); }
    }
  }

  /** Over every packet, in octets: receiving it ends the interface thread exactly when
      its header cannot be read; or it is for this host, and its lengths do not fit what
      came, or it is UDP of a length that does not fit, or ICMP of one of three kinds:
      an unreachable message about a header that cannot be read, a request whose answer
      is too long for the frame of a known hop, or the answer to a pending ping with
      time data that fails. */
  lemma RecvPanicsExactly(host: Host, b: seq<Byte>, asked: nat, clocks: T.Clocks, id: U16)
    ensures SetsOffPanic(host, Receive(host.local, b), asked, clocks, id) <==>
              || H.HeaderPanics(b)
              || (&& Whole(host.local, b)
                  && (|| !Spans(b)
                      || (b[9] == 17 && |PayloadOf(b)| >= 8
                          && !(8 <= C.U16Of(PayloadOf(b)[4], PayloadOf(b)[5]) <= |PayloadOf(b)|))
                      || (b[9] == 1 && IcmpPanics(host, H.AddressOf(b[12..16]), PayloadOf(b), asked, clocks))))
  {
    ReceiveIs(host.local, b);
    if Whole(host.local, b) && Spans(b) {
      var source, destination := H.AddressOf(b[12..16]), H.AddressOf(b[16..20]);
      IcmpPanicsExactly(host, source, destination, PayloadOf(b), asked, clocks, id);
      DemultiplexCrashesExactly(host.ports, host.peers, source, destination, PayloadOf(b));
    }
  }

  /** The answer to a pending ping with time data of all ones. */
  lemma ReplyThatPanics(host: Host, target: Ipv4, destination: Ipv4, identifier: U16, sequence: U16, rest: seq<Byte>,
                        asked: nat, clocks: T.Clocks, id: U16)
    requires |rest| == 40 && IsAcceptable(host.local, destination)
    requires PM.Awaits(host.sessions, (target, identifier), sequence)
    ensures var e := I.EchoMessage(identifier, sequence, T.ONES + rest);
            var packet := Sent(H.ICMP, target, destination, id, I.Encode(I.EchoReply(e)));
            SetsOffPanic(host, Receive(host.local, packet), asked, clocks, id)
  {
    var e := I.EchoMessage(identifier, sequence, T.ONES + rest);
    var packet := Sent(H.ICMP, target, destination, id, I.Encode(I.EchoReply(e)));
    SentIsReceived(host.local, H.ICMP, target, destination, id, I.Encode(I.EchoReply(e)), []);
    assert packet + [] == packet;
    I.EchoRoundTrip(I.EchoReply(e));
    T.AllOnesFail(host.build, rest, clocks);
  }

  /** A request that fills the MTU, from behind a known hop. */
  lemma RequestThatPanics(host: Host, source: Ipv4, destination: Ipv4, e: I.EchoMessage, asked: nat, clocks: T.Clocks,
                          id: U16)
    requires H.LENGTH_NO_OPTIONS + 8 + |e.data| == host.mtu < 0x1_0000 && IsAcceptable(host.local, destination)
    requires R.Lookup(host.routes, source).Some?
    requires match R.Lookup(host.routes, source).value.nextHop
             case Some(gateway) => IsKnown(host, gateway, asked)
             case None => IsKnown(host, source, asked)
    ensures var packet := Sent(H.ICMP, source, destination, id, I.Encode(I.EchoRequest(e)));
            SetsOffPanic(host, Receive(host.local, packet), asked, clocks, id)
  {
    var packet := Sent(H.ICMP, source, destination, id, I.Encode(I.EchoRequest(e)));
    SentIsReceived(host.local, H.ICMP, source, destination, id, I.Encode(I.EchoRequest(e)), []);
    assert packet + [] == packet;
    I.EchoRoundTrip(I.EchoRequest(e));
    RespondCrashesExactly(host, destination, source, I.Encode(I.EchoReply(e)), asked, id);
  }

  // ----- From one host to another and back -----

  function Wire(packet: E.Packet): seq<Byte>
  {
    H.Encode(packet.header, 0) + packet.payload
  }

  lemma RequestArrives(there: seq<Assigned>, source: Ipv4, target: Ipv4, e: I.EchoMessage, id: U16, padding: seq<Byte>)
    requires H.LENGTH_NO_OPTIONS + 8 + |e.data| < 0x1_0000 && IsAcceptable(there, target)
    ensures Receive(there, Sent(H.ICMP, source, target, id, I.Encode(I.EchoRequest(e))) + padding)
         == Answer(target, source, I.EchoReply(e))
  {
    I.EchoRoundTrip(I.EchoRequest(e));
    SentIsReceived(there, H.ICMP, source, target, id, I.Encode(I.EchoRequest(e)), padding);
  }

  lemma AnswerArrives(here: seq<Assigned>, from: Ipv4, source: Ipv4, e: I.EchoMessage, packet: E.Packet, id: U16,
                      padding: seq<Byte>)
    requires H.LENGTH_NO_OPTIONS + 8 + |e.data| < 0x1_0000 && IsAcceptable(here, source)
    requires packet == E.Packet(H.New(H.ICMP, from, source, 8 + |e.data|, id), I.Encode(I.EchoReply(e)))
    ensures Receive(here, Wire(packet) + padding) == Replied(from, e)
  {
    I.EchoRoundTrip(I.EchoReply(e));
    SentIsReceived(here, H.ICMP, from, source, id, I.Encode(I.EchoReply(e)), padding);
  }

  /** The gateway of the best route, or without one the destination itself. */
  predicate IsHop(host: Host, destination: Ipv4, hop: Ipv4)
  {
    match R.Lookup(host.routes, destination)
    case Some(route) => if route.nextHop.Some? then route.nextHop == Some(hop) else hop == destination
    case None => false
  }

  lemma RespondSends(host: Host, source: Ipv4, destination: Ipv4, payload: seq<Byte>, asked: nat, id: U16)
    requires |payload| < 0x1_0000 && Respond(host, source, destination, payload, asked, id).Sends?
    ensures var r := Respond(host, source, destination, payload, asked, id);
            && W.Refusal(host.mtu, host.routes, destination, |payload|).None?
            && IsHop(host, destination, r.hop)
            && r.source == (if source == UNSPECIFIED then R.Lookup(host.routes, destination).value.source else source)
            && r.packet == E.Packet(H.New(H.ICMP, r.source, destination, |payload|, id), payload)
  {
  }

  /** An answer that is sent is accepted for the gateway of the best route when it has
      one, and for the destination when it has none; the entries and queues of all other
      hops stay as they were. */
  lemma AnswerRouted(room: E.Schedule, host: Host, source: Ipv4, destination: Ipv4, payload: seq<Byte>, asked: nat,
                     id: U16, sent: nat)
    requires |payload| < 0x1_0000 && Respond(host, source, destination, payload, asked, id).Sends?
    ensures var r := Respond(host, source, destination, payload, asked, id);
            var (s', result) := E.SendIpv4(room, host.ethernet, r.hop, r.source, r.packet, asked, sent);
            var route := R.Lookup(host.routes, destination);
            && route.Some?
            && match route.value.nextHop
               case Some(gateway) => AcceptedFor(host.ethernet, s', result, gateway, r.packet)
               case None => AcceptedFor(host.ethernet, s', result, destination, r.packet)
  {
    RespondSends(host, source, destination, payload, asked, id);
    var r := Respond(host, source, destination, payload, asked, id);
    W.SentForHop(room, host.ethernet, r.hop, r.source, r.packet, asked, sent);
  }

  ghost predicate AcceptedFor(s: E.State, s': E.State, r: E.SendResult, hop: Ipv4, packet: E.Packet)
  {
    && s'.accepted == s.accepted + (if r.Ok? then [E.Queued(hop, packet)] else [])
    && forall other: Ipv4 :: other != hop ==> EthernetRuns.SameFor(s, s', other)
  }

  /** An echo request to an address of another host leads to nothing exactly when the
      answer is refused, ends that host's thread exactly when it is too long for the
      frame of a known hop, and else to an answer which, wherever it arrives, is read as
      the reply of the address asked with the same identifier, number and data. */
  lemma EchoEndToEnd(here: seq<Assigned>, there: Host, source: Ipv4, target: Ipv4, e: I.EchoMessage, asked: nat,
                     id: U16, id': U16, padding: seq<Byte>, padding': seq<Byte>)
    requires H.LENGTH_NO_OPTIONS + 8 + |e.data| < 0x1_0000
    requires IsAcceptable(there.local, target) && IsAcceptable(here, source)
    ensures Receive(there.local, Sent(H.ICMP, source, target, id, I.Encode(I.EchoRequest(e))) + padding)
         == Answer(target, source, I.EchoReply(e))
    ensures match Respond(there, target, source, I.Encode(I.EchoReply(e)), asked, id')
            case Silent => W.Refusal(there.mtu, there.routes, source, 8 + |e.data|).Some?
            case Crashes => AnswerCrashes(there, source, 8 + |e.data|, asked)
            case Sends(hop, from, packet) =>
              && W.Refusal(there.mtu, there.routes, source, 8 + |e.data|).None?
              && !AnswerCrashes(there, source, 8 + |e.data|, asked)
              && IsHop(there, source, hop)
              && (target != UNSPECIFIED ==> from == target)
              && Receive(here, Wire(packet) + padding') == Replied(from, e)
  {
    RequestArrives(there.local, source, target, e, id, padding);
    var answer := I.Encode(I.EchoReply(e));
    RespondCrashesExactly(there, target, source, answer, asked, id');
    match Respond(there, target, source, answer, asked, id')
    case Sends(_, from, packet) =>
      RespondSends(there, target, source, answer, asked, id');
      AnswerArrives(here, from, source, e, packet, id', padding');
    case _ =>
  }

  /** The answer to the k-th pending ping of a session, whose request carried the time
      it was sent: it settles that ping as a success, without a panic whatever the
      build, and is reported with the time since, as long as no more than 65536 separate
      the oldest pending ping from the count. */
  lemma AnswerSettles(here: Host, target: Ipv4, identifier: U16, k: nat, t: T.Time, asked: nat, clocks: T.Clocks,
                      id: U16)
    requires (target, identifier) in here.sessions
    requires var s := here.sessions[(target, identifier)];
             P.Inv(s) && k < |s.pending| && s.total - s.indices[0] <= 0x1_0000
    requires t.sinceEpoch <= T.DURATION_MAX && t.monotonic.Some? && 0 < t.monotonic.value < T.DURATION_MAX
    requires clocks.sinceBoot.Some? && t.monotonic.value <= clocks.sinceBoot.value
    ensures var s := here.sessions[(target, identifier)];
            var e := I.EchoMessage(identifier, s.pending[k].0, T.Encode(here.build.bigEndian, t));
            && PM.Awaits(here.sessions, (target, identifier), e.sequenceNumber)
            && !SetsOffPanic(here, Replied(target, e), asked, clocks, id)
            && P.EchoReply(s, e.sequenceNumber) == P.Settle(s, k, P.Success)
            && T.Measure(here.build, e.data, clocks) == T.Took(Some(clocks.sinceBoot.value - t.monotonic.value))
  {
    T.OwnEchoMeasured(here.build, t, clocks);
    P.ReplySettlesItsPing(here.sessions[(target, identifier)], k);
  }

  /** So a ping is answered whenever the other host sends its answer and that arrives. */
  lemma PingIsAnswered(here: Host, there: Host, source: Ipv4, target: Ipv4, identifier: U16, k: nat, t: T.Time,
                       asked: nat, asked': nat, clocks: T.Clocks, id: U16, id': U16, padding: seq<Byte>,
                       padding': seq<Byte>)
    requires IsAcceptable(there.local, target) && IsAcceptable(here.local, source) && target != UNSPECIFIED
    requires (target, identifier) in here.sessions
    requires var s := here.sessions[(target, identifier)];
             P.Inv(s) && k < |s.pending| && s.total - s.indices[0] <= 0x1_0000
    requires t.sinceEpoch <= T.DURATION_MAX && t.monotonic.Some? && 0 < t.monotonic.value < T.DURATION_MAX
    requires clocks.sinceBoot.Some? && t.monotonic.value <= clocks.sinceBoot.value
    ensures var s := here.sessions[(target, identifier)];
            var e := I.EchoMessage(identifier, s.pending[k].0, T.Encode(here.build.bigEndian, t));
            var request := Sent(H.ICMP, source, target, id, I.Encode(I.EchoRequest(e))) + padding;
            var response := Respond(there, target, source, I.Encode(I.EchoReply(e)), asked', id');
            && Receive(there.local, request) == Answer(target, source, I.EchoReply(e))
            && (response.Sends? ==>
                  var inbound := Receive(here.local, Wire(response.packet) + padding');
                  && inbound == Replied(target, e) && !SetsOffPanic(here, inbound, asked, clocks, id)
                  && P.EchoReply(s, e.sequenceNumber) == P.Settle(s, k, P.Success)
                  && T.Measure(here.build, e.data, clocks)
                  == T.Took(Some(clocks.sinceBoot.value - t.monotonic.value)))
  {
    var s := here.sessions[(target, identifier)];
    var e := I.EchoMessage(identifier, s.pending[k].0, T.Encode(here.build.bigEndian, t));
    EchoEndToEnd(here.local, there, source, target, e, asked', id, id', padding, padding');
    AnswerSettles(here, target, identifier, k, t, asked, clocks, id);
  }

  /** A datagram delivered to a socket is pushed into its ring, or dropped where that is
      full; the call that sleeps on an empty ring returns with it. */
  lemma DeliveredIsReceived<M>(socket: B.State<M>, datagram: M)
    requires B.Inv(socket) && socket.handler.Free?
    ensures var after := B.Apply(socket, B.Arrive(datagram));
            && B.Inv(after)
            && after.ring == (if |socket.ring| < socket.capacity then socket.ring + [datagram] else socket.ring)
            && (socket.ring == [] && socket.capacity > 0 && (socket.socket.BeforePark? || socket.socket.Parked?) ==>
                  var end := B.Run(after, B.Settling(after) + [B.Park, B.Look]);
                  && end.socket.Outside?
                  && (if socket.peeks then end.ring == [datagram] else end.received == socket.received + [datagram]))
  {
    B.ArriveStep(socket, datagram);
    var after := B.Apply(socket, B.Arrive(datagram));
    if socket.ring == [] && socket.capacity > 0 && (socket.socket.BeforePark? || socket.socket.Parked?) {
      B.WaitingReceives(after);
    }
  }

  /** End to end for UDP: what another stack sends to a socket that nobody connected
      elsewhere is what the call that sleeps on that socket returns with, under the
      sender's address. */
  lemma UdpReachesCaller(host: Host, ids: seq<Option<SocketAddr>>, id: nat, source: Ipv4, sourcePort: U16,
                         destination: Ipv4, port: U16, data: seq<Byte>, identification: U16, padding: seq<Byte>,
                         socket: B.State<(SocketAddr, seq<Byte>)>)
    requires H.LENGTH_NO_OPTIONS + U.LENGTH + |data| < 0x1_0000 && IsAcceptable(host.local, destination)
    requires Owned(ids, host.ports) && Live(ids, host.ports, id)
    requires ids[id].value.port == port && Matches(TargetOf(ids[id].value, true), V4(destination))
    requires id < |host.peers| && host.peers[id].Some? ==>
               host.peers[id].value == SocketAddr.SocketAddr(V4(source), sourcePort)
    requires B.Inv(socket) && socket.handler.Free? && socket.ring == [] && socket.capacity > 0
    requires (socket.socket.BeforePark? || socket.socket.Parked?) && !socket.peeks
    ensures var h := U.Header(sourcePort, port, U.LENGTH + |data|, 0);
            var inbound := Receive(host.local, Sent(H.UDP, source, destination, identification,
                                                    Datagrammed(h, source, destination, data)) + padding);
            && inbound.Datagram?
            && var d := Demultiplex(host.ports, host.peers, inbound.source, inbound.destination, inbound.bytes);
            && d == Delivered(id, SocketAddr.SocketAddr(V4(source), sourcePort), data)
            && var after := B.Apply(socket, B.Arrive((d.source, d.payload)));
            var end := B.Run(after, B.Settling(after) + [B.Park, B.Look]);
            end.socket.Outside? && end.received == socket.received + [(d.source, d.payload)]
  {
    UdpEndToEnd(host.local, ids, host.ports, host.peers, id, source, sourcePort, destination, port, data,
                identification, padding);
    DeliveredIsReceived(socket, (SocketAddr.SocketAddr(V4(source), sourcePort), data));
  }
}
