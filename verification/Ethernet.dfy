/** EthernetHandler (lib/src/runtime/interface/l2_ethernet.rs): IPv4 packets wait
    per next hop while ARP resolves it. The functions say what each handler does to
    the interface's state; the class performs it in place; the lemmas say what
    every run of handlers keeps.

    The send ring is drained by another thread at any time, so whether the n-th
    push finds room is given by an arbitrary schedule `room`. */
module Ethernet {
  import opened Common
  import opened Arp
  import H = Ipv4Header

  const ETHERNET_HEADER := 14
  const ARP_LENGTH := 28
  const MAX_PENDING := 5
  const DATAGRAM_PORTION := 8

  datatype Packet = Packet(header: H.Header, payload: seq<Byte>)

  datatype Frame =
    | ArpRequest(target: Ipv4, source: Ipv4)
    | ArpReply(to: Mac, asker: Ipv4, address: Ipv4)
    | GratuitousArp(address: Ipv4)
    | Ipv4Frame(to: Mac, packet: Packet)

  datatype SendError =
    | PayloadTooLarge(maxSize: int) | PayloadTooShort | NoRouteToHost
    | BufferFull | ArpResolveBufferFull | ArpTimeout

  datatype SendResult = Ok | Err(error: SendError)

  datatype ArpMessage = ArpMessage(isRequest: bool, sourceMac: Mac, source: Ipv4, target: Ipv4)

  /** How an accepted packet left the interface. */
  datatype Settled =
    | Handed(hop: Ipv4, packet: Packet, mac: Mac)
    | Reported(hop: Ipv4, packet: Packet, error: SendError)

  /** An ARP request, when it was made, and its place among the frames pushed. */
  datatype Request = Request(target: Ipv4, at: nat, place: nat)

  datatype Queued = Queued(hop: Ipv4, packet: Packet)

  type Queues = map<Ipv4, seq<Packet>>

  /** `sent` is what reached the ring. The rest after it is history, in order of
      occurrence: the packets send_ipv4 said Ok to, what became of them, the hardware
      addresses each hop announced, and the ARP requests made. `attempted` lists all the
      frames pushed, whether or not there was room. */
  datatype State = State(
    arp: Table, queues: Queues, attempted: seq<Frame>, sent: seq<Frame>,
    accepted: seq<Queued>, settled: seq<Settled>, learned: set<(Ipv4, Mac)>,
    requests: seq<Request>)

  type Schedule = nat -> bool

  function Init(): State
  {
    State(map[], map[], [], [], [], [], {}, [])
  }

  function Queue(s: State, hop: Ipv4): seq<Packet>
  {
    if hop in s.queues then s.queues[hop] else []
  }

  // ----- What each handler does -----

  function Send(room: Schedule, s: State, frame: Frame): (State, SendResult)
  {
    if room(|s.attempted|) then (s.(attempted := s.attempted + [frame], sent := s.sent + [frame]), Ok)
    else (s.(attempted := s.attempted + [frame]), Err(BufferFull))
  }

  function SendArpRequest(room: Schedule, s: State, target: Ipv4, source: Ipv4, now: nat): (State, SendResult)
  {
    var entry := Sending(At(s.arp, target), source, now);
    var s1 := s.(arp := Put(s.arp, target, Some(entry)));
    if entry.Pending?
    then Send(room, s1.(requests := s.requests + [Request(target, now, |s.attempted|)]), ArpRequest(target, source))
    else (s1, Ok)
  }

  /** The source an ARP request goes out with: a pending entry keeps its own. */
  function RequestSource(state: ArpState, source: Ipv4): Ipv4
  {
    if state.PendingRetry? then state.source else source
  }

  function Enqueue(s: State, hop: Ipv4, packet: Packet): (State, SendResult)
  {
    if |Queue(s, hop)| < MAX_PENDING
    then (s.(queues := s.queues[hop := Queue(s, hop) + [packet]], accepted := s.accepted + [Queued(hop, packet)]), Ok)
    else (s, Err(ArpResolveBufferFull))
  }

  function SendResolved(room: Schedule, s: State, hop: Ipv4, mac: Mac, packet: Packet): (State, SendResult)
  {
    var (s1, r) := Send(room, s, Ipv4Frame(mac, packet));
    if r.Ok?
    then (s1.(accepted := s.accepted + [Queued(hop, packet)], settled := s.settled + [Handed(hop, packet, mac)]), r)
    else (s1, r)
  }

  function SendIpv4(room: Schedule, s: State, hop: Ipv4, source: Ipv4, packet: Packet, asked: nat, sent: nat)
    : (State, SendResult)
  {
    var (entry, state) := Answer(At(s.arp, hop), source, asked, sent);
    var s1 := s.(arp := Put(s.arp, hop, entry));
    var (s2, r) := if Asks(state) then SendArpRequest(room, s1, hop, RequestSource(state, source), sent) else (s1, Ok);
    if r.Err? then (s2, r) else QueueOrSend(room, s2, state, hop, packet)
  }

  function QueueOrSend(room: Schedule, s: State, state: ArpState, hop: Ipv4, packet: Packet): (State, SendResult)
  {
    match state
    case PendingRetry(_) => Enqueue(s, hop, packet)
    case PendingWait(_) => Enqueue(s, hop, packet)
    case Restart => Enqueue(s, hop, packet)
    case Resolved(mac) => SendResolved(room, s, hop, mac, packet)
    case ResolvedStale(mac) => SendResolved(room, s, hop, mac, packet)
    case Timeout => (s, Err(ArpTimeout))
  }

  /** Sends one queued packet on; what the ring has no room for is reported. */
  function SendNext(room: Schedule, s: State, hop: Ipv4, mac: Mac, packet: Packet): State
  {
    var (s1, r) := Send(room, s, Ipv4Frame(mac, packet));
    s1.(settled := s.settled + [if r.Ok? then Handed(hop, packet, mac) else Reported(hop, packet, r.error)])
  }

  function SendQueue(room: Schedule, s: State, hop: Ipv4, mac: Mac, queue: seq<Packet>): State
    decreases |queue|
  {
    if queue == [] then s else SendQueue(room, SendNext(room, s, hop, mac, queue[0]), hop, mac, queue[1..])
  }

  function DequeuePending(room: Schedule, s: State, mac: Mac, hop: Ipv4): State
  {
    if hop in s.queues then SendQueue(room, s.(queues := s.queues - {hop}), hop, mac, s.queues[hop]) else s
  }

  function ReportQueue(s: State, hop: Ipv4, queue: seq<Packet>): State
    decreases |queue|
  {
    if queue == [] then s
    else ReportQueue(s.(settled := s.settled + [Reported(hop, queue[0], ArpTimeout)]), hop, queue[1..])
  }

  function DropPending(s: State, hop: Ipv4): State
  {
    if hop in s.queues then ReportQueue(s.(queues := s.queues - {hop}), hop, s.queues[hop]) else s
  }

  function Learns(s: State, hop: Ipv4, mac: Mac, now: nat): State
  {
    s.(arp := Put(s.arp, hop, Some(Known(now, mac))), learned := s.learned + {(hop, mac)})
  }

  /** `ours` says whether the target address is assigned to the interface. */
  function RecvArp(room: Schedule, s: State, m: ArpMessage, ours: bool, now: nat): State
  {
    var merged := m.source in s.arp || ours;
    var s1 := if merged then Learns(s, m.source, m.sourceMac, now) else s;
    var s2 := if ours && m.isRequest then Send(room, s1, ArpReply(m.sourceMac, m.source, m.target)).0 else s1;
    if merged then DequeuePending(room, s2, m.sourceMac, m.source) else s2
  }

  /** One turn of perform_arp_timers, for one entry its snapshot listed. */
  function Timer(room: Schedule, s: State, hop: Ipv4, source: Ipv4, asked: nat, sent: nat): (State, ArpState)
  {
    var (entry, state) := Answer(At(s.arp, hop), source, asked, sent);
    (Timed(room, s.(arp := Put(s.arp, hop, entry)), hop, state, sent), state)
  }

  function Timed(room: Schedule, s: State, hop: Ipv4, state: ArpState, sent: nat): State
  {
    match state
    case PendingWait(_) => s
    case PendingRetry(stored) => SendArpRequest(room, s, hop, stored, sent).0
    case Resolved(mac) => DequeuePending(room, s, mac, hop)
    case ResolvedStale(mac) => DequeuePending(room, s, mac, hop)
    case Timeout => DropPending(s, hop)
    case Restart => DropPending(s, hop)
  }

  /** One turn of the worker's address probe: ask, and send a request if told to. */
  function Probe(room: Schedule, s: State, address: Ipv4, asked: nat, sent: nat): (State, ArpState, SendResult)
  {
    var (entry, state) := Answer(At(s.arp, address), UNSPECIFIED, asked, sent);
    var s1 := s.(arp := Put(s.arp, address, entry));
    var (s2, r) := if Asks(state) then SendArpRequest(room, s1, address, UNSPECIFIED, sent) else (s1, Ok);
    (s2, state, r)
  }

  // ----- The invariant -----

  /** The frame fits the MTU, as EthernetHandler::send asserts. */
  predicate Fits(mtu: nat, packet: Packet)
  {
    ETHERNET_HEADER + H.LENGTH_NO_OPTIONS + |packet.payload| <= mtu
  }

  /** The same for any frame. */
  predicate FrameFits(mtu: nat, frame: Frame)
  {
    if frame.Ipv4Frame? then Fits(mtu, frame.packet) else ETHERNET_HEADER + ARP_LENGTH <= mtu
  }

  ghost predicate QueueFits(mtu: nat, queue: seq<Packet>)
  {
    forall k :: 0 <= k < |queue| ==> Fits(mtu, queue[k])
  }

  /** send_ipv4 hands a frame that does not fit to EthernetHandler::send, which asserts:
      the hop is known, so nothing is queued first. */
  predicate SendTrips(mtu: nat, s: State, hop: Ipv4, source: Ipv4, packet: Packet, asked: nat)
  {
    var state := Answer(At(s.arp, hop), source, asked, asked).1;
    (state.Resolved? || state.ResolvedStale?) && !Fits(mtu, packet)
  }

  /** An ARP message resolves a hop with such a packet in its queue. */
  ghost predicate ReceiveTrips(mtu: nat, s: State, m: ArpMessage, ours: bool)
  {
    (m.source in s.arp || ours) && !QueueFits(mtu, Queue(s, m.source))
  }

  /** IPv4Handler::send's lower bound on a payload. */
  predicate LongEnough(packet: Packet)
  {
    |packet.payload| >= DATAGRAM_PORTION
  }

  /** A hop with queued packets is Pending or TimedOut in the table. */
  ghost predicate QueuesWait(s: State)
  {
    forall hop :: hop in s.queues ==>
      && hop in s.arp && !s.arp[hop].Known?
      && 0 < |s.queues[hop]| <= MAX_PENDING
      && forall k :: 0 <= k < |s.queues[hop]| ==> LongEnough(s.queues[hop][k])
  }

  function AcceptedFor(accepted: seq<Queued>, hop: Ipv4): seq<Packet>
  {
    if accepted == [] then []
    else
      var last := accepted[|accepted| - 1];
      AcceptedFor(accepted[..|accepted| - 1], hop) + (if last.hop == hop then [last.packet] else [])
  }

  function SettledFor(settled: seq<Settled>, hop: Ipv4): seq<Packet>
  {
    if settled == [] then []
    else
      var last := settled[|settled| - 1];
      SettledFor(settled[..|settled| - 1], hop) + (if last.hop == hop then [last.packet] else [])
  }

  /** The queues, with `rest` in place of the one of `hop`. */
  function QueueBut(s: State, hop: Ipv4, rest: seq<Packet>, h: Ipv4): seq<Packet>
  {
    if h == hop then rest else Queue(s, h)
  }

  /** Per hop, what was accepted is what has been settled, in the same order, and
      then what is queued. */
  ghost predicate Conserved(s: State)
  {
    forall hop: Ipv4 :: AcceptedFor(s.accepted, hop) == SettledFor(s.settled, hop) + Queue(s, hop)
  }

  /** The IPv4 frames among some frames. */
  function Ipv4Frames(frames: seq<Frame>): seq<Frame>
  {
    if frames == [] then []
    else
      var last := frames[|frames| - 1];
      Ipv4Frames(frames[..|frames| - 1]) + (if last.Ipv4Frame? then [last] else [])
  }

  function HandedFrames(settled: seq<Settled>): seq<Frame>
  {
    if settled == [] then []
    else
      var last := settled[|settled| - 1];
      HandedFrames(settled[..|settled| - 1]) + (if last.Handed? then [Ipv4Frame(last.mac, last.packet)] else [])
  }

  /** The IPv4 frames in the ring are the packets recorded as handed over, in order,
      each to a hardware address its own hop announced. */
  ghost predicate RingMatches(s: State)
  {
    && Ipv4Frames(s.sent) == HandedFrames(s.settled)
    && (forall hop :: hop in s.arp && s.arp[hop].Known? ==> (hop, s.arp[hop].mac) in s.learned)
    && (forall k :: 0 <= k < |s.settled| && s.settled[k].Handed? ==> (s.settled[k].hop, s.settled[k].mac) in s.learned)
  }

  ghost predicate Inv(s: State)
  {
    QueuesWait(s) && Conserved(s) && RingMatches(s)
  }

  // ----- How the histories grow -----

  lemma AcceptedSnoc(accepted: seq<Queued>, q: Queued)
    ensures forall hop: Ipv4 :: AcceptedFor(accepted + [q], hop)
                             == AcceptedFor(accepted, hop) + (if q.hop == hop then [q.packet] else [])
  {
    assert (accepted + [q])[..|accepted|] == accepted;
  }

  lemma SettledSnoc(settled: seq<Settled>, x: Settled)
    ensures forall hop: Ipv4 :: SettledFor(settled + [x], hop)
                             == SettledFor(settled, hop) + (if x.hop == hop then [x.packet] else [])
    ensures HandedFrames(settled + [x])
         == HandedFrames(settled) + (if x.Handed? then [Ipv4Frame(x.mac, x.packet)] else [])
  {
    assert (settled + [x])[..|settled|] == settled;
  }

  lemma FramesSnoc(frames: seq<Frame>, f: Frame)
    ensures Ipv4Frames(frames + [f]) == Ipv4Frames(frames) + (if f.Ipv4Frame? then [f] else [])
  {
    assert (frames + [f])[..|frames|] == frames;
  }

  /** Recording an outcome together with the frame it put in the ring, if any. */
  lemma RingSnoc(s: State, x: Settled, s': State)
    requires RingMatches(s) && s'.arp == s.arp && s'.learned == s.learned
    requires s'.settled == s.settled + [x] && (x.Handed? ==> (x.hop, x.mac) in s.learned)
    requires s'.sent == if x.Handed? then s.sent + [Ipv4Frame(x.mac, x.packet)] else s.sent
    ensures RingMatches(s')
  {
    SettledSnoc(s.settled, x);
    if x.Handed? { FramesSnoc(s.sent, Ipv4Frame(x.mac, x.packet)); }
  }

  // ----- Every handler keeps the invariant -----

  lemma SendKeeps(room: Schedule, s: State, frame: Frame)
    requires Inv(s) && !frame.Ipv4Frame?
    ensures Inv(Send(room, s, frame).0)
  {
    FramesSnoc(s.sent, frame);
  }

  /** Taking a step of the table that leaves the hop waiting keeps the invariant. */
  lemma WaitingKeeps(s: State, hop: Ipv4, entry: Entry)
    requires Inv(s)
    requires entry.Known? ==> At(s.arp, hop) == Some(entry)
    ensures Inv(s.(arp := Put(s.arp, hop, Some(entry))))
  {
  }

  lemma SendArpRequestKeeps(room: Schedule, s: State, target: Ipv4, source: Ipv4, now: nat)
    requires Inv(s)
    ensures Inv(SendArpRequest(room, s, target, source, now).0)
  {
    var entry := Sending(At(s.arp, target), source, now);
    WaitingKeeps(s, target, entry);
    var requests := s.requests + [Request(target, now, |s.attempted|)];
    SendKeeps(room, s.(arp := Put(s.arp, target, Some(entry)), requests := requests), ArpRequest(target, source));
  }

  /** Asking and, when told to, sending a request. */
  function AskAndSend(room: Schedule, s: State, hop: Ipv4, source: Ipv4, source': Ipv4, asked: nat,
                      sent: nat): (State, ArpState)
  {
    var (entry, state) := Answer(At(s.arp, hop), source, asked, sent);
    var s1 := s.(arp := Put(s.arp, hop, entry));
    (if Asks(state) then SendArpRequest(room, s1, hop, source', sent).0 else s1, state)
  }

  /** What the table says of the hop afterwards: a removed entry is put back before
      the handler goes on, so a queue never loses its entry. */
  lemma AskLeaves(room: Schedule, s: State, hop: Ipv4, source: Ipv4, source': Ipv4, asked: nat, sent: nat)
    ensures var (s', state) := AskAndSend(room, s, hop, source, source', asked, sent);
            && s'.queues == s.queues && s'.accepted == s.accepted && hop in s'.arp
            && (state.PendingRetry? || state.PendingWait? || state.Restart? ==> s'.arp[hop].Pending?)
            && (state.Resolved? ==> s'.arp[hop].Known? && s'.arp[hop].mac == state.mac)
            && (state.ResolvedStale? ==> s'.arp[hop].Known? && s'.arp[hop].mac == state.mac)
  {
  }

  lemma AskKeeps(room: Schedule, s: State, hop: Ipv4, source: Ipv4, source': Ipv4, asked: nat, sent: nat)
    requires Inv(s)
    ensures Inv(AskAndSend(room, s, hop, source, source', asked, sent).0)
  {
    var (entry, state) := Answer(At(s.arp, hop), source, asked, sent);
    var s1, s' := s.(arp := Put(s.arp, hop, entry)), AskAndSend(room, s, hop, source, source', asked, sent).0;
    if state.Restart? {
      assert entry == None && s' == SendArpRequest(room, s1, hop, source', sent).0;
      RestartKeeps(room, s, hop, source', sent);
    } else if Asks(state) {
      assert s' == SendArpRequest(room, s1, hop, source', sent).0;
      AnswerKeeps(s, hop, source, asked, sent);
      SendArpRequestKeeps(room, s1, hop, source', sent);
    } else {
      assert s' == s1;
      AnswerKeeps(s, hop, source, asked, sent);
    }
  }

  lemma AnswerKeeps(s: State, hop: Ipv4, source: Ipv4, asked: nat, sent: nat)
    requires Inv(s) && !Answer(At(s.arp, hop), source, asked, sent).1.Restart?
    ensures Inv(s.(arp := Put(s.arp, hop, Answer(At(s.arp, hop), source, asked, sent).0)))
  {
    WaitingKeeps(s, hop, Answer(At(s.arp, hop), source, asked, sent).0.value);
  }

  /** The removed entry is put back by the request that follows. */
  lemma RestartKeeps(room: Schedule, s: State, hop: Ipv4, source: Ipv4, sent: nat)
    requires Inv(s)
    ensures Inv(SendArpRequest(room, s.(arp := Put(s.arp, hop, None)), hop, source, sent).0)
  {
    var pending := Sending(None, source, sent);
    var s2 := s.(arp := Put(s.arp, hop, Some(pending)));
    assert Put(Put(s.arp, hop, None), hop, Some(pending)) == s2.arp;
    WaitingKeeps(s, hop, pending);
    SendKeeps(room, s2.(requests := s.requests + [Request(hop, sent, |s.attempted|)]), ArpRequest(hop, source));
  }

  lemma EnqueueKeeps(s: State, hop: Ipv4, packet: Packet)
    requires Inv(s) && hop in s.arp && s.arp[hop].Pending?
    requires LongEnough(packet)
    ensures Inv(Enqueue(s, hop, packet).0)
  {
    var s' := Enqueue(s, hop, packet).0;
    EnqueueBalances(s, hop, packet);
    assert QueuesWait(s');
  }

  lemma EnqueueBalances(s: State, hop: Ipv4, packet: Packet)
    requires Conserved(s)
    ensures Conserved(Enqueue(s, hop, packet).0)
  {
    AcceptedSnoc(s.accepted, Queued(hop, packet));
    var s' := Enqueue(s, hop, packet).0;
    if s' == s { return; }
    assert Queue(s', hop) == Queue(s, hop) + [packet];
    forall h: Ipv4 ensures AcceptedFor(s'.accepted, h) == SettledFor(s'.settled, h) + Queue(s', h) {
      assert AcceptedFor(s.accepted, h) == SettledFor(s.settled, h) + Queue(s, h);
    }
  }

  /** What handing a packet over at once leaves. */
  ghost predicate HandsOver(s: State, s': State, hop: Ipv4, mac: Mac, packet: Packet)
  {
    && s'.arp == s.arp && s'.queues == s.queues && s'.learned == s.learned
    && s'.accepted == s.accepted + [Queued(hop, packet)]
    && s'.settled == s.settled + [Handed(hop, packet, mac)] && s'.sent == s.sent + [Ipv4Frame(mac, packet)]
  }

  lemma HandingKeeps(s: State, s': State, hop: Ipv4, mac: Mac, packet: Packet)
    requires Inv(s) && HandsOver(s, s', hop, mac, packet) && hop !in s.queues && (hop, mac) in s.learned
    ensures Inv(s')
  {
    RingSnoc(s, Handed(hop, packet, mac), s');
    AcceptedSnoc(s.accepted, Queued(hop, packet));
    SettledSnoc(s.settled, Handed(hop, packet, mac));
    forall h: Ipv4 ensures AcceptedFor(s'.accepted, h) == SettledFor(s'.settled, h) + Queue(s', h) {
      assert AcceptedFor(s.accepted, h) == SettledFor(s.settled, h) + Queue(s, h);
    }
  }

  /** A resolved hop has no queue to overtake. */
  lemma SendResolvedKeeps(room: Schedule, s: State, hop: Ipv4, mac: Mac, packet: Packet)
    requires Inv(s) && hop in s.arp && s.arp[hop].Known? && s.arp[hop].mac == mac
    ensures Inv(SendResolved(room, s, hop, mac, packet).0)
  {
    var s' := SendResolved(room, s, hop, mac, packet).0;
    if room(|s.attempted|) {
      HandingKeeps(s, s', hop, mac, packet);
    } else {
      SameKeeps(s, s');
    }
  }

  lemma SameKeeps(s: State, s': State)
    requires Inv(s) && s'.arp == s.arp && s'.queues == s.queues && s'.accepted == s.accepted
    requires s'.settled == s.settled && s'.sent == s.sent && s'.learned == s.learned
    ensures Inv(s')
  {
    forall h: Ipv4 ensures AcceptedFor(s'.accepted, h) == SettledFor(s'.settled, h) + Queue(s', h) {
      assert AcceptedFor(s.accepted, h) == SettledFor(s.settled, h) + Queue(s, h);
    }
  }

  lemma SendIpv4Keeps(room: Schedule, s: State, hop: Ipv4, source: Ipv4, packet: Packet, asked: nat, sent: nat)
    requires Inv(s) && LongEnough(packet)
    ensures Inv(SendIpv4(room, s, hop, source, packet, asked, sent).0)
  {
    var (entry, state) := Answer(At(s.arp, hop), source, asked, sent);
    var s1 := s.(arp := Put(s.arp, hop, entry));
    var source' := RequestSource(state, source);
    AskLeaves(room, s, hop, source, source', asked, sent);
    AskKeeps(room, s, hop, source, source', asked, sent);
    var s2 := if Asks(state) then SendArpRequest(room, s1, hop, source', sent).0 else s1;
    match state
    case PendingRetry(_) => EnqueueKeeps(s2, hop, packet);
    case PendingWait(_) => EnqueueKeeps(s2, hop, packet);
    case Restart => EnqueueKeeps(s2, hop, packet);
    case Resolved(mac) => SendResolvedKeeps(room, s2, hop, mac, packet);
    case ResolvedStale(mac) => SendResolvedKeeps(room, s2, hop, mac, packet);
    case Timeout =>
  }

  /** The state while a queue taken out of the map is being settled. */
  ghost predicate Settling(s: State, hop: Ipv4, rest: seq<Packet>)
  {
    && QueuesWait(s) && RingMatches(s) && hop !in s.queues
    && forall h: Ipv4 :: AcceptedFor(s.accepted, h) == SettledFor(s.settled, h) + QueueBut(s, hop, rest, h)
  }

  lemma SettleOne(s: State, hop: Ipv4, rest: seq<Packet>, x: Settled, s': State)
    requires Settling(s, hop, rest) && rest != [] && x.hop == hop && x.packet == rest[0]
    requires x.Handed? ==> (hop, x.mac) in s.learned
    requires s' == s.(attempted := s'.attempted, settled := s.settled + [x],
                      sent := if x.Handed? then s.sent + [Ipv4Frame(x.mac, x.packet)] else s.sent)
    ensures Settling(s', hop, rest[1..])
  {
    SettledSnoc(s.settled, x);
    RingSnoc(s, x, s');
    forall h: Ipv4 ensures AcceptedFor(s'.accepted, h) == SettledFor(s'.settled, h) + QueueBut(s', hop, rest[1..], h) {
      assert AcceptedFor(s.accepted, h) == SettledFor(s.settled, h) + QueueBut(s, hop, rest, h);
      MoveFirst(SettledFor(s.settled, hop), rest);
    }
  }

  lemma {:induction false} SendQueueSettles(room: Schedule, s: State, hop: Ipv4, mac: Mac, queue: seq<Packet>)
    requires Settling(s, hop, queue) && (hop, mac) in s.learned
    ensures Inv(SendQueue(room, s, hop, mac, queue))
    ensures SendQueue(room, s, hop, mac, queue).queues == s.queues
    decreases |queue|
  {
    if queue == [] {
      SettledAll(s, hop);
    } else {
      var (s1, r) := Send(room, s, Ipv4Frame(mac, queue[0]));
      var x := if r.Ok? then Handed(hop, queue[0], mac) else Reported(hop, queue[0], r.error);
      SettleOne(s, hop, queue, x, SendNext(room, s, hop, mac, queue[0]));
      SendQueueSettles(room, SendNext(room, s, hop, mac, queue[0]), hop, mac, queue[1..]);
    }
  }

  lemma {:induction false} ReportQueueSettles(s: State, hop: Ipv4, queue: seq<Packet>)
    requires Settling(s, hop, queue)
    ensures Inv(ReportQueue(s, hop, queue))
    ensures ReportQueue(s, hop, queue).queues == s.queues
    decreases |queue|
  {
    if queue == [] {
      SettledAll(s, hop);
    } else {
      var x := Reported(hop, queue[0], ArpTimeout);
      SettleOne(s, hop, queue, x, s.(settled := s.settled + [x]));
      ReportQueueSettles(s.(settled := s.settled + [x]), hop, queue[1..]);
    }
  }

  lemma SettledAll(s: State, hop: Ipv4)
    requires Settling(s, hop, [])
    ensures Inv(s)
  {
    forall h: Ipv4 ensures AcceptedFor(s.accepted, h) == SettledFor(s.settled, h) + Queue(s, h) {
      assert AcceptedFor(s.accepted, h) == SettledFor(s.settled, h) + QueueBut(s, hop, [], h);
    }
  }

  /** The entry may already say Known: its queue is what dequeuing is about to empty. */
  ghost predicate InvButQueueOf(s: State, hop: Ipv4)
  {
    && Conserved(s) && RingMatches(s)
    && QueuesWait(s.(queues := s.queues - {hop}))
  }

  lemma DequeueKeeps(room: Schedule, s: State, mac: Mac, hop: Ipv4)
    requires InvButQueueOf(s, hop) && (hop, mac) in s.learned
    ensures Inv(DequeuePending(room, s, mac, hop))
    ensures hop !in DequeuePending(room, s, mac, hop).queues
  {
    var s1 := s.(queues := s.queues - {hop});
    forall h: Ipv4
      ensures AcceptedFor(s1.accepted, h) == SettledFor(s1.settled, h) + QueueBut(s1, hop, Queue(s, hop), h)
    {
      assert AcceptedFor(s.accepted, h) == SettledFor(s.settled, h) + Queue(s, h);
    }
    if hop in s.queues {
      SendQueueSettles(room, s1, hop, mac, s.queues[hop]);
    } else {
      assert s1.queues == s.queues;
    }
  }

  lemma DropKeeps(s: State, hop: Ipv4)
    requires Inv(s)
    ensures Inv(DropPending(s, hop))
    ensures hop !in DropPending(s, hop).queues
  {
    var s1 := s.(queues := s.queues - {hop});
    forall h: Ipv4
      ensures AcceptedFor(s1.accepted, h) == SettledFor(s1.settled, h) + QueueBut(s1, hop, Queue(s, hop), h)
    {
      assert AcceptedFor(s.accepted, h) == SettledFor(s.settled, h) + Queue(s, h);
    }
    if hop in s.queues { ReportQueueSettles(s1, hop, s.queues[hop]); }
  }

  /** The entry and perhaps a reply come before the queue. */
  ghost predicate Merges(s: State, s': State, m: ArpMessage, now: nat)
  {
    && s'.arp == Put(s.arp, m.source, Some(Known(now, m.sourceMac)))
    && s'.learned == s.learned + {(m.source, m.sourceMac)}
    && s'.queues == s.queues && s'.accepted == s.accepted && s'.settled == s.settled
    && Ipv4Frames(s'.sent) == Ipv4Frames(s.sent)
  }

  lemma MergeKeeps(s: State, s': State, m: ArpMessage, now: nat)
    requires Inv(s) && Merges(s, s', m, now)
    ensures InvButQueueOf(s', m.source)
  {
    forall h: Ipv4 ensures AcceptedFor(s'.accepted, h) == SettledFor(s'.settled, h) + Queue(s', h) {
      assert AcceptedFor(s.accepted, h) == SettledFor(s.settled, h) + Queue(s, h);
    }
  }

  lemma RecvMerges(room: Schedule, s: State, m: ArpMessage, ours: bool, now: nat) returns (s2: State)
    requires m.source in s.arp || ours
    ensures Merges(s, s2, m, now) && RecvArp(room, s, m, ours, now) == DequeuePending(room, s2, m.sourceMac, m.source)
  {
    var reply := ArpReply(m.sourceMac, m.source, m.target);
    var s1 := Learns(s, m.source, m.sourceMac, now);
    s2 := if ours && m.isRequest then Send(room, s1, reply).0 else s1;
    FramesSnoc(s1.sent, reply);
  }

  lemma RecvArpKeeps(room: Schedule, s: State, m: ArpMessage, ours: bool, now: nat)
    requires Inv(s)
    ensures Inv(RecvArp(room, s, m, ours, now))
    ensures m.source in s.arp || ours ==> m.source !in RecvArp(room, s, m, ours, now).queues
  {
    if m.source in s.arp || ours {
      var s2 := RecvMerges(room, s, m, ours, now);
      MergeKeeps(s, s2, m, now);
      DequeueKeeps(room, s2, m.sourceMac, m.source);
    }
  }

  /** What a pending entry can answer: the Resolved, ResolvedStale and Restart arms
      are unreachable. */
  lemma PendingAnswers(entry: Entry, source: Ipv4, asked: nat, sent: nat)
    requires entry.Pending?
    ensures var (after, state) := Answer(Some(entry), source, asked, sent);
            && after.Some? && !after.value.Known?
            && (state.PendingWait? || state.PendingRetry? || state.Timeout?)
  {
  }

  lemma TimedKeeps(room: Schedule, s: State, hop: Ipv4, state: ArpState, sent: nat)
    requires Inv(s) && (state.PendingWait? || state.PendingRetry? || state.Timeout?)
    requires state.Timeout? ==> !(hop in s.arp && s.arp[hop].Known?)
    ensures var s' := Timed(room, s, hop, state, sent);
            && Inv(s') && (state.Timeout? ==> hop !in s'.queues)
            && (forall h :: h in s.arp && h != hop ==> h in s'.arp && s'.arp[h] == s.arp[h])
  {
    if state.PendingRetry? {
      SendArpRequestKeeps(room, s, hop, state.source, sent);
    } else if state.Timeout? {
      DropKeeps(s, hop);
      DropKeepsTable(s, hop);
    }
  }

  lemma TimerKeeps(room: Schedule, s: State, hop: Ipv4, source: Ipv4, asked: nat, sent: nat)
    requires Inv(s) && hop in s.arp && s.arp[hop].Pending?
    ensures var (s', state) := Timer(room, s, hop, source, asked, sent);
            && Inv(s')
            && (state.PendingWait? || state.PendingRetry? || state.Timeout?)
            && (state.Timeout? ==> hop !in s'.queues)
            && (forall h :: h in s.arp && h != hop ==> h in s'.arp && s'.arp[h] == s.arp[h])
  {
    var (entry, state) := Answer(At(s.arp, hop), source, asked, sent);
    PendingAnswers(s.arp[hop], source, asked, sent);
    WaitingKeeps(s, hop, entry.value);
    TimedKeeps(room, s.(arp := Put(s.arp, hop, entry)), hop, state, sent);
  }

  lemma {:induction false} ReportQueueTable(s: State, hop: Ipv4, queue: seq<Packet>)
    ensures var s' := ReportQueue(s, hop, queue);
            s'.arp == s.arp && s'.requests == s.requests && s'.queues == s.queues
    decreases |queue|
  {
    if queue != [] {
      ReportQueueTable(s.(settled := s.settled + [Reported(hop, queue[0], ArpTimeout)]), hop, queue[1..]);
    }
  }

  lemma DropKeepsTable(s: State, hop: Ipv4)
    ensures DropPending(s, hop).arp == s.arp && DropPending(s, hop).requests == s.requests
  {
    if hop in s.queues { ReportQueueTable(s.(queues := s.queues - {hop}), hop, s.queues[hop]); }
  }

  lemma ProbeKeeps(room: Schedule, s: State, address: Ipv4, asked: nat, sent: nat)
    requires Inv(s)
    ensures Inv(Probe(room, s, address, asked, sent).0)
  {
    AskKeeps(room, s, address, UNSPECIFIED, UNSPECIFIED, asked, sent);
  }
}
