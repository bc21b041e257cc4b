/** The frames behind the Ethernet handler's records: what is pushed and what the ring
    takes, the ARP requests and replies among it, and the episode bounds on the request
    frames themselves. */
module ArpFrames {
  import opened Common
  import opened Arp
  import opened Ethernet
  import opened EthernetRuns
  import opened EthernetInPlace

  /** The frames there was room for. */
  function Through(room: Schedule, attempted: seq<Frame>): seq<Frame>
  {
    if attempted == [] then []
    else
      var n := |attempted| - 1;
      Through(room, attempted[..n]) + (if room(n) then [attempted[n]] else [])
  }

  /** The request frames pushed, by target and place. */
  function RequestsIn(attempted: seq<Frame>): seq<(Ipv4, nat)>
  {
    if attempted == [] then []
    else
      var n := |attempted| - 1;
      RequestsIn(attempted[..n]) + (if attempted[n].ArpRequest? then [(attempted[n].target, n)] else [])
  }

  function Places(requests: seq<Request>): seq<(Ipv4, nat)>
  {
    if requests == [] then []
    else
      var n := |requests| - 1;
      Places(requests[..n]) + [(requests[n].target, requests[n].place)]
  }

  /** The ring got exactly the frames there was room for, in order, and the requests
      recorded are exactly the request frames pushed, in order. */
  ghost predicate RingIs(room: Schedule, s: State)
  {
    s.sent == Through(room, s.attempted) && Places(s.requests) == RequestsIn(s.attempted)
  }

  lemma FrameSnoc(room: Schedule, attempted: seq<Frame>, f: Frame)
    ensures Through(room, attempted + [f]) == Through(room, attempted) + (if room(|attempted|) then [f] else [])
    ensures RequestsIn(attempted + [f])
         == RequestsIn(attempted) + (if f.ArpRequest? then [(f.target, |attempted|)] else [])
  {
    assert (attempted + [f])[..|attempted|] == attempted;
  }

  lemma PlaceSnoc(requests: seq<Request>, r: Request)
    ensures Places(requests + [r]) == Places(requests) + [(r.target, r.place)]
  {
    assert (requests + [r])[..|requests|] == requests;
  }

  lemma SendRing(room: Schedule, s: State, frame: Frame)
    requires RingIs(room, s) && !frame.ArpRequest?
    ensures RingIs(room, Send(room, s, frame).0)
  {
    FrameSnoc(room, s.attempted, frame);
  }

  lemma RequestRing(room: Schedule, s: State, target: Ipv4, source: Ipv4, now: nat)
    requires RingIs(room, s)
    ensures RingIs(room, SendArpRequest(room, s, target, source, now).0)
  {
    FrameSnoc(room, s.attempted, ArpRequest(target, source));
    PlaceSnoc(s.requests, Request(target, now, |s.attempted|));
  }

  lemma {:induction false} QueueRing(room: Schedule, s: State, hop: Ipv4, mac: Mac, queue: seq<Packet>)
    requires RingIs(room, s)
    ensures RingIs(room, SendQueue(room, s, hop, mac, queue))
    decreases |queue|
  {
    if queue != [] {
      SendRing(room, s, Ipv4Frame(mac, queue[0]));
      QueueRing(room, SendNext(room, s, hop, mac, queue[0]), hop, mac, queue[1..]);
    }
  }

  lemma DequeueRing(room: Schedule, s: State, mac: Mac, hop: Ipv4)
    requires RingIs(room, s)
    ensures RingIs(room, DequeuePending(room, s, mac, hop))
  {
    if hop in s.queues { QueueRing(room, s.(queues := s.queues - {hop}), hop, mac, s.queues[hop]); }
  }

  lemma {:induction false} ReportRing(room: Schedule, s: State, hop: Ipv4, queue: seq<Packet>)
    requires RingIs(room, s)
    ensures RingIs(room, ReportQueue(s, hop, queue))
    decreases |queue|
  {
    if queue != [] {
      ReportRing(room, s.(settled := s.settled + [Reported(hop, queue[0], ArpTimeout)]), hop, queue[1..]);
    }
  }

  lemma AskRing(room: Schedule, s: State, hop: Ipv4, source: Ipv4, source': Ipv4, asked: nat, sent: nat)
    requires RingIs(room, s)
    ensures RingIs(room, AskAndSend(room, s, hop, source, source', asked, sent).0)
  {
    RequestRing(room, s.(arp := Put(s.arp, hop, Answer(At(s.arp, hop), source, asked, sent).0)), hop, source', sent);
  }

  lemma SameRing(room: Schedule, s: State, s': State)
    requires RingIs(room, s) && s'.attempted == s.attempted && s'.sent == s.sent && s'.requests == s.requests
    ensures RingIs(room, s')
  {
  }

  lemma QueueOrSendRing(room: Schedule, s: State, state: ArpState, hop: Ipv4, packet: Packet)
    requires RingIs(room, s)
    ensures RingIs(room, QueueOrSend(room, s, state, hop, packet).0)
  {
    var s' := QueueOrSend(room, s, state, hop, packet).0;
    if state.Resolved? || state.ResolvedStale? {
      SendRing(room, s, Ipv4Frame(state.mac, packet));
      SameRing(room, Send(room, s, Ipv4Frame(state.mac, packet)).0, s');
    } else {
      SameRing(room, s, s');
    }
  }

  lemma SendPacketRing(room: Schedule, s: State, hop: Ipv4, source: Ipv4, packet: Packet, asked: nat, sent: nat)
    requires RingIs(room, s)
    ensures RingIs(room, SendIpv4(room, s, hop, source, packet, asked, sent).0)
  {
    var state := Answer(At(s.arp, hop), source, asked, sent).1;
    var source' := RequestSource(state, source);
    var s2 := AskAndSend(room, s, hop, source, source', asked, sent).0;
    AskRing(room, s, hop, source, source', asked, sent);
    QueueOrSendRing(room, s2, state, hop, packet);
    var s' := SendIpv4(room, s, hop, source, packet, asked, sent).0;
    assert s' == s2 || s' == QueueOrSend(room, s2, state, hop, packet).0;
  }

  lemma ReceiveRing(room: Schedule, s: State, m: ArpMessage, ours: bool, now: nat)
    requires RingIs(room, s)
    ensures RingIs(room, RecvArp(room, s, m, ours, now))
  {
    var merged := m.source in s.arp || ours;
    var s1 := if merged then Learns(s, m.source, m.sourceMac, now) else s;
    SameRing(room, s, s1);
    SendRing(room, s1, ArpReply(m.sourceMac, m.source, m.target));
    var s2 := if ours && m.isRequest then Send(room, s1, ArpReply(m.sourceMac, m.source, m.target)).0 else s1;
    DequeueRing(room, s2, m.sourceMac, m.source);
  }

  lemma TimerRing(room: Schedule, s: State, hop: Ipv4, source: Ipv4, asked: nat, sent: nat)
    requires RingIs(room, s)
    ensures RingIs(room, Timer(room, s, hop, source, asked, sent).0)
  {
    var (entry, state) := Answer(At(s.arp, hop), source, asked, sent);
    var s1 := s.(arp := Put(s.arp, hop, entry));
    match state
    case PendingWait(_) =>
    case PendingRetry(stored) => RequestRing(room, s1, hop, stored, sent);
    case Resolved(mac) => DequeueRing(room, s1, mac, hop);
    case ResolvedStale(mac) => DequeueRing(room, s1, mac, hop);
    case _ => if hop in s1.queues { ReportRing(room, s1.(queues := s1.queues - {hop}), hop, s1.queues[hop]); }
  }

  /** The one event left, a timer of a hop that may no longer be pending. */
  lemma FireRing(room: Schedule, s: State, e: Event)
    requires RingIs(room, s) && e.FireTimer?
    ensures RingIs(room, Step(room, s, e))
  {
    if e.hop in s.arp && s.arp[e.hop].Pending? { TimerRing(room, s, e.hop, e.source, e.asked, e.sent); }
  }

  lemma ControlRing(room: Schedule, s: State, e: Event)
    requires RingIs(room, s) && (e.ProbeAddress? || e.AddAddress? || e.Announce?)
    ensures RingIs(room, Step(room, s, e))
  {
    match e
    case ProbeAddress(a, asked, sent) => AskRing(room, s, a, UNSPECIFIED, UNSPECIFIED, asked, sent);
    case AddAddress(a, now) => RequestRing(room, s, a, UNSPECIFIED, now);
    case Announce(a) => SendRing(room, s, GratuitousArp(a));
  }

  lemma StepRing(room: Schedule, s: State, e: Event)
    requires RingIs(room, s)
    ensures RingIs(room, Step(room, s, e))
  {
    match e
    case SendPacket(hop, source, packet, asked, sent) => SendPacketRing(room, s, hop, source, packet, asked, sent);
    case ReceiveArp(m, ours, now) => ReceiveRing(room, s, m, ours, now);
    case FireTimer(_, _, _, _) => FireRing(room, s, e);
    case _ => ControlRing(room, s, e);
  }

  /** In every run, under every schedule of the ring. */
  lemma {:induction false} RingInRun(room: Schedule, s: State, events: seq<Event>)
    requires RingIs(room, s)
    ensures RingIs(room, EthernetRuns.Run(room, s, events))
    decreases |events|
  {
    if events != [] {
      StepRing(room, s, events[0]);
      RingInRun(room, Step(room, s, events[0]), events[1..]);
    }
  }

  // ----- Who is asked, and who is answered -----

  /** A question about the hop makes a request: it is unknown, or pending with its wait
      over and a retry left, or timed out 30 s ago, or known for a minute. */
  predicate Due(entry: Option<Entry>, asked: nat)
  {
    match entry
    case None => true
    case Some(Pending(since, retries, _)) => Elapsed(asked, since) > 100 * MILLISECOND && retries < 5
    case Some(TimedOut(since)) => Elapsed(asked, since) > 30 * SECOND
    case Some(Known(lastSeen, _)) => Elapsed(asked, lastSeen) >= 60 * SECOND
  }

  /** Another host announced the address less than half a minute ago. */
  predicate Taken(entry: Option<Entry>, asked: nat)
  {
    entry.Some? && entry.value.Known? && asked < entry.value.lastSeen + 30 * SECOND
  }

  /** Nobody answered for the address: five retries 100 ms apart went by, or they did
      no more than half a minute ago. */
  predicate Free(entry: Option<Entry>, asked: nat)
  {
    match entry
    case Some(Pending(since, retries, _)) => asked > since + 100 * MILLISECOND && retries >= 5
    case Some(TimedOut(since)) => asked <= since + 30 * SECOND
    case _ => false
  }

  lemma WholeSeconds(nanos: nat, seconds: nat)
    ensures nanos / SECOND >= seconds <==> nanos >= seconds * SECOND
  {
  }

  /** The source a request names: that of the entry it is for, or else the caller's. */
  function Asker(entry: Option<Entry>, source: Ipv4): Ipv4
  {
    if entry.Some? && entry.value.Pending? then entry.value.source else source
  }

  /** A request for the hop is pushed next; with room it is in the ring. */
  ghost predicate Requests(room: Schedule, s: State, s': State, hop: Ipv4, source: Ipv4, now: nat)
  {
    && |s'.attempted| > |s.attempted| && s'.attempted[|s.attempted|] == ArpRequest(hop, source)
    && s'.requests == s.requests + [Request(hop, now, |s.attempted|)]
    && (room(|s.attempted|) ==> |s'.sent| > |s.sent| && s'.sent[|s.sent|] == ArpRequest(hop, source))
  }

  /** send_ipv4 asks for the packet's own hop, exactly when a question is due, with the
      pending entry's own source or the packet's: and what it pushes otherwise, or
      after, is no request. */
  lemma SendAsksExactly(room: Schedule, s: State, hop: Ipv4, source: Ipv4, packet: Packet, asked: nat, sent: nat)
    ensures var s' := SendIpv4(room, s, hop, source, packet, asked, sent).0;
            var entry := At(s.arp, hop);
            if Due(entry, asked)
            then Requests(room, s, s', hop, Asker(entry, source), sent) && |s'.attempted| == |s.attempted| + 1
            else
              && s'.requests == s.requests
              && forall k :: |s.attempted| <= k < |s'.attempted| ==> s'.attempted[k].Ipv4Frame?
  {
    if hop in s.arp && s.arp[hop].Known? { WholeSeconds(Elapsed(asked, s.arp[hop].lastSeen), 60); }
  }

  /** So the first packet for an unknown hop, with room, leaves in the ring a request
      for that very hop, and itself in its queue. */
  lemma FirstPacketAsks(room: Schedule, hop: Ipv4, source: Ipv4, packet: Packet, asked: nat, sent: nat)
    requires room(0)
    ensures var (s', r) := SendIpv4(room, Init(), hop, source, packet, asked, sent);
            r.Ok? && s'.sent == [ArpRequest(hop, source)] && Queue(s', hop) == [packet]
  {
  }

  /** The worker's probe asks from no address, as RFC 5227 has it. */
  lemma ProbeAsksExactly(room: Schedule, s: State, address: Ipv4, asked: nat, sent: nat)
    ensures var s' := Probe(room, s, address, asked, sent).0;
            var entry := At(s.arp, address);
            if Due(entry, asked) then Requests(room, s, s', address, UNSPECIFIED, sent)
            else s'.requests == s.requests && s'.attempted == s.attempted
  {
    if address in s.arp && s.arp[address].Known? { WholeSeconds(Elapsed(asked, s.arp[address].lastSeen), 60); }
  }

  /** A timer asks again for the target it is for, under the entry's source. */
  lemma TimerAsksExactly(room: Schedule, s: State, hop: Ipv4, source: Ipv4, asked: nat, sent: nat)
    requires hop in s.arp && s.arp[hop].Pending?
    ensures var s' := Timer(room, s, hop, source, asked, sent).0;
            if Due(At(s.arp, hop), asked) then Requests(room, s, s', hop, s.arp[hop].source, sent)
            else s'.requests == s.requests
  {
    var (entry, state) := Answer(At(s.arp, hop), source, asked, sent);
    if state.Timeout? { DropKeepsTable(s.(arp := Put(s.arp, hop, entry)), hop); }
  }

  lemma {:induction false} QueuePushes(room: Schedule, s: State, hop: Ipv4, mac: Mac, queue: seq<Packet>)
    ensures var s' := SendQueue(room, s, hop, mac, queue);
            |s'.attempted| == |s.attempted| + |queue| && s'.attempted[..|s.attempted|] == s.attempted
            && s.sent <= s'.sent
            && forall k :: 0 <= k < |queue| ==> s'.attempted[|s.attempted| + k] == Ipv4Frame(mac, queue[k])
    decreases |queue|
  {
    if queue != [] { QueuePushes(room, SendNext(room, s, hop, mac, queue[0]), hop, mac, queue[1..]); }
  }

  /** A request for an address of ours is answered to the one who asks, with the address
      asked for, before anything else; no other ARP message is. All else that is pushed
      is the queue of the hop the message resolves, in order, to the hardware address
      it announces. */
  lemma ArpAnsweredExactly(room: Schedule, s: State, m: ArpMessage, ours: bool, now: nat)
    ensures var s' := RecvArp(room, s, m, ours, now);
            var replies := if ours && m.isRequest then [ArpReply(m.sourceMac, m.source, m.target)] else [];
            var queue := if m.source in s.arp || ours then Queue(s, m.source) else [];
            && |s'.attempted| == |s.attempted| + |replies| + |queue|
            && s.attempted + replies <= s'.attempted
            && (forall k :: 0 <= k < |queue| ==>
                  s'.attempted[|s.attempted| + |replies| + k] == Ipv4Frame(m.sourceMac, queue[k]))
            && (replies != [] && room(|s.attempted|) ==> s.sent + replies <= s'.sent)
  {
    var merged := m.source in s.arp || ours;
    var s1 := if merged then Learns(s, m.source, m.sourceMac, now) else s;
    var s2 := if ours && m.isRequest then Send(room, s1, ArpReply(m.sourceMac, m.source, m.target)).0 else s1;
    if merged && m.source in s2.queues {
      QueuePushes(room, s2.(queues := s2.queues - {m.source}), m.source, m.sourceMac, s2.queues[m.source]);
    }
  }

  // ----- What becomes of a packet -----

  /** The packet waits for an answer: nothing is known of the hop, or what is known is
      too old, or it is being asked for. */
  predicate Awaited(entry: Option<Entry>, asked: nat)
  {
    Due(entry, asked) || (entry.Some? && entry.value.Pending? && asked <= entry.value.since + 100 * MILLISECOND)
  }

  /** Over every entry, clock reading and ring: send_ipv4 refuses a packet for a hop that
      did not answer; it hands one for a known hop to the ring, under the address known;
      and it queues one for a hop being asked for as the last of five at most, if the
      request due found room. */
  lemma SendOutcomeExactly(room: Schedule, s: State, hop: Ipv4, source: Ipv4, packet: Packet, asked: nat, sent: nat)
    ensures var (s', r) := SendIpv4(room, s, hop, source, packet, asked, sent);
            var entry := At(s.arp, hop);
            var asks := Due(entry, asked);
            if Free(entry, asked) then r == Err(ArpTimeout) && s'.accepted == s.accepted && s'.queues == s.queues
            else if Awaited(entry, asked) then
              if asks && !room(|s.attempted|) then r == Err(BufferFull) && s'.queues == s.queues
              else if |Queue(s, hop)| >= 5 then r == Err(ArpResolveBufferFull) && s'.queues == s.queues
              else r == Ok && s'.queues == s.queues[hop := Queue(s, hop) + [packet]]
            else
              && entry.Some? && entry.value.Known? && asked < entry.value.lastSeen + 60 * SECOND
              && s'.queues == s.queues && s'.attempted == s.attempted + [Ipv4Frame(entry.value.mac, packet)]
              && (if room(|s.attempted|)
                  then r == Ok && s'.settled == s.settled + [Handed(hop, packet, entry.value.mac)]
                  else r == Err(BufferFull) && s'.settled == s.settled)
  {
    if hop in s.arp && s.arp[hop].Known? { WholeSeconds(Elapsed(asked, s.arp[hop].lastSeen), 60); }
  }

  /** What a queue comes to that is handed over, packet by packet. */
  ghost predicate HandedOver(room: Schedule, place: nat, s: State, s': State, hop: Ipv4, mac: Mac, queue: seq<Packet>)
  {
    && |s'.settled| == |s.settled| + |queue| && s.settled <= s'.settled
    && forall k :: 0 <= k < |queue| ==>
         s'.settled[|s.settled| + k] == if room(place + k) then Handed(hop, queue[k], mac)
                                        else Reported(hop, queue[k], BufferFull)
  }

  lemma {:induction false} QueueSettles(room: Schedule, s: State, hop: Ipv4, mac: Mac, queue: seq<Packet>)
    ensures HandedOver(room, |s.attempted|, s, SendQueue(room, s, hop, mac, queue), hop, mac, queue)
    decreases |queue|
  {
    if queue != [] {
      var s1 := SendNext(room, s, hop, mac, queue[0]);
      QueueSettles(room, s1, hop, mac, queue[1..]);
      HandedNext(room, |s.attempted|, s, s1, SendQueue(room, s1, hop, mac, queue[1..]), hop, mac, queue);
    }
  }

  lemma HandedNext(room: Schedule, place: nat, s: State, s1: State, s': State, hop: Ipv4, mac: Mac,
                   queue: seq<Packet>)
    requires queue != [] && HandedOver(room, place, s, s1, hop, mac, queue[..1])
    requires HandedOver(room, place + 1, s1, s', hop, mac, queue[1..])
    ensures HandedOver(room, place, s, s', hop, mac, queue)
  {
    forall k | 0 <= k < |queue|
      ensures s'.settled[|s.settled| + k] == if room(place + k) then Handed(hop, queue[k], mac)
                                             else Reported(hop, queue[k], BufferFull)
    {
      if k == 0 { assert s'.settled[|s.settled|] == s1.settled[|s.settled|]; }
      else { assert s'.settled[|s1.settled| + (k - 1)] == s'.settled[|s.settled| + k]; }
    }
  }

  /** All of a queue that is given up is reported, in order, for want of an answer. */
  ghost predicate GivenUp(s: State, s': State, hop: Ipv4, queue: seq<Packet>)
  {
    && |s'.settled| == |s.settled| + |queue| && s.settled <= s'.settled
    && forall k :: 0 <= k < |queue| ==> s'.settled[|s.settled| + k] == Reported(hop, queue[k], ArpTimeout)
  }

  lemma {:induction false} ReportSettles(s: State, hop: Ipv4, queue: seq<Packet>)
    ensures GivenUp(s, ReportQueue(s, hop, queue), hop, queue)
    ensures ReportQueue(s, hop, queue).queues == s.queues
    decreases |queue|
  {
    if queue != [] {
      var s1 := s.(settled := s.settled + [Reported(hop, queue[0], ArpTimeout)]);
      ReportSettles(s1, hop, queue[1..]);
      var s' := ReportQueue(s1, hop, queue[1..]);
      forall k | 0 <= k < |queue| ensures s'.settled[|s.settled| + k] == Reported(hop, queue[k], ArpTimeout) {
        if k > 0 { assert s'.settled[|s1.settled| + (k - 1)] == s'.settled[|s.settled| + k]; }
      }
    }
  }

  /** The timer of a hop gives its queue up exactly when the last retry's wait is over. */
  lemma TimerGivesUpExactly(room: Schedule, s: State, hop: Ipv4, source: Ipv4, asked: nat, sent: nat)
    requires hop in s.arp && s.arp[hop].Pending?
    ensures var s' := Timer(room, s, hop, source, asked, sent).0;
            if Free(At(s.arp, hop), asked) then GivenUp(s, s', hop, Queue(s, hop)) && Queue(s', hop) == []
            else s'.settled == s.settled && s'.queues == s.queues
  {
    if hop in s.queues {
      var entry := Answer(At(s.arp, hop), source, asked, sent).0;
      var s1 := s.(arp := Put(s.arp, hop, entry));
      ReportSettles(s1.(queues := s1.queues - {hop}), hop, s1.queues[hop]);
    }
  }

  /** Each packet given up is reported to the protocols: why, under its header, with the
      first eight octets of what it carried. */
  lemma {:induction false} GivenUpForwarded(settled: seq<Settled>, settled': seq<Settled>, hop: Ipv4,
                                            queue: seq<Packet>, k: nat)
    requires settled <= settled' && |settled'| == |settled| + |queue| && k < |queue|
    requires forall i :: 0 <= i < |queue| ==>
               |queue[i].payload| >= 8 && settled'[|settled| + i] == Reported(hop, queue[i], ArpTimeout)
    ensures |ForwardedOf(settled')| == |ForwardedOf(settled)| + |queue|
    ensures ForwardedOf(settled')[|ForwardedOf(settled)| + k]
         == AsyncError(ArpTimeout, queue[k].header, queue[k].payload[..8])
  {
    var n, m := |queue| - 1, |settled'| - 1;
    assert settled'[m] == settled'[|settled| + n] == Reported(hop, queue[n], ArpTimeout);
    if n == 0 {
      assert settled'[..m] == settled;
    } else {
      GivenUpForwarded(settled, settled'[..m], hop, queue[..n], if k < n then k else 0);
    }
  }

  /** And an ARP message that names the hop hands its queue over. */
  lemma AnswerHandsOver(room: Schedule, s: State, m: ArpMessage, ours: bool, now: nat)
    ensures var s' := RecvArp(room, s, m, ours, now);
            var place := if ours && m.isRequest then 1 else 0;
            if m.source in s.arp || ours then
              && Queue(s', m.source) == [] && m.source in s'.arp && s'.arp[m.source] == Known(now, m.sourceMac)
              && HandedOver(room, |s.attempted| + place, s, s', m.source, m.sourceMac, Queue(s, m.source))
            else s'.settled == s.settled && s'.queues == s.queues && s'.arp == s.arp
  {
    if m.source in s.arp || ours {
      var s1 := Learns(s, m.source, m.sourceMac, now);
      var s2 := if ours && m.isRequest then Send(room, s1, ArpReply(m.sourceMac, m.source, m.target)).0 else s1;
      DequeueSettles(room, s2, m.sourceMac, m.source);
      HandedFrom(room, |s2.attempted|, s, s2, RecvArp(room, s, m, ours, now), m.source, m.sourceMac,
                 Queue(s2, m.source));
    }
  }

  lemma HandedFrom(room: Schedule, place: nat, s: State, s2: State, s': State, hop: Ipv4, mac: Mac, queue: seq<Packet>)
    requires s2.settled == s.settled && HandedOver(room, place, s2, s', hop, mac, queue)
    ensures HandedOver(room, place, s, s', hop, mac, queue)
  {
  }

  lemma DequeueSettles(room: Schedule, s: State, mac: Mac, hop: Ipv4)
    ensures var s' := DequeuePending(room, s, mac, hop);
            && Queue(s', hop) == [] && s'.arp == s.arp
            && HandedOver(room, |s.attempted|, s, s', hop, mac, Queue(s, hop))
  {
    if hop in s.queues {
      var s1 := s.(queues := s.queues - {hop});
      QueueSettles(room, s1, hop, mac, s.queues[hop]);
      SendQueueLeaves(room, s1, hop, mac, s.queues[hop]);
    }
  }

  // ----- The episode bounds, on the frames themselves -----

  /** The times of the request frames for a target that the ring took. */
  function SentTimes(room: Schedule, requests: seq<Request>, target: Ipv4): seq<nat>
  {
    if requests == [] then []
    else
      var last := requests[|requests| - 1];
      SentTimes(room, requests[..|requests| - 1], target)
      + (if last.target == target && room(last.place) then [last.at] else [])
  }

  /** The request frames for a target among some frames. */
  function FramesFor(frames: seq<Frame>, target: Ipv4): nat
  {
    if frames == [] then 0
    else
      var last := frames[|frames| - 1];
      FramesFor(frames[..|frames| - 1], target) + (if last.ArpRequest? && last.target == target then 1 else 0)
  }

  lemma FramesForSnoc(frames: seq<Frame>, f: Frame, target: Ipv4)
    ensures FramesFor(frames + [f], target)
         == FramesFor(frames, target) + (if f.ArpRequest? && f.target == target then 1 else 0)
  {
    assert (frames + [f])[..|frames|] == frames;
  }

  /** As many as those times. */
  lemma {:induction false} FramesAreTimed(room: Schedule, requests: seq<Request>, attempted: seq<Frame>, target: Ipv4)
    requires Places(requests) == RequestsIn(attempted)
    ensures FramesFor(Through(room, attempted), target) == |SentTimes(room, requests, target)|
    decreases |attempted|
  {
    if attempted != [] {
      var n := |attempted| - 1;
      var before, f := attempted[..n], attempted[n];
      assert attempted == before + [f];
      FrameSnoc(room, before, f);
      FramesForSnoc(Through(room, before), f, target);
      assert Through(room, before) + [] == Through(room, before);
      if f.ArpRequest? {
        LastPlace(requests, RequestsIn(before), (f.target, n));
        FramesAreTimed(room, requests[..|requests| - 1], before, target);
      } else {
        assert RequestsIn(before) + [] == RequestsIn(before);
        FramesAreTimed(room, requests, before, target);
      }
    } else {
      LengthOfPlaces(requests);
    }
  }

  lemma {:induction false} LengthOfPlaces(requests: seq<Request>)
    ensures |Places(requests)| == |requests|
  {
    if requests != [] { LengthOfPlaces(requests[..|requests| - 1]); }
  }

  lemma LastPlace(requests: seq<Request>, places: seq<(Ipv4, nat)>, place: (Ipv4, nat))
    requires Places(requests) == places + [place]
    ensures requests != [] && Places(requests[..|requests| - 1]) == places
    ensures var last := requests[|requests| - 1]; (last.target, last.place) == place
  {
    LengthOfPlaces(requests);
    var n := |requests| - 1;
    var last := (requests[n].target, requests[n].place);
    assert Places(requests[..n]) + [last] == places + [place];
    LengthOfPlaces(requests[..n]);
    assert (Places(requests[..n]) + [last])[..n] == Places(requests[..n]);
    assert (places + [place])[..n] == places;
  }

  ghost predicate AllSpaced(times: seq<nat>)
  {
    forall i, j :: 0 <= i < j < |times| ==> times[j] > times[i] + REQUEST_TIMEOUT
  }

  lemma {:induction false} SpacedIsAllSpaced(times: seq<nat>)
    requires Spaced(times)
    ensures AllSpaced(times)
  {
    if times != [] {
      var n := |times| - 1;
      SpacedIsAllSpaced(times[..n]);
      if n > 0 { assert times[n] > times[n - 1] + REQUEST_TIMEOUT; }
    }
  }

  /** The frames are a part of the requests made, spaced as they are. */
  lemma {:induction false} SentAmongMade(room: Schedule, requests: seq<Request>, target: Ipv4)
    requires AllSpaced(RequestTimes(requests, target))
    ensures var sent, made := SentTimes(room, requests, target), RequestTimes(requests, target);
            && |sent| <= |made| && AllSpaced(sent) && forall t :: t in sent ==> t in made
  {
    if requests != [] {
      var before, last := requests[..|requests| - 1], requests[|requests| - 1];
      var made, earlier := RequestTimes(requests, target), RequestTimes(before, target);
      if last.target == target {
        assert made == earlier + [last.at] && made[..|earlier|] == earlier;
        assert AllSpaced(earlier) by {
          forall i, j | 0 <= i < j < |earlier| ensures earlier[j] > earlier[i] + REQUEST_TIMEOUT {
            assert made[j] > made[i] + REQUEST_TIMEOUT;
          }
        }
        SentAmongMade(room, before, target);
        var sent := SentTimes(room, before, target);
        forall i | 0 <= i < |sent| ensures last.at > sent[i] + REQUEST_TIMEOUT {
          assert sent[i] in earlier;
          var k :| 0 <= k < |earlier| && earlier[k] == sent[i];
          assert made[|earlier|] > made[k] + REQUEST_TIMEOUT;
        }
      } else {
        assert earlier + [] == earlier;
        SentAmongMade(room, before, target);
      }
    }
  }

  /** The requests before the last `count` of a target's. */
  lemma {:induction false} SplitTimes(requests: seq<Request>, target: Ipv4, count: nat) returns (m: nat)
    requires count <= |RequestTimes(requests, target)|
    ensures m <= |requests| && |RequestTimes(requests[..m], target)| == |RequestTimes(requests, target)| - count
    decreases |requests|
  {
    if count == 0 {
      m := |requests|;
      assert requests[..m] == requests;
    } else if requests == [] {
      assert false;
    } else {
      var before, last := requests[..|requests| - 1], requests[|requests| - 1];
      assert requests == before + [last];
      RequestSnoc(before, last);
      m := SplitTimes(before, target, if last.target == target then count - 1 else count);
      assert before[..m] == requests[..m];
    }
  }

  lemma {:induction false} MadeSplits(requests: seq<Request>, m: nat, target: Ipv4)
    requires m <= |requests|
    ensures RequestTimes(requests, target)
         == RequestTimes(requests[..m], target) + RequestTimes(requests[m..], target)
    decreases |requests|
  {
    if m == |requests| {
      assert requests[..m] == requests && requests[m..] == [];
    } else {
      var n := |requests| - 1;
      MadeSplits(requests[..n], m, target);
      assert requests[..n][..m] == requests[..m] && requests[..n][m..] == requests[m..][..|requests[m..]| - 1];
    }
  }

  lemma {:induction false} SentSplits(room: Schedule, requests: seq<Request>, m: nat, target: Ipv4)
    requires m <= |requests|
    ensures SentTimes(room, requests, target)
         == SentTimes(room, requests[..m], target) + SentTimes(room, requests[m..], target)
    decreases |requests|
  {
    if m == |requests| {
      assert requests[..m] == requests && requests[m..] == [];
    } else {
      var n := |requests| - 1;
      SentSplits(room, requests[..n], m, target);
      assert requests[..n][..m] == requests[..m] && requests[..n][m..] == requests[m..][..|requests[m..]| - 1];
    }
  }

  /** `frames` are the times of the request frames of the episode under way. */
  ghost predicate EpisodeFrames(e: Episode, frames: seq<nat>)
  {
    |frames| <= Limit(e) && AllSpaced(frames) && forall t :: t in frames ==> t in e.requests && t >= e.start
  }

  /** In every undisturbed run, the ring holds for a target as many request frames as
      requests found room; and the last of them are those of the episode under way, at
      most five, or six if can_send_request began it, more than 100 ms apart. */
  lemma EpisodesOfFrames(room: Schedule, events: seq<EthernetRuns.Event>, target: Ipv4)
    requires Undisturbed(room, Init(), events, target, UNKNOWN)
    ensures var s := EthernetRuns.Run(room, Init(), events);
            var t := TrackOf(room, Init(), events, target, UNKNOWN);
            var times := SentTimes(room, s.requests, target);
            && FramesFor(s.sent, target) == |times|
            && (t.episode.Some? ==>
                  exists n :: 0 <= n <= |times| && EpisodeFrames(t.episode.value, times[n..]))
  {
    EpisodesInRun(room, Init(), events, target, UNKNOWN);
    RingInRun(room, Init(), events);
    var s := EthernetRuns.Run(room, Init(), events);
    var t := TrackOf(room, Init(), events, target, UNKNOWN);
    FramesAreTimed(room, s.requests, s.attempted, target);
    if t.episode.Some? { LastEpisode(room, s, target, t); }
  }

  lemma LastEpisode(room: Schedule, s: State, target: Ipv4, t: Track)
    requires Follows(s, target, t) && EpisodeInv(t) && EmittedLast(t) && t.episode.Some?
    ensures var times := SentTimes(room, s.requests, target);
            exists n :: 0 <= n <= |times| && EpisodeFrames(t.episode.value, times[n..])
  {
    var e := t.episode.value;
    var m := SplitTimes(s.requests, target, |e.requests|);
    MadeSplits(s.requests, m, target);
    var made := RequestTimes(s.requests[m..], target);
    assert made == t.emitted[|t.emitted| - |e.requests|..] == e.requests;
    SpacedIsAllSpaced(e.requests);
    SentAmongMade(room, s.requests[m..], target);
    SentSplits(room, s.requests, m, target);
    var times, n := SentTimes(room, s.requests, target), |SentTimes(room, s.requests[..m], target)|;
    assert times[n..] == SentTimes(room, s.requests[m..], target);
    FromStart(e);
    assert EpisodeFrames(e, times[n..]);
  }

  lemma FromStart(e: Episode)
    requires e.requests != [] && e.start <= e.requests[0] && AllSpaced(e.requests)
    ensures forall t :: t in e.requests ==> t >= e.start
  {
    forall t | t in e.requests ensures t >= e.start {
      var k :| 0 <= k < |e.requests| && e.requests[k] == t;
      if k > 0 { assert e.requests[k] > e.requests[0] + REQUEST_TIMEOUT; }
    }
  }
}
