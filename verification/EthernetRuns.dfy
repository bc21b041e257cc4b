/** What every run of the Ethernet handlers keeps: conservation and order of the
    packets waiting for ARP, and the episode bound on the requests emitted. */
module EthernetRuns {
  import opened Common
  import opened Arp
  import opened Ethernet

  /** One handler call, with its arguments and clock readings. */
  datatype Event =
    | SendPacket(hop: Ipv4, source: Ipv4, packet: Packet, asked: nat, sent: nat)
    | ReceiveArp(message: ArpMessage, ours: bool, now: nat)
    | FireTimer(hop: Ipv4, source: Ipv4, asked: nat, sent: nat)
    | ProbeAddress(address: Ipv4, asked: nat, sent: nat)
    | AddAddress(address: Ipv4, now: nat)
    | Announce(address: Ipv4)

  function Step(room: Schedule, s: State, e: Event): State
  {
    match e
    case SendPacket(hop, source, packet, asked, sent) => SendIpv4(room, s, hop, source, packet, asked, sent).0
    case ReceiveArp(message, ours, now) => RecvArp(room, s, message, ours, now)
    case FireTimer(hop, source, asked, sent) =>
      // The timers visit pending entries only.
      if hop in s.arp && s.arp[hop].Pending? then Timer(room, s, hop, source, asked, sent).0 else s
    case ProbeAddress(address, asked, sent) => Probe(room, s, address, asked, sent).0
    case AddAddress(address, now) => SendArpRequest(room, s, address, UNSPECIFIED, now).0
    case Announce(address) => Send(room, s, GratuitousArp(address)).0
  }

  function Run(room: Schedule, s: State, events: seq<Event>): State
    decreases |events|
  {
    if events == [] then s else Run(room, Step(room, s, events[0]), events[1..])
  }

  predicate Sendable(e: Event)
  {
    e.SendPacket? ==> LongEnough(e.packet)
  }

  lemma StepKeeps(room: Schedule, s: State, e: Event)
    requires Inv(s) && Sendable(e)
    ensures Inv(Step(room, s, e))
  {
    match e
    case SendPacket(hop, source, packet, asked, sent) => SendIpv4Keeps(room, s, hop, source, packet, asked, sent);
    case ReceiveArp(message, ours, now) => RecvArpKeeps(room, s, message, ours, now);
    case FireTimer(hop, source, asked, sent) =>
      if hop in s.arp && s.arp[hop].Pending? { TimerKeeps(room, s, hop, source, asked, sent); }
    case ProbeAddress(address, asked, sent) => ProbeKeeps(room, s, address, asked, sent);
    case AddAddress(address, now) => SendArpRequestKeeps(room, s, address, UNSPECIFIED, now);
    case Announce(address) => SendKeeps(room, s, GratuitousArp(address));
  }

  /** In every run of handlers, under every schedule of the send ring: a hop with
      queued packets is Pending or TimedOut, never resolved and never absent; per hop
      the accepted packets are the settled ones in acceptance order and then the
      queued ones; and the IPv4 frames in the ring are the packets handed over. */
  lemma {:induction false} EveryRun(room: Schedule, s: State, events: seq<Event>)
    requires Inv(s) && forall e :: e in events ==> Sendable(e)
    ensures Inv(Run(room, s, events))
    decreases |events|
  {
    if events != [] {
      StepKeeps(room, s, events[0]);
      EveryRun(room, Step(room, s, events[0]), events[1..]);
    }
  }

  /** A packet is accepted exactly when send_ipv4 says Ok; a rejected one is neither
      queued nor settled. */
  lemma AcceptedMeansOk(room: Schedule, s: State, hop: Ipv4, source: Ipv4, packet: Packet, asked: nat, sent: nat)
    ensures var (s', r) := SendIpv4(room, s, hop, source, packet, asked, sent);
            if r.Ok? then s'.accepted == s.accepted + [Queued(hop, packet)]
            else s'.accepted == s.accepted && s'.settled == s.settled && s'.queues == s.queues
                 && Ipv4Frames(s'.sent) == Ipv4Frames(s.sent)
  {
    var (entry, state) := Answer(At(s.arp, hop), source, asked, sent);
    var s1 := s.(arp := Put(s.arp, hop, entry));
    if Asks(state) { RequestSendsNoPacket(room, s1, hop, RequestSource(state, source), sent); }
    var (s2, r) := if Asks(state) then SendArpRequest(room, s1, hop, RequestSource(state, source), sent) else (s1, Ok);
    assert s2.accepted == s.accepted && s2.settled == s.settled && s2.queues == s.queues;
    assert Ipv4Frames(s2.sent) == Ipv4Frames(s.sent);
    match state
    case Resolved(mac) => assert r.Ok?;
    case ResolvedStale(mac) => assert SendIpv4(room, s, hop, source, packet, asked, sent)
                                   == if r.Ok? then SendResolved(room, s2, hop, mac, packet) else (s2, r);
    case _ =>
  }

  lemma RequestSendsNoPacket(room: Schedule, s: State, target: Ipv4, source: Ipv4, now: nat)
    ensures var (s', r) := SendArpRequest(room, s, target, source, now);
            s'.accepted == s.accepted && s'.settled == s.settled && s'.queues == s.queues
            && Ipv4Frames(s'.sent) == Ipv4Frames(s.sent)
  {
    FramesSnoc(s.sent, ArpRequest(target, source));
  }

  function HandedFor(settled: seq<Settled>, hop: Ipv4): seq<Packet>
  {
    if settled == [] then []
    else
      var last := settled[|settled| - 1];
      HandedFor(settled[..|settled| - 1], hop) + (if last.hop == hop && last.Handed? then [last.packet] else [])
  }

  function ReportedFor(settled: seq<Settled>, hop: Ipv4): seq<Packet>
  {
    if settled == [] then []
    else
      var last := settled[|settled| - 1];
      ReportedFor(settled[..|settled| - 1], hop) + (if last.hop == hop && last.Reported? then [last.packet] else [])
  }

  /** a is b with some elements left out. */
  predicate Subsequence<T(==)>(a: seq<T>, b: seq<T>)
  {
    if a == [] then true
    else if b == [] then false
    else if a[|a| - 1] == b[|b| - 1] && Subsequence(a[..|a| - 1], b[..|b| - 1]) then true
    else Subsequence(a, b[..|b| - 1])
  }

  lemma {:induction false} SubsequenceExtends<T>(a: seq<T>, b: seq<T>, c: seq<T>)
    requires Subsequence(a, b)
    ensures Subsequence(a, b + c)
    decreases |c|
  {
    if c == [] {
      assert b + c == b;
    } else {
      assert (b + c)[..|b + c| - 1] == b + c[..|c| - 1];
      SubsequenceExtends(a, b, c[..|c| - 1]);
    }
  }

  lemma {:induction false} SettledSplits(settled: seq<Settled>, hop: Ipv4)
    ensures multiset(SettledFor(settled, hop))
         == multiset(HandedFor(settled, hop)) + multiset(ReportedFor(settled, hop))
  {
    if settled != [] { SettledSplits(settled[..|settled| - 1], hop); }
  }

  lemma {:induction false} HandedInOrder(settled: seq<Settled>, hop: Ipv4)
    ensures Subsequence(HandedFor(settled, hop), SettledFor(settled, hop))
  {
    if settled != [] {
      var rest, last := settled[..|settled| - 1], settled[|settled| - 1];
      var handed, all := HandedFor(rest, hop), SettledFor(rest, hop);
      HandedInOrder(rest, hop);
      if last.hop == hop && last.Handed? {
        assert (handed + [last.packet])[..|handed|] == handed && (all + [last.packet])[..|all|] == all;
      } else {
        assert handed + [] == handed;
        SubsequenceExtends(handed, all, if last.hop == hop then [last.packet] else []);
      }
    }
  }

  /** Conservation and order, hop by hop: each accepted packet is handed over,
      reported or queued, once; and what is handed over for a hop keeps the order of
      acceptance. */
  lemma ConservedPerHop(room: Schedule, events: seq<Event>, hop: Ipv4)
    requires forall e :: e in events ==> Sendable(e)
    ensures var s := Run(room, Init(), events);
            && multiset(AcceptedFor(s.accepted, hop))
            == multiset(HandedFor(s.settled, hop)) + multiset(ReportedFor(s.settled, hop)) + multiset(Queue(s, hop))
            && Subsequence(HandedFor(s.settled, hop), AcceptedFor(s.accepted, hop))
  {
    EveryRun(room, Init(), events);
    var s := Run(room, Init(), events);
    SettledSplits(s.settled, hop);
    HandedInOrder(s.settled, hop);
    SubsequenceExtends(HandedFor(s.settled, hop), SettledFor(s.settled, hop), Queue(s, hop));
  }

  // ----- When "queued packets mean a pending entry" fails -----

  /** Packets wait for the hop behind an entry that is not pending but timed out. */
  predicate Stranded(s: State, hop: Ipv4)
  {
    Queue(s, hop) != [] && hop in s.arp && s.arp[hop].TimedOut?
  }

  /** A handler asks the table for the hop, and sends a request if told to. */
  predicate AsksFor(e: Event, hop: Ipv4)
  {
    (e.SendPacket? && e.hop == hop) || (e.ProbeAddress? && e.address == hop)
  }

  /** The answer to a question put at this time is Timeout. */
  predicate TimesOut(entry: Option<Entry>, asked: nat)
  {
    match entry
    case Some(TimedOut(since)) => Elapsed(asked, since) <= LIFETIME_SEC * SECOND
    case Some(Pending(since, retries, _)) => Elapsed(asked, since) > REQUEST_TIMEOUT && retries >= MAX_RETRY
    case _ => false
  }

  predicate Resolves(s: State, e: Event, hop: Ipv4)
  {
    e.ReceiveArp? && e.message.source == hop && (hop in s.arp || e.ours)
  }

  /** The one step that strands a queue, or leaves it stranded, by asking. */
  predicate Strands(s: State, e: Event, hop: Ipv4)
  {
    AsksFor(e, hop) && Queue(s, hop) != [] && TimesOut(At(s.arp, hop), e.asked)
  }

  lemma SendStrandsExactly(room: Schedule, s: State, hop: Ipv4, source: Ipv4, packet: Packet, asked: nat, sent: nat)
    ensures Stranded(SendIpv4(room, s, hop, source, packet, asked, sent).0, hop)
       <==> Queue(s, hop) != [] && TimesOut(At(s.arp, hop), asked)
  {
  }

  lemma ProbeStrandsExactly(room: Schedule, s: State, hop: Ipv4, asked: nat, sent: nat)
    ensures Stranded(Probe(room, s, hop, asked, sent).0, hop)
       <==> Queue(s, hop) != [] && TimesOut(At(s.arp, hop), asked)
  {
  }

  lemma AskStrandsExactly(room: Schedule, s: State, e: Event, hop: Ipv4)
    requires AsksFor(e, hop)
    ensures Stranded(Step(room, s, e), hop) <==> Strands(s, e, hop)
  {
    match e
    case SendPacket(h, source, packet, asked, sent) => SendStrandsExactly(room, s, h, source, packet, asked, sent);
    case ProbeAddress(a, asked, sent) => ProbeStrandsExactly(room, s, a, asked, sent);
  }

  lemma {:induction false} SendQueueLeaves(room: Schedule, s: State, hop: Ipv4, mac: Mac, queue: seq<Packet>)
    ensures var s' := SendQueue(room, s, hop, mac, queue);
            s'.arp == s.arp && s'.requests == s.requests && s'.queues == s.queues
    decreases |queue|
  {
    if queue != [] { SendQueueLeaves(room, SendNext(room, s, hop, mac, queue[0]), hop, mac, queue[1..]); }
  }

  lemma ReceiveStrands(room: Schedule, s: State, m: ArpMessage, ours: bool, now: nat, hop: Ipv4)
    ensures Stranded(RecvArp(room, s, m, ours, now), hop)
       <==> Stranded(s, hop) && !(m.source == hop && (hop in s.arp || ours))
  {
    if m.source in s.arp || ours {
      var s1 := Learns(s, m.source, m.sourceMac, now);
      var s2 := if ours && m.isRequest then Send(room, s1, ArpReply(m.sourceMac, m.source, m.target)).0 else s1;
      if m.source in s2.queues {
        SendQueueLeaves(room, s2.(queues := s2.queues - {m.source}), m.source, m.sourceMac, s2.queues[m.source]);
      }
    }
  }

  /** A timer that declares the timeout reports the whole queue. */
  lemma TimerStrands(room: Schedule, s: State, h: Ipv4, source: Ipv4, asked: nat, sent: nat, hop: Ipv4)
    requires h in s.arp && s.arp[h].Pending?
    ensures Stranded(Timer(room, s, h, source, asked, sent).0, hop) <==> Stranded(s, hop)
  {
    var (entry, state) := Answer(At(s.arp, h), source, asked, sent);
    var s1 := s.(arp := Put(s.arp, h, entry));
    if state.Timeout? && h in s1.queues { ReportQueueTable(s1.(queues := s1.queues - {h}), h, s1.queues[h]); }
  }

  /** Over every event: asking for the hop, by send_ipv4 or by the address probe,
      strands its queue exactly when there is one and the answer is Timeout; an ARP
      message that resolves the hop ends it; nothing else makes a difference. */
  lemma QueueBehindTimeoutExactly(room: Schedule, s: State, e: Event, hop: Ipv4)
    ensures Stranded(Step(room, s, e), hop) <==>
              if AsksFor(e, hop) then Strands(s, e, hop) else Stranded(s, hop) && !Resolves(s, e, hop)
  {
    match e
    case ReceiveArp(m, ours, now) => ReceiveStrands(room, s, m, ours, now, hop);
    case FireTimer(h, source, asked, sent) =>
      if h in s.arp && s.arp[h].Pending? { TimerStrands(room, s, h, source, asked, sent, hop); }
    case SendPacket(h, source, packet, asked, sent) =>
      if h == hop { AskStrandsExactly(room, s, e, hop); }
      else { SendSparesOthers(room, s, h, source, packet, asked, sent, hop); }
    case ProbeAddress(a, asked, sent) =>
      if a == hop { AskStrandsExactly(room, s, e, hop); } else { ProbeSparesOthers(room, s, a, asked, sent, hop); }
    case AddAddress(a, now) =>
    case Announce(_) =>
  }

  predicate SameFor(s: State, s': State, hop: Ipv4)
  {
    Queue(s', hop) == Queue(s, hop) && At(s'.arp, hop) == At(s.arp, hop)
  }

  lemma RequestSparesOthers(room: Schedule, s: State, h: Ipv4, source: Ipv4, now: nat, hop: Ipv4)
    requires h != hop
    ensures SameFor(s, SendArpRequest(room, s, h, source, now).0, hop)
  {
  }

  lemma SendSparesOthers(room: Schedule, s: State, h: Ipv4, source: Ipv4, packet: Packet, asked: nat, sent: nat,
                         hop: Ipv4)
    requires h != hop
    ensures SameFor(s, SendIpv4(room, s, h, source, packet, asked, sent).0, hop)
  {
    var (entry, state) := Answer(At(s.arp, h), source, asked, sent);
    RequestSparesOthers(room, s.(arp := Put(s.arp, h, entry)), h, RequestSource(state, source), sent, hop);
  }

  lemma ProbeSparesOthers(room: Schedule, s: State, a: Ipv4, asked: nat, sent: nat, hop: Ipv4)
    requires a != hop
    ensures SameFor(s, Probe(room, s, a, asked, sent).0, hop)
  {
    var (entry, state) := Answer(At(s.arp, a), UNSPECIFIED, asked, sent);
    RequestSparesOthers(room, s.(arp := Put(s.arp, a, entry)), a, UNSPECIFIED, sent, hop);
  }

  lemma {:induction false} RunSnoc(room: Schedule, s: State, events: seq<Event>, e: Event)
    ensures Run(room, s, events + [e]) == Step(room, Run(room, s, events), e)
    decreases |events|
  {
    if events == [] {
      assert [] + [e] == [e] && [e][1..] == [];
      assert Run(room, s, [e]) == Run(room, Step(room, s, e), []);
    } else {
      assert (events + [e])[1..] == events[1..] + [e];
      RunSnoc(room, Step(room, s, events[0]), events[1..], e);
    }
  }

  predicate Touches(e: Event, hop: Ipv4)
  {
    AsksFor(e, hop) || (e.ReceiveArp? && e.message.source == hop)
  }

  /** The k-th event strands the hop's queue, and nothing after it concerns the hop. */
  predicate StrandedBy(room: Schedule, events: seq<Event>, hop: Ipv4, k: nat)
    requires k < |events|
  {
    && Strands(Run(room, Init(), events[..k]), events[k], hop)
    && forall j :: k < j < |events| ==> !Touches(events[j], hop)
  }

  /** So a run ends with a queue behind a timed-out entry exactly when the last event
      to concern the hop, timers aside, asked for it and was told Timeout while
      packets were queued. */
  lemma {:induction false} QueueBehindTimeoutInRun(room: Schedule, events: seq<Event>, hop: Ipv4)
    ensures Stranded(Run(room, Init(), events), hop) <==>
              exists k :: 0 <= k < |events| && StrandedBy(room, events, hop, k)
  {
    if events != [] {
      var n := |events| - 1;
      var before, e := events[..n], events[n];
      assert events == before + [e];
      RunSnoc(room, Init(), before, e);
      QueueBehindTimeoutExactly(room, Run(room, Init(), before), e, hop);
      if Touches(e, hop) {
        LastTouch(room, events, hop);
      } else {
        QueueBehindTimeoutInRun(room, before, hop);
        StrandedBefore(room, events, before, hop);
      }
    }
  }

  lemma LastTouch(room: Schedule, events: seq<Event>, hop: Ipv4)
    requires events != [] && Touches(events[|events| - 1], hop)
    ensures (exists k :: 0 <= k < |events| && StrandedBy(room, events, hop, k))
       <==> Strands(Run(room, Init(), events[..|events| - 1]), events[|events| - 1], hop)
  {
    var n := |events| - 1;
    if Strands(Run(room, Init(), events[..n]), events[n], hop) { assert StrandedBy(room, events, hop, n); }
  }

  lemma StrandedBefore(room: Schedule, events: seq<Event>, before: seq<Event>, hop: Ipv4)
    requires events != [] && before == events[..|events| - 1] && !Touches(events[|events| - 1], hop)
    ensures (exists k :: 0 <= k < |events| && StrandedBy(room, events, hop, k))
       <==> exists k :: 0 <= k < |before| && StrandedBy(room, before, hop, k)
  {
    var n := |events| - 1;
    forall k | 0 <= k < n ensures StrandedBy(room, events, hop, k) <==> StrandedBy(room, before, hop, k) {
      assert before[..k] == events[..k];
      if StrandedBy(room, events, hop, k) {
        forall j | k < j < |before| ensures !Touches(before[j], hop) { assert before[j] == events[j]; }
      }
      if StrandedBy(room, before, hop, k) {
        forall j | k < j < |events| ensures !Touches(events[j], hop) { if j < n { assert before[j] == events[j]; } }
      }
    }
  }

  /** In terms of the property itself: queued packets mean a pending entry exactly in
      the runs without such an event. */
  lemma QueuedMeansPendingExactly(room: Schedule, events: seq<Event>, hop: Ipv4)
    requires forall e :: e in events ==> Sendable(e)
    ensures var s := Run(room, Init(), events);
            (Queue(s, hop) != [] ==> hop in s.arp && s.arp[hop].Pending?) <==>
            !exists k :: 0 <= k < |events| && StrandedBy(room, events, hop, k)
  {
    EveryRun(room, Init(), events);
    QueueBehindTimeoutInRun(room, events, hop);
  }

  const TICK := 101 * MILLISECOND

  /** A second packet, or the probe of an address the worker wants to claim. */
  function Last(probe: bool, now: nat, packet: Packet): Event
  {
    if probe then ProbeAddress(1, now, now) else SendPacket(1, 2, packet, now, now)
  }

  /** From its k-th retry on, the timers retry until the fifth; then somebody asks. */
  function Retries(k: nat, now: nat, packet: Packet, probe: bool): seq<Event>
    decreases 5 - k
  {
    if k >= 5 then [Last(probe, now, packet)] + []
    else [FireTimer(1, 2, now, now)] + Retries(k + 1, now + TICK, packet, probe)
  }

  lemma RunCons(room: Schedule, s: State, e: Event, rest: seq<Event>)
    ensures Run(room, s, [e] + rest) == Run(room, Step(room, s, e), rest)
  {
    assert ([e] + rest)[1..] == rest;
  }

  predicate Retried(s: State, k: Byte, last: nat, packet: Packet)
  {
    At(s.arp, 1) == Some(Pending(last, k, 2)) && Queue(s, 1) == [packet]
  }

  lemma FirstStep(room: Schedule, packet: Packet)
    requires room(0)
    ensures Retried(Step(room, Init(), SendPacket(1, 2, packet, 0, 0)), 1, 0, packet)
  {
  }

  lemma RetryStep(room: Schedule, s: State, k: Byte, last: nat, packet: Packet)
    requires 1 <= k < 5 && Retried(s, k, last, packet)
    ensures Retried(Step(room, s, FireTimer(1, 2, last + TICK, last + TICK)), k + 1, last + TICK, packet)
  {
  }

  lemma {:induction false} RetriesTimeOut(room: Schedule, s: State, k: Byte, last: nat, packet: Packet, probe: bool)
    requires 1 <= k <= 5 && Retried(s, k, last, packet)
    ensures Stranded(Run(room, s, Retries(k, last + TICK, packet, probe)), 1)
    decreases 5 - k
  {
    var now := last + TICK;
    if k < 5 {
      var e := FireTimer(1, 2, now, now);
      RetryStep(room, s, k, last, packet);
      RunCons(room, s, e, Retries(k + 1, now + TICK, packet, probe));
      RetriesTimeOut(room, Step(room, s, e), k + 1, now, packet, probe);
    } else {
      var e := Last(probe, now, packet);
      AskStrandsExactly(room, s, e, 1);
      RunCons(room, s, e, []);
    }
  }

  /** And both kinds of asking get there: one packet queued, four retries, then a
      second packet or an address probe. */
  lemma QueueBehindTimeout(room: Schedule, packet: Packet, probe: bool)
    requires room(0)
    ensures Stranded(Run(room, Init(), [SendPacket(1, 2, packet, 0, 0)] + Retries(1, TICK, packet, probe)), 1)
  {
    var e := SendPacket(1, 2, packet, 0, 0);
    RunCons(room, Init(), e, Retries(1, TICK, packet, probe));
    FirstStep(room, packet);
    RetriesTimeOut(room, Step(room, Init(), e), 1, 0, packet, probe);
  }

  // ----- When the frame-size assertion fails -----

  ghost predicate Trips(mtu: nat, s: State, e: Event)
  {
    match e
    case SendPacket(hop, source, packet, asked, _) => SendTrips(mtu, s, hop, source, packet, asked)
    case ReceiveArp(m, ours, _) => ReceiveTrips(mtu, s, m, ours)
    case _ => false
  }

  lemma SendQueues(room: Schedule, s: State, h: Ipv4, source: Ipv4, packet: Packet, asked: nat, sent: nat, hop: Ipv4)
    ensures var s' := SendIpv4(room, s, h, source, packet, asked, sent).0;
            Queue(s', hop) == Queue(s, hop) || Queue(s', hop) == Queue(s, hop) + [packet]
  {
  }

  /** A step only adds the packet it sends to a queue. */
  lemma QueueFrom(room: Schedule, s: State, e: Event, hop: Ipv4)
    ensures var s' := Step(room, s, e);
            forall p :: p in Queue(s', hop) ==> p in Queue(s, hop) || (e.SendPacket? && p == e.packet)
  {
    match e
    case SendPacket(h, source, packet, asked, sent) => SendQueues(room, s, h, source, packet, asked, sent, hop);
    case ReceiveArp(m, ours, now) =>
      if m.source in s.arp || ours {
        var s1 := Learns(s, m.source, m.sourceMac, now);
        var s2 := if ours && m.isRequest then Send(room, s1, ArpReply(m.sourceMac, m.source, m.target)).0 else s1;
        if m.source in s2.queues {
          SendQueueLeaves(room, s2.(queues := s2.queues - {m.source}), m.source, m.sourceMac, s2.queues[m.source]);
        }
      }
    case FireTimer(h, source, asked, sent) =>
      if h in s.arp && s.arp[h].Pending? { TimerQueues(room, s, h, source, asked, sent, hop); }
    case ProbeAddress(a, asked, sent) =>
    case AddAddress(a, now) =>
    case Announce(_) =>
  }

  lemma TimerQueues(room: Schedule, s: State, h: Ipv4, source: Ipv4, asked: nat, sent: nat, hop: Ipv4)
    requires h in s.arp && s.arp[h].Pending?
    ensures var s' := Timer(room, s, h, source, asked, sent).0;
            Queue(s', hop) == Queue(s, hop) || Queue(s', hop) == []
  {
    var (entry, state) := Answer(At(s.arp, h), source, asked, sent);
    var s1 := s.(arp := Put(s.arp, h, entry));
    if state.Timeout? && h in s1.queues { ReportQueueTable(s1.(queues := s1.queues - {h}), h, s1.queues[h]); }
  }

  lemma {:induction false} QueuesFitInRun(room: Schedule, events: seq<Event>, mtu: nat, hop: Ipv4)
    requires forall e :: e in events && e.SendPacket? ==> Fits(mtu, e.packet)
    ensures QueueFits(mtu, Queue(Run(room, Init(), events), hop))
  {
    if events != [] {
      var before, e := events[..|events| - 1], events[|events| - 1];
      assert events == before + [e];
      RunSnoc(room, Init(), before, e);
      QueuesFitInRun(room, before, mtu, hop);
      var queue := Queue(Run(room, Init(), events), hop);
      QueueFrom(room, Run(room, Init(), before), e, hop);
      forall k | 0 <= k < |queue| ensures Fits(mtu, queue[k]) { assert queue[k] in queue; }
    }
  }

  /** No run in which every packet sent fits trips the assertion. */
  lemma FittingNeverTrips(room: Schedule, events: seq<Event>, mtu: nat, e: Event)
    requires forall x :: x in events + [e] && x.SendPacket? ==> Fits(mtu, x.packet)
    ensures !Trips(mtu, Run(room, Init(), events), e)
  {
    assert e in events + [e];
    if e.ReceiveArp? { QueuesFitInRun(room, events, mtu, e.message.source); }
  }

  /** And any packet that does not fit can trip it, even once accepted: send_ipv4 says
      Ok and queues it, and the ARP reply of its hop ends the thread. */
  lemma OversizeTrips(room: Schedule, packet: Packet, mtu: nat)
    requires room(0) && !Fits(mtu, packet)
    ensures var (s, r) := SendIpv4(room, Init(), 1, 2, packet, 0, 0);
            r.Ok? && s == Run(room, Init(), [SendPacket(1, 2, packet, 0, 0)])
            && Trips(mtu, s, ReceiveArp(ArpMessage(false, 7, 1, 2), true, 0))
  {
    var e := SendPacket(1, 2, packet, 0, 0);
    assert [e][1..] == [];
    assert Run(room, Init(), [e]) == Run(room, Step(room, Init(), e), []);
    var s := Step(room, Init(), e);
    assert Queue(s, 1) == [packet];
    assert !Fits(mtu, Queue(s, 1)[0]);
  }

  // ----- The table's episodes inside a run of handlers -----

  function RequestTimes(requests: seq<Request>, target: Ipv4): seq<nat>
  {
    if requests == [] then []
    else
      var last := requests[|requests| - 1];
      RequestTimes(requests[..|requests| - 1], target) + (if last.target == target then [last.at] else [])
  }

  lemma RequestSnoc(requests: seq<Request>, r: Request)
    ensures forall t: Ipv4 :: RequestTimes(requests + [r], t)
                           == RequestTimes(requests, t) + (if t == r.target then [r.at] else [])
  {
    assert (requests + [r])[..|requests|] == requests;
  }

  /** What an event does to one target's entry, in the table's terms. */
  function Ops(s: State, e: Event, target: Ipv4): seq<Op>
  {
    match e
    case SendPacket(hop, source, _, asked, sent) => if hop == target then [Op.Ask(source, asked, sent)] else []
    case ReceiveArp(m, ours, now) =>
      if m.source == target && (target in s.arp || ours) then [Learn(m.sourceMac, now)] else []
    case FireTimer(hop, source, asked, sent) =>
      if hop == target && hop in s.arp && s.arp[hop].Pending? then [Op.Ask(source, asked, sent)] else []
    case ProbeAddress(address, asked, sent) => if address == target then [Op.Ask(UNSPECIFIED, asked, sent)] else []
    case AddAddress(address, now) => if address == target then [Add(UNSPECIFIED, now)] else []
    case Announce(_) => []
  }

  ghost predicate Follows(s: State, target: Ipv4, t: Track)
  {
    At(s.arp, target) == t.entry && RequestTimes(s.requests, target) == t.emitted
  }

  function ApplyAll(t: Track, ops: seq<Op>): Track
  {
    if ops == [] then t else Arp.Apply(t, ops[0])
  }

  /** What can_send_request and the request leave of the table and the record. */
  ghost predicate Requested(s: State, s': State, hop: Ipv4, entry: Entry, now: nat)
  {
    && s'.arp == Put(s.arp, hop, Some(entry))
    && s'.requests == if entry.Pending? then s.requests + [Request(hop, now, |s.attempted|)] else s.requests
  }

  lemma SendRequests(room: Schedule, s: State, hop: Ipv4, source: Ipv4, now: nat)
    ensures Requested(s, SendArpRequest(room, s, hop, source, now).0, hop, Sending(At(s.arp, hop), source, now), now)
  {
  }

  lemma RequestedFollows(s: State, s': State, hop: Ipv4, source: Ipv4, now: nat, target: Ipv4, t: Track)
    requires Follows(s, target, t) && Requested(s, s', hop, Sending(At(s.arp, hop), source, now), now)
    ensures Follows(s', target, if hop == target then Emit(t, source, false, now) else t)
  {
    RequestSnoc(s.requests, Request(hop, now, |s.attempted|));
  }

  lemma SendFollows(room: Schedule, s: State, hop: Ipv4, source: Ipv4, now: nat, target: Ipv4, t: Track)
    requires Follows(s, target, t)
    ensures Follows(SendArpRequest(room, s, hop, source, now).0, target,
                    if hop == target then Emit(t, source, false, now) else t)
  {
    SendRequests(room, s, hop, source, now);
    RequestedFollows(s, SendArpRequest(room, s, hop, source, now).0, hop, source, now, target, t);
  }

  /** A target's track once its entry has been asked for, before any request. */
  function Answered(t: Track, source: Ipv4, asked: nat, sent: nat): Track
  {
    var entry := Answer(t.entry, source, asked, sent).0;
    Track(entry, if t.entry.None? then Some(Episode(asked, true, []))
                 else if entry.None? then None else t.episode, t.emitted, asked)
  }

  lemma AskIs(t: Track, source: Ipv4, asked: nat, sent: nat)
    ensures Arp.Apply(t, Op.Ask(source, asked, sent))
         == if Asks(Answer(t.entry, source, asked, sent).1)
            then Emit(Answered(t, source, asked, sent), source, false, sent)
            else Answered(t, source, asked, sent)
  {
  }

  lemma AnswerFollows(s: State, hop: Ipv4, source: Ipv4, asked: nat, sent: nat, target: Ipv4, t: Track)
    requires Follows(s, target, t)
    ensures Follows(s.(arp := Put(s.arp, hop, Answer(At(s.arp, hop), source, asked, sent).0)), target,
                    if hop == target then Answered(t, source, asked, sent) else t)
  {
  }

  /** A pending entry keeps the source it has, whatever the request is told. */
  lemma EmitsAlike(t: Track, source: Ipv4, source': Ipv4, asked: nat, sent: nat)
    requires Answer(t.entry, source, asked, sent).1.Restart? ==> source' == source
    requires Asks(Answer(t.entry, source, asked, sent).1)
    ensures Emit(Answered(t, source, asked, sent), source', false, sent)
         == Emit(Answered(t, source, asked, sent), source, false, sent)
  {
  }

  lemma AskFollows(room: Schedule, s: State, hop: Ipv4, source: Ipv4, source': Ipv4, asked: nat, sent: nat,
                   target: Ipv4, t: Track)
    requires Follows(s, target, t)
    requires Answer(At(s.arp, hop), source, asked, sent).1.Restart? ==> source' == source
    ensures Follows(AskAndSend(room, s, hop, source, source', asked, sent).0, target,
                    if hop == target then Arp.Apply(t, Op.Ask(source, asked, sent)) else t)
  {
    var s1 := s.(arp := Put(s.arp, hop, Answer(At(s.arp, hop), source, asked, sent).0));
    var t1 := if hop == target then Answered(t, source, asked, sent) else t;
    AnswerFollows(s, hop, source, asked, sent, target, t);
    if hop == target { AskIs(t, source, asked, sent); }
    if Asks(Answer(At(s.arp, hop), source, asked, sent).1) {
      SendFollows(room, s1, hop, source', sent, target, t1);
      if hop == target { EmitsAlike(t, source, source', asked, sent); }
    }
  }

  lemma AddFollows(room: Schedule, s: State, hop: Ipv4, source: Ipv4, now: nat, target: Ipv4, t: Track)
    requires Follows(s, target, t)
    ensures Follows(SendArpRequest(room, s, hop, source, now).0, target,
                    if hop == target then Arp.Apply(t, Add(source, now)) else t)
  {
    SendFollows(room, s, hop, source, now, target, t);
  }

  lemma RecvFollows(room: Schedule, s: State, m: ArpMessage, ours: bool, now: nat, target: Ipv4, t: Track)
    requires Follows(s, target, t)
    ensures Follows(RecvArp(room, s, m, ours, now), target, ApplyAll(t, Ops(s, ReceiveArp(m, ours, now), target)))
  {
    if m.source in s.arp || ours {
      var s1 := Learns(s, m.source, m.sourceMac, now);
      var s2 := if ours && m.isRequest then Send(room, s1, ArpReply(m.sourceMac, m.source, m.target)).0 else s1;
      if m.source in s2.queues {
        SendQueueLeaves(room, s2.(queues := s2.queues - {m.source}), m.source, m.sourceMac, s2.queues[m.source]);
      }
    }
  }

  lemma TimerFollows(room: Schedule, s: State, hop: Ipv4, source: Ipv4, asked: nat, sent: nat, target: Ipv4, t: Track)
    requires Follows(s, target, t) && hop in s.arp && s.arp[hop].Pending?
    ensures Follows(Timer(room, s, hop, source, asked, sent).0, target,
                    if hop == target then Arp.Apply(t, Op.Ask(source, asked, sent)) else t)
  {
    var (entry, state) := Answer(At(s.arp, hop), source, asked, sent);
    var s1 := s.(arp := Put(s.arp, hop, entry));
    AskFollows(room, s, hop, source, s.arp[hop].source, asked, sent, target, t);
    if state.Timeout? { DropKeepsTable(s1, hop); }
  }

  lemma SendPacketFollows(room: Schedule, s: State, hop: Ipv4, source: Ipv4, packet: Packet, asked: nat, sent: nat,
                          target: Ipv4, t: Track)
    requires Follows(s, target, t)
    ensures Follows(SendIpv4(room, s, hop, source, packet, asked, sent).0, target,
                    if hop == target then Arp.Apply(t, Op.Ask(source, asked, sent)) else t)
  {
    var state := Answer(At(s.arp, hop), source, asked, sent).1;
    AskFollows(room, s, hop, source, RequestSource(state, source), asked, sent, target, t);
    SendKeepsTable(room, s, hop, source, packet, asked, sent);
  }

  /** What send_ipv4 does after asking leaves the table and the requests alone. */
  lemma SendKeepsTable(room: Schedule, s: State, hop: Ipv4, source: Ipv4, packet: Packet, asked: nat, sent: nat)
    ensures var state := Answer(At(s.arp, hop), source, asked, sent).1;
            var s1 := AskAndSend(room, s, hop, source, RequestSource(state, source), asked, sent).0;
            var s' := SendIpv4(room, s, hop, source, packet, asked, sent).0;
            s'.arp == s1.arp && s'.requests == s1.requests
  {
  }

  lemma ProbeFollows(room: Schedule, s: State, a: Ipv4, asked: nat, sent: nat, target: Ipv4, t: Track)
    requires Follows(s, target, t)
    ensures Follows(Probe(room, s, a, asked, sent).0, target,
                    if a == target then Arp.Apply(t, Op.Ask(UNSPECIFIED, asked, sent)) else t)
  {
    AskFollows(room, s, a, UNSPECIFIED, UNSPECIFIED, asked, sent, target, t);
  }

  lemma OpsAre(s: State, e: Event, target: Ipv4, t: Track)
    ensures ApplyAll(t, Ops(s, e, target)) == match e
              case SendPacket(hop, source, _, asked, sent) =>
                if hop == target then Arp.Apply(t, Op.Ask(source, asked, sent)) else t
              case FireTimer(hop, source, asked, sent) =>
                if hop == target && hop in s.arp && s.arp[hop].Pending?
                then Arp.Apply(t, Op.Ask(source, asked, sent)) else t
              case ProbeAddress(a, asked, sent) =>
                if a == target then Arp.Apply(t, Op.Ask(UNSPECIFIED, asked, sent)) else t
              case AddAddress(a, now) => if a == target then Arp.Apply(t, Add(UNSPECIFIED, now)) else t
              case Announce(_) => t
              case ReceiveArp(m, ours, now) => ApplyAll(t, Ops(s, ReceiveArp(m, ours, now), target))
  {
  }

  /** The table and the requests it makes the interface emit follow the episode
      model, whatever the event. */
  lemma StepFollows(room: Schedule, s: State, e: Event, target: Ipv4, t: Track)
    requires Follows(s, target, t)
    ensures Follows(Step(room, s, e), target, ApplyAll(t, Ops(s, e, target)))
  {
    OpsAre(s, e, target, t);
    match e
    case SendPacket(hop, source, packet, asked, sent) =>
      SendPacketFollows(room, s, hop, source, packet, asked, sent, target, t);
    case ReceiveArp(m, ours, now) => RecvFollows(room, s, m, ours, now, target, t);
    case FireTimer(hop, source, asked, sent) =>
      if hop in s.arp && s.arp[hop].Pending? { TimerFollows(room, s, hop, source, asked, sent, target, t); }
    case ProbeAddress(address, asked, sent) => ProbeFollows(room, s, address, asked, sent, target, t);
    case AddAddress(address, now) => AddFollows(room, s, address, UNSPECIFIED, now, target, t);
    case Announce(_) =>
  }

  /** The clock is monotone and no address-add for the target falls inside one of its
      episodes. */
  ghost predicate Undisturbed(room: Schedule, s: State, events: seq<Event>, target: Ipv4, t: Track)
    decreases |events|
  {
    events == [] ||
    (var ops := Ops(s, events[0], target);
     && (ops != [] ==> Admissible(t, ops[0]))
     && Undisturbed(room, Step(room, s, events[0]), events[1..], target, ApplyAll(t, ops)))
  }

  ghost function TrackOf(room: Schedule, s: State, events: seq<Event>, target: Ipv4, t: Track): Track
    decreases |events|
  {
    if events == [] then t
    else TrackOf(room, Step(room, s, events[0]), events[1..], target, ApplyAll(t, Ops(s, events[0], target)))
  }

  /** The episode bound, on the requests the handlers actually emit in a run. */
  lemma {:induction false} EpisodesInRun(room: Schedule, s: State, events: seq<Event>, target: Ipv4, t: Track)
    requires Follows(s, target, t) && EpisodeInv(t) && EmittedLast(t) && Undisturbed(room, s, events, target, t)
    ensures var t' := TrackOf(room, s, events, target, t);
            Follows(Run(room, s, events), target, t') && EpisodeInv(t') && EmittedLast(t')
    decreases |events|
  {
    if events != [] {
      var ops := Ops(s, events[0], target);
      StepFollows(room, s, events[0], target, t);
      if ops != [] {
        EpisodeStep(t, ops[0]);
        EmittedStep(t, ops[0]);
      }
      EpisodesInRun(room, Step(room, s, events[0]), events[1..], target, ApplyAll(t, ops));
    }
  }
}
