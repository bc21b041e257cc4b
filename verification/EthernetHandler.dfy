/** EthernetHandler as the interface thread runs it: the state of Ethernet, updated
    in place. */
module EthernetInPlace {
  import opened Common
  import opened Arp
  import opened Ethernet
  import H = Ipv4Header

  /** What the protocol managers are told of a packet that could not be sent. */
  datatype AsyncError = AsyncError(error: SendError, header: H.Header, datagram: seq<Byte>)

  /** The errors forwarded for the packets recorded as reported, in order. */
  function ForwardedOf(settled: seq<Settled>): seq<AsyncError>
  {
    if settled == [] then []
    else
      var last := settled[|settled| - 1];
      ForwardedOf(settled[..|settled| - 1])
      + (if last.Reported? && LongEnough(last.packet)
         then [AsyncError(last.error, last.packet.header, last.packet.payload[..DATAGRAM_PORTION])] else [])
  }

  lemma ForwardedSnoc(settled: seq<Settled>, x: Settled)
    ensures ForwardedOf(settled + [x])
         == ForwardedOf(settled)
          + (if x.Reported? && LongEnough(x.packet)
             then [AsyncError(x.error, x.packet.header, x.packet.payload[..DATAGRAM_PORTION])] else [])
  {
    assert (settled + [x])[..|settled|] == settled;
  }

  /** The error reports' slices are in range for these packets. */
  ghost predicate Sound(queue: seq<Packet>)
  {
    forall k :: 0 <= k < |queue| ==> LongEnough(queue[k])
  }

  // ----- One pass of the timers over a listing of the pending entries -----

  /** The n-th reading of the clock in the pass. */
  type Clock = nat -> nat

  function Earliest(deadline: Option<nat>, state: ArpState): Option<nat>
  {
    if !state.PendingWait? then deadline
    else if deadline.Some? && deadline.value <= state.deadline then deadline
    else Some(state.deadline)
  }

  function Timers(room: Schedule, s: State, pending: seq<(Ipv4, Ipv4)>, clock: Clock): (State, Option<nat>)
  {
    if pending == [] then (s, None)
    else
      var n := |pending| - 1;
      var (s1, deadline) := Timers(room, s, pending[..n], clock);
      var (s2, state) := Timer(room, s1, pending[n].0, pending[n].1, clock(2 * n), clock(2 * n + 1));
      (s2, Earliest(deadline, state))
  }

  lemma SendQueueNext(room: Schedule, s: State, hop: Ipv4, mac: Mac, queue: seq<Packet>, i: nat)
    requires i < |queue|
    ensures SendQueue(room, s, hop, mac, queue[i..])
         == SendQueue(room, Ethernet.SendNext(room, s, hop, mac, queue[i]), hop, mac, queue[i + 1..])
  {
    assert queue[i..][0] == queue[i] && queue[i..][1..] == queue[i + 1..];
  }

  lemma TimersNext(room: Schedule, s: State, pending: seq<(Ipv4, Ipv4)>, n: nat, clock: Clock)
    requires n < |pending|
    ensures var (s1, deadline) := Timers(room, s, pending[..n], clock);
            var (s2, state) := Timer(room, s1, pending[n].0, pending[n].1, clock(2 * n), clock(2 * n + 1));
            Timers(room, s, pending[..n + 1], clock) == (s2, Earliest(deadline, state))
  {
    assert pending[..n + 1][..n] == pending[..n] && pending[..n + 1][n] == pending[n];
  }

  class EthernetHandler {
    const room: Schedule
    const mtu: nat
    const arp: ArpTable
    var queues: Queues
    var attempted: seq<Frame> // all frames pushed, with room or without
    var sent: seq<Frame>
    var forwarded: seq<AsyncError>
    var crashed: bool // the frame-size assertion failed, and the thread is gone
    ghost var accepted: seq<Queued>
    ghost var settled: seq<Settled>
    ghost var learned: set<(Ipv4, Mac)>
    ghost var requests: seq<Request>

    ghost function Value(): State
      reads this, arp
    {
      State(arp.table, queues, attempted, sent, accepted, settled, learned, requests)
    }

    ghost predicate Valid()
      reads this, arp
    {
      ETHERNET_HEADER + ARP_LENGTH <= mtu && !crashed && Inv(Value()) && forwarded == ForwardedOf(settled)
    }

    constructor (room: Schedule, mtu: nat)
      requires ETHERNET_HEADER + ARP_LENGTH <= mtu
      ensures Valid() && fresh(arp) && Value() == Init() && this.room == room && this.mtu == mtu
    {
      this.room, this.mtu := room, mtu;
      arp := new ArpTable();
      queues, attempted, sent, forwarded, crashed := map[], [], [], [], false;
      accepted, settled, learned, requests := [], [], {}, [];
    }

    /** EthernetHandler::send: asserts that the frame fits, then pushes it. */
    method Send(frame: Frame) returns (r: SendResult)
      requires !crashed
      modifies this`attempted, this`sent, this`crashed
      ensures crashed <==> !FrameFits(mtu, frame)
      ensures !crashed ==> (Value(), r) == Ethernet.Send(room, old(Value()), frame)
    {
      if !FrameFits(mtu, frame) {
        crashed := true;
        return Err(BufferFull);
      }
      var n := |attempted|;
      attempted := attempted + [frame];
      if room(n) {
        sent := sent + [frame];
        r := Ok;
      } else {
        r := Err(BufferFull);
      }
    }

    method SendArpRequest(target: Ipv4, source: Ipv4, now: nat) returns (r: SendResult)
      requires ETHERNET_HEADER + ARP_LENGTH <= mtu && !crashed
      modifies this`attempted, this`sent, this`crashed, this`requests, arp
      ensures !crashed && (Value(), r) == Ethernet.SendArpRequest(room, old(Value()), target, source, now)
    {
      var can := arp.CanSendRequest(target, source, now);
      if can {
        requests := requests + [Request(target, now, |attempted|)];
        r := Send(ArpRequest(target, source));
      } else {
        r := Ok;
      }
    }

    method SendGratuitousArp(address: Ipv4) returns (r: SendResult)
      requires ETHERNET_HEADER + ARP_LENGTH <= mtu && !crashed
      modifies this`attempted, this`sent, this`crashed
      ensures !crashed && (Value(), r) == Ethernet.Send(room, old(Value()), GratuitousArp(address))
    {
      r := Send(GratuitousArp(address));
    }

    /** Buffers a packet for an unresolved hop. */
    method Enqueue(hop: Ipv4, packet: Packet) returns (r: SendResult)
      modifies this`queues, this`accepted
      ensures (Value(), r) == Ethernet.Enqueue(old(Value()), hop, packet)
    {
      var queue := if hop in queues then queues[hop] else [];
      if |queue| < MAX_PENDING {
        queues := queues[hop := queue + [packet]];
        accepted := accepted + [Queued(hop, packet)];
        r := Ok;
      } else {
        r := Err(ArpResolveBufferFull);
      }
    }

    method SendResolved(hop: Ipv4, mac: Mac, packet: Packet) returns (r: SendResult)
      requires !crashed && forwarded == ForwardedOf(settled)
      modifies this`attempted, this`sent, this`crashed, this`accepted, this`settled
      ensures crashed <==> !Fits(mtu, packet)
      ensures !crashed ==> (Value(), r) == Ethernet.SendResolved(room, old(Value()), hop, mac, packet)
      ensures !crashed ==> forwarded == ForwardedOf(settled)
    {
      r := Send(Ipv4Frame(mac, packet));
      if !crashed && r.Ok? {
        ForwardedSnoc(settled, Handed(hop, packet, mac));
        accepted, settled := accepted + [Queued(hop, packet)], settled + [Handed(hop, packet, mac)];
      }
    }

    /** Asks the table for the hop, and sends a request if told to. */
    method Ask(hop: Ipv4, source: Ipv4, asked: nat, when: nat) returns (state: ArpState, r: SendResult)
      requires ETHERNET_HEADER + ARP_LENGTH <= mtu && !crashed
      modifies this`attempted, this`sent, this`crashed, this`requests, arp
      ensures !crashed && state == Answer(At(old(arp.table), hop), source, asked, when).1
      ensures var entry := Answer(At(old(arp.table), hop), source, asked, when).0;
              var s1 := old(Value()).(arp := Put(old(arp.table), hop, entry));
              (Value(), r) == if Asks(state)
                              then Ethernet.SendArpRequest(room, s1, hop, RequestSource(state, source), when)
                              else (s1, Ok)
    {
      state := arp.Request(hop, source, asked, when);
      match state {
        case PendingRetry(stored) => r := SendArpRequest(hop, stored, when);
        case ResolvedStale(_) => r := SendArpRequest(hop, source, when);
        case Restart => r := SendArpRequest(hop, source, when);
        case _ => r := Ok;
      }
    }

    method SendIpv4(hop: Ipv4, source: Ipv4, packet: Packet, asked: nat, when: nat) returns (r: SendResult)
      requires Valid() && LongEnough(packet)
      modifies this, arp
      ensures crashed <==> SendTrips(mtu, old(Value()), hop, source, packet, asked)
      ensures !crashed ==> Valid()
      ensures !crashed ==> (Value(), r) == Ethernet.SendIpv4(room, old(Value()), hop, source, packet, asked, when)
    {
      SendIpv4Keeps(room, Value(), hop, source, packet, asked, when);
      r := SendOrQueue(hop, source, packet, asked, when);
    }

    method SendOrQueue(hop: Ipv4, source: Ipv4, packet: Packet, asked: nat, when: nat) returns (r: SendResult)
      requires ETHERNET_HEADER + ARP_LENGTH <= mtu && !crashed && forwarded == ForwardedOf(settled)
      modifies this, arp
      ensures crashed <==> SendTrips(mtu, old(Value()), hop, source, packet, asked)
      ensures !crashed ==> forwarded == ForwardedOf(settled)
      ensures !crashed ==> (Value(), r) == Ethernet.SendIpv4(room, old(Value()), hop, source, packet, asked, when)
    {
      var state;
      state, r := Ask(hop, source, asked, when);
      if r.Ok? {
        r := ByState(state, hop, packet);
      }
    }

    /** What the answer of the table makes of the packet. */
    method ByState(state: ArpState, hop: Ipv4, packet: Packet) returns (r: SendResult)
      requires !crashed && forwarded == ForwardedOf(settled)
      modifies this`queues, this`attempted, this`sent, this`crashed, this`accepted, this`settled
      ensures crashed <==> (state.Resolved? || state.ResolvedStale?) && !Fits(mtu, packet)
      ensures !crashed ==> forwarded == ForwardedOf(settled)
      ensures !crashed ==> (Value(), r) == QueueOrSend(room, old(Value()), state, hop, packet)
    {
      match state {
        case PendingRetry(_) => r := Enqueue(hop, packet);
        case PendingWait(_) => r := Enqueue(hop, packet);
        case Restart => r := Enqueue(hop, packet);
        case Resolved(mac) => r := SendResolved(hop, mac, packet);
        case ResolvedStale(mac) => r := SendResolved(hop, mac, packet);
        case Timeout => r := Err(ArpTimeout);
      }
    }

    method Forward(error: SendError, hop: Ipv4, packet: Packet)
      requires LongEnough(packet) && forwarded == ForwardedOf(settled)
      modifies this`forwarded, this`settled
      ensures forwarded == ForwardedOf(settled)
      ensures settled == old(settled) + [Reported(hop, packet, error)]
    {
      ForwardedSnoc(settled, Reported(hop, packet, error));
      // The slice of the first eight octets is in range.
      forwarded := forwarded + [AsyncError(error, packet.header, packet.payload[..DATAGRAM_PORTION])];
      settled := settled + [Reported(hop, packet, error)];
    }

    method DequeuePending(mac: Mac, hop: Ipv4)
      requires !crashed && forwarded == ForwardedOf(settled)
      requires Sound(Queue(Value(), hop))
      modifies this
      ensures crashed <==> !QueueFits(mtu, Queue(old(Value()), hop))
      ensures !crashed ==> forwarded == ForwardedOf(settled)
      ensures !crashed ==> Value() == Ethernet.DequeuePending(room, old(Value()), mac, hop)
    {
      if hop !in queues {
        return;
      }
      var queue := queues[hop];
      assert Sound(queue);
      queues := queues - {hop};
      ghost var start := Value();
      var i := 0;
      while i < |queue|
        invariant i <= |queue| && forwarded == ForwardedOf(settled)
        invariant !crashed && forall k :: 0 <= k < i ==> Fits(mtu, queue[k])
        invariant SendQueue(room, start, hop, mac, queue) == SendQueue(room, Value(), hop, mac, queue[i..])
      {
        SendQueueNext(room, Value(), hop, mac, queue, i);
        SendNext(hop, mac, queue[i]);
        if crashed {
          return;
        }
        i := i + 1;
      }
    }

    method SendNext(hop: Ipv4, mac: Mac, packet: Packet)
      requires !crashed && forwarded == ForwardedOf(settled) && LongEnough(packet)
      modifies this`attempted, this`sent, this`crashed, this`forwarded, this`settled
      ensures crashed <==> !Fits(mtu, packet)
      ensures !crashed ==> forwarded == ForwardedOf(settled)
      ensures !crashed ==> Value() == Ethernet.SendNext(room, old(Value()), hop, mac, packet)
    {
      var r := Send(Ipv4Frame(mac, packet));
      if crashed {
        return;
      }
      if r.Err? {
        Forward(r.error, hop, packet);
      } else {
        ForwardedSnoc(settled, Handed(hop, packet, mac));
        settled := settled + [Handed(hop, packet, mac)];
      }
    }

    method DropPending(hop: Ipv4)
      requires forwarded == ForwardedOf(settled)
      requires Sound(Queue(Value(), hop))
      modifies this`queues, this`forwarded, this`settled
      ensures forwarded == ForwardedOf(settled)
      ensures Value() == Ethernet.DropPending(old(Value()), hop)
    {
      if hop !in queues {
        return;
      }
      var queue := queues[hop];
      assert Sound(queue);
      queues := queues - {hop};
      ghost var start := Value();
      var i := 0;
      while i < |queue|
        invariant i <= |queue| && forwarded == ForwardedOf(settled)
        invariant ReportQueue(start, hop, queue) == ReportQueue(Value(), hop, queue[i..])
      {
        assert queue[i..][0] == queue[i] && queue[i..][1..] == queue[i + 1..];
        Forward(ArpTimeout, hop, queue[i]);
        i := i + 1;
      }
    }

    method RecvArp(m: ArpMessage, ours: bool, now: nat)
      requires Valid()
      modifies this, arp
      ensures crashed <==> ReceiveTrips(mtu, old(Value()), m, ours)
      ensures !crashed ==> Valid()
      ensures !crashed ==> Value() == Ethernet.RecvArp(room, old(Value()), m, ours, now)
    {
      RecvArpKeeps(room, Value(), m, ours, now);
      ReceiveMerged(m, ours, now);
    }

    method ReceiveMerged(m: ArpMessage, ours: bool, now: nat)
      requires ETHERNET_HEADER + ARP_LENGTH <= mtu && !crashed && forwarded == ForwardedOf(settled)
      requires Sound(Queue(Value(), m.source))
      modifies this, arp
      ensures crashed <==> ReceiveTrips(mtu, old(Value()), m, ours)
      ensures !crashed ==> forwarded == ForwardedOf(settled)
      ensures !crashed ==> Value() == Ethernet.RecvArp(room, old(Value()), m, ours, now)
    {
      var merged := Merge(m, ours, now);
      if ours && m.isRequest {
        var _ := Send(ArpReply(m.sourceMac, m.source, m.target));
      }
      if merged {
        DequeuePending(m.sourceMac, m.source);
      }
    }

    /** The merge of RFC 826: a known sender is updated, an unknown one added if the
        message is for us. */
    method Merge(m: ArpMessage, ours: bool, now: nat) returns (merged: bool)
      modifies this`learned, arp
      ensures merged == (m.source in old(arp.table) || ours)
      ensures Value() == if merged then Learns(old(Value()), m.source, m.sourceMac, now) else old(Value())
    {
      merged := arp.UpdateOnly(m.sourceMac, m.source, now);
      if ours && !merged {
        var _ := arp.UpdateOrInsert(m.sourceMac, m.source, now);
        merged := true;
      }
      if merged {
        learned := learned + {(m.source, m.sourceMac)};
      }
    }

    method Timer(hop: Ipv4, source: Ipv4, asked: nat, when: nat) returns (state: ArpState)
      requires Valid() && hop in arp.table && arp.table[hop].Pending?
      modifies this, arp
      ensures Valid()
      ensures (Value(), state) == Ethernet.Timer(room, old(Value()), hop, source, asked, when)
      ensures forall h :: h in old(arp.table) && h != hop ==> h in arp.table && arp.table[h] == old(arp.table)[h]
    {
      TimerKeeps(room, Value(), hop, source, asked, when);
      state := arp.Request(hop, source, asked, when);
      match state {
        case PendingWait(_) =>
        case PendingRetry(stored) => var _ := SendArpRequest(hop, stored, when);
        case Timeout => DropPending(hop);
        // For an entry the snapshot listed as pending these arms are dead.
        case Resolved(_) => assert false;
        case ResolvedStale(_) => assert false;
        case Restart => assert false;
      }
    }

    /** perform_arp_timers: one turn per entry pending at the start, and the earliest
        deadline of those told to wait. */
    method PerformArpTimers(clock: Clock) returns (deadline: Option<nat>, ghost pending: seq<(Ipv4, Ipv4)>)
      requires Valid()
      modifies this, arp
      ensures Valid()
      ensures forall t :: t in old(arp.table) && old(arp.table)[t].Pending? ==> (t, old(arp.table)[t].source) in pending
      ensures forall p :: p in pending ==>
                p.0 in old(arp.table) && old(arp.table)[p.0].Pending? && old(arp.table)[p.0].source == p.1
      ensures forall i, j :: 0 <= i < j < |pending| ==> pending[i].0 != pending[j].0
      ensures (Value(), deadline) == Timers(room, old(Value()), pending, clock)
    {
      ghost var start := Value();
      var listed := arp.PendingTargets();
      pending := listed;
      deadline := None;
      for n := 0 to |listed|
        invariant Valid()
        invariant Value() == Timers(room, start, listed[..n], clock).0
        invariant deadline == Timers(room, start, listed[..n], clock).1
        invariant forall k :: n <= k < |listed| ==> listed[k].0 in arp.table && arp.table[listed[k].0].Pending?
      {
        TimersNext(room, start, listed, n, clock);
        var state := Timer(listed[n].0, listed[n].1, clock(2 * n), clock(2 * n + 1));
        deadline := Earliest(deadline, state);
      }
      assert listed[..|listed|] == listed;
    }

    /** The worker's first request for an address it wants to claim. */
    method StartProbe(address: Ipv4, now: nat) returns (r: SendResult)
      requires Valid()
      modifies this, arp
      ensures Valid()
      ensures (Value(), r) == Ethernet.SendArpRequest(room, old(Value()), address, UNSPECIFIED, now)
    {
      SendArpRequestKeeps(room, Value(), address, UNSPECIFIED, now);
      r := SendArpRequest(address, UNSPECIFIED, now);
    }

    /** Tells the link that the address is now the interface's. */
    method Announce(address: Ipv4)
      requires Valid()
      modifies this
      ensures Valid()
      ensures Value() == Ethernet.Send(room, old(Value()), GratuitousArp(address)).0
    {
      SendKeeps(room, Value(), GratuitousArp(address));
      var _ := SendGratuitousArp(address);
    }

    /** The worker's probe of an address it wants to claim. */
    method Probe(address: Ipv4, asked: nat, when: nat) returns (state: ArpState, r: SendResult)
      requires Valid()
      modifies this, arp
      ensures Valid()
      ensures (Value(), state, r) == Ethernet.Probe(room, old(Value()), address, asked, when)
    {
      ProbeKeeps(room, Value(), address, asked, when);
      state := arp.Request(address, UNSPECIFIED, asked, when);
      r := Ok;
      if Asks(state) {
        r := SendArpRequest(address, UNSPECIFIED, when);
      }
    }
  }
}
