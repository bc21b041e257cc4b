/** The send path between an interface and the network loop
    (lib/src/runtime/channel.rs and lib/src/runtime/network.rs), in the order each
    thread performs it; Doorbell interleaves the same steps. */
module Network {
  import opened Common
  import opened ReadyBits
  import Doorbell

  const SENDERS := 256
  const WORDS := 4
  const SEND_QUEUE_SIZE := 4096

  /** What an interface sends: a packet, or word that it is gone. */
  datatype Payload<!P> = Packet(bytes: P) | Closed(mac: nat)

  function PacketsOf<P>(messages: seq<Payload<P>>): seq<P>
  {
    if messages == [] then []
    else
      var last := messages[|messages| - 1];
      PacketsOf(messages[..|messages| - 1]) + (if last.Packet? then [last.bytes] else [])
  }

  lemma PacketsSnoc<P>(messages: seq<Payload<P>>, m: Payload<P>)
    ensures PacketsOf(messages + [m]) == PacketsOf(messages) + (if m.Packet? then [m.bytes] else [])
  {
    assert (messages + [m])[..|messages|] == messages;
  }

  /** The packets, in order: the k-th message is the packet behind those before it. */
  lemma {:induction false} PacketsInOrder<P>(messages: seq<Payload<P>>, k: nat)
    requires k < |messages| && messages[k].Packet?
    ensures |PacketsOf(messages[..k])| < |PacketsOf(messages)| <= |messages|
    ensures PacketsOf(messages)[|PacketsOf(messages[..k])|] == messages[k].bytes
  {
    var n := |messages| - 1;
    PacketsAtMost(messages);
    if k < n {
      PacketsInOrder(messages[..n], k);
      assert messages[..n][..k] == messages[..k];
    }
  }

  lemma {:induction false} PacketsAtMost<P>(messages: seq<Payload<P>>)
    ensures |PacketsOf(messages)| <= |messages|
  {
    if messages != [] { PacketsAtMost(messages[..|messages| - 1]); }
  }

  ghost function ClosedMacs<P>(messages: seq<Payload<P>>): set<nat>
  {
    set k | 0 <= k < |messages| && messages[k].Closed? :: messages[k].mac
  }

  lemma ClosedAppend<P>(a: seq<Payload<P>>, b: seq<Payload<P>>)
    ensures ClosedMacs(a + b) == ClosedMacs(a) + ClosedMacs(b)
  {
    forall m ensures m in ClosedMacs(a + b) <==> m in ClosedMacs(a) || m in ClosedMacs(b) {
      if m in ClosedMacs(a + b) {
        var k :| 0 <= k < |a + b| && (a + b)[k].Closed? && (a + b)[k].mac == m;
        if k < |a| { assert a[k].mac == m; } else { assert b[k - |a|].mac == m; }
      }
      if m in ClosedMacs(a) {
        var k :| 0 <= k < |a| && a[k].Closed? && a[k].mac == m;
        assert (a + b)[k].mac == m;
      }
      if m in ClosedMacs(b) {
        var k :| 0 <= k < |b| && b[k].Closed? && b[k].mac == m;
        assert (a + b)[|a| + k].mac == m;
      }
    }
  }

  lemma ClosedFirst<P>(messages: seq<Payload<P>>)
    requires messages != []
    ensures ClosedMacs(messages)
         == (if messages[0].Closed? then {messages[0].mac} else {}) + ClosedMacs(messages[1..])
  {
    assert messages == [messages[0]] + messages[1..];
    ClosedAppend([messages[0]], messages[1..]);
    assert ClosedMacs([messages[0]]) == if messages[0].Closed? then {messages[0].mac} else {};
  }

  /** The messages of the rings the slots name, one ring after the other. */
  ghost function Drained<M>(slots: seq<nat>, rings: seq<Option<seq<M>>>): seq<M>
    requires AllRings(slots, rings)
  {
    if slots == [] then [] else rings[slots[0]].value + Drained(slots[1..], rings)
  }

  lemma {:induction false} DrainedAppend<M>(slots: seq<nat>, slot: nat, rings: seq<Option<seq<M>>>)
    requires AllRings(slots, rings)
    requires slot < |rings| && rings[slot].Some?
    ensures Drained(slots + [slot], rings) == Drained(slots, rings) + rings[slot].value
  {
    if slots == [] {
      assert [slot][1..] == [];
    } else {
      DrainedAppend(slots[1..], slot, rings);
      assert (slots + [slot])[1..] == slots[1..] + [slot];
    }
  }

  ghost predicate AllRings<M>(seen: seq<nat>, rings: seq<Option<seq<M>>>)
  {
    forall k :: 0 <= k < |seen| ==> seen[k] < |rings| && rings[seen[k]].Some?
  }

  /** One slot before and after it was drained, or left alone. */
  ghost predicate SlotServiced<M>(drained: bool, was: Option<seq<M>>, now: Option<seq<M>>, before: seq<M>,
                                  after: seq<M>)
    requires drained ==> was.Some?
  {
    if drained then now == Some([]) && after == before + was.value else now == was && after == before
  }

  /** All slots before and after the ones in `seen` were drained. */
  ghost predicate Serviced<M>(seen: seq<nat>, was: seq<Option<seq<M>>>, now: seq<Option<seq<M>>>,
                              delivered: seq<seq<M>>, delivered': seq<seq<M>>)
  {
    && |was| == |now| == |delivered| == |delivered'|
    && AllRings(seen, was)
    && forall i :: 0 <= i < |was| ==> SlotServiced(i in seen, was[i], now[i], delivered[i], delivered'[i])
  }

  lemma ServiceOne<M>(seen: seq<nat>, id: nat, was: seq<Option<seq<M>>>, now: seq<Option<seq<M>>>,
                      now': seq<Option<seq<M>>>,
                      delivered: seq<seq<M>>, delivered': seq<seq<M>>, delivered'': seq<seq<M>>)
    requires Serviced(seen, was, now, delivered, delivered')
    requires id < |was| && id !in seen && was[id].Some? && |now'| == |was| == |delivered''|
    requires forall i :: 0 <= i < |was| ==> now'[i] == if i == id then Some([]) else now[i]
    requires forall i :: 0 <= i < |was| ==>
               delivered''[i] == if i == id then delivered'[i] + was[id].value else delivered'[i]
    ensures Serviced(seen + [id], was, now', delivered, delivered'')
  {
    assert AllRings(seen + [id], was);
    forall i | 0 <= i < |was|
      ensures SlotServiced(i in seen + [id], was[i], now'[i], delivered[i], delivered''[i])
    {
      assert SlotServiced(i in seen, was[i], now[i], delivered[i], delivered'[i]);
      assert i in seen + [id] <==> i in seen || i == id;
    }
  }

  lemma NextReady(words: seq<nat>, occupied: seq<bool>, seen: seq<nat>, pending: seq<nat>)
    requires ReadyFrom(words, occupied, 0) == seen + pending && pending != []
    ensures pending[0] !in seen && pending[0] < |occupied| && occupied[pending[0]]
  {
    var slots := ReadyFrom(words, occupied, 0);
    ReadyExactly(words, occupied, 0);
    assert slots[|seen|] == pending[0] && pending[0] in slots;
    forall k | 0 <= k < |seen| ensures seen[k] != pending[0] { assert slots[k] == seen[k]; }
  }

  lemma ServicedOccupied<M>(seen: seq<nat>, was: seq<Option<seq<M>>>, now: seq<Option<seq<M>>>,
                            delivered: seq<seq<M>>, delivered': seq<seq<M>>)
    requires Serviced(seen, was, now, delivered, delivered')
    ensures Occupied(now) == Occupied(was)
  {
    forall i | 0 <= i < |was| ensures now[i].Some? == was[i].Some? {
      assert SlotServiced(i in seen, was[i], now[i], delivered[i], delivered'[i]);
    }
  }

  lemma SlotDone<P>(id: nat, seen: seq<nat>, was: seq<Option<seq<Payload<P>>>>, now: seq<Option<seq<Payload<P>>>>,
                    now': seq<Option<seq<Payload<P>>>>, delivered: seq<seq<Payload<P>>>,
                    delivered': seq<seq<Payload<P>>>,
                    delivered'': seq<seq<Payload<P>>>, handled: seq<Payload<P>>)
    requires Serviced(seen, was, now, delivered, delivered')
    requires id < |was| && id !in seen && was[id].Some? && |now'| == |was| == |delivered''|
    requires forall i :: 0 <= i < |was| ==> now'[i] == if i == id then Some([]) else now[i]
    requires now[id].Some? && forall i :: 0 <= i < |was| ==>
               delivered''[i] == if i == id then delivered'[i] + now[i].value else delivered'[i]
    ensures Serviced(seen + [id], was, now', delivered, delivered'') && Occupied(now') == Occupied(was)
    ensures handled + Drained(seen, was) + was[id].value == handled + Drained(seen + [id], was)
    ensures ClosedMacs(Drained(seen + [id], was)) == ClosedMacs(Drained(seen, was)) + ClosedMacs(was[id].value)
    ensures now[id] == was[id]
  {
    assert SlotServiced(id in seen, was[id], now[id], delivered[id], delivered'[id]);
    ServiceOne(seen, id, was, now, now', delivered, delivered', delivered'');
    ServicedOccupied(seen + [id], was, now', delivered, delivered'');
    DrainedAppend(seen, id, was);
    ClosedAppend(Drained(seen, was), was[id].value);
  }

  function RingOf<M>(slot: Option<seq<M>>): seq<M>
  {
    if slot.Some? then slot.value else []
  }

  function RingsOf<M>(slots: seq<Option<seq<M>>>): (rings: seq<seq<M>>)
    ensures |rings| == |slots| && forall i :: 0 <= i < |slots| ==> rings[i] == RingOf(slots[i])
  {
    seq(|slots|, i requires 0 <= i < |slots| => RingOf(slots[i]))
  }

  /** Servicing the ready slots empties exactly the rings whose bits were set: an
      empty slot has no ring to empty. */
  lemma ServicedAt<M>(words: seq<nat>, was: seq<Option<seq<M>>>, now: seq<Option<seq<M>>>,
                      delivered: seq<seq<M>>, delivered': seq<seq<M>>, i: nat)
    requires Serviced(ReadyFrom(words, Occupied(was), 0), was, now, delivered, delivered') && i < |was|
    ensures RingOf(now[i]) == (if BitAt(words, i) then [] else RingOf(was[i]))
    ensures delivered'[i] == (if BitAt(words, i) then delivered[i] + RingOf(was[i]) else delivered[i])
  {
    var slots := ReadyFrom(words, Occupied(was), 0);
    ReadyExactly(words, Occupied(was), 0);
    assert SlotServiced(i in slots, was[i], now[i], delivered[i], delivered'[i]);
    assert delivered[i] + [] == delivered[i];
  }

  /** So it is the machine's undisturbed pass. */
  lemma ServicedIsEmptied<M>(words: seq<nat>, was: seq<Option<seq<M>>>, now: seq<Option<seq<M>>>,
                             delivered: seq<seq<M>>, delivered': seq<seq<M>>, s: Doorbell.State<M>)
    requires Serviced(ReadyFrom(words, Occupied(was), 0), was, now, delivered, delivered')
    requires Doorbell.WellFormed(s) && s.rings == RingsOf(was) && s.delivered == delivered
    requires forall i :: 0 <= i < |was| ==> (i in s.bits <==> BitAt(words, i))
    ensures var s' := Doorbell.Emptied(s, s.bits);
            s'.rings == RingsOf(now) && s'.delivered == delivered'
  {
    forall i | 0 <= i < |was| { ServicedAt(words, was, now, delivered, delivered', i); }
  }

  class SendPath<P> {
    const rings: array<Option<seq<Payload<P>>>>
    var readyBits: seq<nat>
    var wake: bool
    var bridge: seq<P> // handed to the bridge, in order
    var interfaces: set<nat> // by hardware address
    ghost var handled: seq<Payload<P>>
    ghost var accepted: seq<seq<Payload<P>>>
    ghost var delivered: seq<seq<Payload<P>>>

    ghost predicate Valid()
      reads this
    {
      && rings.Length == SENDERS && |readyBits| == WORDS && AreU64(readyBits)
      && |accepted| == |delivered| == SENDERS && bridge == PacketsOf(handled)
    }

    ghost function Bits(): set<nat>
      reads this
    {
      set i: nat | i < SENDERS && BitAt(readyBits, i)
    }

    /** This state as one of the interleaved hand-off, all threads between calls. */
    ghost function Machine(): (s: Doorbell.State<Payload<P>>)
      requires Valid()
      reads this, rings
      ensures Doorbell.WellFormed(s)
    {
      Doorbell.State(WORDS, SEND_QUEUE_SIZE, false,
        RingsOf(rings[..]),
        seq(SENDERS, _ => Doorbell.Idle), Bits(), wake, Doorbell.Waiting, accepted, delivered)
    }

    constructor (interfaces: set<nat>)
      ensures Valid() && fresh(rings) && handled == [] && this.interfaces == interfaces
      ensures forall i :: 0 <= i < SENDERS ==> rings[i].None?
      ensures Machine() == Doorbell.Init(SENDERS, WORDS, SEND_QUEUE_SIZE, false)
    {
      rings := new Option<seq<Payload<P>>>[SENDERS](_ => None);
      readyBits, wake, bridge, handled := [0, 0, 0, 0], false, [], [];
      this.interfaces := interfaces;
      accepted, delivered := seq(SENDERS, _ => []), seq(SENDERS, _ => []);
      new;
      ZeroWords(readyBits);
    }

    /** Puts a new sender's ring in the first empty slot. */
    method Insert() returns (r: Option<Byte>)
      requires Valid()
      modifies rings
      ensures Valid()
      ensures r == None <==> forall i :: 0 <= i < SENDERS ==> old(rings[i]).Some?
      ensures r == None ==> rings[..] == old(rings[..])
      ensures r.Some? ==>
                && old(rings[r.value]).None? && (forall i :: 0 <= i < r.value ==> old(rings[i]).Some?)
                && rings[..] == old(rings[..])[r.value := Some([])]
    {
      for index := 0 to SENDERS
        invariant forall i :: 0 <= i < index ==> rings[i].Some?
        invariant rings[..] == old(rings[..])
      {
        if rings[index].None? {
          rings[index] := Some([]);
          return Some(index);
        }
      }
      return None;
    }

    /** Push, then set the bit, then wake; a full ring stops it before the bit. */
    method TrySend(id: Byte, payload: Payload<P>) returns (ok: bool)
      requires Valid() && rings[id].Some?
      modifies this, rings
      ensures Valid() && handled == old(handled) && interfaces == old(interfaces)
      ensures ok <==> |old(rings[id]).value| < SEND_QUEUE_SIZE
      ensures Machine() == Doorbell.Run(old(Machine()), Doorbell.TrySend(id, payload))
      ensures rings[..] == if ok then old(rings[..])[id := Some(old(rings[id]).value + [payload])] else old(rings[..])
    {
      ghost var before := Machine();
      Doorbell.UninterruptedSend(before, id, payload);
      assert before.rings[id] == rings[id].value;
      if |rings[id].value| >= SEND_QUEUE_SIZE {
        return false;
      }
      rings[id] := Some(rings[id].value + [payload]);
      accepted := accepted[id := accepted[id] + [payload]];

      SetBitSets(readyBits, id);
      readyBits := SetBit(readyBits, id);
      wake := true;

      ghost var after := Doorbell.Sent(before, id, payload);
      assert Machine().rings == after.rings;
      assert Bits() == after.bits;
      return true;
    }

    /** A packet goes to the bridge; a closed interface is forgotten. */
    method Handle(m: Payload<P>)
      requires bridge == PacketsOf(handled)
      modifies this`bridge, this`interfaces, this`handled
      ensures bridge == PacketsOf(handled) && handled == old(handled) + [m]
      ensures interfaces == old(interfaces) - (if m.Closed? then {m.mac} else {})
    {
      PacketsSnoc(handled, m);
      handled := handled + [m];
      match m {
        case Packet(bytes) => bridge := bridge + [bytes];
        case Closed(mac) => interfaces := interfaces - {mac};
      }
    }

    /** Pops one ring to its end. */
    method DrainRing(id: nat)
      requires Valid() && id < SENDERS && rings[id].Some?
      modifies this`bridge, this`interfaces, this`handled, this`delivered, rings
      ensures Valid()
      ensures forall i :: 0 <= i < SENDERS ==> rings[i] == if i == id then Some([]) else old(rings[i])
      ensures handled == old(handled) + old(rings[id]).value
      ensures interfaces == old(interfaces) - ClosedMacs(old(rings[id]).value)
      ensures forall i :: 0 <= i < SENDERS ==>
                delivered[i] == if i == id then old(delivered)[i] + old(rings[i]).value else old(delivered)[i]
    {
      while rings[id].value != []
        invariant Valid() && rings[id].Some?
        invariant handled + rings[id].value == old(handled) + old(rings[id]).value
        invariant interfaces - ClosedMacs(rings[id].value) == old(interfaces) - ClosedMacs(old(rings[id]).value)
        invariant delivered[id] + rings[id].value == old(delivered)[id] + old(rings[id]).value
        invariant forall i :: 0 <= i < SENDERS && i != id ==>
                    rings[i] == old(rings[i]) && delivered[i] == old(delivered)[i]
        decreases |rings[id].value|
      {
        ClosedFirst(rings[id].value);
        var message := rings[id].value[0];
        Handle(message);
        delivered := delivered[id := delivered[id] + [message]];
        rings[id] := Some(rings[id].value[1..]);
      }
    }

    /** One wake of the network thread. */
    method OnWake() returns (ghost n: nat)
      requires Valid() && wake
      modifies this, rings
      ensures Valid()
      ensures Machine() == Doorbell.Run(old(Machine()), Doorbell.Pass(WORDS, n))
    {
      ghost var before, bits, was, delivered0 := Machine(), readyBits, rings[..], delivered;
      n := Doorbell.PassDelivers(before);
      wake := false;
      ReadSendReceiver();
      ServicedIsEmptied(bits, was, rings[..], delivered0, delivered, before);
    }

    /** Swaps the bit words to zero and drains, ascending, every ring they name. */
    method ReadSendReceiver()
      requires Valid()
      modifies this, rings
      ensures Valid() && wake == old(wake) && Bits() == {} && accepted == old(accepted)
      ensures var slots := ReadyFrom(old(readyBits), Occupied(old(rings[..])), 0);
              && Serviced(slots, old(rings[..]), rings[..], old(delivered), delivered)
              && handled == old(handled) + Drained(slots, old(rings[..]))
              && interfaces == old(interfaces) - ClosedMacs(Drained(slots, old(rings[..])))
    {
      var captured := CaptureBits();
      Service(captured);
    }

    /** capture_and_reset_ready_atomic. */
    method CaptureBits() returns (captured: seq<nat>)
      requires Valid()
      modifies this`readyBits
      ensures Valid() && captured == old(readyBits) && Bits() == {}
    {
      captured := readyBits;
      readyBits := [0, 0, 0, 0];
      ZeroWords(readyBits);
    }

    /** One turn of the loop over the ready senders. */
    method ServiceSlot(id: nat, ghost seen: seq<nat>, ghost was: seq<Option<seq<Payload<P>>>>,
                       ghost handled0: seq<Payload<P>>, ghost interfaces0: set<nat>,
                       ghost delivered0: seq<seq<Payload<P>>>)
      requires Valid() && id < SENDERS && |was| == SENDERS && id !in seen && was[id].Some?
      requires Serviced(seen, was, rings[..], delivered0, delivered)
      requires handled == handled0 + Drained(seen, was)
      requires interfaces == interfaces0 - ClosedMacs(Drained(seen, was))
      modifies this`bridge, this`interfaces, this`handled, this`delivered, rings
      ensures Valid() && Occupied(rings[..]) == Occupied(was)
      ensures Serviced(seen + [id], was, rings[..], delivered0, delivered)
      ensures handled == handled0 + Drained(seen + [id], was)
      ensures interfaces == interfaces0 - ClosedMacs(Drained(seen + [id], was))
    {
      ghost var now, delivered' := rings[..], delivered;
      DrainRing(id);
      SlotDone(id, seen, was, now, rings[..], delivered0, delivered', delivered, handled0);
    }

    /** The loop over the ready senders. */
    method Service(captured: seq<nat>)
      requires Valid() && |captured| == WORDS && AreU64(captured)
      modifies this`bridge, this`interfaces, this`handled, this`delivered, rings
      ensures Valid()
      ensures var slots := ReadyFrom(captured, Occupied(old(rings[..])), 0);
              && Serviced(slots, old(rings[..]), rings[..], old(delivered), delivered)
              && handled == old(handled) + Drained(slots, old(rings[..]))
              && interfaces == old(interfaces) - ClosedMacs(Drained(slots, old(rings[..])))
    {
      ghost var was := rings[..];
      ghost var slots := ReadyFrom(captured, Occupied(was), 0);
      var iter := new ReadyByBits(rings, captured);
      ghost var seen: seq<nat>, pending := [], slots;
      var next := iter.Next();
      while next.Some?
        invariant Valid() && fresh(iter) && iter.Valid() && iter.items == rings
        invariant Occupied(rings[..]) == Occupied(was)
        invariant slots == seen + pending
        invariant Yields(pending, next, iter.Remaining())
        invariant Serviced(seen, was, rings[..], old(delivered), delivered)
        invariant handled == old(handled) + Drained(seen, was)
        invariant interfaces == old(interfaces) - ClosedMacs(Drained(seen, was))
        decreases |pending|
      {
        var id := next.value;
        NextReady(captured, Occupied(was), seen, pending);
        ServiceSlot(id, seen, was, old(handled), old(interfaces), old(delivered));
        MoveFirst(seen, pending);
        seen, pending := seen + [id], pending[1..];
        next := iter.Next();
      }
      assert seen == slots;
    }
  }
}
