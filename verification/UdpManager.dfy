/** UdpManager (lib/src/runtime/interface/l4_managers/udp/manager.rs and handle.rs)
    as the interface thread runs it; UdpDispatch interleaves the same steps with the
    sockets' threads. */
module UdpManagers {
  import opened Common
  import opened ReadyBits
  import Bell = Doorbell
  import opened PortBinding
  import opened UdpDispatch

  /** The part of the machine the interface thread owns. */
  datatype Core<!D> = Core(
    ids: seq<Option<SocketAddr>>, ports: Ports, rings: seq<seq<Message<D>>>, delivered: seq<seq<Message<D>>>)

  function CoreOf<D>(s: Sockets<D>): Core<D>
  {
    Core(s.ids, s.ports, s.rings, s.delivered)
  }

  function WithCore<D>(s: Sockets<D>, c: Core<D>): Sockets<D>
  {
    s.(ids := c.ids, ports := c.ports, rings := c.rings, delivered := c.delivered)
  }

  /** How many messages drain_send pops: up to and including the first Drop. */
  function Taken<D>(ring: seq<Message<D>>): (n: nat)
    ensures n <= |ring|
    ensures forall k :: 0 <= k < n - 1 ==> !ring[k].Drop?
    ensures n < |ring| ==> n > 0 && ring[n - 1].Drop?
  {
    if ring == [] then 0 else if ring[0].Drop? then 1 else 1 + Taken(ring[1..])
  }

  predicate Removes<D>(ring: seq<Message<D>>)
  {
    Taken(ring) > 0 && ring[Taken(ring) - 1].Drop?
  }

  /** One ready id: its address, that address's handle, that handle's ring. */
  function Dispatch<D>(c: Core<D>, id: nat): Core<D>
    requires id < |c.ids| && c.ids[id].Some?
  {
    match Get(c.ports, c.ids[id].value)
    case None => c
    case Some(h) =>
      if h.id >= |c.rings| || h.id >= |c.delivered| then c
      else
        var ring := c.rings[h.id];
        var n := Taken(ring);
        c.(rings := c.rings[h.id := ring[n..]], delivered := c.delivered[h.id := c.delivered[h.id] + ring[..n]],
           ports := if Removes(ring) then Removed(c.ports, c.ids[id].value) else c.ports)
  }

  ghost predicate AreBound(ids: seq<Option<SocketAddr>>, ready: seq<nat>)
  {
    forall k :: 0 <= k < |ready| ==> ready[k] < |ids| && ids[ready[k]].Some?
  }

  ghost function DispatchAll<D>(c: Core<D>, ready: seq<nat>): (c': Core<D>)
    requires AreBound(c.ids, ready)
    ensures c'.ids == c.ids
    decreases |ready|
  {
    if ready == [] then c else DispatchAll(Dispatch(c, ready[0]), ready[1..])
  }

  // ----- The same steps in the machine -----

  lemma TakenNext<D>(ring: seq<Message<D>>)
    requires ring != [] && !ring[0].Drop?
    ensures Taken(ring) == 1 + Taken(ring[1..]) && Removes(ring) == Removes(ring[1..])
    ensures ring[Taken(ring)..] == ring[1..][Taken(ring[1..])..]
    ensures ring[..Taken(ring)] == [ring[0]] + ring[1..][..Taken(ring[1..])]
  {
  }

  /** After the first message of a visit the rest of it is still to be done. */
  lemma DispatchAfterPop<D>(s: Sockets<D>, id: nat, j: nat)
    requires WellFormed(s) && s.consumer.Draining? && Ringing(s, id) == Some(j) && !s.rings[j][0].Drop?
    ensures Dispatch(CoreOf(Pop(s, id, j)), id) == Dispatch(CoreOf(s), id)
  {
    var ring := s.rings[j];
    TakenNext(ring);
    assert s.delivered[j] + [ring[0]] + ring[1..][..Taken(ring[1..])] == s.delivered[j] + ring[..Taken(ring)];
    assert s.rings[j := ring[1..]][j := ring[Taken(ring)..]] == s.rings[j := ring[Taken(ring)..]];
    var d := s.delivered[j] + ring[..Taken(ring)];
    assert s.delivered[j := s.delivered[j] + [ring[0]]][j := d] == s.delivered[j := d];
  }

  /** A Drop at the front ends the visit. */
  lemma DispatchDrop<D>(s: Sockets<D>, id: nat, j: nat)
    requires WellFormed(s) && s.consumer.Draining? && Ringing(s, id) == Some(j) && s.rings[j][0].Drop?
    ensures Pop(s, id, j) == WithCore(s, Dispatch(CoreOf(s), id)).(consumer := Bell.Draining(s.consumer.left - {id}))
  {
    assert s.rings[j][..1] == [s.rings[j][0]];
  }

  lemma DispatchNothing<D>(s: Sockets<D>, id: nat)
    requires WellFormed(s) && id < |s.ids| && s.ids[id].Some? && Ringing(s, id) == None
    ensures Dispatch(CoreOf(s), id) == CoreOf(s)
  {
    match Get(s.ports, s.ids[id].value)
    case None =>
    case Some(h) =>
      if h.id < |s.rings| {
        assert s.rings[h.id] == [] && s.rings[h.id := []] == s.rings;
        assert s.delivered[h.id] + [] == s.delivered[h.id];
      }
  }

  function Pops<D>(n: nat): seq<Action<D>>
  {
    if n == 0 then [] else [TryPop] + Pops(n - 1)
  }

  lemma PopsStep<D>(s: Sockets<D>, n: nat)
    requires WellFormed(s)
    ensures Run(s, Pops(n + 1)) == Run(Apply(s, TryPop), Pops(n))
  {
    assert Pops<D>(n + 1)[1..] == Pops(n);
  }

  lemma VisitStep<D>(s: Sockets<D>, id: nat)
    requires WellFormed(s) && s.consumer.Draining? && Bell.Lowest(s.consumer.left, id)
    ensures var j := Ringing(s, id);
            Apply(s, TryPop) == if j.Some? then Pop(s, id, j.value)
                                else s.(consumer := Bell.Draining(s.consumer.left - {id}))
  {
    assert Bell.Next(s.consumer.left) == id;
  }

  /** Popping a message that is no Drop goes on with the same visit. */
  lemma VisitGoesOn<D>(s: Sockets<D>, id: nat, j: nat)
    requires WellFormed(s) && s.consumer.Draining? && Ringing(s, id) == Some(j) && !s.rings[j][0].Drop?
    ensures var s1 := Pop(s, id, j);
            && s1.consumer == s.consumer && s1.ids == s.ids && WellFormed(s1)
            && WithCore(s1, Dispatch(CoreOf(s), id)) == WithCore(s, Dispatch(CoreOf(s), id))
            && (Ringing(s1, id).Some? ==> Ringing(s1, id).value == j) && |s1.rings[j]| < |s.rings[j]|
  {
  }

  /** n pops are the whole visit of the id, and the visit is its dispatch. */
  ghost predicate IsVisit<D>(s: Sockets<D>, id: nat, n: nat)
  {
    && WellFormed(s) && s.consumer.Draining? && id < |s.ids| && s.ids[id].Some?
    && Run(s, Pops(n)) == WithCore(s, Dispatch(CoreOf(s), id)).(consumer := Bell.Draining(s.consumer.left - {id}))
  }

  lemma VisitEnds<D>(s: Sockets<D>, id: nat)
    requires WellFormed(s) && s.consumer.Draining? && Bell.Lowest(s.consumer.left, id)
    requires id < |s.ids| && s.ids[id].Some?
    requires Ringing(s, id).Some? ==> s.rings[Ringing(s, id).value][0].Drop?
    ensures IsVisit(s, id, 1)
  {
    VisitStep(s, id);
    PopsStep(s, 0);
    match Ringing(s, id)
    case None => DispatchNothing(s, id);
    case Some(j) => DispatchDrop(s, id, j);
  }

  lemma VisitContinues<D>(s: Sockets<D>, id: nat, j: nat, m: nat)
    requires WellFormed(s) && s.consumer.Draining? && Bell.Lowest(s.consumer.left, id)
    requires Ringing(s, id) == Some(j) && !s.rings[j][0].Drop? && IsVisit(Pop(s, id, j), id, m)
    ensures IsVisit(s, id, m + 1)
  {
    VisitStep(s, id);
    VisitGoesOn(s, id, j);
    DispatchAfterPop(s, id, j);
    PopsStep(s, m);
  }

  /** The id is being visited, and its dispatch has at most `size` messages to look at. */
  ghost predicate Visiting<D>(s: Sockets<D>, id: nat, size: nat)
  {
    && WellFormed(s) && s.consumer.Draining? && Bell.Lowest(s.consumer.left, id)
    && id < |s.ids| && s.ids[id].Some?
    && (Ringing(s, id).Some? ==> |s.rings[Ringing(s, id).value]| <= size)
  }

  /** The visit ends with its next pop. */
  ghost predicate Ends<D>(s: Sockets<D>, id: nat)
    requires WellFormed(s)
  {
    Ringing(s, id).Some? ==> s.rings[Ringing(s, id).value][0].Drop?
  }

  ghost predicate HasVisit<D>(s: Sockets<D>, id: nat)
  {
    exists n :: IsVisit(s, id, n)
  }

  lemma LastOfVisit<D>(s: Sockets<D>, id: nat, size: nat)
    requires Visiting(s, id, size) && Ends(s, id)
    ensures HasVisit(s, id)
  {
    VisitEnds(s, id);
  }

  lemma NextOfVisit<D>(s: Sockets<D>, id: nat, size: nat) returns (s1: Sockets<D>)
    requires Visiting(s, id, size) && !Ends(s, id)
    ensures size > 0 && Visiting(s1, id, size - 1)
    ensures HasVisit(s1, id) ==> HasVisit(s, id)
  {
    var j := Ringing(s, id).value;
    s1 := Pop(s, id, j);
    VisitGoesOn(s, id, j);
    if HasVisit(s1, id) {
      var m :| IsVisit(s1, id, m);
      VisitContinues(s, id, j, m);
    }
  }

  lemma {:induction false} VisitFrom<D>(s: Sockets<D>, id: nat, size: nat)
    requires Visiting(s, id, size)
    ensures HasVisit(s, id)
    decreases size
  {
    if Ends(s, id) {
      LastOfVisit(s, id, size);
    } else {
      var s1 := NextOfVisit(s, id, size);
      VisitFrom(s1, id, size - 1);
    }
  }

  /** The visit of the lowest captured id, message by message, is its dispatch. */
  lemma VisitIsDispatch<D>(s: Sockets<D>, id: nat) returns (n: nat)
    requires WellFormed(s) && s.consumer.Draining? && Bell.Lowest(s.consumer.left, id)
    requires id < |s.ids| && s.ids[id].Some?
    ensures IsVisit(s, id, n)
  {
    VisitFrom(s, id, if Ringing(s, id).Some? then |s.rings[Ringing(s, id).value]| else 0);
    n :| IsVisit(s, id, n);
  }

  /** The ready ids, ascending, are the captured ids of bound sockets. */
  ghost predicate Lists(ready: seq<nat>, left: set<nat>, ids: seq<Option<SocketAddr>>)
  {
    && (forall i, j :: 0 <= i < j < |ready| ==> ready[i] < ready[j])
    && forall id :: id in ready <==> id in left && id < |ids| && ids[id].Some?
  }

  lemma FirstIsMember(ready: seq<nat>)
    ensures ready != [] ==> ready[0] in ready
  {
  }

  lemma ListsFirst(ready: seq<nat>, left: set<nat>, ids: seq<Option<SocketAddr>>)
    requires Lists(ready, left, ids) && left != {}
    ensures var id := Bell.Next(left);
            if id < |ids| && ids[id].Some? then ready != [] && ready[0] == id && Lists(ready[1..], left - {id}, ids)
            else Lists(ready, left - {id}, ids)
  {
    var id := Bell.Next(left);
    if id < |ids| && ids[id].Some? {
      assert id in ready;
      var k :| 0 <= k < |ready| && ready[k] == id;
      assert ready[0] in ready;
      assert k == 0;
      assert forall x :: x in ready[1..] <==> x in ready && x != id by {
        forall x | x in ready && x != id ensures x in ready[1..] {
          var i :| 0 <= i < |ready| && ready[i] == x;
          assert ready[1..][i - 1] == x;
        }
      }
    }
  }

  lemma {:induction false} PopsSum<D>(n: nat, m: nat)
    ensures Pops<D>(n + m) == Pops(n) + Pops(m)
  {
    if n > 0 { PopsSum<D>(n - 1, m); }
  }

  lemma PopsThen<D>(s: Sockets<D>, n: nat, m: nat)
    requires WellFormed(s)
    ensures Run(s, Pops(n + m)) == Run(Run(s, Pops(n)), Pops(m))
  {
    PopsSum<D>(n, m);
    RunThen(s, Pops(n), Pops(m));
  }

  lemma VisitThenRest<D>(s: Sockets<D>, s1: Sockets<D>, id: nat, ready: seq<nat>)
    requires AreBound(s.ids, ready) && ready != [] && ready[0] == id && s.consumer.Draining?
    requires s1 == WithCore(s, Dispatch(CoreOf(s), id)).(consumer := Bell.Draining(s.consumer.left - {id}))
    ensures s1.ids == s.ids && AreBound(s1.ids, ready[1..])
    ensures WithCore(s1, DispatchAll(CoreOf(s1), ready[1..])).(consumer := Bell.Draining({}))
         == WithCore(s, DispatchAll(CoreOf(s), ready)).(consumer := Bell.Draining({}))
  {
    assert CoreOf(s1) == Dispatch(CoreOf(s), id);
  }

  /** The whole pass over what was captured, message by message, is the dispatch of
      the ready ids one after the other. */
  lemma {:induction false} PassIsDispatchAll<D>(s: Sockets<D>, ready: seq<nat>) returns (n: nat)
    requires WellFormed(s) && s.consumer.Draining? && AreBound(s.ids, ready) && Lists(ready, s.consumer.left, s.ids)
    ensures Run(s, Pops(n)) == WithCore(s, DispatchAll(CoreOf(s), ready)).(consumer := Bell.Draining({}))
    decreases |s.consumer.left|, 2
  {
    if s.consumer.left == {} {
      FirstIsMember(ready);
      n := 0;
    } else {
      var id := Bell.Next(s.consumer.left);
      ListsFirst(ready, s.consumer.left, s.ids);
      if id < |s.ids| && s.ids[id].Some? {
        n := PassVisits(s, id, ready);
      } else {
        n := PassSkips(s, id, ready);
      }
    }
  }

  lemma {:induction false} PassVisits<D>(s: Sockets<D>, id: nat, ready: seq<nat>) returns (n: nat)
    requires WellFormed(s) && s.consumer.Draining? && AreBound(s.ids, ready) && Bell.Lowest(s.consumer.left, id)
    requires ready != [] && ready[0] == id && Lists(ready[1..], s.consumer.left - {id}, s.ids)
    ensures Run(s, Pops(n)) == WithCore(s, DispatchAll(CoreOf(s), ready)).(consumer := Bell.Draining({}))
    decreases |s.consumer.left|, 1
  {
    var first := VisitIsDispatch(s, id);
    n := PassRest(s, Run(s, Pops(first)), first, id, ready);
  }

  lemma {:induction false} PassRest<D>(s: Sockets<D>, s1: Sockets<D>, first: nat, id: nat,
                                       ready: seq<nat>) returns (n: nat)
    requires WellFormed(s) && WellFormed(s1) && s.consumer.Draining? && id in s.consumer.left
    requires AreBound(s.ids, ready) && ready != [] && ready[0] == id
    requires Lists(ready[1..], s.consumer.left - {id}, s.ids) && Run(s, Pops(first)) == s1
    requires s1 == WithCore(s, Dispatch(CoreOf(s), id)).(consumer := Bell.Draining(s.consumer.left - {id}))
    ensures Run(s, Pops(n)) == WithCore(s, DispatchAll(CoreOf(s), ready)).(consumer := Bell.Draining({}))
    decreases |s.consumer.left|, 0
  {
    assert |s.consumer.left - {id}| < |s.consumer.left|;
    VisitThenRest(s, s1, id, ready);
    var rest := PassIsDispatchAll(s1, ready[1..]);
    PopsThen(s, first, rest);
    n := first + rest;
  }

  lemma {:induction false} PassSkips<D>(s: Sockets<D>, id: nat, ready: seq<nat>) returns (n: nat)
    requires WellFormed(s) && s.consumer.Draining? && AreBound(s.ids, ready) && Bell.Lowest(s.consumer.left, id)
    requires !(id < |s.ids| && s.ids[id].Some?) && Lists(ready, s.consumer.left - {id}, s.ids)
    ensures Run(s, Pops(n)) == WithCore(s, DispatchAll(CoreOf(s), ready)).(consumer := Bell.Draining({}))
    decreases |s.consumer.left|, 0
  {
    assert |s.consumer.left - {id}| < |s.consumer.left|;
    VisitStep(s, id);
    var s1 := s.(consumer := Bell.Draining(s.consumer.left - {id}));
    assert CoreOf(s1) == CoreOf(s);
    var rest := PassIsDispatchAll(s1, ready);
    PopsStep(s, rest);
    n := 1 + rest;
  }

  // ----- In place -----

  lemma TakeOne<D>(ring: seq<Message<D>>, before: seq<Message<D>>, k: nat)
    requires k < |ring|
    ensures ring[k..][0] == ring[k] && ring[k..][1..] == ring[k + 1..]
    ensures before + ring[..k] + [ring[k]] == before + ring[..k + 1]
    ensures !ring[k].Drop? ==>
              Taken(ring[k..]) == 1 + Taken(ring[k + 1..]) && Removes(ring[k..]) == Removes(ring[k + 1..])
    ensures ring[k].Drop? ==> Taken(ring[k..]) == 1 && Removes(ring[k..])
  {
    assert ring[k..][1..] == ring[k + 1..] && ring[..k] + [ring[k]] == ring[..k + 1];
    if !ring[k].Drop? { TakenNext(ring[k..]); }
  }

  class UdpManager<D> {
    const words: nat
    const capacity: nat
    const ids: array<Option<SocketAddr>>
    const sockets: PortBindings
    var rings: seq<seq<Message<D>>>
    var delivered: seq<seq<Message<D>>>
    var readyBits: seq<nat>

    ghost predicate Valid()
      reads this, ids, sockets
    {
      && ids.Length == 64 * words == |rings| == |delivered| && |readyBits| == words && AreU64(readyBits)
      && Owned(ids[..], sockets.ports)
    }

    ghost function Value(): Core<D>
      reads this, ids, sockets
    {
      Core(ids[..], sockets.ports, rings, delivered)
    }

    constructor (words: nat, capacity: nat)
      ensures Valid() && fresh(ids) && fresh(sockets) && this.words == words && this.capacity == capacity
      ensures forall id :: 0 <= id < ids.Length ==> ids[id] == None
    {
      this.words, this.capacity := words, capacity;
      ids := new Option<SocketAddr>[64 * words](_ => None);
      sockets := new PortBindings();
      rings, delivered := seq(64 * words, _ => []), seq(64 * words, _ => []);
      readyBits := seq(words, _ => 0);
    }

    /** The free port of an ephemeral bind, or of the address itself. */
    method Choose(addr: SocketAddr, draw: nat -> U16) returns (r: Option<SocketAddr>)
      requires Valid()
      ensures r == Chosen(sockets.ports, addr, draw)
    {
      if addr.port != 0 {
        var free := sockets.CanBind(addr, false, true);
        return if free then Some(addr) else None;
      }
      r := ChooseEphemeral(addr.ip, draw);
    }

    method ChooseEphemeral(ip: Ip, draw: nat -> U16) returns (r: Option<SocketAddr>)
      requires Valid()
      ensures r == ChoosePort(sockets.ports, ip, draw, 0)
    {
      var attempts := 0;
      while attempts < ATTEMPTS
        invariant attempts <= ATTEMPTS
        invariant ChoosePort(sockets.ports, ip, draw, 0) == ChoosePort(sockets.ports, ip, draw, attempts)
      {
        var proposed := PortBinding.SocketAddr(ip, draw(attempts));
        var free := sockets.CanBind(proposed, false, true);
        if free {
          return Some(proposed);
        }
        attempts := attempts + 1;
      }
      return None;
    }

    method Bind(addr: SocketAddr, draw: nat -> U16) returns (r: BindResult)
      requires Valid()
      modifies ids, sockets
      ensures Valid() && r == BindTo(old(ids[..]), old(sockets.ports), addr, draw)
      ensures ids[..] == if r.Bound? then old(ids[..])[r.id := Some(r.addr)] else old(ids[..])
      ensures sockets.ports == if r.Bound? then WithBinding(old(sockets.ports), r.addr, r.id) else old(sockets.ports)
    {
      if !addr.ip.V4? {
        return Refused(Unsupported);
      }
      var chosen := Choose(addr, draw);
      if chosen.None? {
        return Refused(AddrInUse);
      }
      var id := FirstFree(ids[..]);
      if id == ids.Length {
        return Refused(OutOfMemory);
      }
      BindKeepsOwned(ids[..], sockets.ports, id, chosen.value);
      ids[id] := Some(chosen.value);
      sockets.Insert(chosen.value, Handle(id, false), true);
      return Bound(id, chosen.value);
    }

    /** Pops the ring of a handle until it is empty or a Drop comes out. */
    method DrainSend(id: nat) returns (remove: bool)
      requires id < |rings| == |delivered|
      modifies this`rings, this`delivered
      ensures var ring := old(rings)[id];
              && remove == Removes(ring)
              && rings == old(rings)[id := ring[Taken(ring)..]]
              && delivered == old(delivered)[id := old(delivered)[id] + ring[..Taken(ring)]]
    {
      ghost var ring, before := rings[id], delivered[id];
      ghost var k := 0;
      assert before + ring[..0] == before && ring[0..] == ring;
      while rings[id] != []
        invariant 0 <= k <= |ring| && rings == old(rings)[id := ring[k..]]
        invariant delivered == old(delivered)[id := before + ring[..k]]
        invariant Taken(ring) == k + Taken(ring[k..]) && Removes(ring) == Removes(ring[k..])
        decreases |ring| - k
      {
        TakeOne(ring, before, k);
        var message := TryPopMessage(id);
        k := k + 1;
        if message.Drop? {
          return true;
        }
      }
      return false;
    }

    method TryPopMessage(id: nat) returns (message: Message<D>)
      requires id < |rings| == |delivered| && rings[id] != []
      modifies this`rings, this`delivered
      ensures message == old(rings)[id][0]
      ensures rings == old(rings)[id := old(rings)[id][1..]]
      ensures delivered == old(delivered)[id := old(delivered)[id] + [message]]
    {
      message := rings[id][0];
      rings := rings[id := rings[id][1..]];
      delivered := delivered[id := delivered[id] + [message]];
    }

    method DispatchOne(id: nat)
      requires Valid() && id < ids.Length && ids[id].Some?
      modifies this`rings, this`delivered, sockets
      ensures Valid() && Value() == Dispatch(old(Value()), id)
    {
      var addr := ids[id].value;
      var found := Get(sockets.ports, addr);
      if found.Some? {
        FoundIsBound(ids[..], sockets.ports, addr);
        var remove := DrainSend(found.value.id);
        if remove {
          RemoveKeepsOwned(ids[..], sockets.ports, addr);
          sockets.Remove(addr);
        }
      }
    }

    /** Swaps the bit words to zero, then dispatches the ids they name, lowest first. */
    method ProcessBuffers() returns (ghost ready: seq<nat>)
      requires Valid()
      modifies this, sockets
      ensures Valid() && readyBits == seq(words, _ => 0)
      ensures ready == ReadyFrom(old(readyBits), Occupied(ids[..]), 0) && AreBound(ids[..], ready)
      ensures Value() == DispatchAll(old(Value()), ready)
    {
      var captured := readyBits;
      readyBits := seq(words, _ => 0);
      var slots := CollectReady(ids, captured);
      ready := slots;
      ReadyExactly(captured, Occupied(ids[..]), 0);
      forall k | 0 <= k < |slots| ensures slots[k] < ids.Length && ids[slots[k]].Some? {
        assert slots[k] in slots;
      }
      DispatchEach(slots);
    }

    method DispatchEach(slots: seq<nat>)
      requires Valid() && AreBound(ids[..], slots)
      modifies this`rings, this`delivered, sockets
      ensures Valid() && Value() == DispatchAll(old(Value()), slots)
    {
      ghost var start := Value();
      var i := 0;
      while i < |slots|
        invariant i <= |slots| && Valid() && AreBound(ids[..], slots)
        invariant AreBound(ids[..], slots[i..]) && DispatchAll(start, slots) == DispatchAll(Value(), slots[i..])
      {
        assert slots[i..][0] == slots[i] && slots[i..][1..] == slots[i + 1..];
        DispatchOne(slots[i]);
        i := i + 1;
      }
    }
  }

  lemma FoundIsBound(ids: seq<Option<SocketAddr>>, ports: Ports, addr: SocketAddr)
    requires Owned(ids, ports) && Get(ports, addr).Some?
    ensures Get(ports, addr).value.id < |ids|
  {
    var bindings := PortBinding.At(ports, addr.port);
    var k :| 0 <= k < |bindings| && bindings[k].handle == Get(ports, addr).value;
    assert bindings == ports[addr.port];
  }
}
