/** The hand-off from UDP sockets to the interface thread
    (lib/src/runtime/interface/l4_managers/udp: context.rs, manager.rs, handle.rs).
    A socket rings the bit of its own id; process_buffers turns the id into the
    address it was bound to, and the address into a handle, whose ring it drains.
    As in Doorbell every atomic access is one event, and an event that is not
    enabled changes nothing; binding happens on the interface thread, between its
    calls of process_buffers. */
module UdpDispatch {
  import opened Common
  import opened PortBinding
  import opened Doorbell

  const ATTEMPTS := 128

  /** What a socket puts in its ring; everything but Drop is data here. */
  datatype Message<!D> = Data(value: D) | Drop

  datatype Sockets<!D> = Sockets(
    words: nat, capacity: nat, timeouts: bool, // constants of the instance
    ids: seq<Option<SocketAddr>>, ports: Ports, rings: seq<seq<Message<D>>>, open: seq<bool>,
    producers: seq<ProducerPc>, bits: set<nat>, wake: bool, consumer: ConsumerPc,
    accepted: seq<seq<Message<D>>>, delivered: seq<seq<Message<D>>>)

  datatype Action<!D> =
    | Bind(addr: SocketAddr, draw: nat -> U16)
    | TryPush(id: nat, value: D)
    | Close(id: nat)
    | FetchOr(id: nat)
    | Wake(id: nat)
    | Start
    | SwapWord
    | TryPop
    | Finish

  // ----- Binding -----

  datatype BindError = Unsupported | AddrInUse | OutOfMemory

  datatype BindResult = Bound(id: nat, addr: SocketAddr) | Refused(error: BindError)

  predicate Bindable(ports: Ports, addr: SocketAddr)
  {
    IsBindable(At(ports, addr.port), addr, false, true)
  }

  /** The first of the ports drawn that is free, within the number of attempts. */
  function ChoosePort(ports: Ports, ip: Ip, draw: nat -> U16, n: nat): (r: Option<SocketAddr>)
    ensures r.Some? ==> r.value.ip == ip && Bindable(ports, r.value)
    ensures r.None? ==> forall k :: n <= k < ATTEMPTS ==> !Bindable(ports, SocketAddr(ip, draw(k)))
    decreases ATTEMPTS - n
  {
    if n >= ATTEMPTS then None
    else if Bindable(ports, SocketAddr(ip, draw(n))) then Some(SocketAddr(ip, draw(n)))
    else ChoosePort(ports, ip, draw, n + 1)
  }

  function FirstFree(ids: seq<Option<SocketAddr>>): (i: nat)
    ensures i <= |ids| && (i < |ids| ==> ids[i] == None)
    ensures forall j :: 0 <= j < i ==> ids[j].Some?
  {
    if ids == [] || ids[0] == None then 0 else 1 + FirstFree(ids[1..])
  }

  function Chosen(ports: Ports, addr: SocketAddr, draw: nat -> U16): Option<SocketAddr>
  {
    if addr.port == 0 then ChoosePort(ports, addr.ip, draw, 0)
    else if Bindable(ports, addr) then Some(addr) else None
  }

  function BindTo(ids: seq<Option<SocketAddr>>, ports: Ports, addr: SocketAddr, draw: nat -> U16): (r: BindResult)
    ensures r.Bound? ==> r.id < |ids| && ids[r.id] == None && r.addr.ip == addr.ip && Bindable(ports, r.addr)
  {
    if !addr.ip.V4? then Refused(Unsupported)
    else
      match Chosen(ports, addr, draw)
      case None => Refused(AddrInUse)
      case Some(a) => if FirstFree(ids) < |ids| then Bound(FirstFree(ids), a) else Refused(OutOfMemory)
  }

  function WithBinding(ports: Ports, addr: SocketAddr, id: nat): Ports
  {
    ports[addr.port := Inserted(At(ports, addr.port), addr, Handle(id, false), true)]
  }

  function Removed(ports: Ports, addr: SocketAddr): Ports
  {
    if addr.port in ports then ports[addr.port := Without(ports[addr.port], addr)] else ports
  }

  // ----- The machine -----

  ghost predicate WellFormed<D>(s: Sockets<D>)
  {
    |s.ids| == |s.rings| == |s.open| == |s.producers| == |s.accepted| == |s.delivered|
  }

  /** As many sockets, and the instance's constants. */
  ghost predicate Alike<D>(s: Sockets<D>, s': Sockets<D>)
  {
    WellFormed(s') && |s'.ids| == |s.ids| && s'.words == s.words && s'.capacity == s.capacity
  }

  predicate Producing<D>(s: Sockets<D>, id: nat, pc: ProducerPc)
  {
    id < |s.producers| && s.producers[id] == pc
  }

  function Push<D>(s: Sockets<D>, id: nat, m: Message<D>): Sockets<D>
    requires id < |s.rings| && id < |s.accepted| && id < |s.producers|
  {
    if |s.rings[id]| < s.capacity
    then s.(rings := s.rings[id := s.rings[id] + [m]], accepted := s.accepted[id := s.accepted[id] + [m]],
            producers := s.producers[id := Pushed])
    else s
  }

  /** Where the message is that the drained socket's ring holds next. */
  function Ringing<D>(s: Sockets<D>, id: nat): Option<nat>
  {
    if id >= |s.ids| || s.ids[id] == None then None
    else
      match Get(s.ports, s.ids[id].value)
      case None => None
      case Some(h) => if h.id < |s.rings| && s.rings[h.id] != [] then Some(h.id) else None
  }

  /** The dispatch of id pops one message of the ring of socket j. */
  function Pop<D>(s: Sockets<D>, id: nat, j: nat): Sockets<D>
    requires j < |s.rings| && j < |s.delivered| && s.rings[j] != [] && id < |s.ids| && s.ids[id].Some?
    requires s.consumer.Draining?
  {
    var m := s.rings[j][0];
    var s1 := s.(rings := s.rings[j := s.rings[j][1..]], delivered := s.delivered[j := s.delivered[j] + [m]]);
    if m.Drop? then s1.(ports := Removed(s.ports, s.ids[id].value), consumer := Draining(s.consumer.left - {id}))
    else s1
  }

  function BindStep<D>(s: Sockets<D>, addr: SocketAddr, draw: nat -> U16): (s': Sockets<D>)
    requires WellFormed(s)
    ensures Alike(s, s')
  {
    var r := BindTo(s.ids, s.ports, addr, draw);
    if s.consumer.Waiting? && r.Bound?
    then s.(ids := s.ids[r.id := Some(r.addr)], ports := WithBinding(s.ports, r.addr, r.id),
            open := s.open[r.id := true])
    else s
  }

  function PushStep<D>(s: Sockets<D>, id: nat, value: D): (s': Sockets<D>)
    requires WellFormed(s)
    ensures Alike(s, s')
  {
    if Producing(s, id, Idle) && s.open[id] then Push(s, id, Data(value)) else s
  }

  /** A full ring loses the Drop; either way the socket sends nothing more. */
  function CloseStep<D>(s: Sockets<D>, id: nat): (s': Sockets<D>)
    requires WellFormed(s)
    ensures Alike(s, s')
  {
    if Producing(s, id, Idle) && s.open[id] then Push(s, id, Drop).(open := s.open[id := false]) else s
  }

  function FetchStep<D>(s: Sockets<D>, id: nat): (s': Sockets<D>)
    requires WellFormed(s)
    ensures Alike(s, s')
  {
    if Producing(s, id, Pushed) then s.(bits := s.bits + {id}, producers := s.producers[id := Rang]) else s
  }

  function WakeStep<D>(s: Sockets<D>, id: nat): (s': Sockets<D>)
    requires WellFormed(s)
    ensures Alike(s, s')
  {
    if Producing(s, id, Rang) then s.(wake := true, producers := s.producers[id := Idle]) else s
  }

  function SwapStep<D>(s: Sockets<D>): (s': Sockets<D>)
    requires WellFormed(s) && s.consumer.Swapping?
    ensures Alike(s, s')
  {
    if s.consumer.word < s.words then
      var taken := set i | i in s.bits && i / 64 == s.consumer.word;
      s.(bits := s.bits - taken, consumer := Swapping(s.consumer.word + 1, s.consumer.captured + taken))
    else s.(consumer := Draining(s.consumer.captured))
  }

  ghost function DispatchStep<D>(s: Sockets<D>): (s': Sockets<D>)
    requires WellFormed(s) && s.consumer.Draining? && s.consumer.left != {}
    ensures Alike(s, s')
  {
    var id := Next(s.consumer.left);
    match Ringing(s, id)
    case Some(j) => Pop(s, id, j)
    case None => s.(consumer := Draining(s.consumer.left - {id}))
  }

  ghost function Apply<D>(s: Sockets<D>, e: Action<D>): (s': Sockets<D>)
    requires WellFormed(s)
    ensures Alike(s, s')
  {
    match e
    case Bind(addr, draw) => BindStep(s, addr, draw)
    case TryPush(id, value) => PushStep(s, id, value)
    case Close(id) => CloseStep(s, id)
    case FetchOr(id) => FetchStep(s, id)
    case Wake(id) => WakeStep(s, id)
    case Start =>
      if s.consumer.Waiting? && (s.wake || s.timeouts) then s.(wake := false, consumer := Swapping(0, {})) else s
    case SwapWord => if s.consumer.Swapping? then SwapStep(s) else s
    case TryPop => if s.consumer.Draining? && s.consumer.left != {} then DispatchStep(s) else s
    case Finish => if s.consumer == Draining({}) then s.(consumer := Waiting) else s
  }

  ghost function Run<D>(s: Sockets<D>, actions: seq<Action<D>>): (s': Sockets<D>)
    requires WellFormed(s)
    ensures WellFormed(s') && |s'.ids| == |s.ids|
    decreases |actions|
  {
    if actions == [] then s else Run(Apply(s, actions[0]), actions[1..])
  }

  lemma {:induction false} RunThen<D>(s: Sockets<D>, a: seq<Action<D>>, b: seq<Action<D>>)
    requires WellFormed(s)
    ensures Run(s, a + b) == Run(Run(s, a), b)
    decreases |a|
  {
    if a == [] {
      assert a + b == b;
    } else {
      assert (a + b)[0] == a[0] && (a + b)[1..] == a[1..] + b;
      RunThen(Apply(s, a[0]), a[1..], b);
    }
  }

  function Init<D>(slots: nat, words: nat, capacity: nat, timeouts: bool): Sockets<D>
  {
    Sockets(words, capacity, timeouts, seq(slots, _ => None), map[], seq(slots, _ => []), seq(slots, _ => false),
            seq(slots, _ => Idle), {}, false, Waiting, seq(slots, _ => []), seq(slots, _ => []))
  }

  // ----- The invariant -----

  /** A binding belongs to the socket whose id its handle carries, and that socket was
      bound to the binding's own address, exclusively and dual-stack. */
  ghost predicate Owned(ids: seq<Option<SocketAddr>>, ports: Ports)
  {
    && Deterministic(ports)
    && forall p, k :: p in ports && 0 <= k < |ports[p]| ==>
         var b := ports[p][k];
         && b.handle.id < |ids| && ids[b.handle.id] == Some(b.original) && !b.handle.allowReuse
         && b.original.port == p && b.target == TargetOf(b.original, true)
  }

  predicate HasHandle(bindings: seq<Binding>, id: nat)
  {
    exists k :: 0 <= k < |bindings| && bindings[k].handle.id == id
  }

  /** The socket has a binding. */
  predicate Live(ids: seq<Option<SocketAddr>>, ports: Ports, id: nat)
  {
    id < |ids| && ids[id].Some? && HasHandle(At(ports, ids[id].value.port), id)
  }

  /** The dispatch of a live socket's id drains that very socket's ring. */
  lemma OwnHandle(ids: seq<Option<SocketAddr>>, ports: Ports, id: nat)
    requires Owned(ids, ports) && Live(ids, ports, id)
    ensures Get(ports, ids[id].value) == Some(Handle(id, false))
  {
    var addr := ids[id].value;
    var bindings := At(ports, addr.port);
    var k :| 0 <= k < |bindings| && bindings[k].handle.id == id;
    FindIsUnique(bindings, k, addr.ip);
  }

  /** Some address reaches both the one requested and one bound on its port. */
  ghost predicate InUse(ports: Ports, addr: SocketAddr)
  {
    exists b :: b in At(ports, addr.port) && Overlap(TargetOf(addr, true), b.target)
  }

  lemma InUseExactly(ids: seq<Option<SocketAddr>>, ports: Ports, addr: SocketAddr)
    requires Owned(ids, ports)
    ensures Bindable(ports, addr) <==> !InUse(ports, addr)
  {
    BindableExactly(At(ports, addr.port), addr, false, true);
  }

  /** The n-th port drawn is the first, from the k-th on, that is not taken. */
  ghost predicate FirstUnused(ports: Ports, ip: Ip, draw: nat -> U16, k: nat, n: nat)
  {
    && k <= n < ATTEMPTS && !InUse(ports, SocketAddr(ip, draw(n)))
    && forall j :: k <= j < n ==> InUse(ports, SocketAddr(ip, draw(j)))
  }

  ghost predicate AllInUse(ports: Ports, ip: Ip, draw: nat -> U16, k: nat)
  {
    forall j: nat :: k <= j < ATTEMPTS ==> InUse(ports, SocketAddr(ip, draw(j)))
  }

  lemma {:induction false} ChosenFirst(ids: seq<Option<SocketAddr>>, ports: Ports, ip: Ip, draw: nat -> U16, k: nat)
    requires Owned(ids, ports)
    ensures match ChoosePort(ports, ip, draw, k)
            case None => AllInUse(ports, ip, draw, k)
            case Some(a) => exists n: nat :: FirstUnused(ports, ip, draw, k, n) && a == SocketAddr(ip, draw(n))
    decreases ATTEMPTS - k
  {
    if k < ATTEMPTS {
      InUseExactly(ids, ports, SocketAddr(ip, draw(k)));
      if Bindable(ports, SocketAddr(ip, draw(k))) {
        assert FirstUnused(ports, ip, draw, k, k);
      } else {
        ChosenFirst(ids, ports, ip, draw, k + 1);
        if ChoosePort(ports, ip, draw, k).Some? {
          var n: nat :| FirstUnused(ports, ip, draw, k + 1, n)
                     && ChoosePort(ports, ip, draw, k) == Some(SocketAddr(ip, draw(n)));
          assert FirstUnused(ports, ip, draw, k, n);
        }
      }
    }
  }

  /** An IPv4 address with a port is bound as it is asked for, or refused because an
      address bound on that port overlaps it; without a port it gets the first free one
      of those drawn, or is refused because all are taken; and the id is the first free
      one, or there is none. */
  lemma BindExactly(ids: seq<Option<SocketAddr>>, ports: Ports, addr: SocketAddr, draw: nat -> U16)
    requires Owned(ids, ports)
    ensures match BindTo(ids, ports, addr, draw)
            case Bound(id, a) =>
              && addr.ip.V4? && id < |ids| && ids[id] == None && (forall j :: 0 <= j < id ==> ids[j].Some?)
              && (if addr.port != 0 then a == addr && !InUse(ports, addr)
                  else exists n: nat :: FirstUnused(ports, addr.ip, draw, 0, n) && a == SocketAddr(addr.ip, draw(n)))
            case Refused(Unsupported) => addr.ip.V6?
            case Refused(AddrInUse) =>
              addr.ip.V4? && if addr.port != 0 then InUse(ports, addr) else AllInUse(ports, addr.ip, draw, 0)
            case Refused(OutOfMemory) =>
              && addr.ip.V4? && (forall j :: 0 <= j < |ids| ==> ids[j].Some?)
              && if addr.port != 0 then !InUse(ports, addr) else !AllInUse(ports, addr.ip, draw, 0)
  {
    InUseExactly(ids, ports, addr);
    ChosenFirst(ids, ports, addr.ip, draw, 0);
  }

  lemma BindKeepsOwned(ids: seq<Option<SocketAddr>>, ports: Ports, id: nat, addr: SocketAddr)
    requires Owned(ids, ports) && id < |ids| && ids[id] == None && Bindable(ports, addr)
    ensures Owned(ids[id := Some(addr)], WithBinding(ports, addr, id))
  {
    InsertKeeps(At(ports, addr.port), addr, Handle(id, false), true);
  }

  lemma BindLives(ids: seq<Option<SocketAddr>>, ports: Ports, id: nat, addr: SocketAddr, other: nat)
    requires Owned(ids, ports) && id < |ids| && ids[id] == None
    ensures Live(ids[id := Some(addr)], WithBinding(ports, addr, id), other) <==> other == id || Live(ids, ports, other)
  {
    var ids' := ids[id := Some(addr)];
    var ports': Ports := WithBinding(ports, addr, id);
    if other == id {
      assert ports'[addr.port][|At(ports, addr.port)|].handle.id == id;
    } else if Live(ids, ports, other) {
      var p := ids[other].value.port;
      var k :| 0 <= k < |At(ports, p)| && At(ports, p)[k].handle.id == other;
      assert ports'[p][k] == At(ports, p)[k];
    }
  }

  lemma RemoveKeepsOwned(ids: seq<Option<SocketAddr>>, ports: Ports, addr: SocketAddr)
    requires Owned(ids, ports)
    ensures Owned(ids, Removed(ports, addr))
  {
    if addr.port in ports { RemoveKeeps(ports[addr.port], addr); }
  }

  /** Removing by address releases the live socket bound to it, and no other. */
  lemma RemoveReleases(ids: seq<Option<SocketAddr>>, ports: Ports, addr: SocketAddr, id: nat)
    requires Owned(ids, ports)
    ensures Live(ids, Removed(ports, addr), id) <==> Live(ids, ports, id) && ids[id] != Some(addr)
  {
    if id < |ids| && ids[id].Some? {
      var own := ids[id].value;
      if addr.port in ports && own.port == addr.port {
        WithoutHandle(ids, ports, addr, id);
      }
    }
  }

  lemma WithoutHandle(ids: seq<Option<SocketAddr>>, ports: Ports, addr: SocketAddr, id: nat)
    requires Owned(ids, ports) && addr.port in ports && id < |ids| && ids[id].Some?
    ensures HasHandle(Without(ports[addr.port], addr), id) <==> HasHandle(ports[addr.port], id) && ids[id].value != addr
  {
    var bindings := ports[addr.port];
    var i, after := Position(bindings, addr), Without(bindings, addr);
    if HasHandle(bindings, id) && ids[id].value != addr {
      var k :| 0 <= k < |bindings| && bindings[k].handle.id == id;
      assert bindings[k].original != addr;
      assert after[if k < i then k else if i < |bindings| then k - 1 else k] == bindings[k];
    }
    if HasHandle(after, id) {
      var k :| 0 <= k < |after| && after[k].handle.id == id;
      StillBound(ids, ports, addr, k);
    }
  }

  lemma StillBound(ids: seq<Option<SocketAddr>>, ports: Ports, addr: SocketAddr, k: nat)
    requires Owned(ids, ports) && addr.port in ports && k < |Without(ports[addr.port], addr)|
    ensures var b := Without(ports[addr.port], addr)[k];
            b in ports[addr.port] && b.original != addr && HasHandle(ports[addr.port], b.handle.id)
  {
    var bindings := ports[addr.port];
    var i := Position(bindings, addr);
    var was := if k < i || i == |bindings| then k else k + 1;
    assert bindings[was] == Without(bindings, addr)[k];
    if bindings[was].original == addr { OneBindingEach(ids, ports, addr.port, was, i); }
  }

  /** One address is bound once. */
  lemma OneBindingEach(ids: seq<Option<SocketAddr>>, ports: Ports, p: U16, i: nat, j: nat)
    requires Owned(ids, ports) && p in ports && i < |ports[p]| && j < |ports[p]|
    requires ports[p][i].original == ports[p][j].original
    ensures i == j
  {
    FindIsUnique(ports[p], i, ports[p][i].original.ip);
  }

  // ----- What every interleaving keeps -----

  /** The socket's bit is set, about to be, or captured. */
  ghost predicate IsRung<D>(s: Sockets<D>, id: nat)
  {
    id in s.bits || Producing(s, id, Pushed) || Holds(s.consumer, id)
  }

  /** No live socket's message is stranded. */
  ghost predicate LiveAreRung<D>(s: Sockets<D>)
    requires WellFormed(s)
  {
    forall id: nat :: Live(s.ids, s.ports, id) && s.rings[id] != [] ==> IsRung(s, id)
  }

  /** The consumer has the id's bit and has not yet finished its dispatch. */
  predicate Holds(pc: ConsumerPc, id: nat)
  {
    match pc
    case Waiting => false
    case Swapping(_, captured) => id in captured
    case Draining(left) => id in left
  }

  /** A wake is there or coming, or the swap of the bit's word is. */
  ghost predicate IsHeard<D>(s: Sockets<D>, id: nat)
  {
    s.wake || Producing(s, id, Rang) || (s.consumer.Swapping? && s.consumer.word <= id / 64)
  }

  ghost predicate BitsHeard<D>(s: Sockets<D>)
  {
    && |s.ids| <= 64 * s.words
    && forall id :: id in s.bits ==> id < |s.ids| && IsHeard(s, id)
  }

  ghost predicate Fifo<D>(s: Sockets<D>)
    requires WellFormed(s)
  {
    forall id :: 0 <= id < |s.rings| ==>
      s.delivered[id] + s.rings[id] == s.accepted[id] && |s.rings[id]| <= s.capacity
  }

  /** A Drop is the last message a socket ever sends. */
  ghost predicate DropIsLast<D>(s: Sockets<D>)
    requires WellFormed(s)
  {
    forall id, k :: 0 <= id < |s.accepted| && 0 <= k < |s.accepted[id]| && s.accepted[id][k].Drop? ==>
      k == |s.accepted[id]| - 1 && !s.open[id]
  }

  /** The socket has nothing left to deliver: it was never bound, or its Drop has
      been delivered. */
  ghost predicate IsDone<D>(s: Sockets<D>, id: nat)
    requires WellFormed(s) && id < |s.ids|
  {
    && s.rings[id] == [] && !s.open[id]
    && (if s.ids[id].Some? then s.accepted[id] != [] && Last(s.accepted[id]).Drop? else s.accepted[id] == [])
  }

  ghost predicate ReleasedAreDone<D>(s: Sockets<D>)
    requires WellFormed(s)
  {
    forall id :: 0 <= id < |s.ids| ==> Live(s.ids, s.ports, id) || IsDone(s, id)
  }

  function Last<T>(s: seq<T>): T
    requires s != []
  {
    s[|s| - 1]
  }

  ghost predicate Inv<D>(s: Sockets<D>)
  {
    && WellFormed(s) && Owned(s.ids, s.ports)
    && LiveAreRung(s) && BitsHeard(s) && Fifo(s) && DropIsLast(s) && ReleasedAreDone(s)
  }

  lemma BindDone<D>(s: Sockets<D>, id: nat, addr: SocketAddr)
    requires WellFormed(s) && Owned(s.ids, s.ports) && ReleasedAreDone(s) && id < |s.ids| && s.ids[id] == None
    ensures IsDone(s, id) && !Live(s.ids, s.ports, id)
    ensures ReleasedAreDone(s.(ids := s.ids[id := Some(addr)], ports := WithBinding(s.ports, addr, id),
                               open := s.open[id := true]))
  {
    var s' := s.(ids := s.ids[id := Some(addr)], ports := WithBinding(s.ports, addr, id), open := s.open[id := true]);
    assert Live(s.ids, s.ports, id) || IsDone(s, id);
    forall x: nat | x < |s'.ids| ensures Live(s'.ids, s'.ports, x) || IsDone(s', x) {
      BindLives(s.ids, s.ports, id, addr, x);
      assert Live(s.ids, s.ports, x) || IsDone(s, x);
    }
  }

  lemma BindRung<D>(s: Sockets<D>, id: nat, addr: SocketAddr)
    requires WellFormed(s) && Owned(s.ids, s.ports) && LiveAreRung(s) && id < |s.ids| && s.ids[id] == None
    requires s.rings[id] == []
    ensures LiveAreRung(s.(ids := s.ids[id := Some(addr)], ports := WithBinding(s.ports, addr, id),
                           open := s.open[id := true]))
  {
    var s' := s.(ids := s.ids[id := Some(addr)], ports := WithBinding(s.ports, addr, id), open := s.open[id := true]);
    forall x: nat | Live(s'.ids, s'.ports, x) && s'.rings[x] != [] ensures IsRung(s', x) {
      BindLives(s.ids, s.ports, id, addr, x);
      assert IsRung(s, x);
    }
  }

  lemma BindKeeps<D>(s: Sockets<D>, addr: SocketAddr, draw: nat -> U16)
    requires Inv(s)
    ensures Inv(Apply(s, Bind(addr, draw)))
  {
    var r := BindTo(s.ids, s.ports, addr, draw);
    if s.consumer.Waiting? && r.Bound? {
      BindKeepsOwned(s.ids, s.ports, r.id, r.addr);
      BindDone(s, r.id, r.addr);
      BindRung(s, r.id, r.addr);
    }
  }

  /** One bit of an action's outcome is heard if the bits before it were. */
  ghost predicate StaysHeard<D>(s: Sockets<D>, s': Sockets<D>, id: nat)
  {
    id in s'.bits && (id in s.bits ==> id < |s.ids| && IsHeard(s, id)) ==> id < |s'.ids| && IsHeard(s', id)
  }

  lemma FetchHeard<D>(s: Sockets<D>, e: Action<D>, id: nat)
    requires WellFormed(s) && e.FetchOr?
    ensures StaysHeard(s, Apply(s, e), id)
  {
  }

  lemma WakeHeard<D>(s: Sockets<D>, e: Action<D>, id: nat)
    requires WellFormed(s) && (e.Wake? || e.Start? || e.Finish?)
    ensures StaysHeard(s, Apply(s, e), id)
  {
  }

  lemma SwapHeard<D>(s: Sockets<D>, id: nat)
    requires WellFormed(s) && |s.ids| <= 64 * s.words
    ensures StaysHeard(s, Apply(s, Action.SwapWord), id)
  {
  }

  lemma DispatchHeard<D>(s: Sockets<D>, id: nat)
    requires WellFormed(s)
    ensures StaysHeard(s, Apply(s, Action.TryPop), id)
  {
  }

  lemma ProducerHeard<D>(s: Sockets<D>, e: Action<D>, id: nat)
    requires WellFormed(s) && (e.Bind? || e.TryPush? || e.Close?)
    ensures StaysHeard(s, Apply(s, e), id)
  {
  }

  lemma EachHeard<D>(s: Sockets<D>, e: Action<D>, id: nat)
    requires WellFormed(s) && |s.ids| <= 64 * s.words
    ensures StaysHeard(s, Apply(s, e), id)
  {
    match e
    case FetchOr(_) => FetchHeard(s, e, id);
    case SwapWord => SwapHeard(s, id);
    case TryPop => DispatchHeard(s, id);
    case Wake(_) => WakeHeard(s, e, id);
    case Start => WakeHeard(s, e, id);
    case Finish => WakeHeard(s, e, id);
    case _ => ProducerHeard(s, e, id);
  }

  /** Bits are heard whatever happens: only fetch_or sets one, and only its swap or a
      new pass clears what makes it heard. */
  lemma HeardStep<D>(s: Sockets<D>, e: Action<D>)
    requires WellFormed(s) && BitsHeard(s)
    ensures BitsHeard(Apply(s, e))
  {
    var s' := Apply(s, e);
    forall id | id in s'.bits ensures id < |s'.ids| && IsHeard(s', id) {
      EachHeard(s, e, id);
    }
  }

  lemma PushKeeps<D>(s: Sockets<D>, id: nat, m: Message<D>)
    requires Inv(s) && Producing(s, id, Idle) && s.open[id]
    ensures var s1 := Push(s, id, m);
            Inv(if m.Drop? then s1.(open := s1.open[id := false]) else s1)
  {
    var s1 := Push(s, id, m);
    var s' := if m.Drop? then s1.(open := s1.open[id := false]) else s1;
    PushFifo(s, id, m);
    PushIsLast(s, id, m);
    PushRung(s, id, m);
    HeardStep(s, if m.Drop? then Close(id) else Action.TryPush(id, m.value));
  }

  lemma PushRung<D>(s: Sockets<D>, id: nat, m: Message<D>)
    requires WellFormed(s) && LiveAreRung(s) && ReleasedAreDone(s) && Producing(s, id, Idle) && s.open[id]
    ensures LiveAreRung(Push(s, id, m)) && ReleasedAreDone(Push(s, id, m))
  {
    assert Live(s.ids, s.ports, id);
  }

  lemma PushFifo<D>(s: Sockets<D>, id: nat, m: Message<D>)
    requires WellFormed(s) && Fifo(s) && id < |s.open|
    ensures Fifo(Push(s, id, m))
  {
    assert s.delivered[id] + (s.rings[id] + [m]) == s.delivered[id] + s.rings[id] + [m];
  }

  lemma PushIsLast<D>(s: Sockets<D>, id: nat, m: Message<D>)
    requires WellFormed(s) && DropIsLast(s) && id < |s.open| && s.open[id]
    ensures var s1 := Push(s, id, m);
            DropIsLast(if m.Drop? then s1.(open := s1.open[id := false]) else s1)
  {
    assert forall k :: 0 <= k < |s.accepted[id]| ==> !s.accepted[id][k].Drop?;
  }

  // ----- Dispatch keeps it -----

  /** The ring a dispatch drains belongs to a live socket; to its own if that lives. */
  lemma RingingIsLive<D>(s: Sockets<D>, id: nat)
    requires WellFormed(s) && Owned(s.ids, s.ports) && Ringing(s, id).Some?
    ensures var j := Ringing(s, id).value;
            Live(s.ids, s.ports, j) && (Live(s.ids, s.ports, id) ==> j == id)
  {
    var p := s.ids[id].value.port;
    assert Find(At(s.ports, p), s.ids[id].value.ip).Some?;
    var k :| 0 <= k < |s.ports[p]| && s.ports[p][k].handle == Get(s.ports, s.ids[id].value).value;
    if Live(s.ids, s.ports, id) { OwnHandle(s.ids, s.ports, id); }
  }

  lemma PopFifo<D>(s: Sockets<D>, id: nat, j: nat)
    requires WellFormed(s) && Fifo(s) && s.consumer.Draining? && Ringing(s, id) == Some(j)
    ensures Fifo(Pop(s, id, j))
  {
    assert s.delivered[j] + [s.rings[j][0]] + s.rings[j][1..] == s.delivered[j] + s.rings[j];
  }

  /** A Drop that is popped leaves nothing behind it. */
  lemma DropLeavesNothing<D>(s: Sockets<D>, j: nat)
    requires WellFormed(s) && Fifo(s) && DropIsLast(s) && j < |s.rings| && s.rings[j] != [] && s.rings[j][0].Drop?
    ensures s.rings[j] == [Drop] && !s.open[j] && s.accepted[j] != [] && Last(s.accepted[j]).Drop?
  {
    assert s.delivered[j] + s.rings[j] == s.accepted[j];
    assert s.accepted[j][|s.delivered[j]|] == s.rings[j][0];
  }

  lemma PopReleases<D>(s: Sockets<D>, id: nat, j: nat, x: nat)
    requires WellFormed(s) && Owned(s.ids, s.ports) && s.consumer.Draining? && Ringing(s, id) == Some(j)
    ensures Live(s.ids, Pop(s, id, j).ports, x)
       <==> Live(s.ids, s.ports, x) && !(s.rings[j][0].Drop? && x == j && s.ids[x] == s.ids[id])
  {
    RingingIsLive(s, id);
    if s.rings[j][0].Drop? {
      var addr := s.ids[id].value;
      RemoveReleases(s.ids, s.ports, addr, x);
      if Live(s.ids, s.ports, x) && s.ids[x] == Some(addr) { OwnHandle(s.ids, s.ports, x); }
    }
  }

  /** If the dispatched id's socket lives, its visit ends only by releasing it. */
  lemma PopRung<D>(s: Sockets<D>, id: nat, j: nat)
    requires WellFormed(s) && Owned(s.ids, s.ports) && LiveAreRung(s)
    requires s.consumer.Draining? && id in s.consumer.left && Ringing(s, id) == Some(j)
    ensures LiveAreRung(Pop(s, id, j))
  {
    var s' := Pop(s, id, j);
    RingingIsLive(s, id);
    PopReleases(s, id, j, id);
    forall x: nat | Live(s'.ids, s'.ports, x) && s'.rings[x] != []
      ensures IsRung(s', x)
    {
      PopReleases(s, id, j, x);
      PopLeaves(s, id, j, x);
    }
  }

  lemma PopLeaves<D>(s: Sockets<D>, id: nat, j: nat, x: nat)
    requires WellFormed(s) && s.consumer.Draining? && Ringing(s, id) == Some(j) && x < |s.rings|
    ensures var s' := Pop(s, id, j);
            && s'.bits == s.bits && s'.producers == s.producers && s'.consumer.Draining?
            && s'.ids == s.ids && s'.open == s.open && s'.accepted == s.accepted
            && s'.rings[x] == (if x == j then s.rings[j][1..] else s.rings[x])
            && (s'.rings[x] != [] ==> s.rings[x] != [])
            && (Holds(s.consumer, x) && (x != id || !s.rings[j][0].Drop?) ==> Holds(s'.consumer, x))
  {
  }

  lemma PopDoneAt<D>(s: Sockets<D>, id: nat, j: nat, x: nat)
    requires WellFormed(s) && Owned(s.ids, s.ports) && Fifo(s) && DropIsLast(s) && ReleasedAreDone(s)
    requires s.consumer.Draining? && Ringing(s, id) == Some(j) && x < |s.ids|
    ensures Live(s.ids, Pop(s, id, j).ports, x) || IsDone(Pop(s, id, j), x)
  {
    PopReleases(s, id, j, x);
    PopLeaves(s, id, j, x);
    if Live(s.ids, s.ports, x) {
      if s.rings[j][0].Drop? { DropLeavesNothing(s, j); }
    } else {
      assert IsDone(s, x);
    }
  }

  lemma PopDone<D>(s: Sockets<D>, id: nat, j: nat)
    requires WellFormed(s) && Owned(s.ids, s.ports) && Fifo(s) && DropIsLast(s) && ReleasedAreDone(s)
    requires s.consumer.Draining? && Ringing(s, id) == Some(j)
    ensures ReleasedAreDone(Pop(s, id, j))
  {
    var s' := Pop(s, id, j);
    forall x | 0 <= x < |s'.ids| ensures Live(s'.ids, s'.ports, x) || IsDone(s', x) {
      PopDoneAt(s, id, j, x);
    }
  }

  lemma PopKeeps<D>(s: Sockets<D>, id: nat, j: nat)
    requires Inv(s) && s.consumer.Draining? && id in s.consumer.left && Ringing(s, id) == Some(j)
    ensures var s' := Pop(s, id, j);
            Owned(s'.ids, s'.ports) && LiveAreRung(s') && Fifo(s') && DropIsLast(s') && ReleasedAreDone(s')
  {
    PopFifo(s, id, j);
    PopRung(s, id, j);
    PopDone(s, id, j);
    RemoveKeepsOwned(s.ids, s.ports, s.ids[id].value);
  }

  /** A dispatch that finds nothing to drain is of a socket with nothing to drain. */
  lemma SkipKeeps<D>(s: Sockets<D>, id: nat)
    requires Inv(s) && s.consumer.Draining? && Ringing(s, id) == None
    ensures Inv(s.(consumer := Draining(s.consumer.left - {id})))
  {
    if Live(s.ids, s.ports, id) { OwnHandle(s.ids, s.ports, id); }
  }

  /** The same sockets, rings and bindings. */
  predicate SameSockets<D(==)>(s: Sockets<D>, s': Sockets<D>)
  {
    && s'.ids == s.ids && s'.ports == s.ports && s'.rings == s.rings && s'.open == s.open
    && s'.accepted == s.accepted && s'.delivered == s.delivered && s'.capacity == s.capacity
  }

  lemma SameKeeps<D>(s: Sockets<D>, s': Sockets<D>)
    requires Inv(s) && WellFormed(s') && SameSockets(s, s') && LiveAreRung(s') && BitsHeard(s')
    ensures Inv(s')
  {
  }

  lemma SignalIs<D>(s: Sockets<D>, e: Action<D>)
    requires WellFormed(s) && (e.FetchOr? || e.Wake? || e.Start? || e.SwapWord? || e.Finish?)
    ensures SameSockets(s, Apply(s, e))
  {
  }

  /** fetch_or, unpark and the consumer's own steps up to the dispatch. */
  lemma SignalKeeps<D>(s: Sockets<D>, e: Action<D>)
    requires Inv(s) && (e.FetchOr? || e.Wake? || e.Start? || e.SwapWord? || e.Finish?)
    ensures Inv(Apply(s, e))
  {
    HeardStep(s, e);
    SignalRung(s, e);
    SignalIs(s, e);
    SameKeeps(s, Apply(s, e));
  }

  lemma StaysRung<D>(s: Sockets<D>, e: Action<D>, x: nat)
    requires WellFormed(s) && (e.FetchOr? || e.Wake? || e.Start? || e.SwapWord? || e.Finish?)
    ensures IsRung(s, x) ==> IsRung(Apply(s, e), x)
  {
  }

  lemma SignalRung<D>(s: Sockets<D>, e: Action<D>)
    requires WellFormed(s) && LiveAreRung(s) && (e.FetchOr? || e.Wake? || e.Start? || e.SwapWord? || e.Finish?)
    ensures LiveAreRung(Apply(s, e))
  {
    SignalIs(s, e);
    forall x: nat ensures IsRung(s, x) ==> IsRung(Apply(s, e), x) {
      StaysRung(s, e, x);
    }
  }

  lemma DispatchKeeps<D>(s: Sockets<D>)
    requires Inv(s) && s.consumer.Draining? && s.consumer.left != {}
    ensures Inv(Apply(s, Action.TryPop))
  {
    HeardStep(s, Action.TryPop);
    var id := Next(s.consumer.left);
    var j := Ringing(s, id);
    if j.Some? { PopKeeps(s, id, j.value); } else { SkipKeeps(s, id); }
  }

  lemma StepKeeps<D>(s: Sockets<D>, e: Action<D>)
    requires Inv(s)
    ensures Inv(Apply(s, e))
  {
    match e
    case Bind(addr, draw) => BindKeeps(s, addr, draw);
    case TryPush(id, value) => if Producing(s, id, Idle) && s.open[id] { PushKeeps(s, id, Data(value)); }
    case Close(id) => if Producing(s, id, Idle) && s.open[id] { PushKeeps(s, id, Drop); }
    case TryPop => if s.consumer.Draining? && s.consumer.left != {} { DispatchKeeps(s); }
    case _ => SignalKeeps(s, e);
  }

  /** Every interleaving of sockets and interface thread keeps the invariant: above
      all a live socket's bit drains that socket's ring, and its messages are never
      stranded. */
  lemma {:induction false} EveryRun<D>(s: Sockets<D>, actions: seq<Action<D>>)
    requires Inv(s)
    ensures Inv(Run(s, actions))
    decreases |actions|
  {
    if actions != [] {
      StepKeeps(s, actions[0]);
      EveryRun(Apply(s, actions[0]), actions[1..]);
    }
  }

  ghost predicate Resting<D>(s: Sockets<D>)
  {
    && (forall id :: 0 <= id < |s.producers| ==> s.producers[id] == Idle)
    && s.consumer.Waiting? && !s.wake
  }

  /** Whenever all threads have come to rest, whatever any socket sent has been
      delivered, in the order sent, sockets dropped and addresses rebound included. */
  lemma AtRestAllDelivered<D>(slots: nat, words: nat, capacity: nat, timeouts: bool, actions: seq<Action<D>>)
    requires slots <= 64 * words
    ensures var s := Run(Init(slots, words, capacity, timeouts), actions);
            Resting(s) ==> s.bits == {} && s.delivered == s.accepted
  {
    var init: Sockets<D> := Init(slots, words, capacity, timeouts);
    EveryRun(init, actions);
    var s := Run(init, actions);
    if Resting(s) {
      assert forall id :: id in s.bits ==> id < |s.ids|;
      forall id | 0 <= id < |s.rings| ensures s.delivered[id] == s.accepted[id] {
        assert s.rings[id] == [];
        assert s.delivered[id] + s.rings[id] == s.accepted[id];
      }
    }
  }

  ghost predicate AcceptsMore<D>(s: Sockets<D>, s': Sockets<D>)
  {
    && |s'.accepted| == |s.accepted| && s'.capacity == s.capacity
    && forall id :: 0 <= id < |s.accepted| ==> s.accepted[id] <= s'.accepted[id]
  }

  lemma AcceptsStep<D>(s: Sockets<D>, e: Action<D>)
    requires WellFormed(s)
    ensures AcceptsMore(s, Apply(s, e))
  {
  }

  lemma {:induction false} AcceptedGrows<D>(s: Sockets<D>, actions: seq<Action<D>>)
    requires WellFormed(s)
    ensures AcceptsMore(s, Run(s, actions))
    decreases |actions|
  {
    if actions != [] {
      AcceptsStep(s, actions[0]);
      AcceptedGrows(Apply(s, actions[0]), actions[1..]);
    }
  }

  /** The message a call puts in its socket's ring. */
  function MessageOf<D>(e: Action<D>): Message<D>
    requires e.TryPush? || e.Close?
  {
    if e.TryPush? then Data(e.value) else Drop
  }

  lemma PushAccepts<D>(s: Sockets<D>, e: Action<D>)
    requires WellFormed(s) && (e.TryPush? || e.Close?) && e.id < |s.ids|
    requires s.producers[e.id] == Idle && s.open[e.id] && |s.rings[e.id]| < s.capacity
    ensures Apply(s, e).accepted[e.id] == s.accepted[e.id] + [MessageOf(e)]
    ensures Apply(s, e).open[e.id] == e.TryPush?
  {
  }

  /** What an open socket sends, its Drop included, and finds room for has been delivered
      when all threads come to rest, right behind all it sent before, whatever had
      happened before and whatever happens after; what finds no room leaves no trace in
      any ring. */
  lemma SentIsDelivered<D>(slots: nat, words: nat, capacity: nat, timeouts: bool, before: seq<Action<D>>,
                           e: Action<D>, after: seq<Action<D>>)
    requires slots <= 64 * words && (e.TryPush? || e.Close?) && e.id < slots
    ensures var s := Run(Init(slots, words, capacity, timeouts), before);
            var s' := Run(Apply(s, e), after);
            && |s.rings| == |s.producers| == |s.accepted| == |s.open| == |s'.delivered| == slots
            && (s.producers[e.id] == Idle && s.open[e.id] && |s.rings[e.id]| < capacity && Resting(s') ==>
                  s.accepted[e.id] + [MessageOf(e)] <= s'.delivered[e.id])
            && (|s.rings[e.id]| >= capacity ==> Apply(s, e).rings == s.rings)
  {
    var init: Sockets<D> := Init(slots, words, capacity, timeouts);
    AcceptedGrows(init, before);
    var s := Run(init, before);
    if s.producers[e.id] == Idle && s.open[e.id] && |s.rings[e.id]| < capacity { PushAccepts(s, e); }
    AcceptedGrows(Apply(s, e), after);
    RunThen(init, before, [e] + after);
    assert ([e] + after)[1..] == after;
    AtRestAllDelivered(slots, words, capacity, timeouts, before + ([e] + after));
  }
}
