/** What UDP sockets give back, and what they never do: bindings that outlive their
    socket, and socket ids (lib/src/runtime/interface/l4_managers/udp/manager.rs,
    context.rs and the drop of UdpSocket in udp.rs). */
module UdpRelease {
  import opened Common
  import opened PortBinding
  import Bell = Doorbell
  import opened UdpDispatch

  // ----- Bindings -----

  /** A popped Drop releases its socket exactly when the dispatched id was bound to
      that socket's own address. */
  lemma DropReleases<D>(s: Sockets<D>, id: nat, j: nat)
    requires WellFormed(s) && Owned(s.ids, s.ports)
    requires s.consumer.Draining? && Ringing(s, id) == Some(j) && s.rings[j][0].Drop?
    ensures !Live(Pop(s, id, j).ids, Pop(s, id, j).ports, j) <==> s.ids[id] == s.ids[j]
  {
    RingingIsLive(s, id);
    PopReleases(s, id, j, j);
  }

  predicate HasDrop<D(==)>(ring: seq<Message<D>>)
  {
    exists k :: 0 <= k < |ring| && ring[k].Drop?
  }

  /** The socket is closed and still bound, and no Drop is on its way. */
  ghost predicate Lost<D>(s: Sockets<D>, j: nat)
    requires WellFormed(s)
  {
    Live(s.ids, s.ports, j) && !s.open[j] && !HasDrop(s.rings[j])
  }

  /** The two ways to lose a binding: the socket is closed while its ring is full, or
      its Drop is popped by the dispatch of an id bound to another address. */
  ghost predicate Loses<D>(s: Sockets<D>, e: Action<D>, j: nat)
    requires WellFormed(s)
  {
    match e
    case Close(id) => id == j && Producing(s, j, Bell.Idle) && s.open[j] && |s.rings[j]| >= s.capacity
    case TryPop =>
      && s.consumer.Draining? && s.consumer.left != {}
      && var id := Bell.Next(s.consumer.left);
         Ringing(s, id) == Some(j) && s.rings[j][0].Drop? && s.ids[id] != s.ids[j]
    case _ => false
  }

  lemma OpenHasNoDrop<D>(s: Sockets<D>, j: nat)
    requires WellFormed(s) && Fifo(s) && DropIsLast(s) && j < |s.open| && s.open[j]
    ensures !HasDrop(s.rings[j])
  {
    assert s.delivered[j] + s.rings[j] == s.accepted[j];
    forall k | 0 <= k < |s.rings[j]| ensures !s.rings[j][k].Drop? {
      assert s.accepted[j][|s.delivered[j]| + k] == s.rings[j][k];
    }
  }

  lemma CloseLoses<D>(s: Sockets<D>, id: nat, j: nat)
    requires Inv(s)
    ensures Lost(Apply(s, Close(id)), j) <==> Lost(s, j) || Loses(s, Close(id), j)
  {
    if Producing(s, id, Bell.Idle) && s.open[id] && id == j {
      OpenHasNoDrop(s, j);
      assert Live(s.ids, s.ports, j);
      if |s.rings[j]| < s.capacity { assert (s.rings[j] + [Drop])[|s.rings[j]|].Drop?; }
    }
  }

  lemma PopLoses<D>(s: Sockets<D>, id: nat, k: nat, j: nat)
    requires WellFormed(s) && Owned(s.ids, s.ports) && Fifo(s) && DropIsLast(s)
    requires s.consumer.Draining? && Ringing(s, id) == Some(k)
    ensures Lost(Pop(s, id, k), j) <==> Lost(s, j) || (k == j && s.rings[j][0].Drop? && s.ids[id] != s.ids[j])
  {
    PopReleases(s, id, k, j);
    RingingIsLive(s, id);
    if k == j {
      var ring := s.rings[j];
      if ring[0].Drop? {
        DropLeavesNothing(s, j);
      } else {
        TailHasDrop(ring);
      }
    }
  }

  lemma TailHasDrop<D>(ring: seq<Message<D>>)
    requires ring != [] && !ring[0].Drop?
    ensures HasDrop(ring[1..]) <==> HasDrop(ring)
  {
    if HasDrop(ring) {
      var k :| 0 <= k < |ring| && ring[k].Drop?;
      assert ring[1..][k - 1].Drop?;
    }
    if HasDrop(ring[1..]) {
      var k :| 0 <= k < |ring[1..]| && ring[1..][k].Drop?;
      assert ring[k + 1].Drop?;
    }
  }

  lemma TryPopLoses<D>(s: Sockets<D>, j: nat)
    requires Inv(s)
    ensures Lost(Apply(s, TryPop), j) <==> Lost(s, j) || Loses(s, TryPop, j)
  {
    if s.consumer.Draining? && s.consumer.left != {} {
      var id := Bell.Next(s.consumer.left);
      var k := Ringing(s, id);
      if k.Some? { PopLoses(s, id, k.value, j); }
    }
  }

  lemma BindLoses<D>(s: Sockets<D>, addr: SocketAddr, draw: nat -> U16, j: nat)
    requires WellFormed(s) && Owned(s.ids, s.ports)
    ensures Lost(Apply(s, Bind(addr, draw)), j) <==> Lost(s, j)
  {
    var r := BindTo(s.ids, s.ports, addr, draw);
    if s.consumer.Waiting? && r.Bound? { BindLives(s.ids, s.ports, r.id, r.addr, j); }
  }

  lemma PushLoses<D>(s: Sockets<D>, id: nat, value: D, j: nat)
    requires WellFormed(s)
    ensures Lost(Apply(s, TryPush(id, value)), j) <==> Lost(s, j)
  {
  }

  lemma SignalLoses<D>(s: Sockets<D>, e: Action<D>, j: nat)
    requires WellFormed(s) && (e.FetchOr? || e.Wake? || e.Start? || e.SwapWord? || e.Finish?)
    ensures Lost(Apply(s, e), j) <==> Lost(s, j)
  {
  }

  /** Over every action: a binding is lost exactly by those two, and for ever. */
  lemma LostExactly<D>(s: Sockets<D>, e: Action<D>, j: nat)
    requires Inv(s)
    ensures Lost(Apply(s, e), j) <==> Lost(s, j) || Loses(s, e, j)
  {
    match e
    case Bind(addr, draw) => BindLoses(s, addr, draw, j);
    case TryPush(id, value) => PushLoses(s, id, value, j);
    case Close(id) => CloseLoses(s, id, j);
    case TryPop => TryPopLoses(s, j);
    case _ => SignalLoses(s, e, j);
  }

  /** Whatever happens next. */
  lemma {:induction false} LeakedForever<D>(s: Sockets<D>, actions: seq<Action<D>>, j: nat)
    requires Inv(s) && Lost(s, j)
    ensures Lost(Run(s, actions), j)
    decreases |actions|
  {
    if actions != [] {
      StepKeeps(s, actions[0]);
      LostExactly(s, actions[0], j);
      LeakedForever(Apply(s, actions[0]), actions[1..], j);
    }
  }

  ghost predicate LosesAt<D>(s: Sockets<D>, actions: seq<Action<D>>, j: nat, k: nat)
    requires WellFormed(s) && k < |actions|
  {
    Loses(Run(s, actions[..k]), actions[k], j)
  }

  /** In a run, a binding is lost at the end exactly when it was to begin with or one
      of the actions lost it. */
  lemma {:induction false} LostInRun<D>(s: Sockets<D>, actions: seq<Action<D>>, j: nat)
    requires Inv(s)
    ensures Lost(Run(s, actions), j) <==> Lost(s, j) || exists k :: 0 <= k < |actions| && LosesAt(s, actions, j, k)
    decreases |actions|
  {
    if actions != [] {
      var s1, rest := Apply(s, actions[0]), actions[1..];
      StepKeeps(s, actions[0]);
      LostExactly(s, actions[0], j);
      LostInRun(s1, rest, j);
      FirstLoss(s, actions, j);
    }
  }

  lemma FirstLoss<D>(s: Sockets<D>, actions: seq<Action<D>>, j: nat)
    requires WellFormed(s) && actions != []
    ensures (exists k :: 0 <= k < |actions| && LosesAt(s, actions, j, k)) <==>
              Loses(s, actions[0], j)
              || exists k :: 0 <= k < |actions[1..]| && LosesAt(Apply(s, actions[0]), actions[1..], j, k)
  {
    forall k | 0 <= k < |actions|
      ensures LosesAt(s, actions, j, k) <==>
                if k == 0 then Loses(s, actions[0], j) else LosesAt(Apply(s, actions[0]), actions[1..], j, k - 1)
    {
      if k == 0 {
        assert actions[..0] == [];
      } else {
        assert actions[..k][0] == actions[0] && actions[..k][1..] == actions[1..][..k - 1];
      }
    }
    if exists k :: 0 <= k < |actions[1..]| && LosesAt(Apply(s, actions[0]), actions[1..], j, k) {
      var k :| 0 <= k < |actions[1..]| && LosesAt(Apply(s, actions[0]), actions[1..], j, k);
      assert LosesAt(s, actions, j, k + 1);
    }
    if Loses(s, actions[0], j) { assert LosesAt(s, actions, j, 0); }
  }

  /** When all threads have come to rest, the address of a closed socket is still
      bound exactly when one of the actions lost it. */
  lemma BoundAtRestExactly<D>(slots: nat, words: nat, capacity: nat, timeouts: bool, actions: seq<Action<D>>, j: nat)
    requires slots <= 64 * words
    ensures var init: Sockets<D> := Init(slots, words, capacity, timeouts);
            var s := Run(init, actions);
            Resting(s) && j < |s.open| && !s.open[j] ==>
              (Live(s.ids, s.ports, j) <==> exists k :: 0 <= k < |actions| && LosesAt(init, actions, j, k))
  {
    var init: Sockets<D> := Init(slots, words, capacity, timeouts);
    LostInRun(init, actions, j);
    AtRestAllDelivered<D>(slots, words, capacity, timeouts, actions);
    EveryRun(init, actions);
    var s := Run(init, actions);
    if Resting(s) && j < |s.open| {
      assert s.delivered[j] + s.rings[j] == s.accepted[j];
      assert |s.rings[j]| == 0;
    }
  }

  /** Until then, which may be for ever, nobody can bind that address. */
  lemma LiveAddressTaken(ids: seq<Option<SocketAddr>>, ports: Ports, j: nat)
    requires Owned(ids, ports) && Live(ids, ports, j)
    ensures !Bindable(ports, ids[j].value)
  {
    var addr := ids[j].value;
    var k :| 0 <= k < |At(ports, addr.port)| && At(ports, addr.port)[k].handle.id == j;
    assert At(ports, addr.port)[k] in At(ports, addr.port);
    assert Matches(TargetOf(addr, true), addr.ip);
  }

  // ----- Socket ids -----

  lemma IdsStep<D>(s: Sockets<D>, e: Action<D>, id: nat)
    requires WellFormed(s) && id < |s.ids| && s.ids[id].Some?
    ensures Apply(s, e).ids[id] == s.ids[id]
  {
  }

  /** A socket id once assigned stays assigned, to the same address. */
  lemma {:induction false} IdsStay<D>(s: Sockets<D>, actions: seq<Action<D>>, id: nat)
    requires WellFormed(s) && id < |s.ids| && s.ids[id].Some?
    ensures Run(s, actions).ids[id] == s.ids[id]
    decreases |actions|
  {
    if actions != [] {
      IdsStep(s, actions[0], id);
      IdsStay(Apply(s, actions[0]), actions[1..], id);
    }
  }

  function Assigned(ids: seq<Option<SocketAddr>>): (n: nat)
    ensures n <= |ids|
    ensures n == |ids| <==> forall id :: 0 <= id < |ids| ==> ids[id].Some?
  {
    if ids == [] then 0 else (if ids[0].Some? then 1 else 0) + Assigned(ids[1..])
  }

  lemma {:induction false} AssignOne(ids: seq<Option<SocketAddr>>, id: nat, addr: SocketAddr)
    requires id < |ids| && ids[id] == None
    ensures Assigned(ids[id := Some(addr)]) == Assigned(ids) + 1
  {
    if id == 0 {
      assert ids[0 := Some(addr)][1..] == ids[1..];
    } else {
      assert ids[id := Some(addr)][1..] == ids[1..][id - 1 := Some(addr)];
      AssignOne(ids[1..], id - 1, addr);
    }
  }

  predicate Succeeds<D(==)>(s: Sockets<D>, e: Action<D>)
  {
    e.Bind? && s.consumer.Waiting? && BindTo(s.ids, s.ports, e.addr, e.draw).Bound?
  }

  lemma AssignedStep<D>(s: Sockets<D>, e: Action<D>)
    requires WellFormed(s)
    ensures Assigned(Apply(s, e).ids) == Assigned(s.ids) + (if Succeeds(s, e) then 1 else 0)
  {
    if Succeeds(s, e) {
      var r := BindTo(s.ids, s.ports, e.addr, e.draw);
      AssignOne(s.ids, r.id, r.addr);
    } else {
      assert Apply(s, e).ids == s.ids;
    }
  }

  ghost function Successes<D>(s: Sockets<D>, actions: seq<Action<D>>): nat
    requires WellFormed(s)
    decreases |actions|
  {
    if actions == [] then 0
    else (if Succeeds(s, actions[0]) then 1 else 0) + Successes(Apply(s, actions[0]), actions[1..])
  }

  lemma {:induction false} AssignedInRun<D>(s: Sockets<D>, actions: seq<Action<D>>)
    requires WellFormed(s)
    ensures Assigned(Run(s, actions).ids) == Assigned(s.ids) + Successes(s, actions)
    decreases |actions|
  {
    if actions != [] {
      AssignedStep(s, actions[0]);
      AssignedInRun(Apply(s, actions[0]), actions[1..]);
    }
  }

  lemma {:induction false} NoneAssigned(n: nat)
    ensures Assigned(seq(n, _ => None)) == 0
  {
    if n > 0 {
      var ids: seq<Option<SocketAddr>> := seq(n, _ => None);
      assert ids[1..] == seq(n - 1, _ => None);
      NoneAssigned(n - 1);
    }
  }

  /** The ids taken are exactly the successful binds of the whole run, so a bind of an
      IPv4 address that a free port can be found for is refused exactly when there
      have been as many of those as there are ids, whatever has been dropped since. */
  lemma ExhaustedRefuses<D>(slots: nat, words: nat, capacity: nat, timeouts: bool, actions: seq<Action<D>>,
                            addr: SocketAddr, draw: nat -> U16)
    ensures var init: Sockets<D> := Init(slots, words, capacity, timeouts);
            var s := Run(init, actions);
            && Assigned(s.ids) == Successes(init, actions) <= slots
            && (BindTo(s.ids, s.ports, addr, draw) == Refused(OutOfMemory) <==>
                addr.ip.V4? && Chosen(s.ports, addr, draw).Some? && Successes(init, actions) == slots)
  {
    var init: Sockets<D> := Init(slots, words, capacity, timeouts);
    AssignedInRun(init, actions);
    NoneAssigned(slots);
  }
}
