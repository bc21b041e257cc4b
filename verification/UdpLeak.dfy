/** A run in which a stale id releases the wrong address: socket 0 is bound to one
    address and dropped while it has yet to ring for the Drop; socket 1 binds every
    address of the same port and is dropped; the late bit then dispatches socket 0's
    address, which finds socket 1, pops its Drop, and removes nothing. */
module UdpLeak {
  import opened Common
  import opened PortBinding
  import Bell = Doorbell
  import opened UdpDispatch
  import opened UdpRelease

  const ONE := PortBinding.SocketAddr(V4(10), 5000)
  const ALL := PortBinding.SocketAddr(V4(0), 5000)
  const FIRST := Binding(Specific(V4(10)), ONE, Handle(0, false))
  const SECOND := Binding(PortBinding.Any, ALL, Handle(1, false))

  const HELLO: Message<nat> := Data(7)
  const DROP: Message<nat> := Drop

  function Undrawn(n: nat): U16
  {
    0
  }

  function Start2(): Sockets<nat>
  {
    Sockets(1, 4, true, [None, None], map[], [[], []], [false, false], [Bell.Idle, Bell.Idle], {}, false,
            Bell.Waiting, [[], []], [[], []])
  }

  lemma RunOne<D>(s: Sockets<D>, e: Action<D>)
    requires WellFormed(s)
    ensures Run(s, [e]) == Apply(s, e)
  {
    assert Run(s, [e]) == Run(Apply(s, e), [e][1..]);
  }

  /** One more event. */
  lemma Extend<D>(init: Sockets<D>, a: seq<Action<D>>, e: Action<D>, s: Sockets<D>)
    requires WellFormed(init) && s == Apply(Run(init, a), e)
    ensures Run(init, a + [e]) == s
  {
    RunThen(init, a, [e]);
    RunOne(Run(init, a), e);
  }

  lemma Two<D>(init: Sockets<D>, a: seq<Action<D>>, s: Sockets<D>, e1: Action<D>, e2: Action<D>)
    returns (s2: Sockets<D>)
    requires WellFormed(init) && s == Run(init, a)
    ensures s2 == Run(init, a + [e1] + [e2]) == Apply(Apply(s, e1), e2)
  {
    var s1 := Apply(s, e1);
    s2 := Apply(s1, e2);
    Extend(init, a, e1, s1);
    Extend(init, a + [e1], e2, s2);
  }

  /** Four more events. */
  lemma Four<D>(init: Sockets<D>, a: seq<Action<D>>, s: Sockets<D>, e1: Action<D>, e2: Action<D>, e3: Action<D>,
                e4: Action<D>)
    requires WellFormed(init) && s == Run(init, a)
    ensures Run(init, a + [e1] + [e2] + [e3] + [e4]) == Apply(Apply(Apply(Apply(s, e1), e2), e3), e4)
  {
    var s2 := Two(init, a, s, e1, e2);
    var s4 := Two(init, a + [e1] + [e2], s2, e3, e4);
  }

  /** The interface thread takes the only bit set, that of id 0. */
  lemma Captures(init: Sockets<nat>, a: seq<Action<nat>>, s: Sockets<nat>) returns (b: seq<Action<nat>>)
    requires WellFormed(init) && s == Run(init, a)
    requires s.words == 1 && s.timeouts && s.bits == {0} && s.consumer == Bell.Waiting
    ensures Run(init, b) == s.(bits := {}, wake := false, consumer := Bell.Draining({0}))
  {
    var s1 := s.(wake := false, consumer := Bell.Swapping(0, {}));
    var s2 := s.(wake := false, bits := {}, consumer := Bell.Swapping(1, {0}));
    assert Apply(s, Start) == s1;
    var t := Apply(s1, SwapWord);
    assert 0 / 64 == 0 && t.bits == {} && t.consumer.captured == {0};
    assert Apply(s1, SwapWord) == s2;
    Extend(init, a, Start, s1);
    Extend(init, a + [Start], SwapWord, s2);
    Extend(init, a + [Start] + [SwapWord], SwapWord, s2.(consumer := Bell.Draining({0})));
    b := a + [Start] + [SwapWord] + [SwapWord];
  }

  // ----- Socket 0 is bound, sends a message and rings -----

  const SENT := Start2().(ids := [Some(ONE), None], ports := map[5000 := [FIRST]], open := [true, false],
                          rings := [[HELLO], []], accepted := [[HELLO], []])

  lemma BindsFirst()
    ensures Apply(Start2(), Bind(ONE, Undrawn))
         == Start2().(ids := [Some(ONE), None], ports := map[5000 := [FIRST]], open := [true, false])
  {
    var ports: Ports := map[];
    assert BindTo(Start2().ids, ports, ONE, Undrawn) == Bound(0, ONE);
    assert Inserted(PortBinding.At(ports, 5000), ONE, Handle(0, false), true) == [FIRST];
    assert WithBinding(ports, ONE, 0) == map[5000 := [FIRST]];
    assert Start2().ids[0 := Some(ONE)] == [Some(ONE), None] && Start2().open[0 := true] == [true, false];
  }

  lemma Sends() returns (a: seq<Action<nat>>)
    ensures Run(Start2(), a) == SENT.(bits := {0}, wake := true)
  {
    var s0 := Start2();
    var s1 := s0.(ids := [Some(ONE), None], ports := map[5000 := [FIRST]], open := [true, false]);
    BindsFirst();
    var s2 := SENT.(producers := [Bell.Pushed, Bell.Idle]);
    assert [] + [HELLO] == [HELLO];
    assert s1.rings[0 := [HELLO]] == s2.rings && s1.accepted[0 := [HELLO]] == s2.accepted;
    assert Apply(s1, TryPush(0, 7)) == s2;
    var s3 := SENT.(producers := [Bell.Rang, Bell.Idle], bits := {0});
    assert Apply(s2, FetchOr(0)) == s3;
    assert Apply(s3, Wake(0)) == SENT.(bits := {0}, wake := true);
    Four(s0, [], s0, Bind(ONE, Undrawn), TryPush(0, 7), FetchOr(0), Wake(0));
    a := [] + [Bind(ONE, Undrawn)] + [TryPush(0, 7)] + [FetchOr(0)] + [Wake(0)];
  }

  // ----- It is dropped meanwhile, and released before it rings for the Drop -----

  const DROPPED := SENT.(open := [false, false], producers := [Bell.Pushed, Bell.Idle], accepted := [[HELLO, DROP], []])

  /** While the interface thread visits id 0. */
  const VISITED := DROPPED.(consumer := Bell.Draining({0}))

  const RELEASED := DROPPED.(ports := map[5000 := []], rings := [[], []], delivered := [[HELLO, DROP], []])

  lemma ClosesFirst()
    ensures Apply(SENT.(consumer := Bell.Draining({0})), Close(0)) == VISITED.(rings := [[HELLO, DROP], []])
  {
    assert [HELLO] + [DROP] == [HELLO, DROP];
    assert SENT.rings[0 := [HELLO, DROP]] == [[HELLO, DROP], []];
  }

  lemma NextOnly()
    ensures Bell.Next({0}) == 0
  {
    assert Bell.Lowest({0}, Bell.Next({0}));
  }

  lemma PopsMessage()
    ensures Apply(VISITED.(rings := [[HELLO, DROP], []]), TryPop)
         == VISITED.(rings := [[DROP], []], delivered := [[HELLO], []])
  {
    NextOnly();
    var s := VISITED.(rings := [[HELLO, DROP], []]);
    assert Ringing(s, 0) == Some(0);
    assert s.rings[0][1..] == [DROP] && s.rings[0 := [DROP]] == [[DROP], []];
    assert s.delivered[0] + [HELLO] == [HELLO] && s.delivered[0 := [HELLO]] == [[HELLO], []];
  }

  lemma PopsDrop()
    ensures Apply(VISITED.(rings := [[DROP], []], delivered := [[HELLO], []]), TryPop)
         == RELEASED.(consumer := Bell.Draining({}))
  {
    NextOnly();
    var s := VISITED.(rings := [[DROP], []], delivered := [[HELLO], []]);
    assert Ringing(s, 0) == Some(0);
    assert Removed(s.ports, ONE) == map[5000 := []];
    assert s.rings[0][1..] == [] && s.rings[0 := []] == [[], []] && {0} - {0} == {};
    assert s.delivered[0] + [DROP] == [HELLO, DROP] && s.delivered[0 := [HELLO, DROP]] == [[HELLO, DROP], []];
  }

  lemma Releases(a: seq<Action<nat>>) returns (b: seq<Action<nat>>)
    requires Run(Start2(), a) == SENT.(consumer := Bell.Draining({0}))
    ensures Run(Start2(), b) == RELEASED
  {
    ClosesFirst();
    PopsMessage();
    PopsDrop();
    assert Apply(RELEASED.(consumer := Bell.Draining({})), Finish) == RELEASED;
    Four(Start2(), a, SENT.(consumer := Bell.Draining({0})), Close(0), TryPop, TryPop, Finish);
    b := a + [Close(0)] + [TryPop] + [TryPop] + [Finish];
  }

  // ----- Socket 1 binds all addresses and is dropped; then socket 0's bit is set -----

  const REBOUND := RELEASED.(ids := [Some(ONE), Some(ALL)], ports := map[5000 := [SECOND]], rings := [[], [DROP]],
                             producers := [Bell.Idle, Bell.Pushed], accepted := [[HELLO, DROP], [DROP]])

  lemma BindsSecond()
    ensures Apply(RELEASED, Bind(ALL, Undrawn))
         == RELEASED.(ids := [Some(ONE), Some(ALL)], ports := map[5000 := [SECOND]], open := [false, true])
  {
    assert FirstFree(RELEASED.ids[1..]) == 0;
    assert BindTo(RELEASED.ids, RELEASED.ports, ALL, Undrawn) == Bound(1, ALL);
    assert Inserted(PortBinding.At(RELEASED.ports, 5000), ALL, Handle(1, false), true) == [SECOND];
    assert WithBinding(RELEASED.ports, ALL, 1) == map[5000 := [SECOND]];
    assert RELEASED.ids[1 := Some(ALL)] == [Some(ONE), Some(ALL)] && RELEASED.open[1 := true] == [false, true];
  }

  lemma ClosesSecond()
    ensures Apply(RELEASED.(ids := [Some(ONE), Some(ALL)], ports := map[5000 := [SECOND]], open := [false, true]),
                  Close(1))
         == REBOUND.(producers := [Bell.Pushed, Bell.Pushed])
  {
    assert [] + [DROP] == [DROP];
    assert RELEASED.rings[1 := [DROP]] == [[], [DROP]] && RELEASED.accepted[1 := [DROP]] == [[HELLO, DROP], [DROP]];
  }

  lemma Rebinds(a: seq<Action<nat>>) returns (b: seq<Action<nat>>)
    requires Run(Start2(), a) == RELEASED
    ensures Run(Start2(), b) == REBOUND.(bits := {0}, wake := true)
  {
    BindsSecond();
    ClosesSecond();
    var s := REBOUND.(producers := [Bell.Rang, Bell.Pushed], bits := {0});
    assert Apply(REBOUND.(producers := [Bell.Pushed, Bell.Pushed]), FetchOr(0)) == s;
    assert Apply(s, Wake(0)) == REBOUND.(bits := {0}, wake := true);
    Four(Start2(), a, RELEASED, Bind(ALL, Undrawn), Close(1), FetchOr(0), Wake(0));
    b := a + [Bind(ALL, Undrawn)] + [Close(1)] + [FetchOr(0)] + [Wake(0)];
  }

  // ----- The stale bit is dispatched -----

  const LEAKED := REBOUND.(consumer := Bell.Draining({}), rings := [[], []], delivered := [[HELLO, DROP], [DROP]])

  lemma DispatchesStale()
    ensures Apply(REBOUND.(consumer := Bell.Draining({0})), TryPop) == LEAKED
  {
    NextOnly();
    var s := REBOUND.(consumer := Bell.Draining({0}));
    assert Ringing(s, 0) == Some(1);
    assert PortBinding.Position([SECOND][1..], ONE) == 0;
    assert Removed(s.ports, ONE) == s.ports;
    assert s.rings[1][1..] == [] && s.rings[1 := []] == [[], []] && {0} - {0} == {};
    assert s.delivered[1] + [DROP] == [DROP] && s.delivered[1 := [DROP]] == [[HELLO, DROP], [DROP]];
  }

  /** Socket 1 was dropped and its Drop delivered, yet its address stays bound: by
      LeakedForever, whatever happens next. */
  lemma DropLeaks() returns (actions: seq<Action<nat>>)
    ensures var s := Run(Start2(), actions);
            && Lost(s, 1) && s.delivered[1] == [DROP]
            && forall more :: Lost(Run(s, more), 1)
  {
    actions := Sends();
    actions := Captures(Start2(), actions, SENT.(bits := {0}, wake := true));
    actions := Releases(actions);
    actions := Rebinds(actions);
    actions := Captures(Start2(), actions, REBOUND.(bits := {0}, wake := true));
    DispatchesStale();
    Extend(Start2(), actions, TryPop, LEAKED);
    actions := actions + [TryPop];
    StaysBound(actions);
  }

  lemma StaysBound(actions: seq<Action<nat>>)
    requires Run(Start2(), actions) == LEAKED
    ensures Lost(LEAKED, 1)
    ensures forall more :: Lost(Run(LEAKED, more), 1)
  {
    StartHolds();
    EveryRun(Start2(), actions);
    LeakedIsLost();
    forall more ensures Lost(Run(LEAKED, more), 1) {
      LeakedForever(LEAKED, more, 1);
    }
  }

  lemma StartHolds()
    ensures Inv(Start2())
  {
  }

  lemma LeakedIsLost()
    ensures Lost(LEAKED, 1)
  {
    assert LEAKED.ports[5000][0].handle.id == 1;
  }

  // ----- The other way: a full ring -----

  /** A message sent and rung for, nobody interfering. */
  function SentOne(s: Sockets<nat>): Sockets<nat>
    requires 0 < |s.rings| == |s.accepted|
  {
    s.(rings := s.rings[0 := s.rings[0] + [HELLO]], accepted := s.accepted[0 := s.accepted[0] + [HELLO]],
       bits := s.bits + {0}, wake := true)
  }

  ghost predicate Sending(s: Sockets<nat>)
  {
    WellFormed(s) && 0 < |s.ids| && s.open[0] && s.producers[0] == Bell.Idle && |s.rings[0]| <= s.capacity
  }

  lemma SendsOne(init: Sockets<nat>, a: seq<Action<nat>>, s: Sockets<nat>)
    requires WellFormed(init) && s == Run(init, a) && Sending(s) && |s.rings[0]| < s.capacity
    ensures Run(init, a + [TryPush(0, 7)] + [FetchOr(0)] + [Wake(0)]) == SentOne(s)
  {
    var s1 := Push(s, 0, HELLO);
    assert Apply(s, TryPush(0, 7)) == s1;
    var s2 := s1.(bits := s.bits + {0}, producers := s1.producers[0 := Bell.Rang]);
    assert Apply(s1, FetchOr(0)) == s2;
    assert s2.producers[0 := Bell.Idle] == s.producers;
    assert Apply(s2, Wake(0)) == SentOne(s);
    Extend(init, a, TryPush(0, 7), s1);
    Extend(init, a + [TryPush(0, 7)], FetchOr(0), s2);
    Extend(init, a + [TryPush(0, 7)] + [FetchOr(0)], Wake(0), SentOne(s));
  }

  lemma {:induction false} Fills(init: Sockets<nat>, a: seq<Action<nat>>, s: Sockets<nat>)
    returns (b: seq<Action<nat>>, full: Sockets<nat>)
    requires WellFormed(init) && s == Run(init, a) && Sending(s)
    ensures full == Run(init, b) && Sending(full) && |full.rings[0]| == full.capacity
    decreases s.capacity - |s.rings[0]|
  {
    if |s.rings[0]| == s.capacity {
      b, full := a, s;
    } else {
      SendsOne(init, a, s);
      b, full := Fills(init, a + [TryPush(0, 7)] + [FetchOr(0)] + [Wake(0)], SentOne(s));
    }
  }

  /** For rings of any capacity: a socket that fills its ring and is dropped before
      any of it is drained is never released. */
  lemma FullRingLeaks(capacity: nat) returns (actions: seq<Action<nat>>)
    ensures var s := Run(Init(1, 1, capacity, true), actions);
            Lost(s, 0) && forall more :: Lost(Run(s, more), 0)
  {
    var init: Sockets<nat> := Init(1, 1, capacity, true);
    var bound := Apply(init, Bind(ONE, Undrawn));
    BindsOne(init);
    RunOne(init, Bind(ONE, Undrawn));
    var a, full := Fills(init, [Bind(ONE, Undrawn)], bound);
    EveryRun(init, a);
    ClosesFull(full);
    Extend(init, a, Close(0), Apply(full, Close(0)));
    actions := a + [Close(0)];
  }

  lemma ClosesFull(full: Sockets<nat>)
    requires Inv(full) && Sending(full) && |full.rings[0]| == full.capacity
    ensures var s := Apply(full, Close(0));
            Lost(s, 0) && forall more :: Lost(Run(s, more), 0)
  {
    LostExactly(full, Close(0), 0);
    StepKeeps(full, Close(0));
    forall more ensures Lost(Run(Apply(full, Close(0)), more), 0) {
      LeakedForever(Apply(full, Close(0)), more, 0);
    }
  }

  lemma BindsOne(init: Sockets<nat>)
    requires init == Init(1, 1, init.capacity, true)
    ensures Sending(Apply(init, Bind(ONE, Undrawn)))
  {
    assert FirstFree(init.ids) == 0;
    assert BindTo(init.ids, init.ports, ONE, Undrawn) == Bound(0, ONE);
  }

  // ----- All the ids -----

  function Nth(n: nat): SocketAddr
    requires n < 0xFFFF_FFFF
  {
    PortBinding.SocketAddr(V4(n + 1), 5000)
  }

  /** One bind for each id, to different addresses. */
  function BindAll(n: nat): seq<Action<nat>>
    requires n <= 0xFFFF_FFFF
  {
    if n == 0 then [] else BindAll(n - 1) + [Bind(Nth(n - 1), Undrawn)]
  }

  /** The first n ids are bound to the first n addresses. */
  ghost predicate BoundUpTo(s: Sockets<nat>, n: nat)
  {
    && WellFormed(s) && n <= |s.ids| && n <= 0xFFFF_FFFF && s.consumer == Bell.Waiting
    && (forall k :: 0 <= k < |s.ids| ==> (s.ids[k].Some? <==> k < n))
    && forall b :: b in PortBinding.At(s.ports, 5000) ==> IsAmong(b.target, n)
  }

  predicate IsAmong(t: Target, n: nat)
  {
    t.Specific? && t.ip.V4? && t.ip.v4 <= n
  }

  lemma {:induction false} FirstFreeIs(ids: seq<Option<SocketAddr>>, n: nat)
    requires n < |ids| && ids[n] == None && forall k :: 0 <= k < n ==> ids[k].Some?
    ensures FirstFree(ids) == n
  {
    if n > 0 { FirstFreeIs(ids[1..], n - 1); }
  }

  lemma BindsNext(s: Sockets<nat>, n: nat)
    requires BoundUpTo(s, n) && n < |s.ids| && n < 0xFFFF_FFFF
    ensures BoundUpTo(Apply(s, Bind(Nth(n), Undrawn)), n + 1)
  {
    FirstFreeIs(s.ids, n);
    forall b | b in PortBinding.At(s.ports, 5000) ensures !Matches(b.target, V4(n + 1)) {
      assert IsAmong(b.target, n);
    }
    assert BindTo(s.ids, s.ports, Nth(n), Undrawn) == Bound(n, Nth(n));
  }

  /** For any number of ids a run can assign: binding as many addresses as there are
      ids assigns them all. By ExhaustedRefuses every bind is refused from then on. */
  lemma {:induction false} IdsRunOut(slots: nat, words: nat, capacity: nat, n: nat)
    requires n <= slots && n <= 0xFFFF_FFFF
    ensures BoundUpTo(Run(Init(slots, words, capacity, true), BindAll(n)), n)
    ensures n == slots ==> Assigned(Run(Init(slots, words, capacity, true), BindAll(n)).ids) == slots
  {
    var init: Sockets<nat> := Init(slots, words, capacity, true);
    if n > 0 {
      IdsRunOut(slots, words, capacity, n - 1);
      var s := Run(init, BindAll(n - 1));
      BindsNext(s, n - 1);
      Extend(init, BindAll(n - 1), Bind(Nth(n - 1), Undrawn), Apply(s, Bind(Nth(n - 1), Undrawn)));
    }
  }
}
