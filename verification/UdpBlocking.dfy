/** recv_from and peek_from of a blocking UDP socket
    (lib/src/runtime/interface/l4_managers/udp.rs) against the interface thread, which
    fills the socket's ring (recv in udp/manager.rs) and takes the handles it is to
    wake out of the socket's messages (drain_send in udp/handle.rs). Every access to
    shared state is one event; an event that is not enabled changes nothing. */
module BlockingReceive {
  import opened Common

  /** Whom to wake: the thread that was inside recv_from when it registered, which
      need not be the one inside it now, or a poller. */
  datatype Waker = Thread(id: nat) | Poller

  datatype SocketPc = Outside | Trying | Registering | Looking | BeforePark | Parked

  /** Pushed: a datagram is in the ring and its wake is next. Registered: a handle has
      been replaced and a look at the ring is next. */
  datatype HandlerPc = Free | Pushed | Registered

  datatype State<!M> = State(
    capacity: nat, ring: seq<M>, mail: seq<Waker>, handle: Option<Waker>, permits: set<nat>,
    socket: SocketPc, caller: nat, peeks: bool, handler: HandlerPc, accepted: seq<M>, received: seq<M>)

  datatype Event<!M> =
    | RegisterPoller      // register_read, between calls
    | Call(caller: nat, peeks: bool)
    | Try
    | Register(room: bool) // into the ring of messages, if there is room
    | Look
    | Park
    | Spurious
    | Unpark(thread: nat)  // for reasons of its own, as after a blocking send
    | Arrive(datagram: M)
    | Wake
    | TakeMail
    | LookAgain

  function Init<M>(capacity: nat): State<M>
  {
    State(capacity, [], [], None, {}, Outside, 0, false, Free, [], [])
  }

  /** The call returns with the first datagram, which a peek leaves where it is. */
  function Returns<M>(s: State<M>): State<M>
    requires s.ring != []
  {
    if s.peeks then s.(socket := Outside)
    else s.(socket := Outside, ring := s.ring[1..], received := s.received + [s.ring[0]])
  }

  function Woken<M>(s: State<M>): State<M>
  {
    match s.handle
    case Some(Thread(id)) => s.(permits := s.permits + {id})
    case _ => s
  }

  function Apply<M>(s: State<M>, e: Event<M>): State<M>
  {
    match e
    case RegisterPoller => if s.socket.Outside? then s.(mail := s.mail + [Poller]) else s
    case Call(caller, peeks) =>
      if s.socket.Outside? then s.(socket := Trying, caller := caller, peeks := peeks) else s
    case Try =>
      if !s.socket.Trying? then s
      else if s.ring != [] then Returns(s) else s.(socket := Registering)
    case Register(room) =>
      if !s.socket.Registering? then s
      else if room then s.(socket := Looking, mail := s.mail + [Thread(s.caller)]) else s.(socket := Outside)
    case Look =>
      if !s.socket.Looking? then s
      else if s.ring != [] then Returns(s) else s.(socket := BeforePark)
    case Park =>
      if !s.socket.BeforePark? && !s.socket.Parked? then s
      else if s.caller in s.permits then s.(permits := s.permits - {s.caller}, socket := Looking)
      else s.(socket := Parked)
    case Spurious => if s.socket.Parked? then s.(socket := Looking) else s
    case Unpark(thread) => s.(permits := s.permits + {thread})
    case Arrive(m) =>
      // A full ring drops the datagram, and nobody is woken.
      if s.handler.Free? && |s.ring| < s.capacity
      then s.(ring := s.ring + [m], accepted := s.accepted + [m], handler := Pushed) else s
    case Wake => if s.handler.Pushed? then Woken(s).(handler := Free) else s
    case TakeMail =>
      if s.handler.Free? && s.mail != []
      then s.(handle := Some(s.mail[0]), mail := s.mail[1..], handler := Registered) else s
    case LookAgain =>
      if s.handler.Registered? then (if s.ring != [] then Woken(s) else s).(handler := Free) else s
  }

  function Run<M>(s: State<M>, events: seq<Event<M>>): State<M>
    decreases |events|
  {
    if events == [] then s else Run(Apply(s, events[0]), events[1..])
  }

  /** The handle that counts once all mail is taken. */
  function Latest<M>(s: State<M>): Option<Waker>
  {
    if s.mail != [] then Some(s.mail[|s.mail| - 1]) else s.handle
  }

  predicate Awaits<M>(s: State<M>)
  {
    s.socket.Looking? || s.socket.BeforePark? || s.socket.Parked?
  }

  /** The caller's permit is there, or the handler has a step to make that posts one. */
  predicate WakeComing<M>(s: State<M>)
  {
    s.caller in s.permits || s.mail != [] || !s.handler.Free?
  }

  ghost predicate Inv<M>(s: State<M>)
  {
    && (Awaits(s) ==> Latest(s) == Some(Thread(s.caller)))
    && (s.socket.BeforePark? || s.socket.Parked? ==> s.ring == [] || WakeComing(s))
    && s.received + s.ring == s.accepted && |s.ring| <= s.capacity
  }

  lemma SocketStep<M>(s: State<M>, e: Event<M>)
    requires Inv(s) && (e.RegisterPoller? || e.Call? || e.Try? || e.Register? || e.Look? || e.Park? || e.Spurious?
                        || e.Unpark?)
    ensures Inv(Apply(s, e))
  {
    if s.ring != [] { assert s.received + [s.ring[0]] + s.ring[1..] == s.received + s.ring; }
  }

  lemma HandlerStep<M>(s: State<M>, e: Event<M>)
    requires Inv(s) && (e.Wake? || e.TakeMail? || e.LookAgain?)
    ensures Inv(Apply(s, e))
  {
  }

  lemma ArriveStep<M>(s: State<M>, m: M)
    requires Inv(s)
    ensures Inv(Apply(s, Arrive(m)))
  {
    assert s.received + (s.ring + [m]) == s.received + s.ring + [m];
  }

  /** In every interleaving with the interface thread: a socket never sleeps on a
      datagram nobody will wake it for, and datagrams come in order, none lost but to a
      full ring. */
  lemma {:induction false} EveryRun<M>(s: State<M>, events: seq<Event<M>>)
    requires Inv(s)
    ensures Inv(Run(s, events))
    decreases |events|
  {
    if events != [] {
      var e := events[0];
      match e {
        case Arrive(m) => ArriveStep(s, m);
        case Wake => HandlerStep(s, e);
        case TakeMail => HandlerStep(s, e);
        case LookAgain => HandlerStep(s, e);
        case _ => SocketStep(s, e);
      }
      EveryRun(Apply(s, e), events[1..]);
    }
  }

  /** A socket parked for good has nothing to receive. */
  lemma ParkedMeansEmpty<M>(capacity: nat, events: seq<Event<M>>)
    ensures var s := Run(Init(capacity), events);
            s.socket.Parked? && !WakeComing(s) ==> s.ring == [] && s.received == s.accepted
  {
    EveryRun(Init<M>(capacity), events);
  }

  /** The handler's own next step, nothing arriving. */
  function NextStep<M>(s: State<M>): Event<M>
  {
    match s.handler
    case Free => TakeMail
    case Pushed => Wake
    case Registered => LookAgain
  }

  /** It makes these until it is free and has taken all mail. */
  function Settling<M>(s: State<M>): seq<Event<M>>
    decreases |s.mail|, !s.handler.Free?
  {
    if s.handler.Free? && s.mail == [] then [] else [NextStep(s)] + Settling(Apply(s, NextStep(s)))
  }

  lemma {:induction false} SettlesWoken<M>(s: State<M>)
    requires Inv(s) && (s.socket.BeforePark? || s.socket.Parked?) && s.ring != []
    ensures var s' := Run(s, Settling(s));
            && s'.caller in s'.permits && s'.caller == s.caller && s'.socket == s.socket && s'.ring == s.ring
            && s'.received == s.received && s'.peeks == s.peeks
    decreases |s.mail|, !s.handler.Free?
  {
    if !(s.handler.Free? && s.mail == []) {
      var e := NextStep(s);
      HandlerStep(s, e);
      SettlesWoken(Apply(s, e));
      assert Settling(s)[1..] == Settling(Apply(s, e));
    }
  }

  lemma {:induction false} RunThen<M>(s: State<M>, a: seq<Event<M>>, b: seq<Event<M>>)
    ensures Run(s, a + b) == Run(Run(s, a), b)
    decreases |a|
  {
    if a == [] {
      assert a + b == b;
    } else {
      assert (a + b)[0] == a[0] && (a + b)[1..] == a[1..] + b;
      RunThen(Apply(s, a[0]), a[1..], b);
    }
  }

  lemma WakesAndReturns<M>(s: State<M>)
    requires (s.socket.BeforePark? || s.socket.Parked?) && s.caller in s.permits && s.ring != []
    ensures Run(s, [Park, Look]) == Returns(s.(permits := s.permits - {s.caller}, socket := Looking))
  {
    var events: seq<Event<M>> := [Park, Look];
    assert events[1..] == [Look];
    assert Run(Apply(s, Park), events[1..]) == Run(Apply(Apply(s, Park), Look), events[1..][1..]);
  }

  /** From any state a run reaches, a call about to sleep or asleep while there is a
      datagram returns with the first one, once the handler has made its own finitely
      many steps. */
  lemma WaitingReceives<M>(s: State<M>)
    requires Inv(s) && (s.socket.BeforePark? || s.socket.Parked?) && s.ring != []
    ensures var s' := Run(s, Settling(s) + [Park, Look]);
            && s'.socket.Outside?
            && s'.received == (if s.peeks then s.received else s.received + [s.ring[0]])
            && s'.ring == (if s.peeks then s.ring else s.ring[1..])
  {
    SettlesWoken(s);
    RunThen(s, Settling(s), [Park, Look]);
    WakesAndReturns(Run(s, Settling(s)));
  }
}

/** send_to of a UDP socket against the interface thread, and the one result slot that
    its blocking and its non-blocking sends share (SharableUdpSendResult in
    lib/src/runtime/interface/l4_managers/udp/messages.rs). */
module BlockingSend {
  import opened Common

  datatype Outcome = Sent | TooLarge | NetworkUnreachable | HostUnreachable | Failed

  /** A datagram on its way to the interface thread, from a call that waits, with its
      thread, or from one that does not; and what sending it comes to. */
  datatype Item = Blocking(thread: nat, outcome: Outcome) | NonBlocking(outcome: Outcome)

  predicate Reportable(o: Outcome)
  {
    o.NetworkUnreachable? || o.HostUnreachable?
  }

  /** A non-blocking send leaves only what a later call reports. */
  predicate Stores(i: Item)
  {
    i.Blocking? || Reportable(i.outcome)
  }

  datatype SocketPc = Outside | Checked | Looking | BeforePark | Parked

  /** `caller` is the thread of the call under way. `unparks`: the handler has stored
      the result of a blocking send of that thread, which it wakes next. `got` is what
      the last blocking send returned. */
  datatype State = State(
    mail: seq<Item>, slot: Option<Outcome>, permits: set<nat>, socket: SocketPc, caller: nat,
    unparks: Option<nat>, got: Option<Outcome>)

  datatype Event =
    | CheckErrors(sends: bool)                    // non-blocking calls begin with it
    | PushNonBlocking(outcome: Outcome, room: bool)
    | PushBlocking(caller: nat, outcome: Outcome)
    | Look
    | Park
    | Spurious
    | Handle
    | Unpark
    | UnparkOther(thread: nat) // for other reasons, as a datagram's arrival

  const INIT := State([], None, {}, Outside, 0, None, None)

  function Apply(s: State, e: Event): State
  {
    match e
    case CheckErrors(sends) =>
      if !s.socket.Outside? then s
      else if sends && !(s.slot.Some? && Reportable(s.slot.value)) then s.(slot := None, socket := Checked)
      else s.(slot := None)
    case PushNonBlocking(o, room) =>
      if !s.socket.Checked? then s
      else if room then s.(mail := s.mail + [NonBlocking(o)], socket := Outside) else s.(socket := Outside)
    case PushBlocking(caller, o) =>
      if s.socket.Outside?
      then s.(mail := s.mail + [Blocking(caller, o)], socket := Looking, caller := caller) else s
    case Look =>
      if !s.socket.Looking? then s
      else if s.slot.Some? then s.(socket := Outside, slot := None, got := s.slot)
      else s.(socket := BeforePark)
    case Park =>
      if !s.socket.BeforePark? && !s.socket.Parked? then s
      else if s.caller in s.permits then s.(permits := s.permits - {s.caller}, socket := Looking)
      else s.(socket := Parked)
    case Spurious => if s.socket.Parked? then s.(socket := Looking) else s
    case Handle =>
      if s.unparks.Some? || s.mail == [] then s
      else
        var i := s.mail[0];
        s.(mail := s.mail[1..], slot := if Stores(i) then Some(i.outcome) else s.slot,
           unparks := if i.Blocking? then Some(i.thread) else None)
    case Unpark =>
      if s.unparks.Some? then s.(unparks := None, permits := s.permits + {s.unparks.value}) else s
    case UnparkOther(thread) => s.(permits := s.permits + {thread})
  }

  function Run(s: State, events: seq<Event>): State
    decreases |events|
  {
    if events == [] then s else Run(Apply(s, events[0]), events[1..])
  }

  predicate Waits(s: State)
  {
    s.socket.Looking? || s.socket.BeforePark? || s.socket.Parked?
  }

  predicate IsOf(i: Item, thread: nat)
  {
    i.Blocking? && i.thread == thread
  }

  predicate HasBlocking(mail: seq<Item>, thread: nat)
  {
    exists k :: 0 <= k < |mail| && IsOf(mail[k], thread)
  }

  /** A result is there or coming, and so is the wake of a call that sleeps. */
  ghost predicate Inv(s: State)
  {
    && (Waits(s) ==> s.slot.Some? || HasBlocking(s.mail, s.caller))
    && (s.socket.BeforePark? || s.socket.Parked? ==>
          s.caller in s.permits || s.unparks == Some(s.caller) || HasBlocking(s.mail, s.caller))
  }

  lemma LastBlocks(mail: seq<Item>, i: Item, thread: nat)
    ensures HasBlocking(mail + [i], thread) <==> HasBlocking(mail, thread) || IsOf(i, thread)
  {
    var after := mail + [i];
    if HasBlocking(mail, thread) {
      var k :| 0 <= k < |mail| && IsOf(mail[k], thread);
      assert IsOf(after[k], thread);
    }
    if IsOf(i, thread) { assert IsOf(after[|mail|], thread); }
  }

  lemma FirstBlocks(mail: seq<Item>, thread: nat)
    requires mail != []
    ensures HasBlocking(mail, thread) <==> IsOf(mail[0], thread) || HasBlocking(mail[1..], thread)
  {
    if HasBlocking(mail, thread) && !IsOf(mail[0], thread) {
      var k :| 0 <= k < |mail| && IsOf(mail[k], thread);
      assert IsOf(mail[1..][k - 1], thread);
    }
    if HasBlocking(mail[1..], thread) {
      var k :| 0 <= k < |mail[1..]| && IsOf(mail[1..][k], thread);
      assert IsOf(mail[k + 1], thread);
    }
  }

  lemma Step(s: State, e: Event)
    requires Inv(s)
    ensures Inv(Apply(s, e))
  {
    match e
    case PushNonBlocking(o, _) => LastBlocks(s.mail, NonBlocking(o), s.caller);
    case PushBlocking(caller, o) => LastBlocks(s.mail, Blocking(caller, o), caller);
    case Handle => if s.mail != [] { FirstBlocks(s.mail, s.caller); }
    case _ =>
  }

  lemma {:induction false} EveryRun(s: State, events: seq<Event>)
    requires Inv(s)
    ensures Inv(Run(s, events))
    decreases |events|
  {
    if events != [] {
      Step(s, events[0]);
      EveryRun(Apply(s, events[0]), events[1..]);
    }
  }

  // ----- No call sleeps for ever -----

  /** The handler works its mail off. */
  function Settling(s: State): seq<Event>
    decreases |s.mail|, s.unparks.Some?
  {
    if s.unparks.Some? then [Unpark] + Settling(Apply(s, Unpark))
    else if s.mail != [] then [Handle] + Settling(Apply(s, Handle))
    else []
  }

  lemma {:induction false} Settles(s: State)
    requires Inv(s) && Waits(s)
    ensures var s' := Run(s, Settling(s));
            Inv(s') && s'.socket == s.socket && s'.caller == s.caller && s'.mail == [] && s'.unparks.None?
    decreases |s.mail|, s.unparks.Some?
  {
    if s.unparks.Some? || s.mail != [] {
      var e := if s.unparks.Some? then Unpark else Handle;
      Step(s, e);
      Settles(Apply(s, e));
      assert Settling(s)[0] == e && Settling(s)[1..] == Settling(Apply(s, e));
    }
  }

  lemma {:induction false} RunThen(s: State, a: seq<Event>, b: seq<Event>)
    ensures Run(s, a + b) == Run(Run(s, a), b)
    decreases |a|
  {
    if a == [] {
      assert a + b == b;
    } else {
      assert (a + b)[0] == a[0] && (a + b)[1..] == a[1..] + b;
      RunThen(Apply(s, a[0]), a[1..], b);
    }
  }

  lemma WakesAndReturns(s: State)
    requires Inv(s) && Waits(s) && s.mail == [] && s.unparks.None?
    ensures Run(s, [Park, Look]).socket.Outside?
  {
    assert [Park, Look][1..] == [Look];
    assert Run(Apply(s, Park), [Look]) == Run(Apply(Apply(s, Park), Look), [Look][1..]);
  }

  /** From any state a run reaches, a blocking send returns once the handler has worked
      its mail off. */
  lemma BlockingReturns(events: seq<Event>)
    ensures var s := Run(INIT, events);
            Waits(s) ==> Run(s, Settling(s) + [Park, Look]).socket.Outside?
  {
    EveryRun(INIT, events);
    var s := Run(INIT, events);
    if Waits(s) {
      Settles(s);
      RunThen(s, Settling(s), [Park, Look]);
      WakesAndReturns(Run(s, Settling(s)));
    }
  }

  // ----- Whose result a call returns -----

  /** Nothing from before is in the slot or on its way into it. */
  ghost predicate Clean(s: State)
  {
    s.slot.None? && forall k :: 0 <= k < |s.mail| ==> !Stores(s.mail[k])
  }

  /** Within the call: no other is made. */
  predicate Within(e: Event)
  {
    !e.CheckErrors? && !e.PushNonBlocking? && !e.PushBlocking?
  }

  /** The call's own datagram is the last of the mail and the only one to fill the
      slot, or it has been handled and its result is in the slot or returned. */
  ghost predicate Own(s: State, o: Outcome)
  {
    if s.mail == [] then (Waits(s) && s.slot == Some(o)) || (s.socket.Outside? && s.got == Some(o))
    else
      && Waits(s) && s.slot.None? && s.mail[|s.mail| - 1] == Blocking(s.caller, o)
      && forall k :: 0 <= k < |s.mail| - 1 ==> !Stores(s.mail[k])
  }

  lemma OwnStep(s: State, e: Event, o: Outcome)
    requires Own(s, o) && Within(e)
    ensures Own(Apply(s, e), o)
  {
  }

  lemma {:induction false} OwnRun(s: State, events: seq<Event>, o: Outcome)
    requires Own(s, o) && forall k :: 0 <= k < |events| ==> Within(events[k])
    ensures Own(Run(s, events), o)
    decreases |events|
  {
    if events != [] {
      OwnStep(s, events[0], o);
      OwnRun(Apply(s, events[0]), events[1..], o);
    }
  }

  /** The handler makes steps until something fills the slot; then the call looks. */
  function Early(s: State): seq<Event>
    decreases |s.mail|, s.unparks.Some?
  {
    if s.slot.Some? then [Look]
    else if s.unparks.Some? then [Unpark] + Early(Apply(s, Unpark))
    else if s.mail != [] then [Handle] + Early(Apply(s, Handle))
    else []
  }

  lemma {:induction false} EarlyReturns(s: State)
    requires s.socket.Looking? && s.mail != []
    requires s.slot.Some? || exists k :: 0 <= k < |s.mail| - 1 && Stores(s.mail[k])
    ensures var s' := Run(s, Early(s)); s'.socket.Outside? && s'.mail != []
    ensures forall k :: 0 <= k < |Early(s)| ==> Within(Early(s)[k])
    decreases |s.mail|, s.unparks.Some?
  {
    if s.slot.Some? {
      assert Run(s, [Look]) == Run(Apply(s, Look), [Look][1..]);
    } else {
      var e := if s.unparks.Some? then Unpark else Handle;
      var s1 := Apply(s, e);
      var k :| 0 <= k < |s.mail| - 1 && Stores(s.mail[k]);
      if s.unparks.None? && k > 0 { assert Stores(s1.mail[k - 1]); }
      EarlyReturns(s1);
      assert Early(s)[0] == e && Early(s)[1..] == Early(s1);
    }
  }

  ghost predicate ReturnsEarly(s: State, events: seq<Event>)
  {
    && (forall k :: 0 <= k < |events| ==> Within(events[k]))
    && Run(s, events).socket.Outside? && Run(s, events).mail != []
  }

  /** A blocking send is sure to return only after its own datagram has been handled,
      with that datagram's result, exactly when it starts with an empty slot and
      nothing under way that fills it; otherwise an earlier send's result can end it. */
  lemma OwnResultExactly(s: State, caller: nat, o: Outcome)
    requires s.socket.Outside?
    ensures var s1 := Apply(s, PushBlocking(caller, o));
            Clean(s) <==> forall events :: !ReturnsEarly(s1, events)
    ensures Clean(s) ==> forall events :: (forall k :: 0 <= k < |events| ==> Within(events[k])) ==>
                           Own(Run(Apply(s, PushBlocking(caller, o)), events), o)
  {
    var s1 := Apply(s, PushBlocking(caller, o));
    if Clean(s) {
      assert Own(s1, o);
      forall events | forall k :: 0 <= k < |events| ==> Within(events[k])
        ensures Own(Run(s1, events), o)
      {
        OwnRun(s1, events, o);
      }
    } else {
      if s.slot.None? {
        var k :| 0 <= k < |s.mail| && Stores(s.mail[k]);
        assert Stores(s1.mail[k]);
      }
      EarlyReturns(s1);
      assert ReturnsEarly(s1, Early(s1));
    }
  }

  /** Such a run: a non-blocking send finds its host unreachable, and the blocking
      send after it, whose own datagram goes out, returns that. */
  lemma OtherSendsResult()
    ensures var s := Run(INIT, [CheckErrors(true), PushNonBlocking(HostUnreachable, true), PushBlocking(0, Sent),
                                Handle, Look]);
            s.socket.Outside? && s.got == Some(HostUnreachable) && s.mail == [Blocking(0, Sent)]
  {
    var s1 := Apply(INIT, CheckErrors(true));
    var s2 := Apply(s1, PushNonBlocking(HostUnreachable, true));
    var s3 := Apply(s2, PushBlocking(0, Sent));
    var s4 := Apply(s3, Handle);
    assert s3.mail == [NonBlocking(HostUnreachable), Blocking(0, Sent)];
    assert s4.mail == [Blocking(0, Sent)];
    RunCons(s4, Look, []);
    RunCons(s3, Handle, [Look]);
    RunCons(s2, PushBlocking(0, Sent), [Handle, Look]);
    RunCons(s1, PushNonBlocking(HostUnreachable, true), [PushBlocking(0, Sent), Handle, Look]);
    RunCons(INIT, CheckErrors(true), [PushNonBlocking(HostUnreachable, true), PushBlocking(0, Sent), Handle, Look]);
  }

  lemma RunCons(s: State, e: Event, rest: seq<Event>)
    ensures Run(s, [e] + rest) == Run(Apply(s, e), rest)
  {
    assert ([e] + rest)[1..] == rest;
  }

  /** What a non-blocking send leaves behind, once handled with nothing else under way:
      an unreachable network or host for the next call to report, which the next send
      finds and is refused for; any other outcome for nobody. */
  lemma NonBlockingReports(s: State, o: Outcome)
    requires s.socket.Checked? && s.slot.None? && s.mail == [] && s.unparks.None?
    ensures var s1 := Apply(Apply(s, PushNonBlocking(o, true)), Handle);
            && s1.slot == (if o == NetworkUnreachable || o == HostUnreachable then Some(o) else None)
            && s1.mail == [] && s1.unparks.None? && s1.permits == s.permits
            && var s2 := Apply(s1, CheckErrors(true));
            && s2.slot.None? && (s2.socket.Checked? <==> o != NetworkUnreachable && o != HostUnreachable)
  {
    var s0 := Apply(s, PushNonBlocking(o, true));
    assert s0.mail == [NonBlocking(o)] && s0.mail[1..] == [];
  }
}
