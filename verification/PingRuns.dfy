/** What a ping session reports over a run of events: why each ping ended, when a ping
    is sent, and whether the deadline asked for is early enough. */
module PingRuns {
  import opened Common
  import opened Pinging

  // ----- Why a ping ends -----

  /** The pending ping that an outcome is of, and why it ended at the event: a tick more
      than the timeout after it was sent, or an answer or an error of its number. */
  ghost predicate Ends(s: Session, e: Event, o: Outcome, k: nat)
  {
    && k < |s.pending| && o.index == s.indices[k]
    && match e
       case Tick(elapsed, _) => o.status == TimedOut && s.now + elapsed > s.pending[k].1 + TIMEOUT
       case Reply(sequence) => o.status == Success && s.pending[k].0 == sequence
       case Error(sequence) => o.status == Unreachable && s.pending[k].0 == sequence
  }

  ghost predicate Ended(s: Session, e: Event, o: Outcome)
  {
    exists k: nat :: Ends(s, e, o, k)
  }

  /** Each outcome that is new, and it is reported as what it is. */
  ghost predicate EndsWith(s: Session, e: Event, s': Session)
  {
    && s.settled <= s'.settled && s.reports <= s'.reports
    && (forall a :: |s.settled| <= a < |s'.settled| ==> Ended(s, e, s'.settled[a]))
    && |s'.reports| - |s.reports| >= |s'.settled| - |s.settled|
    && (forall a :: |s.settled| <= a < |s'.settled| ==>
          s'.reports[a - |s.settled| + |s.reports|] == ReportOf(s'.settled[a]))
  }

  /** What there is to say of a report made at an event. */
  predicate StatusFits(e: Event, status: Status)
  {
    match e
    case Tick(_, _) => status == TimedOut
    case Reply(_) => status == Success
    case Error(_) => status == Unreachable
  }

  ghost predicate ReportsFit(s: Session, e: Event, s': Session)
  {
    && s.reports <= s'.reports
    && forall a :: |s.reports| <= a < |s'.reports| ==> StatusFits(e, s'.reports[a].status)
  }

  /** From `s` on, the loop took the oldest pings, each for its age. */
  ghost predicate Expired(s: Session, now: nat, s': Session)
  {
    && s.settled <= s'.settled && |s'.settled| - |s.settled| <= |s.pending|
    && forall a :: |s.settled| <= a < |s'.settled| ==>
         && s'.settled[a] == Outcome(s.indices[a - |s.settled|], TimedOut, s.total)
         && now > s.pending[a - |s.settled|].1 + TIMEOUT
  }

  ghost predicate ReportsExpired(s: Session, s': Session)
  {
    && s.settled <= s'.settled && s.reports <= s'.reports
    && |s'.reports| - |s.reports| == |s'.settled| - |s.settled|
    && forall a :: |s.settled| <= a < |s'.settled| ==>
         s'.reports[a - |s.settled| + |s.reports|] == ReportOf(s'.settled[a])
  }

  lemma {:induction false} TimeOutExpires(s: Session, now: nat)
    ensures Expired(s, now, TimeOut(s, now))
    decreases |s.pending|
  {
    if s.pending != [] && Elapsed(now, s.pending[0].1) > TIMEOUT {
      SettleFront(s);
      var s1 := Settle(s, 0, TimedOut);
      TimeOutExpires(s1, now);
      assert s1.settled == s.settled + [Outcome(s.indices[0], TimedOut, s.total)] && s1.total == s.total;
      ExpiredNext(s, now, s1, TimeOut(s1, now));
    }
  }

  lemma ExpiredNext(s: Session, now: nat, s1: Session, s': Session)
    requires s.pending != [] && now > s.pending[0].1 + TIMEOUT && s1.total == s.total
    requires s1.pending == s.pending[1..] && s1.indices == s.indices[1..]
    requires s1.settled == s.settled + [Outcome(s.indices[0], TimedOut, s.total)]
    requires Expired(s1, now, s')
    ensures Expired(s, now, s')
  {
  }

  lemma {:induction false} TimeOutReports(s: Session, now: nat)
    requires Windowed(s)
    ensures ReportsExpired(s, TimeOut(s, now))
    decreases |s.pending|
  {
    if s.pending != [] && Elapsed(now, s.pending[0].1) > TIMEOUT {
      var s1 := Settle(s, 0, TimedOut);
      SettleWindow(s, 0, TimedOut);
      TimeOutReports(s1, now);
      var o := Outcome(s.indices[0], TimedOut, s.total);
      assert s1.settled == s.settled + [o] && s1.reports == s.reports + [ReportOf(o)];
      ReportsNext(s, o, s1, TimeOut(s1, now));
    }
  }

  lemma ReportsNext(s: Session, o: Outcome, s1: Session, s': Session)
    requires s1.settled == s.settled + [o] && s1.reports == s.reports + [ReportOf(o)]
    requires ReportsExpired(s1, s')
    ensures ReportsExpired(s, s')
  {
  }

  lemma DueSettlesNone(s: Session, now: nat, ok: bool)
    ensures SendDue(s, now, ok).0.settled == s.settled && SendDue(s, now, ok).0.reports == s.reports
  {
  }

  lemma TickEnds(s: Session, elapsed: nat, ok: bool)
    requires Inv(s)
    ensures EndsWith(s, Tick(elapsed, ok), Step(s, Tick(elapsed, ok)))
    ensures ReportsFit(s, Tick(elapsed, ok), Step(s, Tick(elapsed, ok)))
  {
    var now := s.now + elapsed;
    var s1 := s.(now := now);
    assert Windowed(s1);
    TimeOutExpires(s1, now);
    TimeOutReports(s1, now);
    DueSettlesNone(TimeOut(s1, now), now, ok);
    ExpiredEnds(s, elapsed, ok, s1, Step(s, Tick(elapsed, ok)));
  }

  lemma ExpiredEnds(s: Session, elapsed: nat, ok: bool, s1: Session, s': Session)
    requires s1 == s.(now := s.now + elapsed)
    requires Expired(s1, s.now + elapsed, s') && ReportsExpired(s1, s')
    ensures EndsWith(s, Tick(elapsed, ok), s') && ReportsFit(s, Tick(elapsed, ok), s')
  {
    forall a | |s.settled| <= a < |s'.settled| ensures Ended(s, Tick(elapsed, ok), s'.settled[a]) {
      assert Ends(s, Tick(elapsed, ok), s'.settled[a], a - |s.settled|);
    }
    forall a | |s.reports| <= a < |s'.reports| ensures s'.reports[a].status == TimedOut {
      var b := a - |s.reports| + |s.settled|;
      assert s'.reports[b - |s.settled| + |s.reports|] == ReportOf(s'.settled[b]);
    }
  }

  lemma SettleEnds(s: Session, e: Event, k: nat, status: Status)
    requires Windowed(s) && k < |s.pending|
    requires match e case Tick(_, _) => false
                     case Reply(sequence) => status == Success && s.pending[k].0 == sequence
                     case Error(sequence) => status == Unreachable && s.pending[k].0 == sequence
    ensures EndsWith(s, e, Settle(s, k, status)) && ReportsFit(s, e, Settle(s, k, status))
  {
    var s', o := Settle(s, k, status), Outcome(s.indices[k], status, s.total);
    assert s'.settled == s.settled + [o] && s'.reports == s.reports + [ReportOf(o)];
    assert Ends(s, e, o, k);
  }

  /** Every ping an event ends it ends for its own reason, and it reports it as that. */
  lemma StepEnds(s: Session, e: Event)
    requires Inv(s)
    ensures EndsWith(s, e, Step(s, e)) && ReportsFit(s, e, Step(s, e))
  {
    match e
    case Tick(elapsed, ok) => TickEnds(s, elapsed, ok);
    case Reply(sequence) =>
      if Position(s.pending, sequence) < |s.pending| { SettleEnds(s, e, Position(s.pending, sequence), Success); }
    case Error(sequence) =>
      if Position(s.pending, sequence) < |s.pending| { SettleEnds(s, e, Position(s.pending, sequence), Unreachable); }
  }

  // ----- What the timeout loop leaves -----

  lemma {:induction false} TimeOutCount(s: Session, now: nat)
    ensures var s' := TimeOut(s, now);
            && s'.sentCount == s.sentCount && s'.count == s.count && s'.interval == s.interval
            && (s'.pending != [] ==> now <= s'.pending[0].1 + TIMEOUT)
    decreases |s.pending|
  {
    if s.pending != [] && Elapsed(now, s.pending[0].1) > TIMEOUT { TimeOutCount(Settle(s, 0, TimedOut), now); }
  }

  lemma ExpiryLeaves(s: Session, now: nat, s1: Session) returns (k: nat)
    requires Inv(s) && s.now <= now && s1 == TimeOut(s.(now := now), now)
    ensures Inv(s1) && s1.now == now && s1.total == s.total && s1.lastSent == s.lastSent
    ensures s1.sentCount == s.sentCount && s1.count == s.count && s1.interval == s.interval
    ensures s1.pending != [] ==> now <= s1.pending[0].1 + TIMEOUT
    ensures k <= |s.pending| && s1.pending == s.pending[k..] && s1.indices == s.indices[k..]
  {
    var s0 := s.(now := now);
    LaterKeeps(s, now);
    TimeOutKeeps(s0, now);
    TimeOutFront(s0, now);
    TimeOutCount(s0, now);
    k := OldAtFront(s0.pending, now);
  }

  /** There are pings left to send. */
  predicate Left(s: Session)
  {
    s.count.Some? ==> s.total < s.count.value
  }

  lemma CountIsTotal(s: Session)
    requires Inv(s)
    ensures Left(s) <==> !(s.count.Some? && s.sentCount >= s.count.value)
    ensures s.sentCount % 0x1_0000 == s.total % 0x1_0000
  {
    if s.count.Some? { ModuloIs(s.total, 0, s.total); }
    CountModulo(s.total);
  }

  // ----- Over a run -----

  /** The session after the first events of a run. */
  function After(s: Session, events: seq<Event>, m: nat): Session
    requires m <= |events|
  {
    Run(s, events[..m])
  }

  /** The ping was sent at a tick of the run, then. */
  ghost predicate SentAt(s: Session, events: seq<Event>, index: nat, at: nat)
  {
    exists m: nat :: m < |events| && SentBy(After(s, events, m), After(s, events, m + 1), index, at)
  }

  predicate SentBy(s: Session, s': Session, index: nat, at: nat)
  {
    s.total == index && s'.total == index + 1 && s'.now == at
  }

  ghost predicate PendingSent(s: Session, events: seq<Event>)
  {
    var now := Run(s, events);
    forall k :: 0 <= k < |now.pending| ==> SentAt(s, events, now.indices[k], now.pending[k].1)
  }

  lemma RunSnoc(s: Session, events: seq<Event>, e: Event)
    ensures Run(s, events + [e]) == Step(Run(s, events), e)
  {
    assert (events + [e])[..|events|] == events;
  }

  lemma SentAtLater(s: Session, events: seq<Event>, e: Event, index: nat, at: nat)
    requires SentAt(s, events, index, at)
    ensures SentAt(s, events + [e], index, at)
  {
    var m: nat :| m < |events| && SentBy(After(s, events, m), After(s, events, m + 1), index, at);
    assert (events + [e])[..m] == events[..m] && (events + [e])[..m + 1] == events[..m + 1];
    assert SentBy(After(s, events + [e], m), After(s, events + [e], m + 1), index, at);
  }

  /** A pending ping was pending before the event, or is the one just sent. */
  ghost predicate PendingFrom(s: Session, s': Session)
  {
    forall k :: 0 <= k < |s'.pending| ==>
      WasPending(s, s'.indices[k], s'.pending[k].1) || SentBy(s, s', s'.indices[k], s'.pending[k].1)
  }

  ghost predicate WasPending(s: Session, index: nat, at: nat)
  {
    exists j :: 0 <= j < |s.pending| && s.indices[j] == index && s.pending[j].1 == at
  }

  lemma SettlePendingFrom(s: Session, k: nat, status: Status)
    requires k < |s.pending|
    ensures PendingFrom(s, Settle(s, k, status))
  {
    var s' := Settle(s, k, status);
    forall j: nat | j < |s'.pending| ensures WasPending(s, s'.indices[j], s'.pending[j].1) {
      RemoveAtIs(s.indices, k, j);
      RemoveAtIs(s.pending, k, j);
    }
  }

  lemma SuffixPendingFrom(s: Session, s1: Session, k: nat)
    requires k <= |s.pending| && s1.pending == s.pending[k..] && s1.indices == s.indices[k..]
    ensures forall j :: 0 <= j < |s1.pending| ==> WasPending(s, s1.indices[j], s1.pending[j].1)
  {
    forall j | 0 <= j < |s1.pending| ensures WasPending(s, s1.indices[j], s1.pending[j].1) {
      assert s1.indices[j] == s.indices[k + j] && s1.pending[j] == s.pending[k + j];
    }
  }

  lemma DuePendingFrom(s: Session, s1: Session, now: nat, ok: bool)
    requires s1.total == s.total && s1.now == now
    requires forall j :: 0 <= j < |s1.pending| ==> WasPending(s, s1.indices[j], s1.pending[j].1)
    ensures PendingFrom(s, SendDue(s1, now, ok).0)
  {
  }

  lemma TickPendingFrom(s: Session, elapsed: nat, ok: bool)
    requires Inv(s)
    ensures PendingFrom(s, Step(s, Tick(elapsed, ok)))
  {
    var now := s.now + elapsed;
    var s1 := TimeOut(s.(now := now), now);
    var k := ExpiryLeaves(s, now, s1);
    SuffixPendingFrom(s, s1, k);
    DuePendingFrom(s, s1, now, ok);
  }

  lemma StepPendingFrom(s: Session, e: Event)
    requires Inv(s)
    ensures PendingFrom(s, Step(s, e))
  {
    match e
    case Tick(elapsed, ok) => TickPendingFrom(s, elapsed, ok);
    case Reply(sequence) =>
      if Position(s.pending, sequence) < |s.pending| {
        SettlePendingFrom(s, Position(s.pending, sequence), Success);
      } else { Unchanged(s, Step(s, e)); }
    case Error(sequence) =>
      if Position(s.pending, sequence) < |s.pending| {
        SettlePendingFrom(s, Position(s.pending, sequence), Unreachable);
      } else { Unchanged(s, Step(s, e)); }
  }

  lemma Unchanged(s: Session, s': Session)
    requires s'.pending == s.pending && s'.indices == s.indices
    ensures PendingFrom(s, s')
  {
    forall k | 0 <= k < |s'.pending| ensures WasPending(s, s'.indices[k], s'.pending[k].1) {
    }
  }

  /** The ping the last event sent. */
  lemma SentLast(s: Session, before: seq<Event>, e: Event, index: nat, at: nat)
    requires SentBy(Run(s, before), Run(s, before + [e]), index, at)
    ensures SentAt(s, before + [e], index, at)
  {
    var events := before + [e];
    assert events[..|before|] == before && events[..|before| + 1] == events;
    assert SentBy(After(s, events, |before|), After(s, events, |before| + 1), index, at);
  }

  lemma SentStep(s: Session, before: seq<Event>, e: Event)
    requires PendingSent(s, before) && PendingFrom(Run(s, before), Run(s, before + [e]))
    ensures PendingSent(s, before + [e])
  {
    var s1, s2 := Run(s, before), Run(s, before + [e]);
    forall k | 0 <= k < |s2.pending| ensures SentAt(s, before + [e], s2.indices[k], s2.pending[k].1) {
      var index, at := s2.indices[k], s2.pending[k].1;
      if SentBy(s1, s2, index, at) {
        SentLast(s, before, e, index, at);
      } else {
        var j :| 0 <= j < |s1.pending| && s1.indices[j] == index && s1.pending[j].1 == at;
        SentAtLater(s, before, e, index, at);
      }
    }
  }

  lemma {:induction false} PendingWereSent(s: Session, events: seq<Event>)
    requires Inv(s) && s.pending == []
    ensures PendingSent(s, events) && Inv(Run(s, events))
    decreases |events|
  {
    if events != [] {
      var before, e := events[..|events| - 1], events[|events| - 1];
      PendingWereSent(s, before);
      assert events == before + [e];
      StepKeeps(Run(s, before), e);
      StepPendingFrom(Run(s, before), e);
      SentStep(s, before, e);
    }
  }

  /** A tick came more than the timeout after the one that sent the ping. */
  ghost predicate Overdue(s: Session, events: seq<Event>, index: nat, m: nat)
    requires m < |events|
  {
    exists at: nat :: SentAt(s, events[..m], index, at) && After(s, events, m + 1).now > at + TIMEOUT
  }

  /** Why an outcome of a run came about, and when. */
  ghost predicate Explained(s: Session, events: seq<Event>, o: Outcome, m: nat)
  {
    && m < |events|
    && match events[m]
       case Tick(_, _) => o.status == TimedOut && Overdue(s, events, o.index, m)
       case Reply(sequence) => o.status == Success && o.index % 0x1_0000 == sequence
       case Error(sequence) => o.status == Unreachable && o.index % 0x1_0000 == sequence
  }

  lemma OverdueLast(s: Session, before: seq<Event>, e: Event, index: nat, at: nat)
    requires SentAt(s, before, index, at) && Run(s, before + [e]).now > at + TIMEOUT
    ensures Overdue(s, before + [e], index, |before|)
  {
    var events := before + [e];
    assert events[..|before|] == before && events[..|before| + 1] == events;
    assert SentAt(s, events[..|before|], index, at) && After(s, events, |before| + 1).now > at + TIMEOUT;
  }

  lemma EndedExplained(s: Session, before: seq<Event>, e: Event, s1: Session, o: Outcome)
    requires s1 == Run(s, before) && Inv(s1) && PendingSent(s, before) && Ended(s1, e, o)
    ensures Explained(s, before + [e], o, |before|)
  {
    var k: nat :| Ends(s1, e, o, k);
    if e.Tick? {
      TickClock(s1, e.elapsed, e.ok);
      RunSnoc(s, before, e);
      OverdueLast(s, before, e, o.index, s1.pending[k].1);
    }
  }

  lemma TickClock(s: Session, elapsed: nat, ok: bool)
    requires Inv(s)
    ensures Step(s, Tick(elapsed, ok)).now == s.now + elapsed
  {
    TimersKeeps(s, s.now + elapsed, ok);
  }

  lemma ExplainedLater(s: Session, events: seq<Event>, e: Event, o: Outcome, m: nat)
    requires Explained(s, events, o, m)
    ensures Explained(s, events + [e], o, m)
  {
    assert (events + [e])[..m] == events[..m] && (events + [e])[..m + 1] == events[..m + 1];
  }

  /** Over every run: a ping that succeeded was answered under its own number while it was
      pending, one that timed out met a tick more than ten seconds after the tick that
      sent it, and one found unreachable met an error of its number. */
  lemma {:induction false} OutcomesExplained(s: Session, events: seq<Event>, a: nat)
    requires Inv(s) && s.pending == [] && s.settled == [] && a < |Run(s, events).settled|
    ensures exists m: nat :: Explained(s, events, Run(s, events).settled[a], m)
    decreases |events|
  {
    if events != [] {
      var n := |events| - 1;
      var before, e := events[..n], events[n];
      assert events == before + [e];
      PendingWereSent(s, before);
      StepEnds(Run(s, before), e);
      var o := Run(s, events).settled[a];
      if a < |Run(s, before).settled| {
        OutcomesExplained(s, before, a);
        var m: nat :| Explained(s, before, o, m);
        ExplainedLater(s, before, e, o, m);
      } else {
        EndedExplained(s, before, e, Run(s, before), o);
      }
    }
  }

  ghost predicate ReportExplained(events: seq<Event>, status: Status)
  {
    exists m: nat :: m < |events| && StatusFits(events[m], status)
  }

  lemma ReportLater(before: seq<Event>, e: Event, status: Status)
    requires ReportExplained(before, status) || StatusFits(e, status)
    ensures ReportExplained(before + [e], status)
  {
    if StatusFits(e, status) {
      assert StatusFits((before + [e])[|before|], status);
    } else {
      var m: nat :| m < |before| && StatusFits(before[m], status);
      assert StatusFits((before + [e])[m], status);
    }
  }

  /** And each report was made at an event that says so. */
  lemma {:induction false} ReportsExplained(s: Session, events: seq<Event>, a: nat)
    requires Inv(s) && s.reports == [] && a < |Run(s, events).reports|
    ensures ReportExplained(events, Run(s, events).reports[a].status)
    decreases |events|
  {
    if events != [] {
      var before, e := events[..|events| - 1], events[|events| - 1];
      assert events == before + [e];
      RunKeeps(s, before);
      StepEnds(Run(s, before), e);
      if a < |Run(s, before).reports| { ReportsExplained(s, before, a); }
      ReportLater(before, e, Run(s, events).reports[a].status);
    }
  }

  /** So a run without an answer reports no success. */
  lemma NoReplyNoSuccess(count: Option<Usize>, interval: nat, now: nat, events: seq<Event>, a: nat)
    requires a < |Run(Init(count, interval, now), events).reports|
    requires forall m :: 0 <= m < |events| ==> !events[m].Reply?
    ensures Run(Init(count, interval, now), events).reports[a].status != Success
  {
    EveryRun(count, interval, now, []);
    ReportsExplained(Init(count, interval, now), events, a);
  }

  lemma {:induction false} RunKeeps(s: Session, events: seq<Event>)
    requires Inv(s)
    ensures Inv(Run(s, events))
  {
    if events != [] {
      RunKeeps(s, events[..|events| - 1]);
      StepKeeps(Run(s, events[..|events| - 1]), events[|events| - 1]);
    }
  }

  // ----- When a ping is sent, and the deadline -----

  /** A turn sends a ping exactly when one is left, the interval since the last is over,
      and the network takes it: the next ping, last in the window, at this time. */
  lemma DueSentExactly(s: Session, now: nat, ok: bool)
    requires Inv(s) && s.now <= now
    ensures var s' := Timers(s, now, ok).0;
            if ok && Left(s) && (s.lastSent.None? || now > s.lastSent.value + s.interval)
            then
              && s'.total == s.total + 1 && s'.lastSent == Some(now)
              && s'.pending != [] && s'.pending[|s'.pending| - 1] == (s.total % 0x1_0000, now)
              && s'.indices[|s'.pending| - 1] == s.total
            else s'.total == s.total && s'.lastSent == s.lastSent && s'.sentCount == s.sentCount
  {
    var s1 := TimeOut(s.(now := now), now);
    var k := ExpiryLeaves(s, now, s1);
    CountIsTotal(s);
  }

  /** Nothing is left to do at any time after `now` until the deadline. */
  ghost predicate OnTime(s: Session, now: nat, deadline: Option<nat>)
  {
    forall t: nat :: now < t && (deadline.Some? ==> t <= deadline.value) ==> Rests(s, t)
  }

  ghost predicate Rests(s: Session, t: nat)
  {
    Timers(s, t, true).0 == s.(now := t)
  }

  /** The oldest pending ping is not too old, and no ping is due. */
  predicate NothingDue(s: Session, t: nat)
  {
    && (s.pending != [] ==> t <= s.pending[0].1 + TIMEOUT)
    && (Left(s) ==> s.lastSent.Some? && t <= s.lastSent.value + s.interval)
  }

  lemma RestsExactly(s: Session, t: nat)
    requires Inv(s) && s.now <= t
    ensures Rests(s, t) <==> NothingDue(s, t)
  {
    DueSentExactly(s, t, true);
    if s.pending != [] && t > s.pending[0].1 + TIMEOUT {
      OldGoes(s, t);
    } else if NothingDue(s, t) {
      CountIsTotal(s);
      assert TimeOut(s.(now := t), t) == s.(now := t);
    }
  }

  lemma OldGoes(s: Session, t: nat)
    requires s.pending != [] && t > s.pending[0].1 + TIMEOUT
    ensures !Rests(s, t)
  {
    var s1 := s.(now := t);
    TimeOutExpires(s1, t);
    TimeOutFront(s1, t);
    DueSettlesNone(TimeOut(s1, t), t, true);
    assert |TimeOut(s1, t).settled| > |s.settled|;
  }

  lemma OnTimeExactly(s: Session, deadline: Option<nat>)
    requires Inv(s)
    ensures OnTime(s, s.now, deadline)
       <==> match deadline
            case None => s.pending == [] && !Left(s)
            case Some(t) => t <= s.now || NothingDue(s, t)
  {
    forall t: nat | s.now < t ensures Rests(s, t) <==> NothingDue(s, t) { RestsExactly(s, t); }
    if deadline.None? {
      if s.pending != [] { assert !NothingDue(s, s.now + s.pending[0].1 + TIMEOUT + 1); }
      if Left(s) {
        assert !NothingDue(s, s.now + (if s.lastSent.Some? then s.lastSent.value else 0) + s.interval + 1);
      }
    }
  }

  /** What a turn leaves, and the deadline it asks for. */
  lemma TurnLeaves(s: Session, now: nat, ok: bool)
    requires Inv(s) && s.now <= now
    ensures var s', deadline := Timers(s, now, ok).0, Timers(s, now, ok).1;
            && Inv(s') && s'.now == now
            && if s'.total > s.total then Asked(s', now, deadline) else Kept(s', now, deadline)
  {
    TimersKeeps(s, now, ok);
    var s1 := TimeOut(s.(now := now), now);
    var k := ExpiryLeaves(s, now, s1);
    CountIsTotal(s1);
    DueLeaves(s1, now, ok);
    assert Timers(s, now, ok) == SendDue(s1, now, ok);
  }

  lemma DueLeaves(s: Session, now: nat, ok: bool)
    requires Left(s) <==> !(s.count.Some? && s.sentCount >= s.count.value)
    requires s.pending != [] ==> now <= s.pending[0].1 + TIMEOUT
    ensures var s', deadline := SendDue(s, now, ok).0, SendDue(s, now, ok).1;
            if s'.total > s.total then Asked(s', now, deadline) else Kept(s', now, deadline)
  {
  }

  /** After a ping was sent. */
  predicate Asked(s: Session, now: nat, deadline: Option<nat>)
  {
    && deadline == Some(now + TIMEOUT) && s.lastSent == Some(now)
    && s.pending != [] && s.pending[|s.pending| - 1].1 == now
  }

  /** After none was. */
  predicate Kept(s: Session, now: nat, deadline: Option<nat>)
  {
    && (s.pending != [] ==> now <= s.pending[0].1 + TIMEOUT)
    && (Left(s) <==> deadline.Some?)
    && (deadline.Some? && deadline.value > now ==>
          s.lastSent.Some? && deadline.value == s.lastSent.value + s.interval)
  }

  /** The deadline a turn asks for comes no later than the session's next business
      exactly when: a ping was sent, no other is pending, and no ping is left or they
      are ten seconds apart; or none was, and it is no later than the timeout of the
      oldest pending ping. */
  lemma DeadlineExactly(s: Session, now: nat, ok: bool)
    requires Inv(s) && s.now <= now
    ensures var s', deadline := Timers(s, now, ok).0, Timers(s, now, ok).1;
            && (OnTime(s', now, deadline)
                <==> if s'.total > s.total then |s'.pending| == 1 && (!Left(s') || s'.interval >= TIMEOUT)
                     else s'.pending == [] || (deadline.Some? && deadline.value <= s'.pending[0].1 + TIMEOUT))
  {
    TurnLeaves(s, now, ok);
    OnTimeExactly(Timers(s, now, ok).0, Timers(s, now, ok).1);
  }

  /** So three pings a second apart are not: the second waits out the first's timeout. */
  lemma SecondPingLate(s: Session)
    requires s == Sent(Init(Some(3), 1_000_000_000, 0), 0)
    ensures Timers(Init(Some(3), 1_000_000_000, 0), 0, true) == (s, Some(TIMEOUT))
    ensures !OnTime(s, 0, Some(TIMEOUT)) && Timers(s, 1_000_000_001, true).0.total == 2
  {
    EveryRun(Some(3), 1_000_000_000, 0, []);
    SentKeeps(Init(Some(3), 1_000_000_000, 0), 0);
    assert NothingDue(s, TIMEOUT) ==> TIMEOUT <= 1_000_000_000;
    OnTimeExactly(s, Some(TIMEOUT));
    DueSentExactly(s, 1_000_000_001, true);
  }
}
