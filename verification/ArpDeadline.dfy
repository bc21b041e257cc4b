/** When the ARP timers must run again: the deadline that perform_arp_timers
    (lib/src/runtime/interface/l2_ethernet.rs) answers, against the entries it leaves. */
module ArpDeadline {
  import opened Common
  import opened Arp
  import opened Ethernet
  import opened EthernetInPlace
  import EthernetRuns

  /** What arp.pending() lists: each pending entry once, with its source. */
  ghost predicate Lists(table: Table, pending: seq<(Ipv4, Ipv4)>)
  {
    && (forall t :: t in table && table[t].Pending? ==> (t, table[t].source) in pending)
    && (forall p :: p in pending ==> p.0 in table && table[p.0].Pending? && table[p.0].source == p.1)
    && (forall i, j :: 0 <= i < j < |pending| ==> pending[i].0 != pending[j].0)
  }

  predicate Waits(e: Entry, asked: nat)
  {
    e.Pending? && asked <= e.since + 100 * MILLISECOND
  }

  predicate Retries(e: Entry, asked: nat)
  {
    e.Pending? && asked > e.since + 100 * MILLISECOND && e.retryCount < 5
  }

  /** What a turn makes of a pending entry. */
  predicate Turned(e: Entry, asked: nat, sent: nat, e': Entry)
  {
    if Waits(e, asked) then e' == e
    else if Retries(e, asked) then e'.Pending? && e'.since == sent
    else e'.TimedOut?
  }

  lemma TimerTurns(room: Schedule, s: State, hop: Ipv4, source: Ipv4, asked: nat, sent: nat)
    requires hop in s.arp && s.arp[hop].Pending?
    ensures var (s', state) := Timer(room, s, hop, source, asked, sent);
            && s'.arp.Keys == s.arp.Keys && Turned(s.arp[hop], asked, sent, s'.arp[hop])
            && (forall t :: t in s.arp && t != hop ==> s'.arp[t] == s.arp[t])
            && (if Waits(s.arp[hop], asked) then state == PendingWait(s.arp[hop].since + 100 * MILLISECOND)
                else !state.PendingWait?)
  {
    var (entry, state) := Answer(At(s.arp, hop), source, asked, sent);
    if state.Timeout? { DropKeepsTable(s.(arp := Put(s.arp, hop, entry)), hop); }
  }

  /** The n-th entry of the listing, at the start. */
  function Listed(s: State, pending: seq<(Ipv4, Ipv4)>, n: nat): Entry
    requires n < |pending|
  {
    if pending[n].0 in s.arp then s.arp[pending[n].0] else TimedOut(0)
  }

  /** The table after the first n turns. */
  ghost predicate TurnedAll(s: State, pending: seq<(Ipv4, Ipv4)>, n: nat, clock: Clock, s': State)
    requires n <= |pending|
  {
    && s'.arp.Keys == s.arp.Keys
    && (forall k :: 0 <= k < n && pending[k].0 in s.arp ==>
          Turned(Listed(s, pending, k), clock(2 * k), clock(2 * k + 1), s'.arp[pending[k].0]))
    && (forall t :: t in s.arp && (forall k :: 0 <= k < n ==> pending[k].0 != t) ==> s'.arp[t] == s.arp[t])
  }

  /** The deadline is the earliest of those told to wait, if any was. */
  ghost predicate IsEarliest(s: State, pending: seq<(Ipv4, Ipv4)>, n: nat, clock: Clock, deadline: Option<nat>)
    requires n <= |pending|
  {
    && (forall k: nat :: k < n && Waits(Listed(s, pending, k), clock(2 * k)) ==>
          deadline.Some? && deadline.value <= Listed(s, pending, k).since + 100 * MILLISECOND)
    && (deadline.Some? ==> exists k: nat :: k < n && WaitsUntil(s, pending, k, clock, deadline.value))
  }

  predicate WaitsUntil(s: State, pending: seq<(Ipv4, Ipv4)>, k: nat, clock: Clock, deadline: nat)
    requires k < |pending|
  {
    && Waits(Listed(s, pending, k), clock(2 * k))
    && deadline == Listed(s, pending, k).since + 100 * MILLISECOND
  }

  /** The table changes by one turn, of that target. */
  ghost predicate OneTurned(s: State, hop: Ipv4, asked: nat, sent: nat, s': State)
  {
    && hop in s.arp && s'.arp.Keys == s.arp.Keys && Turned(s.arp[hop], asked, sent, s'.arp[hop])
    && forall t :: t in s.arp && t != hop ==> s'.arp[t] == s.arp[t]
  }

  lemma TableStep(s: State, pending: seq<(Ipv4, Ipv4)>, n: nat, clock: Clock, s1: State, s2: State)
    requires Lists(s.arp, pending) && n < |pending| && TurnedAll(s, pending, n, clock, s1)
    requires OneTurned(s1, pending[n].0, clock(2 * n), clock(2 * n + 1), s2)
    ensures TurnedAll(s, pending, n + 1, clock, s2)
  {
    var hop := pending[n].0;
    assert s1.arp[hop] == Listed(s, pending, n);
    forall k | 0 <= k < n + 1 && pending[k].0 in s.arp
      ensures Turned(Listed(s, pending, k), clock(2 * k), clock(2 * k + 1), s2.arp[pending[k].0])
    {
      if k < n { assert pending[k].0 != hop; }
    }
  }

  lemma DeadlineStep(s: State, pending: seq<(Ipv4, Ipv4)>, n: nat, clock: Clock, deadline: Option<nat>, state: ArpState)
    requires n < |pending| && IsEarliest(s, pending, n, clock, deadline)
    requires var e := Listed(s, pending, n);
             if Waits(e, clock(2 * n)) then state == PendingWait(e.since + 100 * MILLISECOND) else !state.PendingWait?
    ensures IsEarliest(s, pending, n + 1, clock, Earliest(deadline, state))
  {
    var d := Earliest(deadline, state);
    if d.Some? {
      if deadline.Some? && d == deadline {
        var k: nat :| k < n && WaitsUntil(s, pending, k, clock, d.value);
        assert k < n + 1 && WaitsUntil(s, pending, k, clock, d.value);
      } else {
        assert WaitsUntil(s, pending, n, clock, d.value);
      }
    }
  }

  lemma {:induction false} TimersTurn(room: Schedule, s: State, pending: seq<(Ipv4, Ipv4)>, n: nat, clock: Clock,
                                      s': State, deadline: Option<nat>)
    requires Lists(s.arp, pending) && n <= |pending| && (s', deadline) == Timers(room, s, pending[..n], clock)
    ensures TurnedAll(s, pending, n, clock, s') && IsEarliest(s, pending, n, clock, deadline)
  {
    if n > 0 {
      var m := n - 1;
      var r := Timers(room, s, pending[..m], clock);
      TimersTurn(room, s, pending, m, clock, r.0, r.1);
      TimersStep(room, s, pending, m, clock, r.0, r.1);
      TimersNext(room, s, pending, m, clock);
      var t := Timer(room, r.0, pending[m].0, pending[m].1, clock(2 * m), clock(2 * m + 1));
      assert s' == t.0 && deadline == Earliest(r.1, t.1);
    } else {
      assert s' == s && deadline == None;
    }
  }

  lemma TimersStep(room: Schedule, s: State, pending: seq<(Ipv4, Ipv4)>, n: nat, clock: Clock, s1: State,
                   deadline: Option<nat>)
    requires Lists(s.arp, pending) && n < |pending| && TurnedAll(s, pending, n, clock, s1)
    requires IsEarliest(s, pending, n, clock, deadline)
    ensures var r := Timer(room, s1, pending[n].0, pending[n].1, clock(2 * n), clock(2 * n + 1));
            TurnedAll(s, pending, n + 1, clock, r.0) && IsEarliest(s, pending, n + 1, clock, Earliest(deadline, r.1))
  {
    var hop := pending[n].0;
    assert pending[n] in pending;
    assert s1.arp[hop] == s.arp[hop] == Listed(s, pending, n);
    TimerTurns(room, s1, hop, pending[n].1, clock(2 * n), clock(2 * n + 1));
    var r := Timer(room, s1, hop, pending[n].1, clock(2 * n), clock(2 * n + 1));
    assert OneTurned(s1, hop, clock(2 * n), clock(2 * n + 1), r.0);
    TableStep(s, pending, n, clock, s1, r.0);
    DeadlineStep(s, pending, n, clock, deadline, r.1);
  }

  // ----- Whether it is early enough -----

  /** The deadline is no later than the next retry of any entry left pending. */
  ghost predicate OnTime(table: Table, deadline: Option<nat>)
  {
    forall t :: t in table && table[t].Pending? ==>
      deadline.Some? && deadline.value <= table[t].since + 100 * MILLISECOND
  }

  /** The clock does not go back, and the entries were made before. */
  ghost predicate Steady(s: State, clock: Clock)
  {
    && (forall i: nat, j: nat :: i <= j ==> clock(i) <= clock(j))
    && forall t :: t in s.arp && s.arp[t].Pending? ==> s.arp[t].since <= clock(0)
  }

  /** The deadline of a pass is the earliest of the entries told to wait; so it is early
      enough exactly when one was told to, or none is left pending. A pass that only
      retries asks for no deadline at all. */
  lemma DeadlineExactly(room: Schedule, s: State, pending: seq<(Ipv4, Ipv4)>, clock: Clock)
    requires Lists(s.arp, pending) && Steady(s, clock)
    ensures var (s', deadline) := Timers(room, s, pending, clock);
            && IsEarliest(s, pending, |pending|, clock, deadline)
            && (OnTime(s'.arp, deadline)
                <==> deadline.Some? || forall t :: t in s'.arp ==> !s'.arp[t].Pending?)
  {
    var n := |pending|;
    assert pending[..n] == pending;
    var s', deadline := Timers(room, s, pending, clock).0, Timers(room, s, pending, clock).1;
    TimersTurn(room, s, pending, n, clock, s', deadline);
    if deadline.Some? {
      forall t | t in s'.arp && s'.arp[t].Pending? ensures deadline.value <= s'.arp[t].since + 100 * MILLISECOND {
        LeftPending(s, pending, clock, s', deadline.value, t);
      }
    }
  }

  lemma LeftPending(s: State, pending: seq<(Ipv4, Ipv4)>, clock: Clock, s': State, deadline: nat, t: Ipv4)
    requires Lists(s.arp, pending) && Steady(s, clock) && TurnedAll(s, pending, |pending|, clock, s')
    requires IsEarliest(s, pending, |pending|, clock, Some(deadline)) && t in s'.arp && s'.arp[t].Pending?
    ensures deadline <= s'.arp[t].since + 100 * MILLISECOND
  {
    var j: nat :| j < |pending| && WaitsUntil(s, pending, j, clock, deadline);
    assert pending[j] in pending;
    assert deadline <= clock(0) + 100 * MILLISECOND;
    if s.arp[t].Pending? {
      var k :| 0 <= k < |pending| && pending[k] == (t, s.arp[t].source);
      assert Listed(s, pending, k) == s.arp[t];
      assert clock(0) <= clock(2 * k + 1);
    }
  }

  /** One entry, whose wait is over: it is asked for again, and the pass asks for no
      deadline, though its next retry is due 100 ms later. */
  lemma RetryWithoutDeadline(room: Schedule, hop: Ipv4, source: Ipv4, now: nat)
    requires now > 100 * MILLISECOND
    ensures var s := Ethernet.Init().(arp := map[hop := Pending(0, 0, source)]);
            var (s', deadline) := Timers(room, s, [(hop, source)], _ => now);
            && s'.arp == map[hop := Pending(now, 1, source)] && deadline == None
            && !OnTime(s'.arp, deadline)
  {
    var s := Ethernet.Init().(arp := map[hop := Pending(0, 0, source)]);
    var pending := [(hop, source)];
    TimersNext(room, s, pending, 0, _ => now);
    assert pending[..1] == pending && pending[..0] == [];
    var s' := Timers(room, s, pending, _ => now).0;
    assert hop in s'.arp && s'.arp[hop].Pending?;
  }
}
