/** One ping session (PingManagerEntry in
    lib/src/runtime/interface/l4_managers/ping.rs): what each event does to it, and
    the accounting every run of events keeps. */
module Pinging {
  import opened Common

  const WRAP := 0x1_0000_0000_0000_0000
  const TIMEOUT := 10_000_000_000 // ten seconds in nanoseconds

  /** A usize of the 64-bit targets. */
  type Usize = x: nat | x < WRAP witness 0

  // ----- Unwrapping a sequence number -----

  function Signed(d: U16): int
  {
    if d < 0x8000 then d else d - 0x1_0000
  }

  function UnwrapSequence(sequence: U16, sent: Usize): Usize
  {
    var diff := Signed((sequence - sent % 0x1_0000) % 0x1_0000);
    if diff >= 0 then (sent + diff) % WRAP else (sent - -diff) % WRAP
  }

  /** The index is among the 65536 around the count, on the ring of 64-bit counts. */
  predicate Near(index: int, total: int)
  {
    (index - total + 0x8000) % WRAP < 0x1_0000
  }

  /** The index a ping's sequence number unwraps to is its own exactly when near. */
  lemma UnwrapExactly(index: nat, total: nat)
    ensures UnwrapSequence(index % 0x1_0000, total % WRAP) == index % WRAP <==> Near(index, total)
  {
    var e := Signed((index % 0x1_0000 - total % WRAP % 0x1_0000) % 0x1_0000);
    SignedDistance(index, total);
    ShiftModulo(total, e);
    SameModulo(total + e, index);
    Window(index - total, e);
  }

  lemma ModuloIs(a: int, q: int, r: int)
    requires a == WRAP * q + r && 0 <= r < WRAP
    ensures a % WRAP == r
  {
  }

  lemma LowIs(a: int, q: int, r: int)
    requires a == 0x1_0000 * q + r && 0 <= r < 0x1_0000
    ensures a % 0x1_0000 == r
  {
  }

  lemma Window(d: int, e: int)
    requires -0x8000 <= e < 0x8000 && (d - e) % 0x1_0000 == 0
    ensures (e - d) % WRAP == 0 <==> (d + 0x8000) % WRAP < 0x1_0000
  {
    var t := (d - e) / 0x1_0000;
    assert d == e + 0x1_0000 * t;
    if (d + 0x8000) % WRAP < 0x1_0000 {
      var q, f := (d + 0x8000) / WRAP, (d + 0x8000) % WRAP;
      assert d + 0x8000 == WRAP * q + f;
      SameWindow(e + 0x8000, f, t, q);
      ModuloIs(e - d, -q, 0);
    }
    if (e - d) % WRAP == 0 {
      var u := (e - d) / WRAP;
      assert e - d == WRAP * u;
      ModuloIs(d + 0x8000, -u, e + 0x8000);
    }
  }

  lemma SameWindow(a: int, b: int, t: int, q: int)
    requires 0 <= a < 0x1_0000 && 0 <= b < 0x1_0000 && a + 0x1_0000 * t == WRAP * q + b
    ensures a == b
  {
    LowIs(a + 0x1_0000 * t, t, a);
    LowIs(WRAP * q + b, 0x1_0000_0000_0000 * q, b);
  }

  lemma SignedDistance(index: nat, total: nat)
    ensures var e := Signed((index % 0x1_0000 - total % WRAP % 0x1_0000) % 0x1_0000);
            -0x8000 <= e < 0x8000 && (index - total - e) % 0x1_0000 == 0
  {
    var a, b := index % 0x1_0000, total % WRAP % 0x1_0000;
    assert total % 0x1_0000 == b;
  }

  lemma SameModulo(a: int, b: int)
    ensures a % WRAP == b % WRAP <==> (a - b) % WRAP == 0
  {
  }

  lemma ShiftModulo(total: nat, e: int)
    ensures (total % WRAP + e) % WRAP == (total + e) % WRAP
  {
  }

  // ----- A session and its events -----

  datatype Status = Success | TimedOut | Unreachable

  datatype Report = Report(sequence: Usize, status: Status)

  /** How a ping ended, and how many had been sent by then. */
  datatype Outcome = Outcome(index: nat, status: Status, sent: nat)

  /** `pending` holds sequence numbers and send times, oldest first. The rest from
      `total` on is history: the pings sent, the 0-based index of each pending one,
      how the others ended, and the latest clock reading. */
  datatype State = State(
    count: Option<Usize>, interval: nat, sentCount: Usize, lastSent: Option<nat>,
    pending: seq<(U16, nat)>, reports: seq<Report>,
    total: nat, indices: seq<nat>, settled: seq<Outcome>, now: nat)

  type Session = s: State | |s.indices| == |s.pending| witness Init(None, 0, 0)

  function Init(count: Option<Usize>, interval: nat, now: nat): State
  {
    State(count, interval, 0, None, [], [], 0, [], [], now)
  }

  function RemoveAt<T>(s: seq<T>, k: nat): seq<T>
    requires k < |s|
  {
    s[..k] + s[k + 1..]
  }

  /** Takes a ping out of the pending window and reports it. */
  function Settle(s: Session, k: nat, status: Status): Session
    requires k < |s.pending|
  {
    s.(pending := RemoveAt(s.pending, k),
       reports := s.reports + [Report(UnwrapSequence(s.pending[k].0, s.sentCount), status)],
       indices := RemoveAt(s.indices, k),
       settled := s.settled + [Outcome(s.indices[k], status, s.total)])
  }

  /** The timeout loop, which looks at the front only. */
  function TimeOut(s: Session, now: nat): Session
    decreases |s.pending|
  {
    if s.pending != [] && Elapsed(now, s.pending[0].1) > TIMEOUT then TimeOut(Settle(s, 0, TimedOut), now) else s
  }

  /** `ok` says whether the IPv4 send succeeds; the second result is the deadline. */
  function SendDue(s: Session, now: nat, ok: bool): (Session, Option<nat>)
  {
    if s.count.Some? && s.sentCount >= s.count.value then (s, None)
    else if s.lastSent.Some? && Elapsed(now, s.lastSent.value) <= s.interval
    then (s, Some(s.lastSent.value + s.interval))
    else if ok then (Sent(s, now), Some(now + TIMEOUT))
    else (s, Some(now))
  }

  function Sent(s: Session, now: nat): Session
  {
    s.(pending := s.pending + [(s.sentCount % 0x1_0000, now)], lastSent := Some(now),
       sentCount := (s.sentCount + 1) % WRAP,
       total := s.total + 1, indices := s.indices + [s.total])
  }

  function Timers(s: Session, now: nat, ok: bool): (Session, Option<nat>)
  {
    SendDue(TimeOut(s.(now := now), now), now, ok)
  }

  /** Where the sequence number is first pending, the length if nowhere. */
  function Position(pending: seq<(U16, nat)>, sequence: U16): (k: nat)
    ensures k <= |pending| && (k < |pending| ==> pending[k].0 == sequence)
    ensures forall j :: 0 <= j < k ==> pending[j].0 != sequence
  {
    if pending == [] || pending[0].0 == sequence then 0 else 1 + Position(pending[1..], sequence)
  }

  function EchoReply(s: Session, sequence: U16): Session
  {
    var k := Position(s.pending, sequence);
    if k < |s.pending| then Settle(s, k, Success) else s
  }

  /** An error always yields a report, whether or not the ping was pending. */
  function SendError(s: Session, sequence: U16): Session
  {
    var k := Position(s.pending, sequence);
    if k < |s.pending| then Settle(s, k, Unreachable)
    else s.(reports := s.reports + [Report(UnwrapSequence(sequence, s.sentCount), Unreachable)])
  }

  /** garbage_collect keeps a session with pings to send or to wait for. */
  predicate Retained(s: Session)
  {
    s.count.None? || s.sentCount < s.count.value || s.pending != []
  }

  datatype Event = Tick(elapsed: nat, ok: bool) | Reply(sequence: U16) | Error(sequence: U16)

  function Step(s: Session, e: Event): Session
  {
    match e
    case Tick(elapsed, ok) => Timers(s, s.now + elapsed, ok).0
    case Reply(sequence) => EchoReply(s, sequence)
    case Error(sequence) => SendError(s, sequence)
  }

  function Run(s: Session, events: seq<Event>): Session
  {
    if events == [] then s else Step(Run(s, events[..|events| - 1]), events[|events| - 1])
  }

  // ----- The invariant -----

  /** The pending window lists pings already sent, in order, by their low 16 bits. */
  ghost predicate Windowed(s: Session)
  {
    && s.sentCount == s.total % WRAP
    && (s.count.Some? ==> s.total <= s.count.value)
    && (forall k :: 0 <= k < |s.indices| ==> s.indices[k] < s.total && s.pending[k].0 == s.indices[k] % 0x1_0000)
    && (forall i, j :: 0 <= i < j < |s.indices| ==> s.indices[i] < s.indices[j])
  }

  /** Send times ascend, more than an interval apart. */
  ghost predicate Ordered(s: Session)
  {
    && (s.pending != [] ==> s.lastSent.Some?)
    && (s.lastSent.Some? ==>
          && s.lastSent.value <= s.now
          && forall k :: 0 <= k < |s.pending| ==> s.pending[k].1 <= s.lastSent.value)
    && (forall i, j :: 0 <= i < j < |s.pending| ==> s.pending[i].1 + s.interval < s.pending[j].1)
  }

  function Indices(settled: seq<Outcome>): seq<nat>
  {
    seq(|settled|, a requires 0 <= a < |settled| => settled[a].index)
  }

  ghost predicate Covered(total: nat, indices: seq<nat>, settled: seq<nat>)
  {
    forall i :: 0 <= i < total <==> i in indices || i in settled
  }

  /** Each ping sent is either pending or settled, and settled once. */
  ghost predicate Accounted(s: Session)
  {
    && s.total == |s.pending| + |s.settled|
    && Covered(s.total, s.indices, Indices(s.settled))
    && (forall a, b :: 0 <= a < b < |s.settled| ==> s.settled[a].index != s.settled[b].index)
    && (forall a :: 0 <= a < |s.settled| ==> s.settled[a].index !in s.indices)
    && (forall a :: 0 <= a < |s.settled| ==> s.settled[a].index < s.settled[a].sent <= s.total)
  }

  /** The report of an outcome. */
  function ReportOf(o: Outcome): Report
  {
    Report(UnwrapSequence(o.index % 0x1_0000, o.sent % WRAP), o.status)
  }

  function Definite(reports: seq<Report>): seq<Report>
  {
    if reports == [] then []
    else
      var last := reports[|reports| - 1];
      Definite(reports[..|reports| - 1]) + (if last.status.Unreachable? then [] else [last])
  }

  function ReportsOf(settled: seq<Outcome>): seq<Report>
  {
    if settled == [] then []
    else
      var last := settled[|settled| - 1];
      ReportsOf(settled[..|settled| - 1]) + (if last.status.Unreachable? then [] else [ReportOf(last)])
  }

  /** The successes and timeouts reported are those of the settled pings, in order. */
  ghost predicate Reported(s: Session)
  {
    Definite(s.reports) == ReportsOf(s.settled)
  }

  ghost predicate Inv(s: Session)
  {
    Windowed(s) && Ordered(s) && Accounted(s) && Reported(s)
  }

  // ----- Every event keeps it -----

  lemma ReportSnoc(reports: seq<Report>, r: Report)
    ensures Definite(reports + [r]) == Definite(reports) + (if r.status.Unreachable? then [] else [r])
  {
    assert (reports + [r])[..|reports|] == reports;
  }

  lemma OutcomeSnoc(settled: seq<Outcome>, o: Outcome)
    ensures ReportsOf(settled + [o]) == ReportsOf(settled) + (if o.status.Unreachable? then [] else [ReportOf(o)])
    ensures Indices(settled + [o]) == Indices(settled) + [o.index]
  {
    assert (settled + [o])[..|settled|] == settled;
  }

  lemma RemoveMembers(s: seq<nat>, k: nat)
    requires k < |s| && forall i, j :: 0 <= i < j < |s| ==> s[i] < s[j]
    ensures forall x :: x in RemoveAt(s, k) <==> x in s && x != s[k]
  {
    var after := RemoveAt(s, k);
    forall x | x in s && x != s[k] ensures x in after {
      var i :| 0 <= i < |s| && s[i] == x;
      assert after[if i < k then i else i - 1] == x;
    }
  }

  lemma MovesCovered(total: nat, indices: seq<nat>, settled: seq<nat>, k: nat)
    requires Covered(total, indices, settled) && k < |indices|
    requires forall i, j :: 0 <= i < j < |indices| ==> indices[i] < indices[j]
    ensures Covered(total, RemoveAt(indices, k), settled + [indices[k]])
  {
    RemoveMembers(indices, k);
    forall i ensures 0 <= i < total <==> i in RemoveAt(indices, k) || i in settled + [indices[k]] {
      assert i in settled + [indices[k]] <==> i in settled || i == indices[k];
    }
  }

  lemma SettleAccounts(s: Session, k: nat, status: Status)
    requires Windowed(s) && Accounted(s) && k < |s.pending|
    ensures Accounted(Settle(s, k, status))
  {
    var index := s.indices[k];
    MovesCovered(s.total, s.indices, Indices(s.settled), k);
    OutcomeSnoc(s.settled, Outcome(index, status, s.total));
    RemoveMembers(s.indices, k);
    var settled := Settle(s, k, status).settled;
    forall a | 0 <= a < |s.settled| ensures settled[a] == s.settled[a] && settled[a].index != index {
      assert s.settled[a].index !in s.indices;
    }
  }

  lemma RemoveAtIs<T>(s: seq<T>, k: nat, j: nat)
    requires k < |s| && j < |s| - 1
    ensures RemoveAt(s, k)[j] == s[if j < k then j else j + 1]
  {
  }

  lemma RemovePaired(indices: seq<nat>, pending: seq<(U16, nat)>, k: nat, total: nat)
    requires |indices| == |pending| && k < |pending|
    requires forall j :: 0 <= j < |indices| ==> indices[j] < total && pending[j].0 == indices[j] % 0x1_0000
    ensures var left, window := RemoveAt(indices, k), RemoveAt(pending, k);
            forall j :: 0 <= j < |left| ==> left[j] < total && window[j].0 == left[j] % 0x1_0000
  {
    forall j: nat | j < |RemoveAt(indices, k)|
      ensures RemoveAt(indices, k)[j] < total && RemoveAt(pending, k)[j].0 == RemoveAt(indices, k)[j] % 0x1_0000
    {
      RemoveAtIs(indices, k, j);
      RemoveAtIs(pending, k, j);
    }
  }

  lemma RemoveAscending(s: seq<nat>, k: nat)
    requires k < |s| && forall i, j :: 0 <= i < j < |s| ==> s[i] < s[j]
    ensures var after := RemoveAt(s, k); forall i, j :: 0 <= i < j < |after| ==> after[i] < after[j]
  {
    forall i: nat, j: nat | i < j < |RemoveAt(s, k)| ensures RemoveAt(s, k)[i] < RemoveAt(s, k)[j] {
      RemoveAtIs(s, k, i);
      RemoveAtIs(s, k, j);
    }
  }

  lemma SettleWindow(s: Session, k: nat, status: Status)
    requires Windowed(s) && k < |s.pending|
    ensures Windowed(Settle(s, k, status))
  {
    RemovePaired(s.indices, s.pending, k, s.total);
    RemoveAscending(s.indices, k);
  }

  lemma SettleOrder(s: Session, k: nat, status: Status)
    requires Ordered(s) && k < |s.pending|
    ensures Ordered(Settle(s, k, status))
  {
    var after := RemoveAt(s.pending, k);
    forall j: nat | j < |after| ensures after[j].1 <= s.lastSent.value {
      RemoveAtIs(s.pending, k, j);
    }
    forall i: nat, j: nat | i < j < |after| ensures after[i].1 + s.interval < after[j].1 {
      RemoveAtIs(s.pending, k, i);
      RemoveAtIs(s.pending, k, j);
    }
  }

  lemma SettleReports(s: Session, k: nat, status: Status)
    requires Windowed(s) && Reported(s) && k < |s.pending|
    ensures Reported(Settle(s, k, status))
  {
    OutcomeSnoc(s.settled, Outcome(s.indices[k], status, s.total));
    ReportSnoc(s.reports, Report(UnwrapSequence(s.pending[k].0, s.sentCount), status));
  }

  lemma SettleKeeps(s: Session, k: nat, status: Status)
    requires Inv(s) && k < |s.pending|
    ensures Inv(Settle(s, k, status))
  {
    SettleWindow(s, k, status);
    SettleOrder(s, k, status);
    SettleAccounts(s, k, status);
    SettleReports(s, k, status);
  }

  lemma {:induction false} TimeOutKeeps(s: Session, now: nat)
    requires Inv(s)
    ensures Inv(TimeOut(s, now)) && TimeOut(s, now).now == s.now && TimeOut(s, now).lastSent == s.lastSent
    ensures TimeOut(s, now).total == s.total
    decreases |s.pending|
  {
    if s.pending != [] && Elapsed(now, s.pending[0].1) > TIMEOUT {
      SettleKeeps(s, 0, TimedOut);
      TimeOutKeeps(Settle(s, 0, TimedOut), now);
    }
  }

  lemma SentAccounts(s: Session, now: nat)
    requires Windowed(s) && Accounted(s)
    ensures Accounted(Sent(s, now))
  {
    forall i ensures 0 <= i < s.total + 1 <==> i in s.indices + [s.total] || i in Indices(s.settled) {
      assert i in s.indices + [s.total] <==> i in s.indices || i == s.total;
    }
    forall a | 0 <= a < |s.settled| ensures s.settled[a].index != s.total {
      assert Indices(s.settled)[a] == s.settled[a].index;
    }
  }

  lemma CountModulo(total: nat)
    ensures (total % WRAP + 1) % WRAP == (total + 1) % WRAP
    ensures total % WRAP % 0x1_0000 == total % 0x1_0000
  {
    var q, r := total / WRAP, total % WRAP;
    assert total == WRAP * q + r;
    if r + 1 < WRAP { ModuloIs(total + 1, q, r + 1); } else { ModuloIs(total + 1, q + 1, 0); }
    LowIs(total, 0x1_0000_0000_0000 * q + r / 0x1_0000, r % 0x1_0000);
  }

  lemma SentWindow(s: Session, now: nat)
    requires Windowed(s) && (s.count.Some? ==> s.sentCount < s.count.value)
    ensures Windowed(Sent(s, now))
  {
    CountModulo(s.total);
    var s' := Sent(s, now);
    forall k | 0 <= k < |s'.indices|
      ensures s'.indices[k] < s'.total && s'.pending[k].0 == s'.indices[k] % 0x1_0000
    {
      if k < |s.indices| { assert s'.pending[k] == s.pending[k]; }
    }
  }

  lemma SentOrder(s: Session, now: nat)
    requires Ordered(s) && s.now == now
    requires s.lastSent.Some? ==> Elapsed(now, s.lastSent.value) > s.interval
    ensures Ordered(Sent(s, now))
  {
  }

  lemma SentKeeps(s: Session, now: nat)
    requires Inv(s) && s.now == now
    requires s.count.Some? ==> s.sentCount < s.count.value
    requires s.lastSent.Some? ==> Elapsed(now, s.lastSent.value) > s.interval
    ensures Inv(Sent(s, now))
  {
    SentAccounts(s, now);
    SentWindow(s, now);
    SentOrder(s, now);
  }

  lemma LaterKeeps(s: Session, now: nat)
    requires Inv(s) && s.now <= now
    ensures Inv(s.(now := now))
  {
    var s' := s.(now := now);
    assert s'.pending == s.pending && s'.indices == s.indices && s'.settled == s.settled && s'.lastSent == s.lastSent;
  }

  lemma DueKeeps(s: Session, now: nat, ok: bool)
    requires Inv(s) && s.now == now
    ensures Inv(SendDue(s, now, ok).0) && SendDue(s, now, ok).0.now == now
  {
    if s.count.Some? && s.sentCount >= s.count.value {
    } else if s.lastSent.Some? && Elapsed(now, s.lastSent.value) <= s.interval {
    } else if ok {
      SentKeeps(s, now);
    }
  }

  lemma TimersKeeps(s: Session, now: nat, ok: bool)
    requires Inv(s) && s.now <= now
    ensures Inv(Timers(s, now, ok).0) && Timers(s, now, ok).0.now == now
  {
    var s1 := s.(now := now);
    LaterKeeps(s, now);
    TimeOutKeeps(s1, now);
    DueKeeps(TimeOut(s1, now), now, ok);
  }

  lemma ReplyKeeps(s: Session, sequence: U16)
    requires Inv(s)
    ensures Inv(EchoReply(s, sequence))
  {
    var k := Position(s.pending, sequence);
    if k < |s.pending| { SettleKeeps(s, k, Success); }
  }

  lemma ErrorKeeps(s: Session, sequence: U16)
    requires Inv(s)
    ensures Inv(SendError(s, sequence))
  {
    var k := Position(s.pending, sequence);
    if k < |s.pending| { SettleKeeps(s, k, Unreachable); }
    ReportSnoc(s.reports, Report(UnwrapSequence(sequence, s.sentCount), Unreachable));
  }

  lemma StepKeeps(s: Session, e: Event)
    requires Inv(s)
    ensures Inv(Step(s, e))
  {
    match e
    case Tick(elapsed, ok) => TimersKeeps(s, s.now + elapsed, ok);
    case Reply(sequence) => ReplyKeeps(s, sequence);
    case Error(sequence) => ErrorKeeps(s, sequence);
  }

  lemma {:induction false} EveryRun(count: Option<Usize>, interval: nat, now: nat, events: seq<Event>)
    ensures Inv(Run(Init(count, interval, now), events))
  {
    if events != [] {
      EveryRun(count, interval, now, events[..|events| - 1]);
      StepKeeps(Run(Init(count, interval, now), events[..|events| - 1]), events[|events| - 1]);
    }
  }

  // ----- What the invariant means to a caller -----

  /** A result carries its ping's own index when at most 32768 pings had been sent
      since, and short of a 64-bit count only then. */
  lemma ReportedIndex(s: Session, a: nat)
    requires Inv(s) && a < |s.settled|
    ensures var o := s.settled[a];
            && (o.sent - o.index <= 0x8000 ==> ReportOf(o).sequence == o.index % WRAP)
            && (o.sent < WRAP - 0x8000 ==> (ReportOf(o).sequence == o.index <==> o.sent - o.index <= 0x8000))
  {
    var o := s.settled[a];
    UnwrapExactly(o.index, o.sent);
    NearBehind(o.index, o.sent);
    if o.sent < WRAP { ModuloIs(o.index, 0, o.index); }
  }

  lemma NearBehind(index: nat, total: nat)
    requires index < total
    ensures total - index <= 0x8000 ==> Near(index, total)
    ensures total < WRAP - 0x8000 && Near(index, total) ==> total - index <= 0x8000
  {
    var d := index - total + 0x8000;
    if d >= 0 { ModuloIs(d, 0, d); } else if total < WRAP - 0x8000 { ModuloIs(d, -1, WRAP + d); }
  }

  lemma SettleFront(s: Session)
    requires s.pending != []
    ensures var s1 := Settle(s, 0, TimedOut);
            s1.pending == s.pending[1..] && s1.indices == s.indices[1..] && |s1.settled| == |s.settled| + 1
  {
  }

  function OldAtFront(pending: seq<(U16, nat)>, now: nat): (k: nat)
    ensures k <= |pending|
  {
    if pending != [] && Elapsed(now, pending[0].1) > TIMEOUT then 1 + OldAtFront(pending[1..], now) else 0
  }

  lemma {:induction false} TimeOutFront(s: Session, now: nat)
    ensures var k := OldAtFront(s.pending, now);
            && TimeOut(s, now).pending == s.pending[k..]
            && TimeOut(s, now).indices == s.indices[k..]
            && |TimeOut(s, now).settled| == |s.settled| + k
    decreases |s.pending|
  {
    if s.pending != [] && Elapsed(now, s.pending[0].1) > TIMEOUT {
      SettleFront(s);
      TimeOutFront(Settle(s, 0, TimedOut), now);
      DropAgain(s.pending, OldAtFront(s.pending[1..], now));
      DropAgain(s.indices, OldAtFront(s.pending[1..], now));
    }
  }

  lemma DropAgain<T>(s: seq<T>, n: nat)
    requires n < |s|
    ensures s[1..][n..] == s[n + 1..]
  {
  }

  lemma {:induction false} OldAreAtFront(pending: seq<(U16, nat)>, now: nat)
    requires forall i, j :: 0 <= i < j < |pending| ==> pending[i].1 <= pending[j].1
    ensures forall j :: 0 <= j < |pending| ==> (j < OldAtFront(pending, now) <==> Elapsed(now, pending[j].1) > TIMEOUT)
  {
    if pending != [] && Elapsed(now, pending[0].1) > TIMEOUT {
      OldAreAtFront(pending[1..], now);
      forall j | 0 < j < |pending|
        ensures j < OldAtFront(pending, now) <==> Elapsed(now, pending[j].1) > TIMEOUT
      {
        assert pending[j] == pending[1..][j - 1];
      }
    }
  }

  lemma PendingOrSettled(s: Session, i: nat)
    requires Accounted(s) && i < s.total
    ensures i in Indices(s.settled) <==> i !in s.indices
  {
    if i in Indices(s.settled) {
      var a :| 0 <= a < |s.settled| && Indices(s.settled)[a] == i;
      assert s.settled[a].index == i;
    }
  }

  lemma InSuffix(s: seq<nat>, j: nat, k: nat)
    requires j < |s| && k <= |s| && forall a, b :: 0 <= a < b < |s| ==> s[a] < s[b]
    ensures s[j] in s[k..] <==> k <= j
  {
    if k <= j { assert s[k..][j - k] == s[j]; }
  }

  /** Only the front is examined, yet exactly the pings older than the timeout go,
      and each of those is settled. */
  lemma TimeOutExactly(s: Session, now: nat, j: nat)
    requires Inv(s) && j < |s.pending|
    ensures var s' := TimeOut(s, now);
            && (s.indices[j] in s'.indices <==> Elapsed(now, s.pending[j].1) <= TIMEOUT)
            && (s.indices[j] in Indices(s'.settled) <==> Elapsed(now, s.pending[j].1) > TIMEOUT)
  {
    TimeOutFront(s, now);
    OldAreAtFront(s.pending, now);
    InSuffix(s.indices, j, OldAtFront(s.pending, now));
    TimeOutKeeps(s, now);
    PendingOrSettled(TimeOut(s, now), s.indices[j]);
  }

  /** A session is collected exactly when its whole count has been sent and has ended. */
  lemma CollectedExactly(s: Session)
    requires Inv(s)
    ensures !Retained(s) <==> s.count == Some(s.total) && |s.settled| == s.total
    ensures !Retained(s) ==> forall i :: 0 <= i < s.total ==> i in Indices(s.settled)
  {
    if s.count.Some? { ModuloIs(s.total, 0, s.total); }
  }

  lemma LowBitsDiffer(a: nat, b: nat)
    requires a < b < a + 0x1_0000
    ensures a % 0x1_0000 != b % 0x1_0000
  {
  }

  /** While no more than 65536 pings separate the oldest pending one from the count,
      a sequence number identifies its ping. */
  lemma SequenceIdentifies(s: Session, k: nat)
    requires Windowed(s) && k < |s.pending| && s.total - s.indices[0] <= 0x1_0000
    ensures Position(s.pending, s.pending[k].0) == k
  {
    var j := Position(s.pending, s.pending[k].0);
    if j < k {
      assert s.indices[0] <= s.indices[j] < s.indices[k] < s.total;
      LowBitsDiffer(s.indices[j], s.indices[k]);
    }
  }

  /** Then a reply or an error settles the very ping it is for. */
  lemma ReplySettlesItsPing(s: Session, k: nat)
    requires Inv(s) && k < |s.pending| && s.total - s.indices[0] <= 0x1_0000
    ensures EchoReply(s, s.pending[k].0) == Settle(s, k, Success)
    ensures SendError(s, s.pending[k].0) == Settle(s, k, Unreachable)
  {
    SequenceIdentifies(s, k);
  }

  /** An error's report settles a ping exactly when its sequence number is pending. */
  lemma ErrorReports(s: Session, sequence: U16)
    ensures |SendError(s, sequence).reports| == |s.reports| + 1
    ensures |SendError(s, sequence).settled| == |s.settled| + 1
       <==> exists k :: 0 <= k < |s.pending| && s.pending[k].0 == sequence
  {
  }

  /** So a ping can be reported twice: answered, and then unreachable. */
  lemma ReportedTwice(s: Session, s1: Session)
    requires s == Sent(Init(Some(1), 0, 0), 0) && s1 == EchoReply(s, 0)
    ensures SendError(s1, 0).reports == [Report(0, Success), Report(0, Unreachable)] && SendError(s1, 0).total == 1
  {
    assert s.pending == [(0, 0)] && RemoveAt(s.pending, 0) == [] && s.sentCount == 1;
    assert UnwrapSequence(0, 1) == 0;
  }
}

/** The sessions as the interface thread keeps them, updated in place. */
module PingManagers {
  import opened Common
  import C = Checksum
  import I = Icmp
  import T = EchoTime
  import opened Pinging

  class PingEntry {
    const count: Option<Usize>
    const interval: nat
    var sentCount: Usize
    var lastSent: Option<nat>
    var pending: seq<(U16, nat)>
    var reports: seq<Report>
    ghost var total: nat
    ghost var indices: seq<nat>
    ghost var settled: seq<Outcome>
    ghost var now: nat

    ghost function Value(): State
      reads this
    {
      State(count, interval, sentCount, lastSent, pending, reports, total, indices, settled, now)
    }

    ghost predicate Valid()
      reads this
    {
      |indices| == |pending|
    }

    constructor (count: Option<Usize>, interval: nat, ghost now: nat)
      ensures Valid() && Value() == Init(count, interval, now)
    {
      this.count, this.interval := count, interval;
      sentCount, lastSent, pending, reports := 0, None, [], [];
      total, indices, settled, this.now := 0, [], [], now;
    }

    method ProcessTimers(time: nat, ok: bool) returns (deadline: Option<nat>)
      requires Valid()
      modifies this
      ensures Valid()
      ensures (Value(), deadline) == Timers(old(Value()), time, ok)
    {
      now := time;
      Expire(time);
      deadline := SendIfDue(time, ok);
    }

    method Expire(time: nat)
      requires Valid()
      modifies this`pending, this`reports, this`indices, this`settled
      ensures Valid() && Value() == TimeOut(old(Value()), time)
    {
      ghost var start := Value();
      while pending != [] && Elapsed(time, pending[0].1) > TIMEOUT
        invariant Valid() && TimeOut(Value(), time) == TimeOut(start, time)
        decreases |pending|
      {
        Remove(0, TimedOut);
      }
    }

    method SendIfDue(time: nat, ok: bool) returns (deadline: Option<nat>)
      requires Valid()
      modifies this`pending, this`lastSent, this`sentCount, this`total, this`indices
      ensures Valid() && (Value(), deadline) == SendDue(old(Value()), time, ok)
    {
      deadline := None;
      if count.None? || sentCount < count.value {
        if lastSent.None? || Elapsed(time, lastSent.value) > interval {
          if ok {
            pending := pending + [(sentCount % 0x1_0000, time)];
            lastSent := Some(time);
            sentCount := (sentCount + 1) % WRAP;
            total, indices := total + 1, indices + [total];
            deadline := Some(time + TIMEOUT);
          } else {
            deadline := Some(time);
          }
        } else {
          deadline := Some(lastSent.value + interval);
        }
      }
    }

    method Remove(k: nat, status: Status)
      requires Valid() && k < |pending|
      modifies this`pending, this`reports, this`indices, this`settled
      ensures Valid() && Value() == Settle(old(Value()), k, status)
    {
      reports := reports + [Report(UnwrapSequence(pending[k].0, sentCount), status)];
      settled := settled + [Outcome(indices[k], status, total)];
      pending, indices := RemoveAt(pending, k), RemoveAt(indices, k);
    }

    method OnReply(sequence: U16)
      requires Valid()
      modifies this
      ensures Valid() && Value() == EchoReply(old(Value()), sequence)
    {
      var k := Position(pending, sequence);
      if k < |pending| {
        Remove(k, Success);
      }
    }

    method OnError(sequence: U16)
      requires Valid()
      modifies this
      ensures Valid() && Value() == SendError(old(Value()), sequence)
    {
      var k := Position(pending, sequence);
      if k < |pending| {
        Remove(k, Unreachable);
      } else {
        reports := reports + [Report(UnwrapSequence(sequence, sentCount), Unreachable)];
      }
    }
  }

  /** A session's target and identifier. */
  type Key = (Ipv4, U16)

  type Sessions = map<Key, Session>

  /** Every session keeps its accounting, on readings of one clock. */
  ghost predicate Sound(m: Sessions, clock: nat)
  {
    forall k :: k in m ==> Inv(m[k]) && m[k].now <= clock
  }

  lemma UpdateKeeps(m: Sessions, clock: nat, k: Key, s: Session)
    requires Sound(m, clock) && Inv(s) && s.now <= clock
    ensures Sound(m[k := s], clock)
  {
  }

  lemma RestrictKeeps(m: Sessions, m': Sessions, clock: nat)
    requires Sound(m, clock) && forall k :: k in m' ==> k in m && m'[k] == m[k]
    ensures Sound(m', clock)
  {
  }

  /** A ping of that number is pending in that session. */
  predicate Awaits(m: Sessions, k: Key, sequence: U16)
  {
    k in m && exists j :: 0 <= j < |m[k].pending| && m[k].pending[j].0 == sequence
  }

  function Collected(m: Sessions): Sessions
  {
    map k | k in m && Retained(m[k]) :: m[k]
  }

  /** Pings are left to send, or one is awaited. */
  predicate HasBusiness(s: Session)
  {
    (s.count.Some? ==> s.total < s.count.value) || s.pending != []
  }

  lemma RetainedExactly(s: Session)
    requires Inv(s)
    ensures Retained(s) <==> HasBusiness(s)
  {
    if s.count.Some? { ModuloIs(s.total, 0, s.total); }
  }

  function Stopped(m: Sessions, stopped: seq<Key>): Sessions
  {
    map k | k in m && k !in stopped :: m[k]
  }

  /** What a session does on its turn of the timers, and the deadline it asks for. */
  type Turn = (Key, Session) -> (Session, Option<nat>)

  /** `ok` says whose send succeeds. */
  function TimersOf(time: nat, ok: Key -> bool): Turn
  {
    (k: Key, s: Session) => Timers(s, time, ok(k))
  }

  function AllTurns(m: Sessions, turn: Turn): Sessions
  {
    map k | k in m :: turn(k, m[k]).0
  }

  /** All but the sessions of `todo` have had their turn. */
  function SomeTurns(m: Sessions, turn: Turn, todo: set<Key>): Sessions
  {
    map k | k in m :: if k in todo then m[k] else turn(k, m[k]).0
  }

  lemma TurnsStart(m: Sessions, turn: Turn)
    ensures SomeTurns(m, turn, m.Keys) == m
  {
  }

  lemma TurnsNext(m: Sessions, turn: Turn, todo: set<Key>, k: Key)
    requires k in m && k in todo
    ensures SomeTurns(m, turn, todo)[k] == m[k]
    ensures SomeTurns(m, turn, todo)[k := turn(k, m[k]).0] == SomeTurns(m, turn, todo - {k})
  {
  }

  lemma TurnsDone(m: Sessions, turn: Turn)
    ensures SomeTurns(m, turn, {}) == AllTurns(m, turn)
  {
  }

  function AllDeadlines(m: Sessions, turn: Turn): map<Key, Option<nat>>
  {
    map k | k in m :: turn(k, m[k]).1
  }

  lemma TimersKeepAll(m: Sessions, time: nat, ok: Key -> bool, clock: nat)
    requires Sound(m, clock) && clock <= time
    ensures Sound(AllTurns(m, TimersOf(time, ok)), time)
  {
    forall k | k in m ensures Inv(Timers(m[k], time, ok(k)).0) && Timers(m[k], time, ok(k)).0.now == time {
      TimersKeeps(m[k], time, ok(k));
    }
  }

  /** The sessions that go are those stopped and those with nothing left to do after
      their turn; each of the others has had its turn. */
  ghost predicate LeavesOnly(was: Sessions, stopped: seq<Key>, time: nat, ok: Key -> bool, m: Sessions)
  {
    && (forall k :: k in m ==> k in was && k !in stopped && m[k] == Timers(was[k], time, ok(k)).0)
    && (forall k :: k in was ==> (k in m <==> k !in stopped && HasBusiness(Timers(was[k], time, ok(k)).0)))
  }

  lemma TurnsLeave(was: Sessions, stopped: seq<Key>, time: nat, ok: Key -> bool)
    requires Sound(AllTurns(Stopped(was, stopped), TimersOf(time, ok)), time)
    ensures LeavesOnly(was, stopped, time, ok, Collected(AllTurns(Stopped(was, stopped), TimersOf(time, ok))))
  {
    var after := AllTurns(Stopped(was, stopped), TimersOf(time, ok));
    forall k | k in after ensures Retained(after[k]) <==> HasBusiness(after[k]) { RetainedExactly(after[k]); }
  }

  /** The deadline is the earliest of those asked for, but for the sessions of `todo`. */
  ghost predicate IsEarliest(deadline: Option<nat>, asked: map<Key, Option<nat>>, todo: set<Key>)
  {
    && (forall k :: k in asked && k !in todo && asked[k].Some? ==> deadline.Some? && deadline.value <= asked[k].value)
    && (deadline.Some? ==> exists k :: k in asked && k !in todo && asked[k] == deadline)
  }

  function Earlier(deadline: Option<nat>, other: Option<nat>): Option<nat>
  {
    if other.Some? && (deadline.None? || other.value < deadline.value) then other else deadline
  }

  lemma EarliestNext(deadline: Option<nat>, asked: map<Key, Option<nat>>, todo: set<Key>, k: Key)
    requires k in todo && k in asked && IsEarliest(deadline, asked, todo)
    ensures IsEarliest(Earlier(deadline, asked[k]), asked, todo - {k})
  {
    if deadline.Some? {
      var l :| l in asked && l !in todo && asked[l] == deadline;
      assert l !in todo - {k};
    }
    assert k !in todo - {k};
  }

  class PingManager {
    var sessions: Sessions
    ghost var clock: nat

    ghost predicate Valid()
      reads this
    {
      Sound(sessions, clock)
    }

    constructor (ghost now: nat)
      ensures Valid() && sessions == map[] && clock == now
    {
      sessions, clock := map[], now;
    }

    /** The identifier is one the random draw ended on: not in use for the target. */
    method Ping(target: Ipv4, count: Option<Usize>, interval: nat, identifier: U16, now: nat)
      requires Valid() && (target, identifier) !in sessions && now == clock
      modifies this`sessions
      ensures Valid() && sessions == old(sessions)[(target, identifier) := Init(count, interval, now)]
    {
      EveryRun(count, interval, now, []);
      UpdateKeeps(sessions, clock, (target, identifier), Init(count, interval, now));
      sessions := sessions[(target, identifier) := Init(count, interval, now)];
    }

    method GarbageCollect()
      requires Valid()
      modifies this`sessions
      ensures Valid() && sessions == Collected(old(sessions))
      ensures forall k :: k in sessions <==> k in old(sessions) && HasBusiness(old(sessions)[k])
    {
      RestrictKeeps(sessions, Collected(sessions), clock);
      forall k | k in sessions ensures Retained(sessions[k]) <==> HasBusiness(sessions[k]) {
        RetainedExactly(sessions[k]);
      }
      sessions := map k | k in sessions && Retained(sessions[k]) :: sessions[k];
    }

    method OnReply(k: Key, sequence: U16)
      requires Valid()
      modifies this`sessions
      ensures Valid()
      ensures var was := old(sessions);
              sessions == Collected(if k in was then was[k := EchoReply(was[k], sequence)] else was)
    {
      if k in sessions {
        StepKeeps(sessions[k], Reply(sequence));
        UpdateKeeps(sessions, clock, k, EchoReply(sessions[k], sequence));
        sessions := sessions[k := EchoReply(sessions[k], sequence)];
      }
      GarbageCollect();
    }

    /** The time data of the answer to a pending ping is read to report how long it
        took; when that fails the thread is gone. */
    method OnEchoReply(source: Ipv4, e: I.EchoMessage, build: T.Build, clocks: T.Clocks)
      returns (crashed: bool, took: Option<nat>)
      requires Valid()
      modifies this`sessions
      ensures Valid()
      ensures var k, was := (source, e.identifier), old(sessions);
              && (crashed <==> Awaits(was, k, e.sequenceNumber) && T.Measure(build, e.data, clocks).Fails?)
              && (!crashed && Awaits(was, k, e.sequenceNumber) ==>
                    T.Measure(build, e.data, clocks) == T.Took(took))
              && (!crashed ==>
                    sessions == Collected(if k in was then was[k := EchoReply(was[k], e.sequenceNumber)] else was))
    {
      var k := (source, e.identifier);
      crashed, took := false, None;
      if k in sessions {
        if Position(sessions[k].pending, e.sequenceNumber) < |sessions[k].pending| {
          match T.Measure(build, e.data, clocks) {
            case Fails => return true, None;
            case Took(duration) => took := duration;
          }
        }
      }
      OnReply(k, e.sequenceNumber);
    }

    /** The first eight octets of the datagram that could not be delivered name the
        echo request it carried. */
    method OnAsyncSendError(destination: Ipv4, datagram: seq<Byte>)
      requires Valid() && |datagram| >= 8
      modifies this`sessions
      ensures Valid()
      ensures var k, was := (destination, C.U16Of(datagram[4], datagram[5])), old(sessions);
              sessions == if datagram[0] == 8 && datagram[1] == 0 && k in was
                          then was[k := SendError(was[k], C.U16Of(datagram[6], datagram[7]))] else was
    {
      if datagram[0] != 8 || datagram[1] != 0 {
        return;
      }
      var k := (destination, C.U16Of(datagram[4], datagram[5]));
      if k in sessions {
        OnError(k, C.U16Of(datagram[6], datagram[7]));
      }
    }

    method OnError(k: Key, sequence: U16)
      requires Valid() && k in sessions
      modifies this`sessions
      ensures Valid() && sessions == old(sessions)[k := SendError(old(sessions)[k], sequence)]
    {
      ErrorKeeps(sessions[k], sequence);
      UpdateKeeps(sessions, clock, k, SendError(sessions[k], sequence));
      sessions := sessions[k := SendError(sessions[k], sequence)];
    }

    /** `stopped` are the sessions the control channel asks to stop. */
    method PerformTimers(stopped: seq<Key>, time: nat, ok: Key -> bool) returns (deadline: Option<nat>)
      requires Valid() && clock <= time
      modifies this
      ensures Valid() && clock == time
      ensures var live, turn := Stopped(old(sessions), stopped), TimersOf(time, ok);
              && sessions == Collected(AllTurns(live, turn))
              && LeavesOnly(old(sessions), stopped, time, ok, sessions)
              && IsEarliest(deadline, AllDeadlines(live, turn), {})
    {
      ghost var was := sessions;
      RestrictKeeps(sessions, Stopped(sessions, stopped), clock);
      StopAll(stopped);
      TimersKeepAll(sessions, time, ok, clock);
      TurnsLeave(was, stopped, time, ok);
      deadline := ProcessAll(TimersOf(time, ok));
      clock := time;
      GarbageCollect();
    }

    method StopAll(stopped: seq<Key>)
      modifies this`sessions
      ensures sessions == Stopped(old(sessions), stopped)
    {
      for n := 0 to |stopped|
        invariant sessions == Stopped(old(sessions), stopped[..n])
      {
        sessions := sessions - {stopped[n]};
      }
      assert stopped[..|stopped|] == stopped;
    }

    /** The sessions take their turns in no particular order. */
    method ProcessAll(turn: Turn) returns (deadline: Option<nat>)
      modifies this`sessions
      ensures sessions == AllTurns(old(sessions), turn)
      ensures IsEarliest(deadline, AllDeadlines(old(sessions), turn), {})
    {
      ghost var was, asked := sessions, AllDeadlines(sessions, turn);
      TurnsStart(was, turn);
      var todo := sessions.Keys;
      deadline := None;
      while todo != {}
        invariant todo <= was.Keys
        invariant sessions == SomeTurns(was, turn, todo)
        invariant IsEarliest(deadline, asked, todo)
        decreases |todo|
      {
        var k :| k in todo;
        EarliestNext(deadline, asked, todo, k);
        TurnsNext(was, turn, todo, k);
        var (s, due) := turn(k, sessions[k]);
        sessions := sessions[k := s];
        deadline := Earlier(deadline, due);
        todo := todo - {k};
      }
      TurnsDone(was, turn);
    }
  }
}
