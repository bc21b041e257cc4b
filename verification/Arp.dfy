/** ArpTable (lib/src/runtime/interface/l2_ethernet/arp_table.rs): one timed entry
    per target, and the bound on a resolution episode. Times are nanoseconds read
    from one monotone clock. */
module Arp {
  import opened Common

  type Mac = nat

  const MILLISECOND := 1_000_000
  const SECOND := 1000 * MILLISECOND
  const REQUEST_TIMEOUT := 100 * MILLISECOND
  const MAX_RETRY := 5
  const LIFETIME_SEC := 30
  const STALE_SEC := 60

  datatype ArpState =
    | PendingRetry(source: Ipv4)
    | Restart
    | PendingWait(deadline: nat)
    | Timeout
    | Resolved(mac: Mac)
    | ResolvedStale(mac: Mac)

  datatype Entry =
    | Pending(since: nat, retryCount: Byte, source: Ipv4)
    | Known(lastSeen: nat, mac: Mac)
    | TimedOut(since: nat)

  type Table = map<Ipv4, Entry>

  function At(table: Table, target: Ipv4): Option<Entry>
  {
    if target in table then Some(table[target]) else None
  }

  function Put(table: Table, target: Ipv4, entry: Option<Entry>): Table
  {
    if entry.Some? then table[target := entry.value] else table - {target}
  }

  // ----- What each operation does to the entry of its target -----

  /** `now` is the reading the answer depends on; a timeout is stamped with a `later`
      one, and a caller told to send a request reads it then. */
  function Answer(entry: Option<Entry>, source: Ipv4, now: nat, later: nat): (Option<Entry>, ArpState)
  {
    match entry
    case None => (Some(Pending(now, 0, source)), PendingRetry(source))
    case Some(Pending(since, retryCount, stored)) =>
      if Elapsed(now, since) <= REQUEST_TIMEOUT then (entry, PendingWait(since + REQUEST_TIMEOUT))
      else if retryCount >= MAX_RETRY then (Some(TimedOut(later)), Timeout)
      else (entry, PendingRetry(stored))
    case Some(TimedOut(since)) =>
      if Elapsed(now, since) > LIFETIME_SEC * SECOND then (None, Restart) else (entry, Timeout)
    case Some(Known(lastSeen, mac)) =>
      var age := Elapsed(now, lastSeen) / SECOND;
      if age >= STALE_SEC then (None, Restart)
      else if age >= LIFETIME_SEC then (entry, ResolvedStale(mac))
      else (entry, Resolved(mac))
  }

  /** The entry after can_send_request, which always leaves one. */
  function Sending(entry: Option<Entry>, source: Ipv4, now: nat): Entry
  {
    match entry
    case None => Pending(now, 0, source)
    case Some(Pending(_, retryCount, stored)) => Pending(now, (retryCount + 1) % 0x100, stored)
    case Some(other) => other
  }

  /** A caller asks for the target, and sends a request when the answer tells it to. */
  function Asks(state: ArpState): bool
  {
    state.PendingRetry? || state.Restart? || state.ResolvedStale?
  }

  class ArpTable {
    var table: Table

    constructor ()
      ensures table == map[]
    {
      table := map[];
    }

    method UpdateOrInsert(mac: Mac, ipv4: Ipv4, now: nat) returns (existed: bool)
      modifies this
      ensures existed == (ipv4 in old(table))
      ensures table == Put(old(table), ipv4, Some(Known(now, mac)))
    {
      existed := ipv4 in table;
      table := table[ipv4 := Known(now, mac)];
    }

    method UpdateOnly(mac: Mac, ipv4: Ipv4, now: nat) returns (updated: bool)
      modifies this
      ensures updated == (ipv4 in old(table))
      ensures table == if updated then Put(old(table), ipv4, Some(Known(now, mac))) else old(table)
    {
      updated := ipv4 in table;
      if updated {
        table := table[ipv4 := Known(now, mac)];
      }
    }

    method Request(target: Ipv4, source: Ipv4, now: nat, later: nat) returns (state: ArpState)
      modifies this
      ensures var (entry, answer) := Answer(At(old(table), target), source, now, later);
              table == Put(old(table), target, entry) && state == answer
    {
      if target !in table {
        table := table[target := Pending(now, 0, source)];
        return PendingRetry(source);
      }
      match table[target]
      case Pending(since, retryCount, stored) =>
        if Elapsed(now, since) > REQUEST_TIMEOUT {
          if retryCount >= MAX_RETRY {
            table := table[target := TimedOut(later)];
            state := Timeout;
          } else {
            state := PendingRetry(stored);
          }
        } else {
          state := PendingWait(since + REQUEST_TIMEOUT);
        }
      case TimedOut(since) =>
        if Elapsed(now, since) > LIFETIME_SEC * SECOND {
          table := table - {target};
          state := Restart;
        } else {
          state := Timeout;
        }
      case Known(lastSeen, mac) =>
        var age := Elapsed(now, lastSeen) / SECOND;
        if age >= STALE_SEC {
          table := table - {target};
          state := Restart;
        } else if LIFETIME_SEC <= age {
          state := ResolvedStale(mac);
        } else {
          state := Resolved(mac);
        }
    }

    method CanSendRequest(target: Ipv4, source: Ipv4, now: nat) returns (can: bool)
      modifies this
      ensures table == Put(old(table), target, Some(Sending(At(old(table), target), source, now)))
      ensures can == table[target].Pending?
    {
      if target in table {
        if table[target].Pending? {
          var entry := table[target];
          table := table[target := Pending(now, (entry.retryCount + 1) % 0x100, entry.source)];
        }
      } else {
        table := table[target := Pending(now, 0, source)];
      }
      can := table[target].Pending?;
    }

    /** The pending targets with their sources, each once, in no particular order. */
    method PendingTargets() returns (pending: seq<(Ipv4, Ipv4)>)
      ensures forall p :: p in pending ==> p.0 in table && table[p.0].Pending? && table[p.0].source == p.1
      ensures forall t :: t in table && table[t].Pending? ==> (t, table[t].source) in pending
      ensures forall i, j :: 0 <= i < j < |pending| ==> pending[i].0 != pending[j].0
    {
      var left := table.Keys;
      pending := [];
      while left != {}
        invariant left <= table.Keys
        invariant forall p :: p in pending ==>
                    p.0 in table && p.0 !in left && table[p.0].Pending? && table[p.0].source == p.1
        invariant forall t :: t in table && t !in left && table[t].Pending? ==> (t, table[t].source) in pending
        invariant forall i, j :: 0 <= i < j < |pending| ==> pending[i].0 != pending[j].0
        decreases |left|
      {
        var t :| t in left;
        left := left - {t};
        if table[t].Pending? {
          assert forall i :: 0 <= i < |pending| ==> pending[i] in pending;
          pending := pending + [(t, table[t].source)];
        }
      }
    }
  }

  // ----- A resolution episode: from the creation of a pending entry to its end -----

  /** Operations on one target, each with the clock readings it makes. */
  datatype Op =
    | Ask(source: Ipv4, asked: nat, sent: nat)  // request, then can_send_request if told to
    | Learn(mac: Mac, learned: nat)             // an ARP message of the target arrives
    | Add(source: Ipv4, added: nat)             // address-add: can_send_request alone

  /** `requests` holds the times at which requests for the target were emitted. */
  datatype Episode = Episode(start: nat, byRequest: bool, requests: seq<nat>)

  /** One target's entry, its episode if one has begun, and all requests ever emitted
      for it. */
  datatype Track = Track(entry: Option<Entry>, episode: Option<Episode>, emitted: seq<nat>, clock: nat)

  function Emit(t: Track, source: Ipv4, byRequest: bool, now: nat): Track
  {
    var entry := Sending(t.entry, source, now);
    var begins := t.entry.None? || t.episode.None?;
    Track(Some(entry),
          if !entry.Pending? then t.episode
          else if begins then Some(Episode(now, byRequest, [now]))
          else Some(t.episode.value.(requests := t.episode.value.requests + [now])),
          if entry.Pending? then t.emitted + [now] else t.emitted,
          now)
  }

  function Apply(t: Track, op: Op): Track
  {
    match op
    case Ask(source, asked, sent) =>
      var (entry, state) := Answer(t.entry, source, asked, sent);
      var t1 := Track(entry, if t.entry.None? then Some(Episode(asked, true, []))
                             else if entry.None? then None else t.episode, t.emitted, asked);
      if Asks(state) then Emit(t1, source, false, sent) else t1
    case Learn(mac, learned) => Track(Some(Known(learned, mac)), None, t.emitted, learned)
    case Add(source, added) => Emit(t, source, false, added)
  }

  /** Clock readings never go back, and no address-add falls inside an episode. */
  ghost predicate Admissible(t: Track, op: Op)
  {
    match op
    case Ask(_, asked, sent) => t.clock <= asked <= sent
    case Learn(_, learned) => t.clock <= learned
    case Add(_, added) => t.clock <= added && (t.entry.Some? ==> !t.entry.value.Pending?)
  }

  ghost predicate AllAdmissible(t: Track, ops: seq<Op>)
    decreases |ops|
  {
    ops == [] || (Admissible(t, ops[0]) && AllAdmissible(Apply(t, ops[0]), ops[1..]))
  }

  function Run(t: Track, ops: seq<Op>): Track
    decreases |ops|
  {
    if ops == [] then t else Run(Apply(t, ops[0]), ops[1..])
  }

  ghost predicate Spaced(requests: seq<nat>)
  {
    forall i :: 1 <= i < |requests| ==> requests[i] > requests[i - 1] + REQUEST_TIMEOUT
  }

  /** At most 5 requests, 6 when can_send_request created the entry. */
  function Limit(e: Episode): nat
  {
    if e.byRequest then MAX_RETRY else MAX_RETRY + 1
  }

  ghost predicate EpisodeInv(t: Track)
  {
    && (t.episode.Some? ==>
          var e := t.episode.value;
          && e.requests != [] && e.start <= e.requests[0] && |e.requests| <= Limit(e)
          && Spaced(e.requests) && e.requests[|e.requests| - 1] <= t.clock)
    && match t.entry
       case Some(Pending(since, retryCount, _)) =>
         && t.episode.Some?
         && retryCount <= MAX_RETRY
         && retryCount == |t.episode.value.requests| + MAX_RETRY - Limit(t.episode.value)
         && since == t.episode.value.requests[|t.episode.value.requests| - 1]
       case Some(TimedOut(since)) =>
         && t.episode.Some?
         && |t.episode.value.requests| == Limit(t.episode.value)
         && since > t.episode.value.start + 500 * MILLISECOND
       case Some(Known(_, _)) => t.episode.None?
       case None => t.episode.None?
  }

  /** The episode's requests are the last ones emitted. */
  ghost predicate EmittedLast(t: Track)
  {
    t.episode.Some? ==>
      var r := t.episode.value.requests;
      |r| <= |t.emitted| && t.emitted[|t.emitted| - |r|..] == r
  }

  lemma EmitLast(t: Track, source: Ipv4, byRequest: bool, now: nat)
    requires EmittedLast(t)
    ensures EmittedLast(Emit(t, source, byRequest, now))
  {
    if t.episode.Some? {
      var r := t.episode.value.requests;
      assert (t.emitted + [now])[|t.emitted| - |r|..] == t.emitted[|t.emitted| - |r|..] + [now];
    }
    assert (t.emitted + [now])[|t.emitted|..] == [now];
  }

  lemma EmittedStep(t: Track, op: Op)
    requires EmittedLast(t)
    ensures EmittedLast(Apply(t, op))
  {
    match op
    case Ask(source, asked, sent) =>
      var (entry, state) := Answer(t.entry, source, asked, sent);
      var t1 := Track(entry, if t.entry.None? then Some(Episode(asked, true, []))
                             else if entry.None? then None else t.episode, t.emitted, asked);
      if Asks(state) { EmitLast(t1, source, false, sent); }
    case Learn(_, _) =>
    case Add(source, added) => EmitLast(t, source, false, added);
  }

  lemma FiveSpaced(r: seq<nat>)
    requires |r| >= 5 && Spaced(r)
    ensures r[4] > r[0] + 4 * REQUEST_TIMEOUT
  {
    assert r[4] > r[4 - 1] + REQUEST_TIMEOUT && r[3] > r[3 - 1] + REQUEST_TIMEOUT;
    assert r[2] > r[2 - 1] + REQUEST_TIMEOUT && r[1] > r[1 - 1] + REQUEST_TIMEOUT;
  }

  lemma SpacedSnoc(r: seq<nat>, sent: nat)
    requires r != [] && Spaced(r)
    ensures Spaced(r + [sent]) <==> sent > r[|r| - 1] + REQUEST_TIMEOUT
  {
    var after := r + [sent];
    assert after[|r|] == sent && after[|r| - 1] == r[|r| - 1];
  }

  lemma EpisodeTimesOut(t: Track, source: Ipv4, asked: nat, sent: nat)
    requires EpisodeInv(t) && t.entry.Some? && t.entry.value.Pending? && t.clock <= asked <= sent
    requires Answer(t.entry, source, asked, sent).1.Timeout?
    ensures EpisodeInv(Apply(t, Ask(source, asked, sent)))
  {
    var requests := t.episode.value.requests;
    FiveSpaced(requests);
    if |requests| == 6 { assert requests[5] > requests[5 - 1] + REQUEST_TIMEOUT; }
  }

  lemma EpisodeRetries(t: Track, source: Ipv4, asked: nat, sent: nat)
    requires EpisodeInv(t) && t.entry.Some? && t.entry.value.Pending? && t.clock <= asked <= sent
    requires Answer(t.entry, source, asked, sent).1.PendingRetry?
    ensures EpisodeInv(Apply(t, Ask(source, asked, sent)))
  {
    SpacedSnoc(t.episode.value.requests, sent);
  }

  lemma EpisodeAsk(t: Track, source: Ipv4, asked: nat, sent: nat)
    requires EpisodeInv(t) && t.entry.Some? && t.entry.value.Pending? && t.clock <= asked <= sent
    ensures EpisodeInv(Apply(t, Ask(source, asked, sent)))
  {
    match Answer(t.entry, source, asked, sent).1
    case Timeout => EpisodeTimesOut(t, source, asked, sent);
    case PendingRetry(_) => EpisodeRetries(t, source, asked, sent);
    case _ =>
  }

  /** Asking for a target that is not pending. */
  lemma EpisodeBegins(t: Track, source: Ipv4, asked: nat, sent: nat)
    requires EpisodeInv(t) && !(t.entry.Some? && t.entry.value.Pending?) && t.clock <= asked <= sent
    ensures EpisodeInv(Apply(t, Ask(source, asked, sent)))
  {
  }

  lemma EpisodeAdd(t: Track, source: Ipv4, added: nat)
    requires EpisodeInv(t) && !(t.entry.Some? && t.entry.value.Pending?) && t.clock <= added
    ensures EpisodeInv(Apply(t, Add(source, added)))
  {
  }

  lemma EpisodeStep(t: Track, op: Op)
    requires EpisodeInv(t) && Admissible(t, op)
    ensures EpisodeInv(Apply(t, op))
  {
    match op
    case Ask(source, asked, sent) =>
      if t.entry.Some? && t.entry.value.Pending? { EpisodeAsk(t, source, asked, sent); }
      else { EpisodeBegins(t, source, asked, sent); }
    case Learn(_, _) =>
    case Add(source, added) => EpisodeAdd(t, source, added);
  }

  /** Over every admissible history of a target: the retry count stays within 5,
      at most 5 requests (6 when can_send_request created the entry) are emitted in
      an episode, successive ones more than 100 ms apart, and a timeout is declared
      only after all of them and more than 500 ms after the episode's start. */
  lemma {:induction false} EveryEpisode(t: Track, ops: seq<Op>)
    requires EpisodeInv(t) && EmittedLast(t) && AllAdmissible(t, ops)
    ensures EpisodeInv(Run(t, ops)) && EmittedLast(Run(t, ops))
    decreases |ops|
  {
    if ops != [] {
      EpisodeStep(t, ops[0]);
      EmittedStep(t, ops[0]);
      EveryEpisode(Apply(t, ops[0]), ops[1..]);
    }
  }

  /** An address-add inside an episode counts as a retry, whenever it comes: it
      respects the bounds exactly when the entry has a retry left and the last request
      is more than 100 ms old. */
  lemma AddInsideEpisodeExactly(t: Track, source: Ipv4, added: nat)
    requires EpisodeInv(t) && t.entry.Some? && t.entry.value.Pending? && t.clock <= added
    ensures EpisodeInv(Apply(t, Add(source, added)))
       <==> t.entry.value.retryCount < MAX_RETRY && added > t.entry.value.since + REQUEST_TIMEOUT
  {
    SpacedSnoc(t.episode.value.requests, added);
  }

  /** Asking once every 101 ms. */
  function Retrying(n: nat): seq<Op>
  {
    if n == 0 then [] else Retrying(n - 1) + [Ask(0, (n - 1) * 101 * MILLISECOND, (n - 1) * 101 * MILLISECOND)]
  }

  lemma {:induction false} RunSnoc(t: Track, ops: seq<Op>, op: Op)
    ensures Run(t, ops + [op]) == Apply(Run(t, ops), op)
    decreases |ops|
  {
    if ops == [] {
      assert [op][1..] == [];
      assert Run(t, [op]) == Run(Apply(t, op), []);
    } else {
      assert (ops + [op])[1..] == ops[1..] + [op];
      RunSnoc(Apply(t, ops[0]), ops[1..], op);
    }
  }

  const UNKNOWN := Track(None, None, [], 0)

  lemma RetryOnce(t: Track, since: nat, n: Byte, now: nat)
    requires t.entry == Some(Pending(since, n, 0)) && n < MAX_RETRY && now > since + REQUEST_TIMEOUT
    ensures Apply(t, Ask(0, now, now)).entry == Some(Pending(now, n + 1, 0))
  {
  }

  lemma {:induction false} AfterRetries(n: nat)
    requires 1 <= n <= 5
    ensures Run(UNKNOWN, Retrying(n)).entry == Some(Pending((n - 1) * 101 * MILLISECOND, n, 0))
  {
    var at := (n - 1) * 101 * MILLISECOND;
    RunSnoc(UNKNOWN, Retrying(n - 1), Ask(0, at, at));
    if n == 1 {
      assert Run(UNKNOWN, Retrying(0)) == UNKNOWN;
    } else {
      AfterRetries(n - 1);
      RetryOnce(Run(UNKNOWN, Retrying(n - 1)), (n - 2) * 101 * MILLISECOND, n - 1, at);
    }
  }

  lemma AddOnce(t: Track, since: nat, n: Byte, added: nat)
    requires t.entry == Some(Pending(since, n, 0)) && n < 0xFF
    ensures Apply(t, Add(0, added)).entry == Some(Pending(added, n + 1, 0))
  {
  }

  /** Such a run: five requests, then an address-add, and the retry count passes 5. */
  lemma AddressAddDefeatsBound()
    ensures Run(UNKNOWN, Retrying(5) + [Add(0, 404 * MILLISECOND)]).entry == Some(Pending(404 * MILLISECOND, 6, 0))
  {
    AfterRetries(5);
    RunSnoc(UNKNOWN, Retrying(5), Add(0, 404 * MILLISECOND));
    AddOnce(Run(UNKNOWN, Retrying(5)), 404 * MILLISECOND, 5, 404 * MILLISECOND);
  }
}
