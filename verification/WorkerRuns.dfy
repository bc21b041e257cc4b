/** What the address probe decides, in terms of the address's own ARP entry, and what
    that means over a run of the interface worker. */
module WorkerRuns {
  import opened Common
  import opened Words
  import opened Arp
  import opened Ethernet
  import EthernetRuns
  import opened Addresses
  import opened Routes
  import opened Worker
  import opened EthernetInPlace
  import opened ArpFrames

  // ----- One claim -----

  /** The claim leaves the queue with an answer, or stays and nothing is answered. */
  ghost predicate Leaves(g: Progress, g': Progress, answer: Option<Answer>)
    requires g.rest != []
  {
    var n := |g.rest| - 1;
    && g'.rest == g.rest[..n] && g'.turn == g.turn + 1
    && match answer
       case Some(a) => g'.tail == g.tail && g'.replies == g.replies + [Reply(g.rest[n].reply, a)]
       case None => g'.tail == [g.rest[n]] + g.tail && g'.replies == g.replies
  }

  /** The claim's address is assigned, with the route to its subnet. */
  ghost predicate Assigns(g: Progress, g': Progress, c: Claim)
  {
    MaskedInRange(c.address, c.mask);
    var network := And(c.address, c.mask);
    && g'.local == g.local + [Assign(c.address, c.mask)]
    && g'.entries == g.entries[(network, c.mask) := Route(network, c.mask, c.address, None)]
  }

  lemma AgeIs(now: nat, since: nat, seconds: nat)
    ensures Elapsed(now, since) / SECOND >= seconds <==> Elapsed(now, since) >= seconds * SECOND
  {
    WholeSeconds(Elapsed(now, since), seconds);
  }

  /** A request is due for the address, and the ring has no room for it. */
  predicate Unasked(room: Schedule, s: State, entry: Option<Entry>, asked: nat)
  {
    Due(entry, asked) && !room(|s.attempted|)
  }

  /** What one probe decides. */
  lemma ProbeDecides(room: Schedule, s: State, c: Claim, asked: nat, sent: nat)
    ensures var entry, verdict := At(s.arp, c.address), ProbeClaim(room, s, c, asked, sent).1;
            verdict == if Free(entry, asked) then Some(Done)
                       else if Taken(entry, asked) then Some(InUse)
                       else if Unasked(room, s, entry, asked) then Some(CheckFailed(BufferFull))
                       else None
  {
    if c.address in s.arp && s.arp[c.address].Known? {
      AgeIs(asked, s.arp[c.address].lastSeen, 30);
      AgeIs(asked, s.arp[c.address].lastSeen, 60);
    }
  }

  /** And what it sends. */
  lemma ProbePushes(room: Schedule, s: State, c: Claim, asked: nat, sent: nat)
    ensures var entry, s' := At(s.arp, c.address), ProbeClaim(room, s, c, asked, sent).0;
            s'.attempted == s.attempted
              + if Free(entry, asked) then [GratuitousArp(c.address)]
                else if Due(entry, asked) then [ArpRequest(c.address, UNSPECIFIED)]
                else []
  {
    if c.address in s.arp && s.arp[c.address].Known? { AgeIs(asked, s.arp[c.address].lastSeen, 60); }
  }

  /** A turn of the probe pass assigns the claim's address, with its route, the answer
      Done and an announcement, exactly when nobody answered for it; it answers InUse
      exactly when another host is known to hold it; CheckFailed exactly when a request
      is due and the ring has no room for it; and keeps the claim otherwise. */
  lemma TurnClaims(room: Schedule, clock: Clock, g: Progress)
    requires g.rest != []
    ensures var c, asked := g.rest[|g.rest| - 1], clock(2 * g.turn);
            var entry, g' := At(g.state.arp, c.address), Turn(Probing(room, clock), g);
            if Free(entry, asked) then
              && Leaves(g, g', Some(Done)) && Assigns(g, g', c)
              && g'.state.attempted == g.state.attempted + [GratuitousArp(c.address)]
            else
              && g'.local == g.local && g'.entries == g.entries
              && Leaves(g, g', if Taken(entry, asked) then Some(InUse)
                               else if Unasked(room, g.state, entry, asked) then Some(CheckFailed(BufferFull))
                               else None)
              && g'.state.attempted == g.state.attempted
                 + if Due(entry, asked) then [ArpRequest(c.address, UNSPECIFIED)] else []
  {
    var c, asked := g.rest[|g.rest| - 1], clock(2 * g.turn);
    var r := ProbeClaim(room, g.state, c, asked, clock(2 * g.turn + 1));
    assert Turn(Probing(room, clock), g) == Settle(r.0, r.1, g);
    ProbeDecides(room, g.state, c, asked, clock(2 * g.turn + 1));
    ProbePushes(room, g.state, c, asked, clock(2 * g.turn + 1));
    SettleLeaves(r.0, r.1, g);
  }

  lemma SettleLeaves(s1: State, verdict: Option<Answer>, g: Progress)
    requires g.rest != []
    ensures var g' := Settle(s1, verdict, g);
            && g'.state == s1 && Leaves(g, g', verdict)
            && (verdict == Some(Done) ==> Assigns(g, g', g.rest[|g.rest| - 1]))
            && (verdict != Some(Done) ==> g'.local == g.local && g'.entries == g.entries)
  {
  }

  // ----- A whole pass -----

  ghost predicate Distinct(claims: seq<Claim>)
  {
    forall i, j :: 0 <= i < j < |claims| ==> claims[i].address != claims[j].address
  }

  /** Probing an address leaves the entries of all others alone. */
  ghost predicate SparesOthers(probe: Prober)
  {
    forall s, c: Claim, turn: nat, a: Ipv4 :: a != c.address ==> At(probe(s, c, turn).0.arp, a) == At(s.arp, a)
  }

  /** The claim left the pass as its turn decided. */
  ghost predicate Decided(p: Pass, c: Claim, verdict: Option<Answer>)
  {
    && (c in p.claimed <==> verdict == Some(Done))
    && (c in p.kept <==> verdict == None)
    && (verdict.Some? ==> Reply(c.reply, verdict.value) in p.replies)
  }

  lemma {:induction false} PassAmong(probe: Prober, s: State, claims: seq<Claim>, turn: nat)
    ensures var p := ProbePass(probe, s, claims, turn);
            (forall c :: c in p.kept ==> c in claims) && forall c :: c in p.claimed ==> c in claims
    decreases |claims|
  {
    if claims != [] {
      var n := |claims| - 1;
      var s1, verdict := probe(s, claims[n], turn).0, probe(s, claims[n], turn).1;
      PassAmong(probe, s1, claims[..n], turn + 1);
      AfterAmong(verdict, claims[n], ProbePass(probe, s1, claims[..n], turn + 1));
      assert claims == claims[..n] + [claims[n]];
    }
  }

  lemma AfterAmong(verdict: Option<Answer>, c: Claim, rest: Pass)
    ensures var p := After(verdict, c, rest);
            && (forall d :: d in p.kept <==> d in rest.kept || (verdict == None && d == c))
            && (forall d :: d in p.claimed <==> d in rest.claimed || (verdict == Some(Done) && d == c))
            && (forall r :: r in rest.replies ==> r in p.replies)
            && (verdict.Some? ==> Reply(c.reply, verdict.value) in p.replies)
  {
    assert verdict.Some? ==> After(verdict, c, rest).replies[0] == Reply(c.reply, verdict.value);
  }

  lemma DecidedNow(verdict: Option<Answer>, c: Claim, rest: Pass)
    requires c !in rest.claimed && c !in rest.kept
    ensures Decided(After(verdict, c, rest), c, verdict)
  {
    AfterAmong(verdict, c, rest);
  }

  lemma DecidedLater(verdict: Option<Answer>, c: Claim, rest: Pass, d: Claim, v: Option<Answer>)
    requires d != c && Decided(rest, d, v)
    ensures Decided(After(verdict, c, rest), d, v)
  {
    AfterAmong(verdict, c, rest);
  }

  lemma LastIsNew(claims: seq<Claim>, i: nat)
    requires Distinct(claims) && i < |claims| - 1
    ensures Distinct(claims[..|claims| - 1]) && claims[i].address != claims[|claims| - 1].address
    ensures claims[|claims| - 1] !in claims[..|claims| - 1]
  {
  }

  lemma PassIs(probe: Prober, s: State, rest: seq<Claim>, c: Claim, turn: nat)
    ensures var (s1, verdict) := probe(s, c, turn);
            ProbePass(probe, s, rest + [c], turn) == After(verdict, c, ProbePass(probe, s1, rest, turn + 1))
  {
    assert (rest + [c])[..|rest|] == rest;
  }

  lemma LastDecides(probe: Prober, s: State, rest: seq<Claim>, c: Claim, turn: nat)
    requires c !in rest
    ensures Decided(ProbePass(probe, s, rest + [c], turn), c, probe(s, c, turn).1)
  {
    var s1, verdict := probe(s, c, turn).0, probe(s, c, turn).1;
    PassIs(probe, s, rest, c, turn);
    PassAmong(probe, s1, rest, turn + 1);
    DecidedNow(verdict, c, ProbePass(probe, s1, rest, turn + 1));
  }

  lemma EarlierDecides(probe: Prober, s: State, rest: seq<Claim>, c: Claim, turn: nat, d: Claim, v: Option<Answer>)
    requires d != c && Decided(ProbePass(probe, probe(s, c, turn).0, rest, turn + 1), d, v)
    ensures Decided(ProbePass(probe, s, rest + [c], turn), d, v)
  {
    PassIs(probe, s, rest, c, turn);
    DecidedLater(probe(s, c, turn).1, c, ProbePass(probe, probe(s, c, turn).0, rest, turn + 1), d, v);
  }

  /** The state in which a pass comes to a claim. */
  function StateAt(probe: Prober, s: State, claims: seq<Claim>, turn: nat, i: nat): State
    requires i < |claims|
    decreases |claims|
  {
    var n := |claims| - 1;
    if i == n then s else StateAt(probe, probe(s, claims[n], turn).0, claims[..n], turn + 1, i)
  }

  lemma {:induction false} EntryAt(probe: Prober, s: State, claims: seq<Claim>, turn: nat, i: nat)
    requires SparesOthers(probe) && Distinct(claims) && i < |claims|
    ensures At(StateAt(probe, s, claims, turn, i).arp, claims[i].address) == At(s.arp, claims[i].address)
    decreases |claims|
  {
    var n := |claims| - 1;
    if i < n {
      var s1 := probe(s, claims[n], turn).0;
      LastIsNew(claims, i);
      assert At(s1.arp, claims[i].address) == At(s.arp, claims[i].address);
      EntryAt(probe, s1, claims[..n], turn + 1, i);
    }
  }

  lemma {:induction false} PassDecides(probe: Prober, s: State, claims: seq<Claim>, turn: nat, i: nat,
                                       v: Option<Answer>)
    requires Distinct(claims) && i < |claims|
    requires v == probe(StateAt(probe, s, claims, turn, i), claims[i], turn + |claims| - 1 - i).1
    ensures Decided(ProbePass(probe, s, claims, turn), claims[i], v)
    decreases |claims|
  {
    var n := |claims| - 1;
    assert claims == claims[..n] + [claims[n]];
    if i == n {
      if n > 0 { LastIsNew(claims, 0); }
      LastDecides(probe, s, claims[..n], claims[n], turn);
    } else {
      LastIsNew(claims, i);
      PassDecides(probe, probe(s, claims[n], turn).0, claims[..n], turn + 1, i, v);
      EarlierDecides(probe, s, claims[..n], claims[n], turn, claims[i], v);
    }
  }

  lemma ProbingSpares(room: Schedule, clock: Clock)
    ensures SparesOthers(Probing(room, clock))
  {
    forall s, c: Claim, turn: nat, a: Ipv4 | a != c.address
      ensures At(Probing(room, clock)(s, c, turn).0.arp, a) == At(s.arp, a)
    {
      ProbeSpares(room, s, c, clock(2 * turn), clock(2 * turn + 1), a);
    }
  }

  lemma ProbeSpares(room: Schedule, s: State, c: Claim, asked: nat, sent: nat, a: Ipv4)
    requires a != c.address
    ensures At(ProbeClaim(room, s, c, asked, sent).0.arp, a) == At(s.arp, a)
  {
  }

  /** The verdict on a claim, but for the room left for a request. */
  predicate Judged(entry: Option<Entry>, asked: nat, verdict: Option<Answer>)
  {
    if Free(entry, asked) then verdict == Some(Done)
    else if Taken(entry, asked) then verdict == Some(InUse)
    else verdict == None || (Due(entry, asked) && verdict == Some(CheckFailed(BufferFull)))
  }

  ghost predicate Judges(probe: Prober, clock: Clock)
  {
    forall s: State, c: Claim, turn: nat :: Judged(At(s.arp, c.address), clock(2 * turn), probe(s, c, turn).1)
  }

  lemma ProbingJudges(room: Schedule, clock: Clock)
    ensures Judges(Probing(room, clock), clock)
  {
    forall s: State, c: Claim, turn: nat
      ensures Judged(At(s.arp, c.address), clock(2 * turn), Probing(room, clock)(s, c, turn).1)
    {
      ProbeDecides(room, s, c, clock(2 * turn), clock(2 * turn + 1));
    }
  }

  /** What becomes of a claim, by its address's entry. */
  ghost predicate Settles(p: Pass, c: Claim, entry: Option<Entry>, asked: nat)
  {
    && (c in p.claimed <==> Free(entry, asked))
    && (Free(entry, asked) ==> Reply(c.reply, Done) in p.replies)
    && (Taken(entry, asked) ==> c !in p.kept && Reply(c.reply, InUse) in p.replies)
    && (!Free(entry, asked) && !Taken(entry, asked) ==>
          c in p.kept || (Due(entry, asked) && Reply(c.reply, CheckFailed(BufferFull)) in p.replies))
  }

  lemma PassJudges(probe: Prober, clock: Clock, s: State, claims: seq<Claim>, i: nat) returns (v: Option<Answer>)
    requires SparesOthers(probe) && Judges(probe, clock) && Distinct(claims) && i < |claims|
    ensures Decided(ProbePass(probe, s, claims, 0), claims[i], v)
    ensures Judged(At(s.arp, claims[i].address), clock(2 * (|claims| - 1 - i)), v)
  {
    var s' := StateAt(probe, s, claims, 0, i);
    v := probe(s', claims[i], |claims| - 1 - i).1;
    PassDecides(probe, s, claims, 0, i, v);
    EntryAt(probe, s, claims, 0, i);
  }

  lemma JudgedSettles(p: Pass, c: Claim, entry: Option<Entry>, asked: nat, verdict: Option<Answer>)
    requires Decided(p, c, verdict) && Judged(entry, asked, verdict)
    ensures Settles(p, c, entry, asked)
  {
  }

  /** Over a whole pass, for claims of different addresses: the probe of one does not
      touch the entry of another, so each claim is decided by the entry its address has
      at the start and the clock on its turn. It is assigned exactly when nobody answered
      for it, answered InUse when another host is known to hold it, and otherwise stays,
      unless a request was due for it. */
  lemma PassClaims(room: Schedule, clock: Clock, s: State, claims: seq<Claim>, i: nat)
    requires Distinct(claims) && i < |claims|
    ensures var asked := clock(2 * (|claims| - 1 - i));
            Settles(ProbePass(Probing(room, clock), s, claims, 0), claims[i], At(s.arp, claims[i].address), asked)
  {
    ProbingSpares(room, clock);
    ProbingJudges(room, clock);
    var v := PassJudges(Probing(room, clock), clock, s, claims, i);
    JudgedSettles(ProbePass(Probing(room, clock), s, claims, 0), claims[i], At(s.arp, claims[i].address),
                  clock(2 * (|claims| - 1 - i)), v);
  }

  // ----- The worker over a run -----

  datatype Control = Control(
    ether: State, pending: seq<Claim>, replies: seq<Reply>, local: seq<Assigned>, entries: map<Key, Route>)

  /** An Ethernet handler's turn, or one of the worker's own. */
  datatype Event =
    | Handle(event: EthernetRuns.Event)
    | AddressAdd(address: Ipv4, prefix: nat, reply: nat, now: nat)
    | AddressRemove(address: Ipv4)
    | Probe(clock: Clock)

  type Admitted = e: Event | e.AddressAdd? ==> e.prefix <= WIDTH witness AddressRemove(0)

  function Step(room: Schedule, w: Control, e: Admitted): Control
  {
    match e
    case Handle(event) => w.(ether := EthernetRuns.Step(room, w.ether, event))
    case AddressAdd(address, prefix, reply, now) =>
      var (s, r) := SendArpRequest(room, w.ether, address, UNSPECIFIED, now);
      if r.Ok? then w.(ether := s, pending := w.pending + [Claim(address, PrefixToMask(prefix), reply)])
      else w.(ether := s, replies := w.replies + [Reply(reply, CheckFailed(r.error))])
    case AddressRemove(address) =>
      w.(pending := WithoutClaims(w.pending, address),
         replies := w.replies + RemovedReplies(w.pending, address),
         local := Without(w.local, address),
         entries := map k | k in w.entries && w.entries[k].source != address :: w.entries[k])
    case Probe(clock) =>
      var p := ProbePass(Probing(room, clock), w.ether, w.pending, 0);
      Control(p.state, p.kept, w.replies + p.replies, w.local + AssignAll(p.claimed),
              WithClaimRoutes(w.entries, p.claimed))
  }

  function Run(room: Schedule, w: Control, events: seq<Admitted>): Control
    decreases |events|
  {
    if events == [] then w else Run(room, Step(room, w, events[0]), events[1..])
  }

  /** The clock readings of an event lie between the two times. */
  ghost predicate Within(e: Admitted, from: nat, until: nat)
  {
    match e
    case Handle(SendPacket(_, _, _, asked, _)) => from <= asked < until
    case Handle(ReceiveArp(_, _, now)) => from <= now < until
    case Handle(FireTimer(_, _, asked, _)) => from <= asked < until
    case Handle(ProbeAddress(_, asked, _)) => from <= asked < until
    case Probe(clock) => forall n :: from <= clock(n) < until
    case _ => true
  }

  ghost predicate AllWithin(events: seq<Admitted>, since: nat)
  {
    forall i :: 0 <= i < |events| ==> Within(events[i], since, since + 60 * SECOND)
  }

  /** The address was last heard of no earlier than that. */
  predicate Heard(s: State, address: Ipv4, since: nat)
  {
    address in s.arp && s.arp[address].Known? && s.arp[address].lastSeen >= since
  }

  lemma OpKeepsHeard(t: Track, op: Op, since: nat)
    requires t.entry.Some? && t.entry.value.Known? && t.entry.value.lastSeen >= since
    requires op.Ask? ==> op.asked < since + 60 * SECOND
    requires op.Learn? ==> op.learned >= since
    ensures var e := Arp.Apply(t, op).entry; e.Some? && e.value.Known? && e.value.lastSeen >= since
  {
    if op.Ask? { AgeIs(op.asked, t.entry.value.lastSeen, 60); }
  }

  lemma HandlerKeepsHeard(room: Schedule, s: State, e: EthernetRuns.Event, address: Ipv4, since: nat)
    requires Heard(s, address, since) && Within(Handle(e), since, since + 60 * SECOND)
    ensures Heard(EthernetRuns.Step(room, s, e), address, since)
  {
    var t := Track(At(s.arp, address), None, EthernetRuns.RequestTimes(s.requests, address), 0);
    EthernetRuns.StepFollows(room, s, e, address, t);
    var ops := EthernetRuns.Ops(s, e, address);
    if ops != [] { OpKeepsHeard(t, ops[0], since); }
  }

  /** What every probe keeps, and every claim it grants meets, holds of the pass. */
  lemma {:induction false} PassKeeps(probe: Prober, keep: State -> bool, may: Claim -> bool, s: State,
                                     claims: seq<Claim>, turn: nat)
    requires keep(s)
    requires forall s, c: Claim, turn: nat :: keep(s) ==> keep(probe(s, c, turn).0)
    requires forall s, c: Claim, turn: nat :: keep(s) ==> probe(s, c, turn).1 == Some(Done) ==> may(c)
    ensures var p := ProbePass(probe, s, claims, turn);
            keep(p.state) && forall c :: c in p.claimed ==> may(c)
    decreases |claims|
  {
    if claims != [] {
      PassKeeps(probe, keep, may, probe(s, claims[|claims| - 1], turn).0, claims[..|claims| - 1], turn + 1);
    }
  }

  lemma ProbeKeepsHeard(room: Schedule, s: State, c: Claim, asked: nat, sent: nat, address: Ipv4, since: nat)
    requires Heard(s, address, since) && since <= asked < since + 60 * SECOND
    ensures Heard(ProbeClaim(room, s, c, asked, sent).0, address, since)
    ensures ProbeClaim(room, s, c, asked, sent).1 == Some(Done) ==> c.address != address
  {
    ProbeDecides(room, s, c, asked, sent);
    HandlerKeepsHeard(room, s, EthernetRuns.ProbeAddress(c.address, asked, sent), address, since);
  }

  /** A pass within the minute keeps the address known, and does not claim it. */
  lemma PassKeepsHeard(room: Schedule, clock: Clock, s: State, claims: seq<Claim>, address: Ipv4, since: nat)
    requires Heard(s, address, since) && forall n :: since <= clock(n) < since + 60 * SECOND
    ensures var p := ProbePass(Probing(room, clock), s, claims, 0);
            Heard(p.state, address, since) && forall c :: c in p.claimed ==> c.address != address
  {
    forall s, c: Claim, turn: nat | Heard(s, address, since)
      ensures Heard(Probing(room, clock)(s, c, turn).0, address, since)
      ensures Probing(room, clock)(s, c, turn).1 == Some(Done) ==> c.address != address
    {
      ProbeKeepsHeard(room, s, c, clock(2 * turn), clock(2 * turn + 1), address, since);
    }
    PassKeeps(Probing(room, clock), s => Heard(s, address, since), (c: Claim) => c.address != address, s, claims, 0);
  }

  lemma {:induction false} AssignedCopies(claimed: seq<Claim>, address: Ipv4)
    requires forall c :: c in claimed ==> c.address != address
    ensures Copies(AssignAll(claimed), address) == 0
  {
    if claimed != [] { AssignedCopies(claimed[1..], address); }
  }

  lemma StepKeepsHeard(room: Schedule, w: Control, e: Admitted, address: Ipv4, since: nat)
    requires Heard(w.ether, address, since) && Within(e, since, since + 60 * SECOND)
    ensures Heard(Step(room, w, e).ether, address, since)
    ensures Copies(Step(room, w, e).local, address) <= Copies(w.local, address)
  {
    match e
    case Handle(event) => HandlerKeepsHeard(room, w.ether, event, address, since);
    case AddressAdd(_, _, _, _) =>
    case AddressRemove(removed) => RemovedExactly(w.local, removed, address);
    case Probe(clock) =>
      PassKeepsHeard(room, clock, w.ether, w.pending, address, since);
      var claimed := ProbePass(Probing(room, clock), w.ether, w.pending, 0).claimed;
      AssignedCopies(claimed, address);
      CopiesAppend(w.local, AssignAll(claimed), address);
  }

  /** For a minute after another host is heard to hold an address, whatever the worker
      is asked to do and whatever arrives, the address is not assigned. */
  lemma {:induction false} HeardNotAssigned(room: Schedule, w: Control, events: seq<Admitted>, address: Ipv4,
                                            since: nat)
    requires Heard(w.ether, address, since) && AllWithin(events, since)
    ensures Heard(Run(room, w, events).ether, address, since)
    ensures Copies(Run(room, w, events).local, address) <= Copies(w.local, address)
    decreases |events|
  {
    if events != [] {
      StepKeepsHeard(room, w, events[0], address, since);
      HeardNotAssigned(room, Step(room, w, events[0]), events[1..], address, since);
    }
  }

  // ----- An address under probe is listened for -----

  /** Every claim waiting has an entry, which an announcement of its address updates. */
  ghost predicate Listening(w: Control)
  {
    forall c :: c in w.pending ==> c.address in w.ether.arp
  }

  lemma HandlerKeepsEntry(room: Schedule, s: State, e: EthernetRuns.Event, address: Ipv4)
    requires address in s.arp
    ensures address in EthernetRuns.Step(room, s, e).arp
  {
    var t := Track(At(s.arp, address), None, EthernetRuns.RequestTimes(s.requests, address), 0);
    EthernetRuns.StepFollows(room, s, e, address, t);
  }

  lemma PassKeepsEntry(room: Schedule, clock: Clock, s: State, claims: seq<Claim>, address: Ipv4)
    requires address in s.arp
    ensures address in ProbePass(Probing(room, clock), s, claims, 0).state.arp
  {
    forall s: State, c: Claim, turn: nat | address in s.arp ensures address in Probing(room, clock)(s, c, turn).0.arp {
      HandlerKeepsEntry(room, s, EthernetRuns.ProbeAddress(c.address, clock(2 * turn), clock(2 * turn + 1)), address);
    }
    PassKeeps(Probing(room, clock), (s: State) => address in s.arp, _ => true, s, claims, 0);
  }

  lemma StepListens(room: Schedule, w: Control, e: Admitted)
    requires Listening(w)
    ensures Listening(Step(room, w, e))
  {
    match e
    case Handle(event) =>
      forall c | c in w.pending ensures c.address in EthernetRuns.Step(room, w.ether, event).arp {
        HandlerKeepsEntry(room, w.ether, event, c.address);
      }
    case AddressAdd(_, _, _, _) =>
    case AddressRemove(address) =>
      forall c: Claim ensures c in WithoutClaims(w.pending, address) ==> c in w.pending {
        RemovalExactly(w.pending, address, c);
      }
    case Probe(clock) =>
      PassAmong(Probing(room, clock), w.ether, w.pending, 0);
      forall c | c in w.pending
        ensures c.address in ProbePass(Probing(room, clock), w.ether, w.pending, 0).state.arp
      {
        PassKeepsEntry(room, clock, w.ether, w.pending, c.address);
      }
  }

  lemma {:induction false} ListensInRun(room: Schedule, w: Control, events: seq<Admitted>)
    requires Listening(w)
    ensures Listening(Run(room, w, events))
    decreases |events|
  {
    if events != [] {
      StepListens(room, w, events[0]);
      ListensInRun(room, Step(room, w, events[0]), events[1..]);
    }
  }

  /** An interface worker's state as the machine sees it. */
  ghost function View(w: InterfaceWorker): Control
    reads w, w.ethernet, w.ethernet.arp, w.addresses, w.routes
  {
    Control(w.ethernet.Value(), w.pending, w.replies, w.addresses.local, w.routes.entries)
  }

  /** The worker itself takes these steps. */
  method Perform(w: InterfaceWorker, e: Admitted)
    requires w.Valid() && !e.Handle?
    modifies w, w.ethernet, w.ethernet.arp, w.addresses, w.routes
    ensures w.Valid() && View(w) == Step(w.ethernet.room, old(View(w)), e)
  {
    match e
    case AddressAdd(address, prefix, reply, now) =>
      ghost var r := w.AddressAdd(address, prefix, reply, now);
    case AddressRemove(address) => w.AddressRemove(address);
    case Probe(clock) => w.ProbePending(clock);
  }

  function Fresh(): Control
  {
    Control(Ethernet.Init(), [], [], [], map[])
  }

  /** In every run: once any ARP message of another host arrives from the address a claim
      waits for, the address is not assigned for a minute. */
  lemma AnnouncedNotAssigned(room: Schedule, before: seq<Admitted>, c: Claim, m: ArpMessage, ours: bool, now: nat,
                             after: seq<Admitted>)
    requires c in Run(room, Fresh(), before).pending && m.source == c.address
    requires AllWithin(after, now)
    ensures var w := Run(room, Fresh(), before);
            var w1 := Step(room, w, Handle(EthernetRuns.ReceiveArp(m, ours, now)));
            Copies(Run(room, w1, after).local, c.address) <= Copies(w.local, c.address)
  {
    ListensInRun(room, Fresh(), before);
    var w := Run(room, Fresh(), before);
    RecvHears(room, w.ether, m, ours, now);
    HeardNotAssigned(room, Step(room, w, Handle(EthernetRuns.ReceiveArp(m, ours, now))), after, c.address, now);
  }

  lemma RecvHears(room: Schedule, s: State, m: ArpMessage, ours: bool, now: nat)
    requires m.source in s.arp || ours
    ensures Heard(RecvArp(room, s, m, ours, now), m.source, now)
  {
    var t := Track(At(s.arp, m.source), None, EthernetRuns.RequestTimes(s.requests, m.source), 0);
    EthernetRuns.StepFollows(room, s, EthernetRuns.ReceiveArp(m, ours, now), m.source, t);
  }

  // ----- An address claimed twice -----

  predicate Probed(s: State, address: Ipv4, since: nat, retries: Byte)
  {
    address in s.arp && s.arp[address] == Pending(since, retries, UNSPECIFIED)
  }

  /** Two claims of one address wait, and nobody has answered for it so far. */
  ghost predicate Doubled(w: Control, c: Claim, d: Claim, since: nat, retries: Byte)
  {
    && w.pending == [c, d] && d.address == c.address && w.local == []
    && Probed(w.ether, c.address, since, retries)
  }

  lemma OnceMore(room: Schedule, s: State, c: Claim, since: nat, retries: Byte, at: nat)
    requires Probed(s, c.address, since, retries) && (forall n :: room(n)) && at == since + 101 * MILLISECOND
    ensures var (s', verdict) := ProbeClaim(room, s, c, at, at);
            if retries < 5 then Probed(s', c.address, at, retries + 1) && verdict == None
            else At(s'.arp, c.address) == Some(TimedOut(at)) && verdict == Some(Done)
  {
  }

  lemma SecondTime(room: Schedule, s: State, c: Claim, retries: Byte, at: nat)
    requires Probed(s, c.address, at, retries) || At(s.arp, c.address) == Some(TimedOut(at))
    ensures var (s', verdict) := ProbeClaim(room, s, c, at, at);
            At(s'.arp, c.address) == At(s.arp, c.address)
            && verdict == if Probed(s, c.address, at, retries) then None else Some(Done)
  {
  }

  lemma PairPass(probe: Prober, s: State, c: Claim, d: Claim, s1: State, s2: State, v: Option<Answer>)
    requires probe(s, d, 0) == (s1, v) && probe(s1, c, 1) == (s2, v)
    ensures ProbePass(probe, s, [c, d], 0) == After(v, d, After(v, c, Pass(s2, [], [], [])))
  {
    assert [c, d] == [c] + [d] && [c] == [] + [c];
    PassIs(probe, s, [c], d, 0);
    PassIs(probe, s1, [], c, 1);
  }

  lemma PairAfter(s: State, c: Claim, d: Claim, v: Option<Answer>)
    ensures var p := After(v, d, After(v, c, Pass(s, [], [], [])));
            && p.state == s && (v == None ==> p.kept == [c, d] && AssignAll(p.claimed) == [])
            && (v == Some(Done) ==> AssignAll(p.claimed) == [Assign(d.address, d.mask), Assign(c.address, c.mask)])
  {
    if v == Some(Done) {
      assert AssignAll([c] + []) == [Assign(c.address, c.mask)] + AssignAll([]) by { assert ([c] + [])[1..] == []; }
      assert ([d] + ([c] + []))[1..] == [c] + [];
    }
  }

  /** A pass during which the clock stands still. */
  function ProbeAt(at: nat): Admitted
  {
    Probe(_ => at)
  }

  lemma DoubledPass(room: Schedule, w: Control, c: Claim, d: Claim, since: nat, retries: Byte)
    requires Doubled(w, c, d, since, retries) && (forall n :: room(n)) && retries <= 5
    ensures var at := since + 101 * MILLISECOND;
            var w' := Step(room, w, ProbeAt(at));
            if retries < 5 then Doubled(w', c, d, at, retries + 1)
            else w'.local == [Assign(d.address, d.mask), Assign(c.address, c.mask)]
  {
    var at := since + 101 * MILLISECOND;
    var (s1, v) := ProbeClaim(room, w.ether, d, at, at);
    var (s2, v2) := ProbeClaim(room, s1, c, at, at);
    OnceMore(room, w.ether, d, since, retries, at);
    SecondTime(room, s1, c, if retries < 5 then retries + 1 else 0, at);
    PairPass(Probing(room, _ => at), w.ether, c, d, s1, s2, v);
    PairAfter(s2, c, d, v);
  }

  /** Rounds of probes 101 ms apart. */
  function Rounds(since: nat, count: nat): seq<Admitted>
    decreases count
  {
    if count == 0 then []
    else [ProbeAt(since + 101 * MILLISECOND)] + Rounds(since + 101 * MILLISECOND, count - 1)
  }

  lemma RunCons(room: Schedule, w: Control, e: Admitted, rest: seq<Admitted>)
    ensures Run(room, w, [e] + rest) == Run(room, Step(room, w, e), rest)
  {
    assert ([e] + rest)[1..] == rest;
  }

  lemma RunNone(room: Schedule, w: Control, events: seq<Admitted>)
    requires events == []
    ensures Run(room, w, events) == w
  {
  }

  lemma RoundsCons(since: nat, count: nat)
    ensures Rounds(since, count + 1) == [ProbeAt(since + 101 * MILLISECOND)] + Rounds(since + 101 * MILLISECOND, count)
    ensures Rounds(since, 0) == []
  {
  }

  lemma {:induction false} DoubledRounds(room: Schedule, w: Control, c: Claim, d: Claim, since: nat, retries: Byte,
                                         rounds: seq<Admitted>)
    requires Doubled(w, c, d, since, retries) && (forall n :: room(n)) && retries <= 5
    requires rounds == Rounds(since, 6 - retries)
    ensures Run(room, w, rounds).local == [Assign(d.address, d.mask), Assign(c.address, c.mask)]
    decreases 5 - retries, 1
  {
    var at := since + 101 * MILLISECOND;
    RoundsCons(since, 5 - retries);
    RunCons(room, w, ProbeAt(at), Rounds(at, 5 - retries));
    DoubledPass(room, w, c, d, since, retries);
    DoubledRest(room, Step(room, w, ProbeAt(at)), c, d, at, retries, Rounds(at, 5 - retries));
  }

  lemma {:induction false} DoubledRest(room: Schedule, w: Control, c: Claim, d: Claim, since: nat, retries: Byte,
                                       rounds: seq<Admitted>)
    requires (forall n :: room(n)) && retries <= 5 && rounds == Rounds(since, 5 - retries)
    requires if retries < 5 then Doubled(w, c, d, since, retries + 1)
             else w.local == [Assign(d.address, d.mask), Assign(c.address, c.mask)]
    ensures Run(room, w, rounds).local == [Assign(d.address, d.mask), Assign(c.address, c.mask)]
    decreases 4 - retries, 2
  {
    if retries < 5 {
      DoubledRounds(room, w, c, d, since, retries + 1, rounds);
    } else {
      RoundsCons(since, 0);
      RunNone(room, w, rounds);
    }
  }

  function Added(room: Schedule, address: Ipv4): Control
  {
    Step(room, Step(room, Fresh(), AddressAdd(address, 24, 0, 0)), AddressAdd(address, 24, 1, 0))
  }

  lemma AddedIsDoubled(room: Schedule, address: Ipv4)
    requires forall n :: room(n)
    ensures var c, d := Claim(address, PrefixToMask(24), 0), Claim(address, PrefixToMask(24), 1);
            Doubled(Added(room, address), c, d, 0, 1)
  {
  }

  lemma TwoCopies(address: Ipv4, mask: Ipv4)
    ensures Copies([Assign(address, mask), Assign(address, mask)], address) == 2
  {
    var one := [Assign(address, mask)];
    assert Copies(one, address) == 1 by { assert one[1..] == []; }
    assert [Assign(address, mask), Assign(address, mask)] == one + one;
    CopiesAppend(one, one, address);
  }

  lemma RemovedOnce(room: Schedule, w: Control, address: Ipv4)
    requires Copies(w.local, address) == 2
    ensures Has(Step(room, w, AddressRemove(address)).local, address)
  {
    RemovedExactly(w.local, address, address);
  }

  lemma TwiceFrom(room: Schedule, w: Control, address: Ipv4, mask: Netmask, rounds: seq<Admitted>)
    requires Doubled(w, Claim(address, mask, 0), Claim(address, mask, 1), 0, 1)
    requires (forall n :: room(n)) && rounds == Rounds(0, 5)
    ensures Copies(Run(room, w, rounds).local, address) == 2
  {
    DoubledRounds(room, w, Claim(address, mask, 0), Claim(address, mask, 1), 0, 1, rounds);
    TwoCopies(address, mask);
  }

  /** An address added twice, which nobody holds, is assigned twice, after five rounds
      of probes; and one removal then leaves it assigned. */
  lemma AssignedTwice(room: Schedule, address: Ipv4, rounds: seq<Admitted>)
    requires (forall n :: room(n)) && rounds == Rounds(0, 5)
    ensures var w := Run(room, Added(room, address), rounds);
            Copies(w.local, address) == 2 && Has(Step(room, w, AddressRemove(address)).local, address)
  {
    AddedIsDoubled(room, address);
    TwiceFrom(room, Added(room, address), address, PrefixToMask(24), rounds);
    RemovedOnce(room, Run(room, Added(room, address), rounds), address);
  }
}
