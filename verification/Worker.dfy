/** The interface worker's control side (lib/src/runtime/interface/worker.rs) and
    the IPv4 send path that feeds the Ethernet handler (l3_ipv4.rs). */
module Worker {
  import opened Common
  import opened Words
  import opened Arp
  import opened Ethernet
  import opened EthernetInPlace
  import EthernetRuns
  import opened Addresses
  import opened Routes
  import H = Ipv4Header

  /** What prefix_to_mask returns. */
  type Netmask = m: Ipv4 | exists prefix: nat :: prefix <= WIDTH && m == PrefixToMask(prefix)
    witness PrefixToMask(0)

  /** An address-add waiting for its probe, with the sender its caller waits on. */
  datatype Claim = Claim(address: Ipv4, mask: Netmask, reply: nat)

  datatype Answer = Done | CheckFailed(error: SendError) | InUse | Removed

  datatype Reply = Reply(id: nat, answer: Answer)

  datatype RouteAnswer = RouteAdded | UnknownSource | NextHopUnreachable

  function ClaimIds(claims: seq<Claim>): multiset<nat>
  {
    if claims == [] then multiset{} else ClaimIds(claims[..|claims| - 1]) + multiset{claims[|claims| - 1].reply}
  }

  function ReplyIds(replies: seq<Reply>): multiset<nat>
  {
    if replies == [] then multiset{} else ReplyIds(replies[..|replies| - 1]) + multiset{replies[|replies| - 1].id}
  }

  lemma Regroup(a: multiset<nat>, b: multiset<nat>, c: multiset<nat>)
    ensures (a + b) + c == (a + c) + b
    ensures (a + b) + c == a + (b + c)
  {
  }

  lemma ClaimIdsSnoc(claims: seq<Claim>, c: Claim)
    ensures ClaimIds(claims + [c]) == ClaimIds(claims) + multiset{c.reply}
  {
    assert (claims + [c])[..|claims|] == claims;
  }

  lemma ReplyIdsSnoc(replies: seq<Reply>, r: Reply)
    ensures ReplyIds(replies + [r]) == ReplyIds(replies) + multiset{r.id}
  {
    assert (replies + [r])[..|replies|] == replies;
  }

  lemma {:induction false} ReplyIdsAppend(a: seq<Reply>, b: seq<Reply>)
    ensures ReplyIds(a + b) == ReplyIds(a) + ReplyIds(b)
    decreases |b|
  {
    if b == [] {
      assert a + b == a;
    } else {
      assert a + b == (a + b[..|b| - 1]) + [b[|b| - 1]];
      ReplyIdsSnoc(a + b[..|b| - 1], b[|b| - 1]);
      ReplyIdsAppend(a, b[..|b| - 1]);
    }
  }

  lemma ReplyIdsCons(r: Reply, rest: seq<Reply>)
    ensures ReplyIds([r] + rest) == multiset{r.id} + ReplyIds(rest)
  {
    ReplyIdsAppend([r], rest);
    assert [] + [r] == [r];
    ReplyIdsSnoc([], r);
  }

  /** The reply senders of the address-adds that wait or have been answered. */
  function Ids(pending: seq<Claim>, replies: seq<Reply>): multiset<nat>
  {
    ClaimIds(pending) + ReplyIds(replies)
  }

  lemma RepliedIds(pending: seq<Claim>, replies: seq<Reply>, r: Reply)
    ensures Ids(pending, replies + [r]) == Ids(pending, replies) + multiset{r.id}
  {
    ReplyIdsSnoc(replies, r);
    Regroup(ClaimIds(pending), ReplyIds(replies), multiset{r.id});
  }

  lemma ClaimedIds(pending: seq<Claim>, replies: seq<Reply>, c: Claim)
    ensures Ids(pending + [c], replies) == Ids(pending, replies) + multiset{c.reply}
  {
    ClaimIdsSnoc(pending, c);
    Regroup(ClaimIds(pending), ReplyIds(replies), multiset{c.reply});
  }

  /** Claims turned into replies leave the total unchanged. */
  lemma SettledIds(pending: seq<Claim>, kept: seq<Claim>, replies: seq<Reply>, more: seq<Reply>)
    requires ClaimIds(pending) == Ids(kept, more)
    ensures Ids(kept, replies + more) == Ids(pending, replies)
  {
    ReplyIdsAppend(replies, more);
    Regroup(ClaimIds(kept), ReplyIds(more), ReplyIds(replies));
    Regroup(ClaimIds(kept), ReplyIds(replies), ReplyIds(more));
  }

  // ----- The probe pass over the pending claims, last to first -----

  /** The answer a probe settles a claim with, if it settles it. */
  function Verdict(state: ArpState, r: SendResult): Option<Answer>
  {
    match state
    case Timeout => Some(Done)
    case Resolved(_) => Some(InUse)
    case PendingWait(_) => None
    case _ => if r.Err? then Some(CheckFailed(r.error)) else None
  }

  /** Probing one claim; an address found free is announced. */
  function ProbeClaim(room: Schedule, s: State, c: Claim, asked: nat, sent: nat): (State, Option<Answer>)
  {
    var (s1, state, r) := Probe(room, s, c.address, asked, sent);
    (Announced(room, s1, c, Verdict(state, r)), Verdict(state, r))
  }

  function Announced(room: Schedule, s: State, c: Claim, verdict: Option<Answer>): State
  {
    if verdict == Some(Done) then Send(room, s, GratuitousArp(c.address)).0 else s
  }

  /** What probing a claim on the n-th turn of the pass does. */
  type Prober = (State, Claim, nat) -> (State, Option<Answer>)

  function Probing(room: Schedule, clock: Clock): Prober
  {
    (s: State, c: Claim, turn: nat) => ProbeClaim(room, s, c, clock(2 * turn), clock(2 * turn + 1))
  }

  datatype Pass = Pass(state: State, kept: seq<Claim>, replies: seq<Reply>, claimed: seq<Claim>)

  function ProbePass(probe: Prober, s: State, claims: seq<Claim>, turn: nat): Pass
    decreases |claims|
  {
    if claims == [] then Pass(s, [], [], [])
    else
      var n := |claims| - 1;
      var (s1, verdict) := probe(s, claims[n], turn);
      After(verdict, claims[n], ProbePass(probe, s1, claims[..n], turn + 1))
  }

  function After(verdict: Option<Answer>, c: Claim, rest: Pass): Pass
  {
    Pass(rest.state,
         if verdict == None then rest.kept + [c] else rest.kept,
         if verdict.Some? then [Reply(c.reply, verdict.value)] + rest.replies else rest.replies,
         if verdict == Some(Done) then [c] + rest.claimed else rest.claimed)
  }

  lemma AfterSettles(verdict: Option<Answer>, c: Claim, rest: Pass)
    ensures var p := After(verdict, c, rest);
            ClaimIds(p.kept) + ReplyIds(p.replies) == ClaimIds(rest.kept) + ReplyIds(rest.replies) + multiset{c.reply}
  {
    ClaimIdsSnoc(rest.kept, c);
    if verdict.Some? { ReplyIdsCons(Reply(c.reply, verdict.value), rest.replies); }
  }

  /** Every claim is kept or answered, once. */
  lemma {:induction false} PassSettles(probe: Prober, s: State, claims: seq<Claim>, turn: nat)
    ensures var p := ProbePass(probe, s, claims, turn);
            ClaimIds(claims) == Ids(p.kept, p.replies)
    decreases |claims|
  {
    if claims != [] {
      var n := |claims| - 1;
      var (s1, verdict) := probe(s, claims[n], turn);
      PassSettles(probe, s1, claims[..n], turn + 1);
      AfterSettles(verdict, claims[n], ProbePass(probe, s1, claims[..n], turn + 1));
    }
  }

  // ----- Removing an address: its claims are answered, last to first -----

  function WithoutClaims(claims: seq<Claim>, address: Ipv4): seq<Claim>
  {
    if claims == [] then []
    else
      var c := claims[|claims| - 1];
      WithoutClaims(claims[..|claims| - 1], address) + (if c.address == address then [] else [c])
  }

  function RemovedReplies(claims: seq<Claim>, address: Ipv4): seq<Reply>
  {
    if claims == [] then []
    else
      var c := claims[|claims| - 1];
      (if c.address == address then [Reply(c.reply, Removed)] else []) + RemovedReplies(claims[..|claims| - 1], address)
  }

  lemma {:induction false} RemovalSettles(claims: seq<Claim>, address: Ipv4)
    ensures ClaimIds(claims) == Ids(WithoutClaims(claims, address), RemovedReplies(claims, address))
  {
    if claims != [] {
      var rest, c := claims[..|claims| - 1], claims[|claims| - 1];
      RemovalSettles(rest, address);
      RemovalStep(c, WithoutClaims(rest, address), RemovedReplies(rest, address), address);
    }
  }

  /** The claims of other addresses stay; each of this one is answered Removed. */
  lemma {:induction false} RemovalExactly(claims: seq<Claim>, address: Ipv4, c: Claim)
    ensures c in WithoutClaims(claims, address) <==> c in claims && c.address != address
    ensures c in claims && c.address == address ==> Reply(c.reply, Removed) in RemovedReplies(claims, address)
    ensures forall r :: r in RemovedReplies(claims, address) ==> r.answer == Removed
  {
    if claims != [] {
      var rest, last := claims[..|claims| - 1], claims[|claims| - 1];
      RemovalExactly(rest, address, c);
      assert claims == rest + [last];
    }
  }

  lemma RemovalStep(c: Claim, kept: seq<Claim>, removed: seq<Reply>, address: Ipv4)
    ensures ClaimIds(kept) + ReplyIds(removed) + multiset{c.reply}
         == ClaimIds(kept + if c.address == address then [] else [c])
          + ReplyIds((if c.address == address then [Reply(c.reply, Removed)] else []) + removed)
  {
    if c.address == address {
      assert kept + [] == kept;
      ReplyIdsCons(Reply(c.reply, Removed), removed);
      Regroup(ClaimIds(kept), multiset{c.reply}, ReplyIds(removed));
    } else {
      assert [] + removed == removed;
      ClaimIdsSnoc(kept, c);
      Regroup(ClaimIds(kept), multiset{c.reply}, ReplyIds(removed));
    }
  }

  lemma DropStep(claims: seq<Claim>, i: nat, address: Ipv4, tail: seq<Claim>, replies: seq<Reply>)
    requires i < |claims|
    ensures claims[..i + 1][..i] == claims[..i] && claims[..i + 1][i] == claims[i]
    ensures var c := claims[i];
            && WithoutClaims(claims[..i + 1], address) + tail
            == WithoutClaims(claims[..i], address) + (if c.address == address then tail else [c] + tail)
            && replies + RemovedReplies(claims[..i + 1], address)
            == (if c.address == address then replies + [Reply(c.reply, Removed)] else replies)
             + RemovedReplies(claims[..i], address)
  {
    assert claims[..i + 1][..i] == claims[..i];
  }

  // ----- Routes of claimed addresses -----

  function ClaimRoute(c: Claim): Route
  {
    MaskedInRange(c.address, c.mask);
    Route(And(c.address, c.mask), c.mask, c.address, None)
  }

  function WithClaimRoutes(entries: map<Key, Route>, claimed: seq<Claim>): map<Key, Route>
    decreases |claimed|
  {
    if claimed == [] then entries
    else WithClaimRoutes(entries[KeyOf(ClaimRoute(claimed[0])) := ClaimRoute(claimed[0])], claimed[1..])
  }

  function AssignAll(claimed: seq<Claim>): seq<Assigned>
  {
    if claimed == [] then [] else [Assign(claimed[0].address, claimed[0].mask)] + AssignAll(claimed[1..])
  }

  lemma ClaimRouteIsPrefix(c: Claim)
    ensures IsPrefixRoute(ClaimRoute(c))
  {
    var prefix: nat :| prefix <= WIDTH && c.mask == PrefixToMask(prefix);
    MaskedIsNetwork(c.address, prefix);
    assert IsNetwork(ClaimRoute(c), prefix);
  }

  /** Every route leaves from an assigned address, for a network. */
  ghost predicate RoutesSound(entries: map<Key, Route>, local: seq<Assigned>)
  {
    forall k :: k in entries ==> Has(local, entries[k].source) && IsPrefixRoute(entries[k])
  }

  /** Where the reverse loop stands: the claims `rest` are still to be probed, and
      `tail` holds those visited and kept. */
  datatype Progress = Progress(
    state: State, rest: seq<Claim>, turn: nat, tail: seq<Claim>, replies: seq<Reply>, local: seq<Assigned>,
    entries: map<Key, Route>)

  /** What the loop ends with from there. */
  function Finish(probe: Prober, g: Progress): Progress
  {
    Finished(g, ProbePass(probe, g.state, g.rest, g.turn))
  }

  function Turn(probe: Prober, g: Progress): Progress
    requires g.rest != []
  {
    var (s1, verdict) := probe(g.state, g.rest[|g.rest| - 1], g.turn);
    Settle(s1, verdict, g)
  }

  function Settle(s1: State, verdict: Option<Answer>, g: Progress): Progress
    requires g.rest != []
  {
    var n := |g.rest| - 1;
    var c := g.rest[n];
    Progress(s1, g.rest[..n], g.turn + 1,
             if verdict == None then [c] + g.tail else g.tail,
             if verdict.Some? then g.replies + [Reply(c.reply, verdict.value)] else g.replies,
             if verdict == Some(Done) then g.local + [Assign(c.address, c.mask)] else g.local,
             if verdict == Some(Done) then g.entries[KeyOf(ClaimRoute(c)) := ClaimRoute(c)] else g.entries)
  }

  lemma TurnIsSettle(room: Schedule, clock: Clock, g: Progress, s1: State, state: ArpState, r: SendResult)
    requires g.rest != []
    requires (s1, state, r)
          == Probe(room, g.state, g.rest[|g.rest| - 1].address, clock(2 * g.turn), clock(2 * g.turn + 1))
    ensures Turn(Probing(room, clock), g)
         == Settle(Announced(room, s1, g.rest[|g.rest| - 1], Verdict(state, r)), Verdict(state, r), g.(state := s1))
  {
  }

  lemma TurnFinishes(probe: Prober, g: Progress)
    requires g.rest != []
    ensures Finish(probe, Turn(probe, g)) == Finish(probe, g)
  {
    var n := |g.rest| - 1;
    var (s1, verdict) := probe(g.state, g.rest[n], g.turn);
    var after := ProbePass(probe, s1, g.rest[..n], g.turn + 1);
    assert ProbePass(probe, g.state, g.rest, g.turn) == After(verdict, g.rest[n], after);
    SettleFinishes(s1, verdict, g, after);
  }

  function Finished(g: Progress, p: Pass): Progress
  {
    Progress(p.state, [], g.turn + |g.rest|, p.kept + g.tail, g.replies + p.replies, g.local + AssignAll(p.claimed),
             WithClaimRoutes(g.entries, p.claimed))
  }

  lemma SettleFinishes(s1: State, verdict: Option<Answer>, g: Progress, after: Pass)
    requires g.rest != []
    ensures Finished(Settle(s1, verdict, g), after) == Finished(g, After(verdict, g.rest[|g.rest| - 1], after))
  {
    AfterTurn(verdict, g.rest[|g.rest| - 1], after, g);
  }

  lemma FinishIsPass(probe: Prober, g: Progress)
    requires g.tail == []
    ensures var p := ProbePass(probe, g.state, g.rest, g.turn);
            var end := Finish(probe, g);
            && end.state == p.state && end.rest + end.tail == p.kept && end.replies == g.replies + p.replies
            && end.local == g.local + AssignAll(p.claimed) && end.entries == WithClaimRoutes(g.entries, p.claimed)
  {
    var kept := ProbePass(probe, g.state, g.rest, g.turn).kept;
    assert [] + (kept + []) == kept;
  }

  lemma FinishedAlready(probe: Prober, g: Progress)
    requires g.rest == []
    ensures Finish(probe, g) == g
  {
    assert [] + g.tail == g.tail && g.replies + [] == g.replies && g.local + [] == g.local;
  }

  lemma TakeFromMiddle(all: seq<Claim>, rest: seq<Claim>, tail: seq<Claim>, i: nat)
    requires all == rest + tail && |rest| == i + 1
    ensures all[i] == rest[i] && all[..i] + all[i + 1..] == rest[..i] + tail
    ensures all == rest[..i] + ([rest[i]] + tail)
  {
  }

  lemma AfterTurn(verdict: Option<Answer>, c: Claim, rest: Pass, g: Progress)
    ensures var p := After(verdict, c, rest);
            && p.kept + g.tail == rest.kept + (if verdict == None then [c] + g.tail else g.tail)
            && g.replies + p.replies
            == (if verdict.Some? then g.replies + [Reply(c.reply, verdict.value)] else g.replies) + rest.replies
            && g.local + AssignAll(p.claimed)
            == (if verdict == Some(Done) then g.local + [Assign(c.address, c.mask)] else g.local)
             + AssignAll(rest.claimed)
            && WithClaimRoutes(g.entries, p.claimed)
            == WithClaimRoutes(if verdict == Some(Done) then g.entries[KeyOf(ClaimRoute(c)) := ClaimRoute(c)]
                               else g.entries, rest.claimed)
  {
    assert ([c] + rest.claimed)[1..] == rest.claimed;
  }

  /** The source given, or else the first assigned address with the next hop in its
      subnet. */
  ghost predicate IsChosen(local: seq<Assigned>, source: Option<Ipv4>, nextHop: Ipv4, chosen: Ipv4)
  {
    match source
    case Some(given) => chosen == given
    case None => exists i :: 0 <= i < |local| && IsFirstHolding(local, i, nextHop) && local[i].address == chosen
  }

  function WithRoute(entries: map<Key, Route>, target: Ipv4, prefix: nat, source: Ipv4, nextHop: Ipv4): map<Key, Route>
    requires prefix <= WIDTH
  {
    MaskedInRange(target, PrefixToMask(prefix));
    var network, mask := And(target, PrefixToMask(prefix)), PrefixToMask(prefix);
    entries[(network, mask) := Route(network, mask, source, Some(nextHop))]
  }

  // ----- IPv4Handler::send -----

  /** Why IPv4Handler::send refuses a payload before it reaches the Ethernet handler. */
  function Refusal(mtu: nat, routes: seq<Route>, destination: Ipv4, length: nat): Option<SendError>
  {
    if length < DATAGRAM_PORTION then Some(PayloadTooShort)
    else if length + H.LENGTH_NO_OPTIONS > mtu then Some(PayloadTooLarge(mtu - H.LENGTH_NO_OPTIONS))
    else if Lookup(routes, destination) == None then Some(NoRouteToHost)
    else None
  }

  /** A payload of at least eight octets that fits the MTU with a header of 20 is refused
      only for want of a route: no network of any entry holds the destination. */
  lemma RefusesExactly(mtu: nat, routes: seq<Route>, entries: map<Key, Route>, destination: Ipv4, length: nat)
    requires Sorted(routes) && Lists(routes, entries) && forall k :: k in entries ==> IsPrefixRoute(entries[k])
    ensures match Refusal(mtu, routes, destination, length)
            case Some(PayloadTooShort) => length < 8
            case Some(PayloadTooLarge(most)) => length >= 8 && length > mtu - 20 && most == mtu - 20
            case Some(NoRouteToHost) => 8 <= length <= mtu - 20 && IsBest(entries, None, destination)
            case Some(_) => false
            case None =>
              && 8 <= length <= mtu - 20 && Lookup(routes, destination).Some?
              && IsBest(entries, Lookup(routes, destination), destination)
  {
    LookupIsBest(routes, entries, destination);
  }

  function NextHop(r: Route, destination: Ipv4): Ipv4
  {
    if r.nextHop.Some? then r.nextHop.value else destination
  }

  function OrUnspecified(source: Ipv4, other: Ipv4): Ipv4
  {
    if source == UNSPECIFIED then other else source
  }

  /** What send_ipv4 does concerns the hop it is told, and no other. */
  lemma SentForHop(room: Schedule, s: State, hop: Ipv4, source: Ipv4, packet: Packet, asked: nat, sent: nat)
    ensures var (s', r) := SendIpv4(room, s, hop, source, packet, asked, sent);
            && s'.accepted == s.accepted + (if r.Ok? then [Queued(hop, packet)] else [])
            && forall other: Ipv4 :: other != hop ==> EthernetRuns.SameFor(s, s', other)
  {
    EthernetRuns.AcceptedMeansOk(room, s, hop, source, packet, asked, sent);
    forall other: Ipv4 | other != hop
      ensures EthernetRuns.SameFor(s, SendIpv4(room, s, hop, source, packet, asked, sent).0, other)
    {
      EthernetRuns.SendSparesOthers(room, s, hop, source, packet, asked, sent, other);
    }
  }

  /** The size check leaves the Ethernet header out of account: of the routed packets
      it lets through, exactly those whose length is in this range trip the assertion
      of EthernetHandler::send, at once when the hop is known. */
  lemma AdmittedButTooLong(s: State, mtu: nat, routes: seq<Route>, destination: Ipv4, packet: Packet, hop: Ipv4,
                           source: Ipv4, asked: nat)
    requires Lookup(routes, destination).Some? && hop in s.arp && s.arp[hop].Known?
    requires Elapsed(asked, s.arp[hop].lastSeen) < STALE_SEC * SECOND
    ensures Refusal(mtu, routes, destination, |packet.payload|) == None && SendTrips(mtu, s, hop, source, packet, asked)
       <==> |packet.payload| >= 8 && mtu - 34 < |packet.payload| <= mtu - 20
  {
    assert Elapsed(asked, s.arp[hop].lastSeen) / SECOND < STALE_SEC;
  }

  class InterfaceWorker {
    const ethernet: EthernetHandler
    const addresses: AddressTable
    const routes: RouteTable
    var pending: seq<Claim>
    var replies: seq<Reply>
    ghost var submitted: multiset<nat> // reply senders of all address-adds so far

    /** Every address-add is answered once or still pending; every route is for a
        network and its source an assigned address; and the parts' own invariants. */
    ghost predicate Valid()
      reads this, ethernet, ethernet.arp, addresses, routes
    {
      && ethernet.Valid() && addresses.Valid() && routes.Valid()
      && submitted == Ids(pending, replies)
      && RoutesSound(routes.entries, addresses.local)
    }

    constructor (room: Schedule, mtu: nat)
      requires ETHERNET_HEADER + ARP_LENGTH <= mtu
      ensures Valid() && fresh(ethernet) && fresh(ethernet.arp) && fresh(addresses) && fresh(routes)
      ensures pending == [] && replies == [] && submitted == multiset{}
    {
      ethernet := new EthernetHandler(room, mtu);
      addresses := new AddressTable();
      routes := new RouteTable();
      pending, replies, submitted := [], [], multiset{};
    }

    method AddressAdd(address: Ipv4, prefix: nat, reply: nat, now: nat) returns (ghost r: SendResult)
      requires Valid() && prefix <= WIDTH
      modifies this, ethernet, ethernet.arp
      ensures Valid() && submitted == old(submitted) + multiset{reply}
      ensures (ethernet.Value(), r)
           == Ethernet.SendArpRequest(ethernet.room, old(ethernet.Value()), address, UNSPECIFIED, now)
      ensures pending == if r.Ok? then old(pending) + [Claim(address, PrefixToMask(prefix), reply)] else old(pending)
      ensures replies == if r.Ok? then old(replies) else old(replies) + [Reply(reply, CheckFailed(r.error))]
    {
      var asked := ethernet.StartProbe(address, now);
      r := asked;
      Submit(Claim(address, PrefixToMask(prefix), reply), asked);
    }

    method Submit(c: Claim, r: SendResult)
      requires submitted == Ids(pending, replies)
      modifies this
      ensures submitted == Ids(pending, replies) == old(submitted) + multiset{c.reply}
      ensures pending == if r.Ok? then old(pending) + [c] else old(pending)
      ensures replies == if r.Ok? then old(replies) else old(replies) + [Reply(c.reply, CheckFailed(r.error))]
    {
      submitted := submitted + multiset{c.reply};
      if r.Err? {
        RepliedIds(pending, replies, Reply(c.reply, CheckFailed(r.error)));
        replies := replies + [Reply(c.reply, CheckFailed(r.error))];
      } else {
        ClaimedIds(pending, replies, c);
        pending := pending + [c];
      }
    }

    method AddressRemove(address: Ipv4)
      requires Valid()
      modifies this, addresses, routes
      ensures Valid() && submitted == old(submitted)
      ensures pending == WithoutClaims(old(pending), address)
      ensures replies == old(replies) + RemovedReplies(old(pending), address)
      ensures addresses.local == Without(old(addresses.local), address)
      ensures routes.entries == map k | k in old(routes.entries) && old(routes.entries)[k].source != address
                                  :: old(routes.entries)[k]
    {
      RemovalSettles(pending, address);
      SettledIds(pending, WithoutClaims(pending, address), replies, RemovedReplies(pending, address));
      DropClaims(address);
      Unassign(address);
    }

    method DropClaims(address: Ipv4)
      modifies this`pending, this`replies
      ensures pending == WithoutClaims(old(pending), address)
      ensures replies == old(replies) + RemovedReplies(old(pending), address)
    {
      ghost var was, answered := pending, replies;
      var i := |pending|;
      ghost var tail: seq<Claim> := [];
      assert was[..i] == was;
      while i > 0
        invariant 0 <= i <= |was| && pending == was[..i] + tail
        invariant WithoutClaims(was, address) == WithoutClaims(was[..i], address) + tail
        invariant answered + RemovedReplies(was, address) == replies + RemovedReplies(was[..i], address)
      {
        i := i - 1;
        DropStep(was, i, address, tail, replies);
        TakeFromMiddle(pending, was[..i + 1], tail, i);
        if pending[i].address == address {
          replies := replies + [Reply(pending[i].reply, Removed)];
          pending := pending[..i] + pending[i + 1..];
        } else {
          tail := [pending[i]] + tail;
        }
      }
    }

    method Unassign(address: Ipv4)
      requires addresses.Valid() && routes.Valid() && RoutesSound(routes.entries, addresses.local)
      modifies addresses, routes
      ensures addresses.Valid() && routes.Valid() && RoutesSound(routes.entries, addresses.local)
      ensures addresses.local == Without(old(addresses.local), address)
      ensures routes.entries == map k | k in old(routes.entries) && old(routes.entries)[k].source != address
                                  :: old(routes.entries)[k]
    {
      ghost var local := addresses.local;
      routes.RemoveMatching((r: Route) => r.source == address);
      addresses.Remove(address);
      forall k | k in routes.entries ensures Has(addresses.local, routes.entries[k].source) {
        WithoutKeepsOthers(local, address, routes.entries[k].source);
      }
    }

    /** The interface's handle masks the target before it sends the message. */
    method RouteAdd(target: Ipv4, prefix: nat, nextHop: Ipv4, source: Option<Ipv4>) returns (r: RouteAnswer)
      requires Valid() && prefix <= WIDTH
      modifies routes
      ensures Valid()
      ensures r.RouteAdded? ==> exists src: Ipv4 ::
                && IsChosen(addresses.local, source, nextHop, src) && Has(addresses.local, src)
                && routes.entries == WithRoute(old(routes.entries), target, prefix, src, nextHop)
      ensures !r.RouteAdded? ==> routes.entries == old(routes.entries)
      ensures r.UnknownSource? <==> source.Some? && !Has(addresses.local, source.value)
      ensures r.NextHopUnreachable? <==>
                source.None? && forall i :: 0 <= i < |addresses.local| ==>
                  And(nextHop, addresses.local[i].mask) != addresses.local[i].network
    {
      MaskedIsNetwork(target, prefix);
      var mask := PrefixToMask(prefix);
      r := HandleRouteAdd(And(target, mask), mask, nextHop, source, prefix);
    }

    method HandleRouteAdd(target: Ipv4, mask: Ipv4, nextHop: Ipv4, source: Option<Ipv4>, ghost prefix: nat)
      returns (r: RouteAnswer)
      requires Valid() && prefix <= WIDTH && mask == PrefixToMask(prefix) && And(target, mask) == target
      modifies routes
      ensures Valid()
      ensures r.RouteAdded? ==> exists src: Ipv4 ::
                && IsChosen(addresses.local, source, nextHop, src) && Has(addresses.local, src)
                && routes.entries == old(routes.entries)[(target, mask) := Route(target, mask, src, Some(nextHop))]
      ensures !r.RouteAdded? ==> routes.entries == old(routes.entries)
      ensures r.UnknownSource? <==> source.Some? && !Has(addresses.local, source.value)
      ensures r.NextHopUnreachable? <==>
                source.None? && forall i :: 0 <= i < |addresses.local| ==>
                  And(nextHop, addresses.local[i].mask) != addresses.local[i].network
    {
      var candidate := source;
      if source.None? {
        candidate := addresses.FirstWithSubnetContaining(nextHop);
      }
      if candidate.None? {
        return NextHopUnreachable;
      }
      if !Has(addresses.local, candidate.value) {
        return UnknownSource;
      }
      assert IsChosen(addresses.local, source, nextHop, candidate.value);
      assert IsNetwork(Route(target, mask, candidate.value, Some(nextHop)), prefix);
      routes.InsertOrUpdate(target, mask, candidate.value, Some(nextHop));
      return RouteAdded;
    }

    /** IPv4Handler::send. An unspecified source becomes the route's, which is one of
        the interface's own addresses. */
    method SendIp(source: Ipv4, destination: Ipv4, protocol: H.Protocol, payload: seq<Byte>, identification: U16,
                  asked: nat, when: nat)
      returns (r: SendResult)
      requires Valid()
      modifies ethernet, ethernet.arp
      ensures !ethernet.crashed ==> Valid()
      ensures match Refusal(ethernet.mtu, routes.routes, destination, |payload|)
              case Some(e) =>
                && r == Err(e) && !ethernet.crashed && ethernet.Value() == old(ethernet.Value())
                && (e.NoRouteToHost? ==> IsBest(routes.entries, None, destination))
              case None =>
                var route := Lookup(routes.routes, destination).value;
                var from := if source == UNSPECIFIED then route.source else source;
                var hop := match route.nextHop case Some(gateway) => gateway case None => destination;
                var packet := Packet(H.New(protocol, from, destination, |payload| % 0x1_0000, identification), payload);
                && IsBest(routes.entries, Some(route), destination)
                && (source == UNSPECIFIED ==> Has(addresses.local, from))
                && (ethernet.crashed <==> SendTrips(ethernet.mtu, old(ethernet.Value()), hop, from, packet, asked))
                && (!ethernet.crashed ==>
                      (ethernet.Value(), r)
                      == SendIpv4(ethernet.room, old(ethernet.Value()), hop, from, packet, asked, when))
                && (!ethernet.crashed ==>
                      && ethernet.Value().accepted
                      == old(ethernet.Value()).accepted + (if r.Ok? then [Queued(hop, packet)] else [])
                      && forall other: Ipv4 :: other != hop ==>
                           EthernetRuns.SameFor(old(ethernet.Value()), ethernet.Value(), other))
    {
      if |payload| < DATAGRAM_PORTION {
        return Err(PayloadTooShort);
      }
      if |payload| + H.LENGTH_NO_OPTIONS > ethernet.mtu {
        return Err(PayloadTooLarge(ethernet.mtu - H.LENGTH_NO_OPTIONS));
      }
      var found := routes.Find(destination);
      LookupIsBest(routes.routes, routes.entries, destination);
      if found.None? {
        return Err(NoRouteToHost);
      }
      var route := found.value;
      assert route in routes.routes;
      var from := OrUnspecified(source, route.source);
      var header := H.New(protocol, from, destination, |payload| % 0x1_0000, identification);
      var hop, packet := NextHop(route, destination), Packet(header, payload);
      SentForHop(ethernet.room, ethernet.Value(), hop, from, packet, asked, when);
      r := ethernet.SendIpv4(hop, from, packet, asked, when);
    }

    /** The reverse-index loop at the end of perform_control: the removals it makes
        never shift an entry it has still to visit, so it visits each once. */
    method ProbePending(clock: Clock)
      requires Valid()
      modifies this, ethernet, ethernet.arp, addresses, routes
      ensures Valid() && submitted == old(submitted)
      ensures var p := ProbePass(Probing(ethernet.room, clock), old(ethernet.Value()), old(pending), 0);
              && ethernet.Value() == p.state && pending == p.kept && replies == old(replies) + p.replies
              && addresses.local == old(addresses.local) + AssignAll(p.claimed)
              && routes.entries == WithClaimRoutes(old(routes.entries), p.claimed)
    {
      ghost var start := Progress(ethernet.Value(), pending, 0, [], replies, addresses.local, routes.entries);
      ghost var probe := Probing(ethernet.room, clock);
      ghost var p := ProbePass(probe, ethernet.Value(), pending, 0);
      PassSettles(probe, ethernet.Value(), pending, 0);
      SettledIds(pending, p.kept, replies, p.replies);
      FinishIsPass(probe, start);
      ProbeAll(clock, start);
    }

    ghost predicate At(g: Progress)
      reads this, ethernet, ethernet.arp, addresses, routes
    {
      && ethernet.Valid() && addresses.Valid() && routes.Valid() && RoutesSound(routes.entries, addresses.local)
      && ethernet.Value() == g.state && pending == g.rest + g.tail && replies == g.replies
      && addresses.local == g.local && routes.entries == g.entries
    }

    method ProbeAll(clock: Clock, ghost start: Progress)
      requires At(start) && start.rest == pending && start.turn == 0
      modifies this`pending, this`replies, ethernet, ethernet.arp, addresses, routes
      ensures At(Finish(Probing(ethernet.room, clock), start))
    {
      ghost var probe, g := Probing(ethernet.room, clock), start;
      var turn := 0;
      var i := |pending|;
      while i > 0
        invariant 0 <= i == |g.rest| && g.turn == turn
        invariant At(g)
        invariant Finish(probe, g) == Finish(probe, start)
      {
        TurnFinishes(probe, g);
        i := i - 1;
        ProbeOne(i, turn, clock, g);
        g := Turn(probe, g);
        turn := turn + 1;
      }
      FinishedAlready(probe, g);
    }

    /** One turn of that loop. */
    method ProbeOne(i: nat, turn: nat, clock: Clock, ghost g: Progress)
      requires At(g) && |g.rest| == i + 1 && g.turn == turn
      modifies this`pending, this`replies, ethernet, ethernet.arp, addresses, routes
      ensures At(Turn(Probing(ethernet.room, clock), g))
    {
      TakeFromMiddle(pending, g.rest, g.tail, i);
      var state, r := ethernet.Probe(pending[i].address, clock(2 * turn), clock(2 * turn + 1));
      TurnIsSettle(ethernet.room, clock, g, ethernet.Value(), state, r);
      Conclude(i, state, r, g.(state := ethernet.Value()));
    }

    method Conclude(i: nat, state: ArpState, r: SendResult, ghost g: Progress)
      requires At(g) && |g.rest| == i + 1
      modifies this`pending, this`replies, ethernet, addresses, routes
      ensures At(Settle(Announced(ethernet.room, g.state, g.rest[i], Verdict(state, r)), Verdict(state, r), g))
    {
      var c := pending[i];
      TakeFromMiddle(pending, g.rest, g.tail, i);
      match state {
        case PendingWait(_) =>
        case Timeout =>
          pending := pending[..i] + pending[i + 1..];
          Claimed(c);
          replies := replies + [Reply(c.reply, Done)];
          ethernet.Announce(c.address);
        case Resolved(_) =>
          pending := pending[..i] + pending[i + 1..];
          replies := replies + [Reply(c.reply, InUse)];
        case _ =>
          if r.Err? {
            pending := pending[..i] + pending[i + 1..];
            replies := replies + [Reply(c.reply, CheckFailed(r.error))];
          }
      }
    }

    /** The probe timed out: nobody answers for the address, so it is assigned. */
    method Claimed(c: Claim)
      requires addresses.Valid() && routes.Valid() && RoutesSound(routes.entries, addresses.local)
      modifies addresses, routes
      ensures addresses.Valid() && routes.Valid() && RoutesSound(routes.entries, addresses.local)
      ensures addresses.local == old(addresses.local) + [Assign(c.address, c.mask)]
      ensures routes.entries == old(routes.entries)[KeyOf(ClaimRoute(c)) := ClaimRoute(c)]
    {
      ghost var local := addresses.local;
      addresses.Insert(c.address, c.mask);
      ClaimRouteIsPrefix(c);
      MaskedInRange(c.address, c.mask);
      routes.InsertOrUpdate(And(c.address, c.mask), c.mask, c.address, None);
      assert addresses.local[|local|].address == c.address;
      forall k | k in routes.entries ensures Has(addresses.local, routes.entries[k].source) {
        if k != KeyOf(ClaimRoute(c)) {
          var j :| 0 <= j < |local| && local[j].address == routes.entries[k].source;
          assert addresses.local[j] == local[j];
        }
      }
    }
  }
}
