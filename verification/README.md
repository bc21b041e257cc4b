# narth-net: a model of the stack's state machines, with proofs

narth-net is a user-space network stack. This project models its protocol state
machines and lock-free hand-offs in Dafny and proves, for every input and every run,
what they keep. `dafny verify dfyconfig.toml` verifies everything.

Each component has two faces. Functions on plain values say what one operation does,
and the theorems are about those functions and the runs made of them. Classes perform
the same operations in place, as the Rust methods do, and each method's contract
equates the new state with the function of the old one.

| files | component |
|---|---|
| `Words`, `ReadyBits`, `ReadyTokens` | the iterators over words of ready bits, and the bit arithmetic under them |
| `Doorbell`, `Network` | push, set a bit, wake: the hand-off from interface threads to the network thread |
| `Poller` | slots and tokens of the application poller, its sleep and wake protocol, and the bits a handle rings |
| `Arp`, `Ethernet`, `EthernetRuns`, `EthernetHandler` | ARP resolution and the IPv4 packets that wait for it |
| `ArpFrames`, `ArpDeadline` | the requests and replies on the wire, what becomes of a packet by the hop's entry, and when the ARP timers must run again |
| `RouteTable`, `AddressTable`, `Worker`, `WorkerRuns` | routes, addresses, the control loop that probes and claims addresses, what that decides over a run, and the IPv4 send path |
| `Ping`, `PingRuns`, `EchoTime` | ping sessions and their manager, why each ping ends and when one is sent, and the time data of their messages |
| `PortBinding`, `UdpDispatch`, `UdpManager` | UDP port bindings and the hand-off from sockets to the interface thread |
| `UdpBlocking` | blocking receives and sends of a UDP socket, against the interface thread |
| `UdpRelease`, `UdpLeak` | what sockets give back: when a binding or an id is lost, and runs that lose one |
| `Checksum`, `Ipv4`, `Icmp`, `UdpHeader`, `Dhcp` | the Internet checksum, the headers, the DHCP options field |
| `WireExamples` | octets that other implementations write |
| `Delivery`, `Acceptance`, `Reception` | the receive path, whom it receives for, all that a packet sets off, and one stack's packets arriving at another |

Modelling choices that hold throughout:

- Every atomic access is one event of a sequentially consistent machine. An event that
  is not enabled changes nothing, so every event sequence is a run, and a theorem about
  every sequence is about every interleaving.
- Time is a number of nanoseconds. Each reading of the clock is a parameter; where an
  invariant depends on it, readings never go back.
- The send ring is drained by another thread at any time, so whether the n-th push finds
  room is given by an arbitrary schedule.
- Integer widths are written out where the code wraps or truncates: the 8-bit retry
  count, 16-bit lengths and sequence numbers, the 64-bit ping count. Overflow wraps, as in
  a release build; where it decides about a panic the build is a parameter (`Build`).
- Where the code panics, the panic is a result: `Panics` of the IPv4 and ICMP parsers, of
  the time data and of the receive path, `Crashed` of the UDP one, the result `crashed` of
  the ping manager, and the flag `crashed` of the Ethernet handler for its frame-size
  assertion.
  Preconditions are left for what the rest of the code never passes: a prefix above 32, an
  MTU too small for an ARP frame, an IPv4 header to write that is not five words, a queued
  payload too short to hold 8 octets.
- `poll_timeout` is the poll whose deadline may come before any scan (`GiveUp`).

## Where the code and its documentation part

Each of these is a lemma below: a concrete input or the exact condition.

- `IPv4Handler::send` checks a payload against the MTU less the IPv4 header; the Ethernet
  layer then asserts that the Ethernet header fits too. Payloads in the gap of 14 octets
  trip the assertion (`Worker.AdmittedButTooLong`), at once or, queued with Ok, when their
  hop answers (`EthernetRuns.OversizeTrips`); packets that fit never do
  (`EthernetRuns.FittingNeverTrips`).
- A queue of packets can stand behind an ARP entry that has timed out: when send_ipv4 or an
  address probe asks for the hop and is told Timeout, and only then
  (`EthernetRuns.QueueBehindTimeoutExactly`, `EthernetRuns.QueueBehindTimeoutInRun`,
  `EthernetRuns.QueuedMeansPendingExactly`, `EthernetRuns.QueueBehindTimeout`).
- Certain packets end the interface thread that receives them: exactly which, in octets, is
  `Reception.RecvPanicsExactly`, and such packets are `Delivery.PacketsThatPanic`,
  `Reception.ReplyThatPanics` and `Reception.RequestThatPanics`.
- An address-add during a resolution restarts the wait and can push the retry count past
  its maximum (`Arp.AddInsideEpisodeExactly`, `Arp.AddressAddDefeatsBound`).
- For a hop last heard of 30 to 60 s ago send_ipv4 means to ask again, but
  can_send_request answers no for any entry that is not pending, so no request goes out:
  the first one follows after a minute (`ArpFrames.SendAsksExactly`,
  `ArpFrames.SendOutcomeExactly`).
- perform_arp_timers asks for a deadline only for the entries that were still waiting; one
  that it has just asked for again counts for none, so a pass that only retries asks for no
  deadline at all and its next retry, due 100 ms later, is left to the default of a second
  (`ArpDeadline.DeadlineExactly`, `ArpDeadline.RetryWithoutDeadline`).
- A ping session asks for the timeout of the ping just sent, or for the next ping, but
  never for the earlier of the two, and for nothing once its count is sent. Exactly when
  that is too late is `PingRuns.DeadlineExactly`; with pings a second apart the session
  asks to be looked at again only when the one just sent times out
  (`PingRuns.SecondPingLate`).
- An address can be added twice, is then assigned twice, and stays assigned when it is
  removed, without its routes: exactly then (`Addresses.RemovedExactly`,
  `WorkerRuns.AssignedTwice`).
- RFC 768 lets a sender store 0 for "no checksum"; such datagrams are dropped
  (`UdpHeader.ValidatesExactly`). RFC 1071 verifies headers that store 0xFFFF; the IPv4
  and ICMP parsers reject them (`Ipv4Header.AcceptsExactlyVerified`,
  `Icmp.AcceptsExactlyVerified`).
- A protocol number that has a name of its own but is given as "other" comes back under
  its name (`Ipv4Header.NewRoundTrip`).
- A ping can be reported twice, answered and then unreachable (`Pinging.ReportedTwice`);
  its reported index is its own only within 32768 sends (`Pinging.ReportedIndex`).
- Socket ids are never reclaimed: binds run out after as many successes as there are ids
  (`UdpRelease.ExhaustedRefuses`, `UdpLeak.IdsRunOut`).
- A dropped socket's address can stay bound for ever, in two ways and no other: its ring was
  full when it was dropped, or its Drop was popped for the id of another address
  (`UdpRelease.LostExactly`, `UdpRelease.LostInRun`, `UdpRelease.BoundAtRestExactly`,
  `UdpLeak.FullRingLeaks`, `UdpLeak.DropLeaks`).
- A blocking send can return the result of another: exactly when it starts with a result in
  the slot that a socket's sends share, or with one on its way there
  (`BlockingSend.OwnResultExactly`, `BlockingSend.OtherSendsResult`).
- A DHCP option that ends exactly where the field ends is lost unless an End or a pad
  follows it (`Dhcp.ScanUnended`).

## Model

| member | source | states |
|---|---|---|
| ReadyBits.ReadyExactly | lib/src/ready_by_bits.rs:24-67 | the reference list holds exactly the occupied slots whose bit is set, each once, ascending |
| ReadyBits.TakeLowest | lib/src/ready_by_bits.rs:35-45 | in the first non-zero word, trailing zeros plus the word offset is the least set bit of the whole array, and `&= word - 1` clears that bit and no other |
| ReadyBits.TakeFirst | lib/src/ready_by_bits.rs:35-50 | taking that bit out takes its slot off the front of the reference list if occupied, and nothing otherwise |
| ReadyBits.SetBitSets | lib/src/runtime/channel.rs:52-68 | `fetch_or` of 1 shifted by id % 64 into word id / 64 sets bit id and no other |
| ReadyBits.ReadyByBits.TakeReady | lib/src/ready_by_bits.rs:29-45 | the offset into the shrunk slice never underflows and names, with what was split off, the slot of the least bit |
| ReadyBits.ReadyByBits.Next | lib/src/ready_by_bits.rs:24-67 | each call yields the next slot of the reference list and the slice left is the suffix after it; it terminates |
| ReadyBits.CollectReady | lib/src/ready_by_bits.rs:70-84 | run to its end, the iterator yields exactly the reference list |
| ReadyTokens.EventsExactly | lib/src/poller.rs:302-351 | the reference events are one per live slot with a read or write bit, ascending, tagged Read, Write or Both exactly as the bits say |
| ReadyTokens.TakeEvent | lib/src/poller.rs:304-345 | taking the least bit of either word takes that slot's event off the front of the reference list |
| ReadyTokens.ReadyTokensByBits.Next | lib/src/poller.rs:304-351 | each call yields the next reference event; the out-of-range exit is never taken; it terminates by words left, then bits left |
| ReadyTokens.CollectEvents | lib/src/poller.rs:302-351 | run to its end, the iterator yields exactly the reference events |
| TokenTable.HeldSlotsDistinct | lib/src/poller.rs:212-246 | two registrations still held never share a slot, so a wake rings no other registration's bit |
| TokenTable.Poller.GetFreeToken | lib/src/poller.rs:212-246 | the slot given is free and in range, the table grows by whole chunks, and no held registration loses its slot |
| PollerSleep.SleepStep | lib/src/poller.rs:51-56 | one waker or poller step keeps: a set bit the poller has passed over means a permit or a waker between `fetch_or` and `unpark`, whichever bits those are |
| PollerSleep.EveryRun | lib/src/poller.rs:106-154 | in every interleaving the poller never sleeps through a wake, each rise of a bit is in exactly one snapshot, returned or being taken, or still set, and no snapshot returned is empty; which bits rise is OnlyRungBits |
| PollerSleep.ParkedMeansDrained | lib/src/poller.rs:106-154 | with the poller parked and no wake in flight, no bit is set and the snapshots returned hold each bit exactly as often as it rose |
| PollerSleep.ScanReturns | lib/src/poller.rs:137-154 | a pass that starts with a bit set ends in a snapshot that holds it |
| PollerSleep.SetBitIsReturned | lib/src/poller.rs:106-154 | from any reachable state with a bit set and no wake in flight, wherever the poller is, its own finitely many steps return a snapshot that holds the bit |
| PollerSleep.WakeSetsItsBit | lib/src/poller.rs:51-56 | the `fetch_or` of a handle made for a word and a bit sets that bit of that word and no other |
| PollerSleep.OnlyRungBits | lib/src/poller.rs:51-56 | in every run each bit that is set, being taken or in a snapshot returned was rung by an earlier wake of that very word and bit |
| PollerSleep.WakeIsReturned | lib/src/poller.rs:106-154 | from any reachable state, with the poller anywhere, a whole wake for a word and bit followed by the poller's own finitely many steps returns a snapshot that holds that very bit |
| PollerEvents.OwnBit | lib/src/poller.rs:157-208 | two handles ring the same bit exactly when they are of one slot and one kind, read or write |
| PollerEvents.EventsAreSnapshot | lib/src/poller.rs:302-351 | a live slot's event says Read, Write or Both exactly as the bits its handles ring are in the snapshot; no other slot has one |
| Doorbell.RungStep | lib/src/runtime/channel.rs:52-68 | one step of any thread keeps: a non-empty ring has its bit set, its producer about to set it, or the consumer holding it |
| Doorbell.HeardStep | lib/src/ready_by_bits.rs:86-94 | one step keeps: a set bit has a wake pending, a producer about to wake, or a consumer yet to swap its word |
| Doorbell.EveryRun | lib/src/runtime/network.rs:346-366 | both hold in every interleaving, with order and capacity of every ring |
| Doorbell.AtRestAllDelivered | lib/src/runtime/network.rs:346-366 | whenever all threads rest, what each ring accepted has been delivered in order and no bit is set |
| Doorbell.SentIsDelivered | lib/src/runtime/channel.rs:52-68 | a message that found room, whatever came before and comes after, has been delivered when all threads rest, right behind all its sender sent before; one that found none leaves no trace |
| Doorbell.ConsumerDeliversAll | lib/src/runtime/network.rs:287-366 | once producers pause, the consumer's own finitely many steps deliver everything accepted |
| Doorbell.UninterruptedSend | lib/src/runtime/channel.rs:52-68 | try_send without interleaving pushes, sets the bit and wakes, or does nothing when the ring is full |
| Network.SendPath.Insert | lib/src/runtime/network.rs:97-106 | the sender gets the first free slot, or an error when all 256 are taken |
| Network.SendPath.TrySend | lib/src/runtime/channel.rs:52-68 | the in-place send is that run of the interleaved machine |
| Doorbell.PassDelivers | lib/src/runtime/network.rs:287-366 | start, a swap of every word, pops and finish, undisturbed: every ring whose bit was set is delivered whole, the others are as they were |
| Network.SendPath.OnWake | lib/src/runtime/network.rs:287-309 | the in-place turn of the network thread is that run of the interleaved machine |
| Network.SendPath.ReadSendReceiver | lib/src/runtime/network.rs:346-366 | drains exactly the rings whose bits were set, lowest first: packets go to the bridge in order, and the interfaces whose Closed message is among what is drained are removed, no others |
| Network.PacketsInOrder | lib/src/runtime/network.rs:346-366 | what goes to the bridge of some messages is each packet among them, behind the packets before it |
| Arp.ArpTable.Request | lib/src/runtime/interface/l2_ethernet/arp_table.rs:81-134 | the answer and the new entry, in all four states of the entry, at its exact time limits; a timeout is stamped with a second clock reading |
| Arp.ArpTable.CanSendRequest | lib/src/runtime/interface/l2_ethernet/arp_table.rs:150-170 | leaves an entry in place; true exactly when it is pending, which then restarts its wait and counts a retry |
| Arp.ArpTable.UpdateOnly | lib/src/runtime/interface/l2_ethernet/arp_table.rs:68-79 | updates a known target and reports whether it was known |
| Arp.ArpTable.UpdateOrInsert | lib/src/runtime/interface/l2_ethernet/arp_table.rs:56-66 | records the target and reports whether it was known |
| Arp.ArpTable.PendingTargets | lib/src/runtime/interface/l2_ethernet/arp_table.rs:137-148 | exactly the pending targets with their sources, each once |
| Arp.EpisodeStep | lib/src/runtime/interface/l2_ethernet/arp_table.rs:81-170 | every operation on a target keeps the episode bounds |
| Arp.EveryEpisode | lib/src/runtime/interface/l2_ethernet/arp_table.rs:81-170 | retry count at most 5, at most 5 requests (6 if can_send_request began it), more than 100 ms apart, timeout only after all of them and 500 ms |
| Arp.AddInsideEpisodeExactly | lib/src/runtime/interface/worker.rs:174-187 | an address-add inside an episode respects the bounds exactly when a retry is left and the last request is over 100 ms old |
| Arp.AddressAddDefeatsBound | lib/src/runtime/interface/worker.rs:174-187 | a concrete run in which an address-add pushes the retry count to 6 |
| Ethernet.SendIpv4Keeps | lib/src/runtime/interface/l2_ethernet.rs:37-81 | send_ipv4 keeps: queues only behind pending or timed-out entries, at most 5 packets each, conservation per hop, and the ring matching the record |
| Ethernet.RecvArpKeeps | lib/src/runtime/interface/l2_ethernet.rs:130-166 | an ARP message keeps it: the hop it resolves has its queue sent or reported, in order |
| Ethernet.TimerKeeps | lib/src/runtime/interface/l2_ethernet.rs:168-212 | a timer turn keeps it and answers only wait, retry or timeout: the other arms are dead |
| Ethernet.ProbeKeeps | lib/src/runtime/interface/worker.rs:128-147 | an address probe keeps it |
| Ethernet.AskLeaves | lib/src/runtime/interface/l2_ethernet.rs:47-62 | after asking, and sending if told to, the hop always has an entry, pending or known as the answer said |
| Ethernet.AskKeeps | lib/src/runtime/interface/l2_ethernet.rs:47-54 | asking keeps the invariant even though a stale entry is removed and put back |
| Ethernet.DequeueKeeps | lib/src/runtime/interface/l2_ethernet.rs:214-241 | sending a resolved hop's queue restores the invariant |
| EthernetRuns.EveryRun | lib/src/runtime/interface/l2_ethernet.rs:37-241 | the invariant over every run of handlers under every schedule of the ring |
| EthernetRuns.AcceptedMeansOk | lib/src/runtime/interface/l2_ethernet.rs:37-81 | a packet is accepted exactly when send_ipv4 says Ok; a rejected one is neither queued, sent nor reported |
| EthernetRuns.ConservedPerHop | lib/src/runtime/interface/l2_ethernet.rs:37-241 | in every run each accepted packet is handed over, reported or queued, once, and what is handed over keeps the order of acceptance |
| EthernetRuns.QueueBehindTimeoutExactly | lib/src/runtime/interface/worker.rs:128-162 | over every event: asking for the hop, by send_ipv4 or the address probe, leaves a queue behind a timed-out entry exactly when there is a queue and the answer is Timeout; an ARP message that resolves the hop ends it; any other event leaves it as it was |
| EthernetRuns.QueueBehindTimeoutInRun | lib/src/runtime/interface/l2_ethernet.rs:37-212 | a run ends that way exactly when the last event but timers to concern the hop was such a question |
| EthernetRuns.QueuedMeansPendingExactly | lib/src/runtime/interface/l2_ethernet.rs:37-212 | so queued packets mean a pending entry exactly in the runs without one |
| EthernetRuns.QueueBehindTimeout | lib/src/runtime/interface/l2_ethernet.rs:76-79 | concrete runs that reach it, by a second packet and by an address probe |
| EthernetRuns.FittingNeverTrips | lib/src/runtime/interface/l2_ethernet.rs:23-35 | no run in which every packet sent fits a frame trips the frame-size assertion |
| EthernetRuns.OversizeTrips | lib/src/runtime/interface/l2_ethernet.rs:23-81 | any packet that does not fit can, even accepted with Ok: it is queued, and the ARP reply of its hop trips it |
| EthernetRuns.StepFollows | lib/src/runtime/interface/l2_ethernet.rs:83-96 | the table follows the episode model, and the requests recorded with it, whatever the event; that those are the frames on the wire is ArpFrames.RingInRun |
| EthernetRuns.EpisodesInRun | lib/src/runtime/interface/l2_ethernet.rs:37-212 | the episode bounds hold of the requests recorded in a run; of the frames themselves, ArpFrames.EpisodesOfFrames |
| ArpFrames.RingInRun | lib/src/runtime/interface/l2_ethernet.rs:23-96 | in every run under every schedule the ring holds exactly the frames pushed that found room, in order, and the requests recorded are exactly the request frames pushed, each with its target, in order |
| ArpFrames.SendAsksExactly | lib/src/runtime/interface/l2_ethernet.rs:37-96 | send_ipv4 pushes a request for the packet's own hop, under the pending entry's source or else the packet's, exactly when the hop is unknown, over a minute old, out of its wait with a retry left, or timed out 30 s ago; it is the only frame then, and with room it is in the ring |
| ArpFrames.FirstPacketAsks | lib/src/runtime/interface/l2_ethernet.rs:37-96 | the first packet for an unknown hop leaves a request for that very hop in the ring, and itself in the queue |
| ArpFrames.ProbeAsksExactly | lib/src/runtime/interface/worker.rs:128-147 | the address probe asks for the claimed address, from no address, exactly when a question is due |
| ArpFrames.TimerAsksExactly | lib/src/runtime/interface/l2_ethernet.rs:168-184 | a timer asks again for its own target under the entry's source, exactly when its wait is over with a retry left |
| ArpFrames.ArpAnsweredExactly | lib/src/runtime/interface/l2_ethernet.rs:130-166 | a request for an address of ours, and no other message, is answered, to who asks and for the address asked, before anything else; what else is pushed is the queue of the hop it resolves, in order, to the address it announces |
| ArpFrames.SendOutcomeExactly | lib/src/runtime/interface/l2_ethernet.rs:37-81 | by the hop's entry and the clock: refused for a hop that did not answer; sent at once, to the address known, below a minute; else queued last of at most five, once the request due found room; with each error exactly under its condition |
| ArpFrames.TimerGivesUpExactly | lib/src/runtime/interface/l2_ethernet.rs:186-205 | a timer gives its hop's queue up, every packet reported in order for want of an answer, exactly when the last retry's wait is over |
| ArpFrames.GivenUpForwarded | lib/src/runtime/interface/l2_ethernet.rs:186-205 | and the protocols hear of each packet given up: the error, its header, its first eight octets |
| ArpFrames.AnswerHandsOver | lib/src/runtime/interface/l2_ethernet.rs:130-166 | an ARP message of a hop known, or for an address of ours, makes it known as announced and empties its queue: each packet handed over in order, or reported where the ring is full; any other changes nothing |
| ArpFrames.EpisodesOfFrames | lib/src/runtime/interface/l2_ethernet.rs:83-96 | in every undisturbed run the request frames in the ring for a target are as many as requests found room, and the last of them are those of its episode: at most five, or six, more than 100 ms apart |
| EthernetInPlace.EthernetHandler.SendIpv4 | lib/src/runtime/interface/l2_ethernet.rs:37-81 | for packets of any size: the frame assertion fails exactly under its condition, else result and whole new state are those of the function |
| EthernetInPlace.EthernetHandler.SendArpRequest | lib/src/runtime/interface/l2_ethernet.rs:83-96 | a request goes out exactly when the table allows it, and is the frame pushed |
| EthernetInPlace.EthernetHandler.RecvArp | lib/src/runtime/interface/l2_ethernet.rs:130-166 | merge, insert when addressed to us, reply to requests, then send the queue, in that order; the assertion fails exactly when a packet of that queue does not fit |
| EthernetInPlace.EthernetHandler.DequeuePending | lib/src/runtime/interface/l2_ethernet.rs:214-241 | the loop sends the queue in order and reports what finds no room; the 8-octet slices are in range |
| EthernetInPlace.EthernetHandler.DropPending | lib/src/runtime/interface/l2_ethernet.rs:186-205 | every packet of a timed-out hop is reported once, in order |
| EthernetInPlace.EthernetHandler.PerformArpTimers | lib/src/runtime/interface/l2_ethernet.rs:168-212 | one turn for each entry pending at the start, under its own source, and for no other; the deadline is the earliest of those told to wait |
| ArpDeadline.DeadlineExactly | lib/src/runtime/interface/l2_ethernet.rs:168-212 | over every table, listing and clock that does not go back: the deadline is the earliest of the entries told to wait, and comes no later than every entry's next retry exactly when one was, or none is left pending |
| ArpDeadline.RetryWithoutDeadline | lib/src/runtime/interface/l2_ethernet.rs:168-184 | a pass that retries its one entry asks for no deadline |
| Routes.RouteTable.BinarySearch | lib/src/runtime/route_table.rs:54-70 | the position of the key, or the one position that keeps the order |
| Routes.RouteTable.InsertOrUpdate | lib/src/runtime/route_table.rs:54-70 | the vector stays strictly sorted and equals the map with the key set; the shared copy equals it |
| Routes.RouteTable.RemoveMatching | lib/src/runtime/route_table.rs:72-75 | exactly the matching routes go, from the vector, the map and the shared copy |
| Routes.RouteTable.Find | lib/src/runtime/route_table.rs:77-79 | the first match of the vector |
| Routes.MatchesIsSamePrefix | lib/src/runtime/route_table.rs:77-79 | masking and comparing is agreeing on the first prefix-length bits |
| Routes.MaskValue | lib/src/protocols/ipv4.rs:498-511 | the mask of a prefix is the 32-bit number with exactly its high bits set, for prefix 0 too |
| Routes.LookupIsLongestPrefix | lib/src/runtime/route_table.rs:21-79 | lookup returns the unique longest-prefix match, and None exactly when no network holds the destination |
| Routes.MaskedIsNetwork | lib/src/runtime/interface.rs:178-199 | a target masked by a prefix's mask names a network of that prefix |
| Routes.LookupIsBest | lib/src/runtime/route_table.rs:21-79 | the same of the table's map of routes, the form the worker keeps |
| Addresses.WithoutKeepsOthers | lib/src/runtime/address_table.rs:49-54 | removing an address leaves every other one assigned or not, as it was |
| Addresses.RemovedExactly | lib/src/runtime/address_table.rs:49-54 | one entry of the address goes and no other; the address is still assigned exactly when it was assigned twice or more |
| Addresses.RemovesFirst | lib/src/runtime/address_table.rs:49-54 | the entry that goes is its first, and the order of the others stays |
| Addresses.AddressTable.Insert | lib/src/runtime/address_table.rs:44-47 | appends the address with its network and broadcast, and republishes |
| Addresses.AddressTable.Remove | lib/src/runtime/address_table.rs:49-54 | takes out the first entry of the address, and republishes |
| Addresses.AddressTable.FirstWithSubnetContaining | lib/src/runtime/address_table.rs:71-76 | the first address whose subnet holds the value, None exactly when none does |
| Worker.PassSettles | lib/src/runtime/interface/worker.rs:122-172 | a probe pass keeps or answers every claim, each once |
| Worker.TurnFinishes | lib/src/runtime/interface/worker.rs:123-171 | one turn of the reverse-index loop leaves what the whole pass ends with unchanged: no removal shifts an entry still to be visited |
| Worker.RemovalSettles | lib/src/runtime/interface/worker.rs:189-202 | an address-remove keeps or answers every claim, each once |
| Worker.RemovalExactly | lib/src/runtime/interface/worker.rs:189-202 | it keeps exactly the claims of other addresses, and answers each of this one that it was removed |
| Worker.InterfaceWorker.AddressAdd | lib/src/runtime/interface/worker.rs:174-187 | the claim is queued, or answered at once when the request cannot be sent; every add so far is answered once or pending |
| Worker.InterfaceWorker.AddressRemove | lib/src/runtime/interface/worker.rs:189-202 | pending claims of the address are answered, its routes and its entry go; every route's source is still an assigned address |
| Worker.InterfaceWorker.RouteAdd | lib/src/runtime/interface/worker.rs:204-231 | the route is for the target's network; its source is the assigned address given, or the first one whose subnet holds the next hop; each of the two errors exactly under its condition; every route still is a network's and leaves from an assigned address |
| Worker.InterfaceWorker.ProbePending | lib/src/runtime/interface/worker.rs:122-172 | the in-place loop is the pass, turn by turn: claims kept, replies, addresses and routes, with every add answered once or pending; what the pass decides is PassClaims |
| Worker.InterfaceWorker.Conclude | lib/src/runtime/interface/worker.rs:129-170 | one turn in place: the claim, its reply, the address table, the routes and the announcement change together as the turn decides; what it decides is TurnClaims |
| WorkerRuns.TurnClaims | lib/src/runtime/interface/worker.rs:122-172 | by the address's ARP entry and the clock: a turn assigns the address, with the route to its subnet, the answer Done and an announcement, exactly when it is timed out for no more than 30 s or out of its five retries; it answers InUse exactly when another host was heard to hold it under 30 s ago, CheckFailed exactly when a request is due and finds no room, and else keeps the claim and all tables |
| WorkerRuns.PassClaims | lib/src/runtime/interface/worker.rs:122-172 | over a whole pass, for claims of different addresses: each is decided by the entry its address has at the start, and its turn's clock |
| WorkerRuns.HeardNotAssigned | lib/src/runtime/interface/worker.rs:122-202 | from any state of the worker: for a minute after another host was heard to hold an address, whatever handlers run and whatever the worker is asked to do, the address is not assigned |
| WorkerRuns.AnnouncedNotAssigned | lib/src/runtime/interface/worker.rs:122-187 | in every run, any ARP message from the address a claim waits for keeps it from being assigned for a minute: while a claim waits its address is listened for |
| WorkerRuns.Perform | lib/src/runtime/interface/worker.rs:94-172 | the worker's own turns are the steps of that machine |
| WorkerRuns.AssignedTwice | lib/src/runtime/interface/worker.rs:174-202 | a run in which an address added twice is assigned twice, and one removal leaves it assigned |
| Worker.InterfaceWorker.SendIp | lib/src/runtime/interface/l3_ipv4.rs:108-145 | the three refusals with no effect; otherwise the longest-prefix route's gateway, or the destination where it has none, is the hop whose ARP entry is asked, for which the packet is accepted or not, and behind which it queues; every other hop's entry and queue stay as they were; an unspecified source becomes the route's, an assigned address; the frame assertion fails exactly under its condition |
| Worker.RefusesExactly | lib/src/runtime/interface/l3_ipv4.rs:108-145 | refused exactly below eight octets, beyond the MTU less 20, or when no network holds the destination, in that order |
| Worker.AdmittedButTooLong | lib/src/runtime/interface/l3_ipv4.rs:117-128 | for a known hop the packets let through that break the Ethernet layer's assertion are exactly those longer than MTU - 34 |
| Pinging.UnwrapExactly | lib/src/runtime/interface/l4_managers/ping.rs:359-378 | unwrapping the low 16 bits gives the index back exactly when it is within -32768 and 32767 of the count, modulo 2^64 |
| Pinging.EveryRun | lib/src/runtime/interface/l4_managers/ping.rs:199-347 | over every run of a session each ping sent is pending or settled, once; pending is in order of index and send time; successes and timeouts reported are those of the settled pings |
| Pinging.ReportedIndex | lib/src/runtime/interface/l4_managers/ping.rs:359-378 | a result carries its ping's own index if, and short of a 64-bit count only if, at most 32768 were sent since |
| Pinging.ReplySettlesItsPing | lib/src/runtime/interface/l4_managers/ping.rs:260-298 | within a window of 65536 a reply or an error settles the very ping it is for |
| Pinging.TimeOutExactly | lib/src/runtime/interface/l4_managers/ping.rs:204-219 | though the loop looks at the front only, exactly the pings older than the timeout go; that they end as timed out is PingRuns.StepEnds |
| Pinging.CollectedExactly | lib/src/runtime/interface/l4_managers/ping.rs:349-357 | a session is collected exactly when its whole count has been sent and every ping has ended |
| Pinging.ErrorReports | lib/src/runtime/interface/l4_managers/ping.rs:320-345 | an error always yields one report, and settles a ping exactly when its number is pending |
| Pinging.ReportedTwice | lib/src/runtime/interface/l4_managers/ping.rs:324-345 | a ping answered and then reported unreachable |
| PingRuns.StepEnds | lib/src/runtime/interface/l4_managers/ping.rs:199-347 | every ping an event ends it ends for its own reason and reports as that: a tick a ping more than ten seconds old as timed out, an answer one of its number as a success, an error one of its number as unreachable |
| PingRuns.OutcomesExplained | lib/src/runtime/interface/l4_managers/ping.rs:199-347 | over every run: a success stems from an answer under the ping's number, a timeout from a tick more than ten seconds after the tick that sent it, an unreachable from an error of its number |
| PingRuns.NoReplyNoSuccess | lib/src/runtime/interface/l4_managers/ping.rs:260-298 | a run without an answer reports no success |
| PingRuns.DueSentExactly | lib/src/runtime/interface/l4_managers/ping.rs:221-257 | a turn sends a ping exactly when one is left, more than an interval has passed since the last, and the network takes it: the next number, last in the window, at that time |
| PingRuns.DeadlineExactly | lib/src/runtime/interface/l4_managers/ping.rs:204-257 | the deadline asked for comes no later than the session's next business exactly when: a ping was sent, no other is pending, and none is left or they are ten seconds apart; or none was sent, and it is no later than the oldest pending ping's timeout |
| PingRuns.SecondPingLate | lib/src/runtime/interface/l4_managers/ping.rs:245-257 | three pings a second apart: after the first the deadline is ten seconds off |
| PingManagers.PingEntry.ProcessTimers | lib/src/runtime/interface/l4_managers/ping.rs:199-258 | in place, the timeout loop, the send step and the deadline are those of the turn, which StepEnds, DueSentExactly and DeadlineExactly describe |
| PingManagers.PingEntry.OnReply | lib/src/runtime/interface/l4_managers/ping.rs:264-295 | removes and reports the first pending ping of that number, or nothing |
| PingManagers.PingManager.OnEchoReply | lib/src/runtime/interface/l4_managers/ping.rs:260-298 | ends the thread exactly when a ping of that number is pending and its time data fails; else touches only the session of that target and identifier, reports the duration measured, then collects |
| EchoTime.TimeRoundTrip | lib/src/protocols/ipv4/icmp.rs:228-308 | the time written comes back whole, in any build, exactly when it has no fraction of a microsecond and its instant is in range; the octets that stand for no instant are never one |
| EchoTime.OwnEchoMeasured | lib/src/runtime/interface/l4_managers/ping.rs:275-290 | the answer to a request of this stack's own is measured as the time since boot now less then |
| EchoTime.MeasuresExactly | lib/src/runtime/interface/l4_managers/ping.rs:275-290 | the duration by data and clocks: none without an instant, by the time since boot where that is later, else by the system's clock, which fails before the epoch |
| PingManagers.PingManager.OnAsyncSendError | lib/src/runtime/interface/l4_managers/ping.rs:300-347 | reads type, code, identifier and sequence from the first eight octets; ignores all but echo requests |
| PingManagers.PingManager.PerformTimers | lib/src/runtime/interface/l4_managers/ping.rs:174-197 | stopped sessions go, every other takes one turn at one time, finished ones are collected; the deadline is the earliest asked for |
| PingManagers.PingManager.GarbageCollect | lib/src/runtime/interface/l4_managers/ping.rs:349-357 | keeps exactly the sessions with pings to send or to wait for |
| PortBinding.BindableExactly | lib/src/runtime/interface/l4_managers/udp/port_binding.rs:86-155 | for IPv4, IPv6, dual-stack and reuse alike: bindable exactly when every binding some address also reaches agrees on reuse |
| PortBinding.OverlapExactly | lib/src/runtime/interface/l4_managers/udp/port_binding.rs:60-71 | the case analysis of the checks is overlap of address sets |
| PortBinding.ListensExactly | lib/src/runtime/interface/l4_managers/udp/port_binding.rs:60-84 | a binding of an unspecified address receives for every address, or its family's; one of a specific address for that one |
| PortBinding.InsertKeeps | lib/src/runtime/interface/l4_managers/udp/port_binding.rs:165-199 | a guarded insert keeps: overlapping bindings of a port both allow reuse |
| PortBinding.RemoveKeeps | lib/src/runtime/interface/l4_managers/udp/port_binding.rs:201-205 | so does a removal |
| PortBinding.FindIsUnique | lib/src/runtime/interface/l4_managers/udp/port_binding.rs:157-163 | a lookup that reaches an exclusive binding reaches no other |
| PortBinding.FallbackFindsNothing | lib/src/runtime/interface/l4_managers/udp/manager.rs:160-175 | the second lookup, by the unspecified address, never finds a socket the first missed |
| PortBinding.PortBindings.Insert | lib/src/runtime/interface/l4_managers/udp/port_binding.rs:230-244 | only that port's vector changes, by one binding at its end |
| PortBinding.PortBindings.Remove | lib/src/runtime/interface/l4_managers/udp/port_binding.rs:252-256 | only the first binding of that very address goes |
| PortBinding.PortBindings.Receiver | lib/src/runtime/interface/l4_managers/udp/manager.rs:160-175 | the two lookups amount to the first |
| UdpDispatch.OwnHandle | lib/src/runtime/interface/l4_managers/udp/manager.rs:218-224 | for a live socket the lookup by its id's address is its own handle |
| UdpDispatch.RemoveReleases | lib/src/runtime/interface/l4_managers/udp/port_binding.rs:201-205 | removing by address releases the live socket bound to it and no other |
| UdpDispatch.BindKeeps | lib/src/runtime/interface/l4_managers/udp/manager.rs:43-128 | a bind, successful or not, keeps the dispatch invariant |
| UdpDispatch.BindExactly | lib/src/runtime/interface/l4_managers/udp/manager.rs:43-93 | a bind keeps the address and port asked for, or gets the first of the ports drawn that no binding overlaps, under the first free id; each of the three errors exactly under its condition, an explicit port in use with AddrInUse |
| UdpDispatch.PopKeeps | lib/src/runtime/interface/l4_managers/udp/handle.rs:211-245 | so does draining one message of whichever ring an id, stale or not, leads to |
| UdpDispatch.SkipKeeps | lib/src/runtime/interface/l4_managers/udp/manager.rs:213-224 | and a dispatch that finds nothing |
| UdpDispatch.PushKeeps | lib/src/runtime/interface/l4_managers/udp/context.rs:76-91 | and a push, of data or of the final Drop, into a ring full or not |
| UdpDispatch.EveryRun | lib/src/runtime/interface/l4_managers/udp/manager.rs:43-224 | in every interleaving of binds, pushes, drops and dispatches no live socket's message is stranded, rings are FIFO, and a released socket has nothing left |
| UdpDispatch.AtRestAllDelivered | lib/src/runtime/interface/l4_managers/udp/manager.rs:205-224 | whenever all threads rest, all that any socket ever sent has been delivered in order |
| UdpDispatch.SentIsDelivered | lib/src/runtime/interface/l4_managers/udp/context.rs:76-91 | what an open socket sends, its Drop included, and finds room for has been delivered when all threads rest, right behind all it sent before |
| UdpRelease.DropReleases | lib/src/runtime/interface/l4_managers/udp/manager.rs:216-220 | a popped Drop releases its socket exactly when the dispatched id was bound to that socket's own address |
| UdpRelease.LostExactly | lib/src/runtime/interface/l4_managers/udp.rs:440-444 | over every action: a closed socket stays bound with no Drop under way exactly when it already did, was just closed with its ring full, or had its Drop popped for an id of another address |
| UdpRelease.LostInRun | lib/src/runtime/interface/l4_managers/udp/context.rs:76-91 | in a run, exactly when one of its actions was of those two kinds |
| UdpRelease.BoundAtRestExactly | lib/src/runtime/interface/l4_managers/udp/manager.rs:205-224 | whenever all threads rest, a closed socket is still bound exactly when one of the actions lost its binding |
| UdpRelease.LiveAddressTaken | lib/src/runtime/interface/l4_managers/udp/manager.rs:43-82 | and as long as it is, nobody can bind its address |
| UdpRelease.IdsStay | lib/src/runtime/interface/l4_managers/udp/manager.rs:83-93 | an id once assigned keeps its address for ever |
| UdpRelease.AssignedInRun | lib/src/runtime/interface/l4_managers/udp/manager.rs:83-93 | a run assigns as many ids as it has successful binds |
| UdpRelease.ExhaustedRefuses | lib/src/runtime/interface/l4_managers/udp/manager.rs:83-93 | after any run a bind for which a free port is found is refused for want of an id exactly when the successful binds so far number the ids, whatever has been dropped |
| UdpLeak.IdsRunOut | lib/src/runtime/interface/l4_managers/udp/manager.rs:83-93 | a run that gets there, for any number of ids |
| UdpRelease.LeakedForever | lib/src/runtime/interface/l4_managers/udp/manager.rs:205-224 | from the moment its binding is lost a closed socket stays bound in every continuation |
| UdpLeak.DropLeaks | lib/src/runtime/interface/l4_managers/udp/manager.rs:205-224 | a run that gets there: the stale id of an old socket pops a new socket's Drop |
| UdpLeak.FullRingLeaks | lib/src/runtime/interface/l4_managers/udp.rs:440-444 | a run that gets there the other way, for any capacity: a socket fills its ring and is dropped |
| UdpManagers.VisitIsDispatch | lib/src/runtime/interface/l4_managers/udp/handle.rs:211-245 | one id's visit in the interleaved machine, message by message, is one dispatch |
| UdpManagers.PassIsDispatchAll | lib/src/runtime/interface/l4_managers/udp/manager.rs:205-224 | a whole pass of the machine is the dispatch of the ready ids in order |
| UdpManagers.UdpManager.Bind | lib/src/runtime/interface/l4_managers/udp/manager.rs:43-128 | the result and the changes of a bind; a refused one changes nothing |
| UdpManagers.UdpManager.ChooseEphemeral | lib/src/runtime/interface/l4_managers/udp/manager.rs:52-68 | the first free port among 128 draws, None exactly when none is free |
| UdpManagers.UdpManager.DrainSend | lib/src/runtime/interface/l4_managers/udp/handle.rs:211-245 | pops up to and including the first Drop, in order, and asks for removal exactly then |
| UdpManagers.UdpManager.ProcessBuffers | lib/src/runtime/interface/l4_managers/udp/manager.rs:205-224 | swaps all bits to zero and dispatches exactly the assigned ids among them, lowest first |
| BlockingReceive.EveryRun | lib/src/runtime/interface/l4_managers/udp.rs:66-92 | in every interleaving with the interface thread a socket that sleeps or is about to while its ring holds a datagram has a wake of its own thread coming, also across a change of the registered handle or of the calling thread; what arrived is received or in the ring, in order |
| BlockingReceive.ParkedMeansEmpty | lib/src/runtime/interface/l4_managers/udp.rs:66-92 | so a socket parked with no wake coming has received all that arrived |
| BlockingReceive.WaitingReceives | lib/src/runtime/interface/l4_managers/udp/handle.rs:211-245 | from any reachable state, once the handler has worked off its messages, a sleeping call returns with the first datagram |
| BlockingSend.BlockingReturns | lib/src/runtime/interface/l4_managers/udp.rs:380-408 | from any reachable state a blocking send returns once the handler has worked off its messages: its wake is never lost |
| BlockingSend.OwnResultExactly | lib/src/runtime/interface/l4_managers/udp/messages.rs:37-73 | whatever the interleaving a blocking send returns after its own datagram was handled, with that one's result, exactly when it starts with the slot empty and nothing under way that fills it |
| BlockingSend.OtherSendsResult | lib/src/runtime/interface/l4_managers/udp/handle.rs:174-209 | a run in which a blocking send returns the error of a non-blocking one before it |
| BlockingSend.NonBlockingReports | lib/src/runtime/interface/l4_managers/udp/handle.rs:174-209 | a non-blocking send leaves exactly an unreachable network or host for the next call to report, which refuses the next send, once |
| Checksum.FoldIsModulo | lib/src/protocols/udp.rs:43-69 | end-around carry computes the sum modulo 0xFFFF, zero only for zero |
| Checksum.WordSumAppend | lib/src/protocols/udp.rs:49-59 | the sum of a concatenation is the sum of its pieces when the first has even length |
| Checksum.CompareVersusVerify | lib/src/protocols/ipv4.rs:370-377 | recomputing and comparing accepts exactly what RFC 1071 verifies and does not store 0xFFFF |
| Ipv4Header.AcceptsExactlyVerified | lib/src/protocols/ipv4.rs:355-394 | with at least five words: accepted exactly when long enough, verified, and not storing 0xFFFF; never a panic |
| Ipv4Header.PanicsExactly | lib/src/protocols/ipv4.rs:355-394 | in octets, exactly when the parser indexes out of range |
| Ipv4Header.WriteToBuffer | lib/src/protocols/ipv4.rs:425-452 | the octets appended are the fields in wire order, the type of service packed, with the checksum patched in |
| Ipv4Header.PackedRoundTrip | lib/src/protocols/ipv4.rs:355-452 | what is written parses back to the header with its checksum, whatever follows, exactly when the packing keeps its type of service, its offset fits 13 bits and its protocol is canonical |
| Ipv4Header.NewRoundTrip | lib/src/protocols/ipv4.rs:324-353 | a header from `new` survives the wire exactly when its protocol is canonical |
| WireExamples.HeaderWritten | lib/src/protocols/ipv4.rs:324-452 | a known header of RFC 791, octet for octet |
| WireExamples.ServiceOctet | lib/src/protocols/ipv4.rs:129-163 | the type of service, bit by bit as RFC 791 has it |
| WireExamples.FragmentRead | lib/src/protocols/ipv4.rs:200-234 | a known fragment's identification, flags and offset |
| Icmp.WriteToBuffer | lib/src/protocols/ipv4/icmp.rs:545-564 | the octets of an echo message as encoded, after what the buffer held |
| Icmp.EchoRoundTrip | lib/src/protocols/ipv4/icmp.rs:469-564 | every echo message survives the wire |
| Icmp.ReplyToRequest | lib/src/protocols/ipv4/icmp.rs:462-467 | the reply to any accepted request has its length and octets from the fourth on, and is accepted with its identifier, number and data |
| Icmp.AcceptsExactlyVerified | lib/src/protocols/ipv4/icmp.rs:469-526 | a request is accepted exactly when verified and not storing 0xFFFF |
| Icmp.PanicsExactly | lib/src/protocols/ipv4/icmp.rs:61-95 | the parser panics exactly on an unreachable message, checksum right, whose embedded header makes the header's parser panic |
| Icmp.UnreachableSpans | lib/src/protocols/ipv4/icmp.rs:61-95 | an unreachable message is accepted only with a known code, a whole accepted header and the eight octets after it, which are what it hands on |
| Icmp.AcceptsExactly | lib/src/protocols/ipv4/icmp.rs:61-526 | under the right checksum, exactly which types and codes are accepted, and as what |
| WireExamples.EchoWritten | lib/src/protocols/ipv4/icmp.rs:545-564 | a known echo request and reply, octet for octet |
| UdpHeader.ComputeChecksumV4 | lib/src/protocols/udp.rs:43-69 | the piecewise sum is that of pseudo-header, header and data, with zero sent as 0xFFFF |
| UdpHeader.ValidatesExactly | lib/src/protocols/udp.rs:71-78 | the computed value is never zero; non-zero checksums are accepted exactly when the sum folds to 0xFFFF; zero never |
| UdpHeader.SendThenReceive | lib/src/protocols/udp.rs:26-88 | what is sent with its checksum is read back and accepted |
| WireExamples.DatagramWritten | lib/src/protocols/udp.rs:26-88 | a known datagram of RFC 768 with its checksum, octet for octet |
| Delivery.SentIsReceived | lib/src/runtime/interface/l3_ipv4.rs:23-63 | a packet sent to an address of the receiver arrives whole, whatever padding follows it |
| Acceptance.AcceptableExactly | lib/src/runtime/interface/l3_ipv4.rs:13-21 | by addresses and prefix lengths: a host receives for its own addresses and the last ones of their subnets, multicast groups excepted, and for 255.255.255.255, and for nothing else |
| Acceptance.OwnAddressReceived | lib/src/runtime/interface/l3_ipv4.rs:13-63 | every packet to an address of its own arrives |
| Delivery.ReceivePanicsExactly | lib/src/runtime/interface/l3_ipv4.rs:23-84 | in octets, exactly which packets make the parsing of header, payload and ICMP message panic |
| Delivery.PacketsThatPanic | lib/src/runtime/interface/l3_ipv4.rs:23-84 | three such: a lone octet, a header whose payload did not come, an unreachable message with nothing in it |
| Delivery.DemultiplexCrashesExactly | lib/src/runtime/interface/l4_managers/udp/manager.rs:130-148 | exactly which UDP payloads do, with one |
| Delivery.UdpEndToEnd | lib/src/runtime/interface/l4_managers/udp/manager.rs:130-203 | a datagram one stack sends, the other delivers unchanged and under the sender's address to exactly the live socket bound to where it was sent, unless that is connected elsewhere |
| Delivery.BoundIsFound | lib/src/runtime/interface/l4_managers/udp/manager.rs:160-175 | a live socket is the one found for every address it is bound to |
| Delivery.DeliveredSoundly | lib/src/runtime/interface/l4_managers/udp/manager.rs:130-203 | only a datagram RFC 768 verifies is delivered, to a live socket bound to its destination, with the data its length spans |
| Reception.RecvPanicsExactly | lib/src/runtime/interface/l3_ipv4.rs:23-145 | over every packet, state and build, in octets: receiving ends the thread exactly when header or lengths cannot be read, a UDP length does not fit, an unreachable message's header cannot be read, an echo answer is too long for the frame of a known hop, or the answer to a pending ping carries time data that fails |
| Reception.ReplyThatPanics | lib/src/runtime/interface/l4_managers/ping.rs:260-298 | such a packet for any pending ping: its answer with time data of all ones |
| Reception.RequestThatPanics | lib/src/runtime/interface/l3_ipv4.rs:65-145 | such a packet for any MTU: a request that fills it, from behind a known hop |
| Reception.EchoEndToEnd | lib/src/runtime/interface/l3_ipv4.rs:65-145 | an echo request leads to no answer exactly when `send` refuses one, ends the thread exactly under its condition, and else to an answer to the gateway of the best route, or the asker where it has none, that is read as the reply of the address asked with the same identifier, number and data |
| Reception.AnswerRouted | lib/src/runtime/interface/l3_ipv4.rs:108-145 | that answer is accepted for the gateway where the best route has one, for the asker where it has none; all other hops' entries and queues stay as they were |
| Reception.PingIsAnswered | lib/src/runtime/interface/l4_managers/ping.rs:260-298 | whenever that answer is sent and arrives, it settles the very ping it is for as a success, in any build without a panic, and is measured as the time since that ping was sent |
| Reception.UdpReachesCaller | lib/src/runtime/interface/l4_managers/udp/manager.rs:130-203 | a datagram sent to a live socket is what the call sleeping on it returns with, under the sender's address |
| Dhcp.FromBytes | lib/src/protocols/ipv4/dhcp.rs:587-629 | the loop terminates in bounds and returns the scan of the field |
| Dhcp.ScanEnded | lib/src/protocols/ipv4/dhcp.rs:587-629 | options and pads up to an End come back exactly, whatever follows the End |
| Dhcp.ScanUnended | lib/src/protocols/ipv4/dhcp.rs:605-616 | without an End all but a last option come back; complete exactly when the last item is a pad or does not decode |
| Dhcp.ScanTruncated | lib/src/protocols/ipv4/dhcp.rs:587-629 | a truncated field gives a prefix of the options |
| Dhcp.SplitEncodes | lib/src/protocols/ipv4/dhcp.rs:587-629 | any field at all is the encoding of some items and then nothing, an End, or an option too long for it |
| Dhcp.ScanIsSplit | lib/src/protocols/ipv4/dhcp.rs:587-629 | and the scan returns the decodable options among those items |
| Dhcp.OptionRoundTrip | lib/src/protocols/ipv4/dhcp.rs:420-572 | every well-formed option decodes from its own data |
| Dhcp.DecodesExactly | lib/src/protocols/ipv4/dhcp.rs:420-572 | per code of RFC 2132, exactly which data decodes |
| Dhcp.DecodesAs | lib/src/protocols/ipv4/dhcp.rs:420-572 | and as what kind of value: the codes of each kind, and all of the data but an incomplete element |
| Dhcp.LeaseField | lib/src/protocols/ipv4/dhcp.rs:420-629 | a known field, octet for octet |
| Dhcp.DecodesWellFormed | lib/src/protocols/ipv4/dhcp.rs:420-572 | whatever decodes is well-formed and is all of the data but an incomplete last list element |
| Dhcp.FieldRoundTrip | lib/src/protocols/ipv4/dhcp.rs:420-629 | any list of well-formed options, pads interleaved, with an End, comes back in order |

## Left out

- Ipv4Header.PackedRoundTrip: how the type of service is packed into its octet is a parameter, because the bit-packing macro is not part of this model; `IPv4Header::new` builds only Routine, which is written as 0.
- Icmp.FromBytes: does not model the contents of source-quench, redirect, time-exceeded and parameter-problem messages, which are only logged; control messages are never written.
- UdpHeader.ComputeChecksumV4: does not model a length field that exceeds the data, because the slice of the data would panic; `Delivery` shows that the receive path slices, and so panics, earlier.
- PingManagers.PingManager.Ping: does not model the loop that draws identifiers until one is free, because nothing bounds it; the identifier drawn last is a parameter.
- PingManagers.PingManager: holds its sessions as values; `PingEntry` is the in-place form of one session, so aliasing through the session map is not modelled.
- PortBinding.PortBindings: stands a map in for the array of 65536 optional boxes.
- UdpManagers.UdpManager.DrainSend: does not model what a message other than Drop does; it is recorded as delivered. What sends leave in the result slot and what registering a wake handle does are `BlockingSend` and `BlockingReceive`; connecting, a loop over the addresses given, is left out.
- UdpDispatch.EveryRun: an `unpark` leaves a permit for the interface thread; what that thread does between passes, other than binding, is not modelled.
- Network.SendPath: the network thread's bridge is not modelled; what it is handed is recorded in order.
- Worker.InterfaceWorker: the order in which control messages arrive is the caller's; the message that removes a route is unimplemented in the code.
- IPv6, TCP, fragmentation, DHCP message builders and the DHCP client are unfinished in the code.
- The Ethernet and ARP codecs, the buffer pool, the mailbox of send results and TAP input and output would add only easy members.
- Acquire and release orderings: all accesses are sequentially consistent here.
- The ring buffer, the checksum crate and the library's binary search are not part of this model; a bounded FIFO, the RFC 1071 sum and a search proved against its contract stand in for them.
- The histogram a ping session keeps of its durations, and the text of its unreachable reports.
