/** The lock-free hand-off from the interface threads to the network thread
    (lib/src/runtime/channel.rs and network.rs): push into a ring, set the ring's
    bit, wake the consumer; the consumer swaps the bit words to zero one at a time
    and drains the rings they name. Every atomic access is one event; an event
    that is not enabled changes nothing, so every event sequence is a run. */
module Doorbell {
  /** Where a producer is inside try_send. */
  datatype ProducerPc = Idle | Pushed | Rang

  datatype ConsumerPc =
    | Waiting
    | Swapping(word: nat, captured: set<nat>)
    | Draining(left: set<nat>)

  datatype State<!M> = State(
    words: nat, capacity: nat, timeouts: bool, // constants of the instance
    rings: seq<seq<M>>, producers: seq<ProducerPc>, bits: set<nat>, wake: bool, consumer: ConsumerPc,
    accepted: seq<seq<M>>, delivered: seq<seq<M>>)

  datatype Event<!M> =
    | TryPush(id: nat, message: M)
    | FetchOr(id: nat)
    | Wake(id: nat)
    | Start
    | SwapWord
    | TryPop
    | Finish

  predicate Producer<M>(s: State<M>, id: nat, pc: ProducerPc)
  {
    id < |s.producers| && s.producers[id] == pc
  }

  /** The lowest captured id is serviced first: the bit iterator is ascending. */
  predicate Lowest(left: set<nat>, id: nat)
  {
    id in left && forall j :: j in left ==> id <= j
  }

  lemma LowestExists(left: set<nat>)
    requires left != {}
    ensures exists id :: Lowest(left, id)
  {
    var x :| x in left;
    if left == {x} {
      assert Lowest(left, x);
    } else {
      LowestExists(left - {x});
      var y :| Lowest(left - {x}, y);
      assert forall j :: j in left ==> j == x || j in left - {x};
      assert Lowest(left, if x < y then x else y);
    }
  }

  ghost function Next(left: set<nat>): (id: nat)
    requires left != {}
    ensures Lowest(left, id)
  {
    LowestExists(left);
    var id :| Lowest(left, id);
    id
  }

  ghost function Apply<M>(s: State<M>, e: Event<M>): (s': State<M>)
    requires WellFormed(s)
    ensures WellFormed(s')
  {
    match e
    case TryPush(id, m) =>
      // A full ring rejects the message: no bit, no wake.
      if Producer(s, id, Idle) && |s.rings[id]| < s.capacity
      then s.(rings := s.rings[id := s.rings[id] + [m]], accepted := s.accepted[id := s.accepted[id] + [m]],
              producers := s.producers[id := Pushed])
      else s
    case FetchOr(id) =>
      if Producer(s, id, Pushed)
      then s.(bits := s.bits + {id}, producers := s.producers[id := Rang]) else s
    case Wake(id) =>
      if Producer(s, id, Rang)
      then s.(wake := true, producers := s.producers[id := Idle]) else s
    case Start =>
      if s.consumer.Waiting? && (s.wake || s.timeouts)
      then s.(wake := false, consumer := Swapping(0, {})) else s
    case SwapWord =>
      if !s.consumer.Swapping? then s
      else if s.consumer.word < s.words then
        var taken := set i | i in s.bits && i / 64 == s.consumer.word;
        s.(bits := s.bits - taken, consumer := Swapping(s.consumer.word + 1, s.consumer.captured + taken))
      else s.(consumer := Draining(s.consumer.captured))
    case TryPop =>
      if !s.consumer.Draining? || s.consumer.left == {} then s
      else
        var id := Next(s.consumer.left);
        // A bit for an empty sender slot, and a ring seen empty, both end the visit.
        if id >= |s.rings| || s.rings[id] == [] then s.(consumer := Draining(s.consumer.left - {id}))
        else s.(rings := s.rings[id := s.rings[id][1..]],
                delivered := s.delivered[id := s.delivered[id] + [s.rings[id][0]]])
    case Finish =>
      if s.consumer == Draining({}) then s.(consumer := Waiting) else s
  }

  ghost function Run<M>(s: State<M>, events: seq<Event<M>>): (s': State<M>)
    requires WellFormed(s)
    ensures WellFormed(s')
    decreases |events|
  {
    if events == [] then s else Run(Apply(s, events[0]), events[1..])
  }

  lemma RunCons<M>(s: State<M>, e: Event<M>, rest: seq<Event<M>>)
    requires WellFormed(s)
    ensures Run(s, [e] + rest) == Run(Apply(s, e), rest)
  {
    assert ([e] + rest)[1..] == rest;
  }

  function TrySend<M>(id: nat, message: M): seq<Event<M>>
  {
    [TryPush(id, message)] + ([FetchOr(id)] + ([Wake(id)] + []))
  }

  /** What try_send amounts to when nothing interleaves with it. */
  function Sent<M>(s: State<M>, id: nat, message: M): State<M>
    requires WellFormed(s) && Producer(s, id, Idle)
  {
    if |s.rings[id]| < s.capacity
    then s.(rings := s.rings[id := s.rings[id] + [message]], accepted := s.accepted[id := s.accepted[id] + [message]],
            bits := s.bits + {id}, wake := true)
    else s
  }

  lemma UninterruptedSend<M>(s: State<M>, id: nat, message: M)
    requires WellFormed(s) && Producer(s, id, Idle)
    ensures Run(s, TrySend(id, message)) == Sent(s, id, message)
  {
    var s1 := Apply(s, TryPush(id, message));
    var s2 := Apply(s1, FetchOr(id));
    var s3 := Apply(s2, Wake(id));
    RunCons(s, TryPush(id, message), [FetchOr(id)] + ([Wake(id)] + []));
    RunCons(s1, FetchOr(id), [Wake(id)] + []);
    RunCons(s2, Wake(id), []);
    assert s3.producers == s.producers;
  }

  predicate WellFormed<M>(s: State<M>)
  {
    |s.rings| == |s.producers| == |s.accepted| == |s.delivered|
  }

  function Init<M>(senders: nat, words: nat, capacity: nat, timeouts: bool): (s: State<M>)
    ensures WellFormed(s)
  {
    State(words, capacity, timeouts, seq(senders, _ => []), seq(senders, _ => Idle), {}, false, Waiting,
          seq(senders, _ => []), seq(senders, _ => []))
  }

  /** The consumer holds id's bit and has not yet seen its ring empty. */
  predicate Captured<M>(s: State<M>, id: nat)
  {
    match s.consumer
    case Waiting => false
    case Swapping(_, captured) => id in captured
    case Draining(left) => id in left
  }

  /** No stranded packet. */
  ghost predicate RingsAreRung<M>(s: State<M>)
    requires WellFormed(s)
  {
    forall id :: 0 <= id < |s.rings| && s.rings[id] != [] ==>
      id in s.bits || Producer(s, id, Pushed) || Captured(s, id)
  }

  /** No bit without a wake: one pending, one about to be posted, or a consumer that
      has yet to swap the bit's word. */
  ghost predicate BitsAreHeard<M>(s: State<M>)
  {
    forall id :: id in s.bits ==>
      s.wake || Producer(s, id, Rang) || (s.consumer.Swapping? && s.consumer.word <= id / 64)
  }

  ghost predicate InRange<M>(s: State<M>)
    requires WellFormed(s)
  {
    |s.rings| <= 64 * s.words && forall id :: id in s.bits ==> id < |s.rings|
  }

  ghost predicate InOrderAt<M>(s: State<M>, id: nat)
    requires WellFormed(s) && id < |s.rings|
  {
    s.delivered[id] + s.rings[id] == s.accepted[id] && |s.rings[id]| <= s.capacity
  }

  /** What was delivered from a ring, then what is still in it, is exactly what was
      accepted into it, in order; and a ring never outgrows its capacity. */
  ghost predicate InOrder<M>(s: State<M>)
    requires WellFormed(s)
  {
    forall id :: 0 <= id < |s.rings| ==> InOrderAt(s, id)
  }

  ghost predicate Inv<M>(s: State<M>)
  {
    WellFormed(s) && InRange(s) && RingsAreRung(s) && BitsAreHeard(s) && InOrder(s)
  }

  lemma RungStep<M>(s: State<M>, e: Event<M>)
    requires WellFormed(s) && InRange(s) && RingsAreRung(s)
    ensures RingsAreRung(Apply(s, e))
  {
    var s' := Apply(s, e);
    forall id | 0 <= id < |s'.rings| && s'.rings[id] != []
      ensures id in s'.bits || Producer(s', id, Pushed) || Captured(s', id)
    {
      if e.TryPush? && id == e.id {} else { assert s.rings[id] != []; }
    }
  }

  lemma HeardStep<M>(s: State<M>, e: Event<M>)
    requires WellFormed(s) && InRange(s) && BitsAreHeard(s)
    ensures BitsAreHeard(Apply(s, e)) && InRange(Apply(s, e))
  {
    var s' := Apply(s, e);
    forall id | id in s'.bits
      ensures id < |s'.rings|
      ensures s'.wake || Producer(s', id, Rang) || (s'.consumer.Swapping? && s'.consumer.word <= id / 64)
    {
      if id in s.bits { assert id < |s.rings|; }
    }
  }

  lemma PushInOrder<M>(s: State<M>, id: nat, m: M, i: nat)
    requires WellFormed(s) && i < |s.rings| && InOrderAt(s, i)
    ensures InOrderAt(Apply(s, TryPush(id, m)), i)
  {
  }

  lemma PopInOrder<M>(s: State<M>, i: nat)
    requires WellFormed(s) && i < |s.rings| && InOrderAt(s, i)
    ensures InOrderAt(Apply(s, TryPop), i)
  {
  }

  lemma RestInOrder<M>(s: State<M>, e: Event<M>)
    requires WellFormed(s) && !e.TryPush? && !e.TryPop?
    ensures var s' := Apply(s, e);
            s'.rings == s.rings && s'.delivered == s.delivered && s'.accepted == s.accepted && s'.capacity == s.capacity
  {
  }

  lemma OrderStep<M>(s: State<M>, e: Event<M>)
    requires WellFormed(s) && InOrder(s)
    ensures InOrder(Apply(s, e))
  {
    forall i | 0 <= i < |s.rings| ensures InOrderAt(Apply(s, e), i) {
      assert InOrderAt(s, i);
      match e
      case TryPush(id, m) => PushInOrder(s, id, m, i);
      case TryPop => PopInOrder(s, i);
      case _ => RestInOrder(s, e);
    }
  }

  lemma Step<M>(s: State<M>, e: Event<M>)
    requires Inv(s)
    ensures Inv(Apply(s, e))
  {
    RungStep(s, e);
    HeardStep(s, e);
    OrderStep(s, e);
  }

  /** Every interleaving keeps the hand-off's invariant. */
  lemma {:induction false} EveryRun<M>(s: State<M>, events: seq<Event<M>>)
    requires Inv(s)
    ensures Inv(Run(s, events))
    decreases |events|
  {
    if events != [] {
      Step(s, events[0]);
      EveryRun(Apply(s, events[0]), events[1..]);
    }
  }

  /** Nothing left for anyone to do. */
  ghost predicate Quiescent<M>(s: State<M>)
  {
    && (forall id :: 0 <= id < |s.producers| ==> s.producers[id] == Idle)
    && s.consumer.Waiting? && !s.wake
  }

  /** When all threads have come to rest, everything accepted has been delivered,
      ring by ring in order. */
  lemma AtRestAllDelivered<M>(senders: nat, words: nat, capacity: nat, timeouts: bool, events: seq<Event<M>>)
    requires senders <= 64 * words
    ensures var s := Run(Init(senders, words, capacity, timeouts), events);
            Quiescent(s) ==> s.bits == {} && s.delivered == s.accepted
  {
    var init: State<M> := Init(senders, words, capacity, timeouts);
    EveryRun(init, events);
    var s := Run(init, events);
    if Quiescent(s) {
      assert forall id :: id in s.bits ==> id < |s.rings|;
      forall id | 0 <= id < |s.rings| ensures s.delivered[id] == s.accepted[id] {
        assert s.rings[id] == [];
        assert InOrderAt(s, id);
      }
    }
  }

  ghost predicate AcceptsMore<M>(s: State<M>, s': State<M>)
  {
    |s'.accepted| == |s.accepted| && forall id :: 0 <= id < |s.accepted| ==> s.accepted[id] <= s'.accepted[id]
  }

  lemma {:induction false} AcceptedGrows<M>(s: State<M>, events: seq<Event<M>>)
    requires WellFormed(s)
    ensures AcceptsMore(s, Run(s, events))
    decreases |events|
  {
    if events != [] {
      assert AcceptsMore(s, Apply(s, events[0]));
      AcceptedGrows(Apply(s, events[0]), events[1..]);
    }
  }

  /** A message that found room, whatever had happened before and whatever happens after,
      has been delivered when all threads come to rest, right behind all that its sender
      sent before it; one that found none leaves no trace. */
  lemma SentIsDelivered<M>(senders: nat, words: nat, capacity: nat, timeouts: bool, before: seq<Event<M>>, id: nat,
                           m: M, after: seq<Event<M>>)
    requires senders <= 64 * words && id < senders
    ensures var s := Run(Init(senders, words, capacity, timeouts), before);
            var s' := Run(Apply(s, TryPush(id, m)), after);
            && |s.rings| == |s.producers| == |s.accepted| == |s'.delivered| == senders
            && (s.producers[id] == Idle && |s.rings[id]| < capacity && Quiescent(s') ==>
                  s.accepted[id] + [m] <= s'.delivered[id])
            && (|s.rings[id]| >= capacity ==> Apply(s, TryPush(id, m)) == s)
  {
    var init: State<M> := Init(senders, words, capacity, timeouts);
    EveryRun(init, before);
    var s := Run(init, before);
    ConstantsStay(init, before);
    Step(s, TryPush(id, m));
    var s1 := Apply(s, TryPush(id, m));
    EveryRun(s1, after);
    AcceptedGrows(s1, after);
    var s' := Run(s1, after);
    if Quiescent(s') {
      assert forall id :: id in s'.bits ==> id < |s'.rings|;
      assert s'.rings[id] == [];
      assert InOrderAt(s', id);
    }
  }

  lemma {:induction false} ConstantsStay<M>(s: State<M>, events: seq<Event<M>>)
    requires WellFormed(s)
    ensures var s' := Run(s, events); |s'.rings| == |s.rings| && s'.capacity == s.capacity
    decreases |events|
  {
    if events != [] { ConstantsStay(Apply(s, events[0]), events[1..]); }
  }

  // ----- Once producers pause, the consumer's own steps bring the rest state about -----

  function Queued<M>(rings: seq<seq<M>>): (n: nat)
  {
    if rings == [] then 0 else |rings[0]| + Queued(rings[1..])
  }

  lemma {:induction false} QueuedPop<M>(rings: seq<seq<M>>, id: nat)
    requires id < |rings| && rings[id] != []
    ensures Queued(rings[id := rings[id][1..]]) == Queued(rings) - 1
  {
    if id == 0 {
      assert rings[0 := rings[0][1..]][1..] == rings[1..];
    } else {
      QueuedPop(rings[1..], id - 1);
      assert rings[id := rings[id][1..]][1..] == rings[1..][id - 1 := rings[1..][id - 1][1..]];
    }
  }

  /** The step the consumer takes next, if it has one. */
  ghost function ConsumerStep<M>(s: State<M>): Event<M>
  {
    match s.consumer
    case Waiting => Start
    case Swapping(_, _) => SwapWord
    case Draining(left) => if left == {} then Finish else TryPop
  }

  ghost predicate AtRest<M>(s: State<M>)
  {
    s.consumer.Waiting? && !s.wake
  }

  ghost function Phase<M>(s: State<M>): nat
  {
    match s.consumer
    case Waiting => 0
    case Swapping(k, _) => 2 + (if k <= s.words then s.words - k else 0)
    case Draining(_) => 1
  }

  function Left<M>(s: State<M>): nat
  {
    if s.consumer.Draining? then |s.consumer.left| else 0
  }

  ghost function RunConsumer<M>(s: State<M>): (s': State<M>)
    requires WellFormed(s)
    decreases s.wake, Phase(s), Queued(s.rings), Left(s)
  {
    if AtRest(s) then s
    else
      var s' := Apply(s, ConsumerStep(s));
      ConsumerProgress(s);
      RunConsumer(s')
  }

  lemma ConsumerProgress<M>(s: State<M>)
    requires WellFormed(s) && !AtRest(s)
    ensures var s' := Apply(s, ConsumerStep(s));
            && s'.producers == s.producers && s'.accepted == s.accepted && (s'.wake ==> s.wake)
            && ((s.wake && !s'.wake)
               || (s'.wake == s.wake && Phase(s') < Phase(s))
               || (s'.wake == s.wake && Phase(s') == Phase(s) && Queued(s'.rings) < Queued(s.rings))
               || (s'.wake == s.wake && Phase(s') == Phase(s) && s'.rings == s.rings && Left(s') < Left(s)))
  {
    if s.consumer.Draining? && s.consumer.left != {} {
      var id := Next(s.consumer.left);
      if id < |s.rings| && s.rings[id] != [] {
        QueuedPop(s.rings, id);
      } else {
        assert |s.consumer.left - {id}| < |s.consumer.left|;
      }
    }
  }

  /** From any state an interleaving can reach, once every producer has finished its
      call, the consumer's own finitely many steps deliver everything accepted. */
  lemma {:induction false} ConsumerDeliversAll<M>(s: State<M>)
    requires Inv(s) && forall id :: 0 <= id < |s.producers| ==> s.producers[id] == Idle
    ensures var s' := RunConsumer(s);
            Inv(s') && Quiescent(s') && s'.accepted == s.accepted && s'.delivered == s.accepted
    decreases s.wake, Phase(s), Queued(s.rings), Left(s)
  {
    if AtRest(s) {
      forall id | 0 <= id < |s.rings| ensures s.delivered[id] == s.accepted[id] {
        assert s.rings[id] == [];
        assert InOrderAt(s, id);
      }
    } else {
      var e := ConsumerStep(s);
      Step(s, e);
      ConsumerProgress(s);
      ConsumerDeliversAll(Apply(s, e));
    }
  }

  // ----- A whole pass of the consumer, nobody interfering -----

  lemma {:induction false} RunAppend<M>(s: State<M>, a: seq<Event<M>>, b: seq<Event<M>>)
    requires WellFormed(s)
    ensures Run(s, a + b) == Run(Run(s, a), b)
    decreases |a|
  {
    if a == [] {
      assert a + b == b;
    } else {
      assert (a + b)[0] == a[0] && (a + b)[1..] == a[1..] + b;
      RunAppend(Apply(s, a[0]), a[1..], b);
    }
  }

  function Repeat<M>(e: Event<M>, n: nat): seq<Event<M>>
  {
    if n == 0 then [] else [e] + Repeat(e, n - 1)
  }

  /** The bits of the words from the k-th on. */
  function BitsFrom(bits: set<nat>, k: nat, words: nat): set<nat>
  {
    set i | i in bits && k <= i / 64 < words
  }

  lemma SwapOne<M>(s: State<M>, k: nat, captured: set<nat>)
    requires WellFormed(s) && s.consumer == Swapping(k, captured) && k < s.words
    ensures var s1 := Apply(s, SwapWord);
            var c1 := captured + BitsFrom(s.bits, k, k + 1);
            && s1 == s.(bits := s.bits - BitsFrom(s.bits, k, k + 1), consumer := Swapping(k + 1, c1))
            && s1.bits - BitsFrom(s1.bits, k + 1, s.words) == s.bits - BitsFrom(s.bits, k, s.words)
            && c1 + BitsFrom(s1.bits, k + 1, s.words) == captured + BitsFrom(s.bits, k, s.words)
  {
    var s1, taken := Apply(s, SwapWord), BitsFrom(s.bits, k, k + 1);
    assert s1.bits == s.bits - taken && s1.consumer.captured == captured + taken;
    assert s1.bits - BitsFrom(s1.bits, k + 1, s.words) == s.bits - BitsFrom(s.bits, k, s.words);
    assert captured + taken + BitsFrom(s1.bits, k + 1, s.words) == captured + BitsFrom(s.bits, k, s.words);
  }

  lemma {:induction false} SwapsCapture<M>(s: State<M>, k: nat, captured: set<nat>)
    requires WellFormed(s) && s.consumer == Swapping(k, captured) && k <= s.words
    ensures Run(s, Repeat(SwapWord, s.words - k + 1))
         == s.(bits := s.bits - BitsFrom(s.bits, k, s.words),
               consumer := Draining(captured + BitsFrom(s.bits, k, s.words)))
    decreases s.words - k
  {
    RunCons(s, SwapWord, Repeat(SwapWord, s.words - k));
    if k < s.words {
      SwapOne(s, k, captured);
      SwapsCapture(Apply(s, SwapWord), k + 1, captured + BitsFrom(s.bits, k, k + 1));
    } else {
      assert BitsFrom(s.bits, k, s.words) == {};
      assert s.bits - {} == s.bits && captured + {} == captured;
    }
  }

  /** The rings of these ids delivered whole. */
  function Emptied<M>(s: State<M>, ids: set<nat>): State<M>
    requires WellFormed(s)
  {
    s.(rings := seq(|s.rings|, i requires 0 <= i < |s.rings| => if i in ids then [] else s.rings[i]),
       delivered := seq(|s.rings|, i requires 0 <= i < |s.rings| =>
                          if i in ids then s.delivered[i] + s.rings[i] else s.delivered[i]))
  }

  function PopOne<M>(s: State<M>, id: nat): State<M>
    requires WellFormed(s) && id < |s.rings| && s.rings[id] != []
  {
    s.(rings := s.rings[id := s.rings[id][1..]], delivered := s.delivered[id := s.delivered[id] + [s.rings[id][0]]])
  }

  lemma PopOneEmpties<M>(s: State<M>, id: nat, ids: set<nat>)
    requires WellFormed(s) && id < |s.rings| && s.rings[id] != [] && id in ids
    ensures Emptied(PopOne(s, id), ids) == Emptied(s, ids)
  {
    var a, b := Emptied(PopOne(s, id), ids), Emptied(s, ids);
    forall i | 0 <= i < |s.rings| ensures a.delivered[i] == b.delivered[i] {
      if i == id { assert s.delivered[id] + [s.rings[id][0]] + s.rings[id][1..] == s.delivered[id] + s.rings[id]; }
    }
    assert a.rings == b.rings && a.delivered == b.delivered;
  }

  lemma SkipEmpties<M>(s: State<M>, id: nat, ids: set<nat>)
    requires WellFormed(s) && (id < |s.rings| ==> s.rings[id] == [])
    ensures Emptied(s, ids - {id}) == Emptied(s, ids)
  {
    var a, b := Emptied(s, ids - {id}), Emptied(s, ids);
    forall i | 0 <= i < |s.rings| ensures a.delivered[i] == b.delivered[i] && a.rings[i] == b.rings[i] {
      if i == id { assert s.delivered[i] + [] == s.delivered[i]; }
    }
    assert a.rings == b.rings && a.delivered == b.delivered;
  }

  /** Popping until nothing captured is left delivers the captured rings. */
  lemma {:induction false} PopsDrain<M>(s: State<M>) returns (n: nat)
    requires WellFormed(s) && s.consumer.Draining?
    ensures Run(s, Repeat(TryPop, n)) == Emptied(s, s.consumer.left).(consumer := Draining({}))
    decreases Left(s), Queued(s.rings)
  {
    var left := s.consumer.left;
    if left == {} {
      n := 0;
      assert Emptied(s, {}).rings == s.rings && Emptied(s, {}).delivered == s.delivered;
    } else {
      var id := Next(left);
      if id < |s.rings| && s.rings[id] != [] {
        QueuedPop(s.rings, id);
        PopOneEmpties(s, id, left);
        assert Apply(s, TryPop) == PopOne(s, id);
      } else {
        assert |left - {id}| < |left|;
        SkipEmpties(s, id, left);
        assert Apply(s, TryPop) == s.(consumer := Draining(left - {id}));
      }
      var m := PopsDrain(Apply(s, TryPop));
      RunCons(s, TryPop, Repeat(TryPop, m));
      n := m + 1;
    }
  }

  /** The events of one pass: start, swap every word, pop, finish. */
  function Pass<M>(words: nat, n: nat): seq<Event<M>>
  {
    [Start] + (Repeat(SwapWord, words + 1) + (Repeat(TryPop, n) + [Finish]))
  }

  lemma PassStarts<M>(s: State<M>, rest: seq<Event<M>>)
    requires WellFormed(s) && s.consumer.Waiting? && s.wake
    ensures Run(s, [Start] + rest) == Run(s.(wake := false, consumer := Swapping(0, {})), rest)
  {
    RunCons(s, Start, rest);
  }

  lemma PassSwaps<M>(s: State<M>, rest: seq<Event<M>>)
    requires WellFormed(s) && InRange(s) && s.consumer == Swapping(0, {})
    ensures Run(s, Repeat(SwapWord, s.words + 1) + rest) == Run(s.(bits := {}, consumer := Draining(s.bits)), rest)
  {
    assert BitsFrom(s.bits, 0, s.words) == s.bits && s.bits - s.bits == {} && {} + s.bits == s.bits;
    SwapsCapture(s, 0, {});
    RunAppend(s, Repeat(SwapWord, s.words + 1), rest);
  }

  lemma PassPops<M>(s: State<M>) returns (n: nat)
    requires WellFormed(s) && s.consumer.Draining?
    ensures Run(s, Repeat(TryPop, n) + [Finish]) == Emptied(s, s.consumer.left).(consumer := Waiting)
  {
    n := PopsDrain(s);
    RunAppend(s, Repeat(TryPop, n), [Finish]);
    var last: Event<M> := Finish;
    assert [last] + [] == [last];
    RunCons(Run(s, Repeat(TryPop, n)), Finish, []);
  }

  /** An undisturbed pass takes every bit and delivers the rings they name. */
  lemma PassDelivers<M>(s: State<M>) returns (n: nat)
    requires WellFormed(s) && InRange(s) && s.consumer.Waiting? && s.wake
    ensures Run(s, Pass(s.words, n)) == Emptied(s, s.bits).(bits := {}, wake := false)
  {
    var s1 := s.(wake := false, consumer := Swapping(0, {}));
    n := PassPops(s1.(bits := {}, consumer := Draining(s.bits)));
    PassSwaps(s1, Repeat(TryPop, n) + [Finish]);
    PassStarts(s, Repeat(SwapWord, s.words + 1) + (Repeat(TryPop, n) + [Finish]));
  }
}
