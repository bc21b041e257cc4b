/** Poller (lib/src/poller.rs): the slot table behind registration, and the
    sleep protocol between poll() and any number of waking threads. */
module TokenTable {
  import opened Common

  /** The strong references to one registration's shared state: the token, and the
      wake handles made for it. */
  datatype Registration = Registration(slot: nat, token: bool, handles: nat)
  {
    predicate Held() { token || handles > 0 }
  }

  type Targets = seq<Option<nat>>

  /** A slot is free when it tracks nothing, or a registration nobody holds. */
  predicate Free(targets: Targets, registrations: seq<Registration>, slot: nat)
    requires slot < |targets|
  {
    targets[slot].None? || targets[slot].value >= |registrations| || !registrations[targets[slot].value].Held()
  }

  function FirstFree(targets: Targets, registrations: seq<Registration>, from: nat): (slot: nat)
    requires from <= |targets|
    ensures from <= slot <= |targets|
    ensures slot < |targets| ==> Free(targets, registrations, slot)
    ensures forall i :: from <= i < slot ==> !Free(targets, registrations, i)
    decreases |targets| - from
  {
    if from == |targets| || Free(targets, registrations, from) then from
    else FirstFree(targets, registrations, from + 1)
  }

  /** Every registration somebody still holds is the one its slot tracks. */
  ghost predicate Tracked(targets: Targets, registrations: seq<Registration>)
  {
    forall id :: 0 <= id < |registrations| && registrations[id].Held() ==>
      registrations[id].slot < |targets| && targets[registrations[id].slot] == Some(id)
  }

  /** Live tokens have distinct ids, and a wake handle still held rings the bit of
      its own registration's slot and of no other held registration. */
  lemma HeldSlotsDistinct(targets: Targets, registrations: seq<Registration>, a: nat, b: nat)
    requires Tracked(targets, registrations)
    requires a < |registrations| && b < |registrations| && a != b
    requires registrations[a].Held() && registrations[b].Held()
    ensures registrations[a].slot != registrations[b].slot
  {
    assert targets[registrations[a].slot] == Some(a);
  }

  class Poller {
    var targets: Targets
    var readyWords: nat // length of ready_bits: one read and one write word a chunk
    var registrations: seq<Registration>

    ghost predicate Valid()
      reads this
    {
      |targets| == 64 * readyWords && Tracked(targets, registrations)
    }

    constructor ()
      ensures Valid() && targets == [] && registrations == []
    {
      targets, readyWords, registrations := [], 0, [];
    }

    /** Claims the first free slot, growing the table by whole chunks when there is
        none. A slot still held, by its token or by one wake handle, is not claimed. */
    method GetFreeToken() returns (chunkIndex: nat, bitIndex: nat, id: nat)
      requires Valid()
      modifies this
      ensures Valid() && bitIndex < 64 && chunkIndex < readyWords && readyWords >= old(readyWords)
      ensures id == old(|registrations|)
      ensures registrations == old(registrations) + [Registration(64 * chunkIndex + bitIndex, true, 0)]
      ensures forall k :: 0 <= k < id && old(registrations)[k].Held() ==>
                registrations[k].slot != registrations[id].slot
      ensures forall i: nat :: i < 64 * chunkIndex + bitIndex ==>
                i < old(|targets|) && !Free(old(targets), old(registrations), i)
      ensures forall i :: 0 <= i < old(|targets|) && i != 64 * chunkIndex + bitIndex ==> targets[i] == old(targets)[i]
    {
      var index := FirstFree(targets, registrations, 0);
      chunkIndex, bitIndex := index / 64, index % 64;
      if readyWords <= chunkIndex {
        readyWords := chunkIndex + 1;
        targets := targets + seq(64 * readyWords - |targets|, _ => None);
      }
      id := |registrations|;
      assert forall k :: 0 <= k < id && registrations[k].Held() ==> registrations[k].slot != index;
      registrations := registrations + [Registration(index, true, 0)];
      targets := targets[index := Some(id)];
    }

    /** Handing out one more wake handle for a registration whose token is held. */
    method AddHandle(id: nat)
      requires Valid() && id < |registrations| && registrations[id].token
      modifies this`registrations
      ensures Valid()
      ensures var was := old(registrations);
              registrations == was[id := was[id].(handles := was[id].handles + 1)]
    {
      registrations := registrations[id := registrations[id].(handles := registrations[id].handles + 1)];
    }

    method DropToken(id: nat)
      requires Valid() && id < |registrations| && registrations[id].token
      modifies this`registrations
      ensures Valid()
      ensures registrations == old(registrations)[id := old(registrations)[id].(token := false)]
    {
      registrations := registrations[id := registrations[id].(token := false)];
    }

    method DropHandle(id: nat)
      requires Valid() && id < |registrations| && registrations[id].handles > 0
      modifies this`registrations
      ensures Valid()
      ensures var was := old(registrations);
              registrations == was[id := was[id].(handles := was[id].handles - 1)]
    {
      registrations := registrations[id := registrations[id].(handles := registrations[id].handles - 1)];
    }
  }
}

/** The poller thread scans the words one load at a time, parks when it saw them
    all zero, and swaps them to zero one at a time when it did not; wakers set a
    bit and then unpark it. Every sequence of events is a run: an event that is
    not enabled changes nothing. */
module PollerSleep {
  /** A waker has loaded "not dropped" and will set a bit, or has set it and will
      unpark. */
  datatype WakerPc = Quiet | Loaded(word: nat, bit: nat) | Rang

  datatype PollerPc = Outside | Scan(word: nat) | BeforePark | Parked | Swap(word: nat)

  /** What one iter_ready hands out, word by word. */
  type Snapshot = seq<set<nat>>

  /** `timed` says that the poll under way is poll_timeout; `raised` is history: how
      often each bit rose. */
  datatype State = State(
    words: seq<set<nat>>, permit: bool, wakers: seq<WakerPc>, pc: PollerPc, timed: bool,
    snapshot: Snapshot, returned: seq<Snapshot>, raised: multiset<(nat, nat)>)

  datatype Event =
    | NewWaker
    | Load(waker: nat, word: nat, bit: nat)
    | FetchOr(waker: nat)
    | Unpark(waker: nat)
    | Register
    | Poll(timed: bool)
    | GiveUp
    | LoadWord
    | Park
    | Spurious
    | SwapWord
    | Return

  function Init(): State
  {
    State([], false, [], Outside, false, [], [], multiset{})
  }

  function Apply(s: State, e: Event): State
  {
    match e
    case NewWaker => s.(wakers := s.wakers + [Quiet])
    case Load(w, word, bit) =>
      if w < |s.wakers| && s.wakers[w].Quiet? && word < |s.words|
      then s.(wakers := s.wakers[w := Loaded(word, bit)]) else s
    case FetchOr(w) =>
      if w < |s.wakers| && s.wakers[w].Loaded? && s.wakers[w].word < |s.words| then
        var word, bit := s.wakers[w].word, s.wakers[w].bit;
        s.(words := s.words[word := s.words[word] + {bit}],
           wakers := s.wakers[w := Rang],
           raised := if bit in s.words[word] then s.raised else s.raised + multiset{(word, bit)})
      else s
    case Unpark(w) =>
      if w < |s.wakers| && s.wakers[w].Rang?
      then s.(permit := true, wakers := s.wakers[w := Quiet]) else s
    case Register =>
      if s.pc.Outside? then s.(words := s.words + [{}, {}]) else s
    case Poll(timed) =>
      if s.pc.Outside? then s.(pc := Scan(0), timed := timed) else s
    case GiveUp =>
      // The deadline is looked at before each scan.
      if s.pc == Scan(0) && s.timed then s.(pc := Outside) else s
    case LoadWord =>
      if !s.pc.Scan? then s
      else if s.pc.word >= |s.words| then s.(pc := BeforePark)
      else if s.words[s.pc.word] != {} then s.(pc := Swap(0), snapshot := [])
      else s.(pc := Scan(s.pc.word + 1))
    case Park =>
      if s.pc.BeforePark? || s.pc.Parked? then
        if s.permit then s.(permit := false, pc := Scan(0)) else s.(pc := Parked)
      else s
    case Spurious =>
      if s.pc.Parked? then s.(pc := Scan(0)) else s
    case SwapWord =>
      if s.pc.Swap? && s.pc.word < |s.words| then
        var k := s.pc.word;
        s.(words := s.words[k := {}], pc := Swap(k + 1), snapshot := s.snapshot + [s.words[k]])
      else s
    case Return =>
      if s.pc.Swap? && s.pc.word >= |s.words|
      then s.(pc := Outside, returned := s.returned + [s.snapshot], snapshot := []) else s
  }

  function Run(s: State, events: seq<Event>): State
    decreases |events|
  {
    if events == [] then s else Run(Apply(s, events[0]), events[1..])
  }

  predicate IsSet(s: State, word: nat, bit: nat)
  {
    word < |s.words| && bit in s.words[word]
  }

  /** A wake-up is on its way: the permit is there, or a waker is about to post it. */
  ghost predicate WakeComing(s: State)
  {
    s.permit || Rang in s.wakers
  }

  /** Words below this index were seen zero in the pass under way. */
  function Seen(s: State): nat
  {
    match s.pc
    case Scan(k) => k
    case BeforePark => |s.words|
    case Parked => |s.words|
    case _ => 0
  }

  ghost predicate NeverSleepsThrough(s: State)
  {
    forall w: nat, b: nat :: IsSet(s, w, b) && w < Seen(s) ==> WakeComing(s)
  }

  predicate Holds(snapshot: Snapshot, w: nat, b: nat)
  {
    w < |snapshot| && b in snapshot[w]
  }

  /** How many of the snapshots hold bit b of word w. */
  function Count(snapshots: seq<Snapshot>, w: nat, b: nat): nat
  {
    if snapshots == [] then 0
    else
      var n := |snapshots| - 1;
      Count(snapshots[..n], w, b) + (if Holds(snapshots[n], w, b) then 1 else 0)
  }

  lemma CountSnoc(snapshots: seq<Snapshot>, last: Snapshot, w: nat, b: nat)
    ensures Count(snapshots + [last], w, b) == Count(snapshots, w, b) + (if Holds(last, w, b) then 1 else 0)
  {
    assert (snapshots + [last])[..|snapshots|] == snapshots;
  }

  predicate Balanced(s: State, w: nat, b: nat)
  {
    s.raised[(w, b)]
    == Count(s.returned, w, b) + (if Holds(s.snapshot, w, b) then 1 else 0) + (if IsSet(s, w, b) then 1 else 0)
  }

  /** Each rise of a bit is in exactly one snapshot, returned or being taken, or the
      bit is still set. */
  ghost predicate ExactlyOnce(s: State)
  {
    forall w: nat, b: nat :: Balanced(s, w, b)
  }

  predicate HasBit(snapshot: Snapshot)
  {
    exists k :: 0 <= k < |snapshot| && snapshot[k] != {}
  }

  /** A swap pass under way has caught a bit or has one still ahead of it. */
  ghost predicate CatchesSomething(s: State)
  {
    && (!s.pc.Swap? ==> s.snapshot == [])
    && (s.pc.Swap? ==>
          && s.pc.word <= |s.words| && |s.snapshot| == s.pc.word
          && (HasBit(s.snapshot) || exists w :: s.pc.word <= w < |s.words| && s.words[w] != {}))
    && forall r :: r in s.returned ==> HasBit(r)
  }

  ghost predicate Inv(s: State)
  {
    NeverSleepsThrough(s) && ExactlyOnce(s) && CatchesSomething(s)
  }

  lemma SleepStep(s: State, e: Event)
    requires NeverSleepsThrough(s)
    ensures NeverSleepsThrough(Apply(s, e))
  {
    var s' := Apply(s, e);
    if Rang in s.wakers && (e.NewWaker? || e.Load? || e.FetchOr?) {
      var i :| 0 <= i < |s.wakers| && s.wakers[i] == Rang;
      assert s'.wakers[i] == Rang;
    }
    if e.FetchOr? && s' != s {
      assert s'.wakers[e.waker] == Rang;
    }
    forall w: nat, b: nat | IsSet(s', w, b) && w < Seen(s') ensures WakeComing(s') {
      if e.LoadWord? { assert IsSet(s, w, b) && w < Seen(s); }
      if !e.FetchOr? && !e.Unpark? { assert IsSet(s, w, b); }
    }
  }

  lemma RiseBalances(s: State, waker: nat, w: nat, b: nat)
    requires Balanced(s, w, b)
    ensures Balanced(Apply(s, FetchOr(waker)), w, b)
  {
  }

  lemma SwapBalances(s: State, w: nat, b: nat)
    requires Balanced(s, w, b) && (s.pc.Swap? ==> |s.snapshot| == s.pc.word)
    ensures Balanced(Apply(s, SwapWord), w, b)
  {
  }

  lemma ReturnBalances(s: State, w: nat, b: nat)
    requires Balanced(s, w, b)
    ensures Balanced(Apply(s, Return), w, b)
  {
    CountSnoc(s.returned, s.snapshot, w, b);
  }

  lemma RegisterBalances(s: State, w: nat, b: nat)
    requires Balanced(s, w, b)
    ensures Balanced(Apply(s, Register), w, b)
  {
  }

  lemma LoadBalances(s: State, w: nat, b: nat)
    requires Balanced(s, w, b) && (!s.pc.Swap? ==> s.snapshot == [])
    ensures Balanced(Apply(s, LoadWord), w, b)
  {
  }

  lemma RestBalances(s: State, e: Event, w: nat, b: nat)
    requires Balanced(s, w, b)
    requires !e.FetchOr? && !e.SwapWord? && !e.Return? && !e.Register? && !e.LoadWord?
    ensures Balanced(Apply(s, e), w, b)
  {
  }

  lemma OnceStep(s: State, e: Event)
    requires ExactlyOnce(s) && CatchesSomething(s)
    ensures ExactlyOnce(Apply(s, e))
  {
    forall w: nat, b: nat ensures Balanced(Apply(s, e), w, b) {
      match e
      case FetchOr(waker) => RiseBalances(s, waker, w, b);
      case SwapWord => SwapBalances(s, w, b);
      case Return => ReturnBalances(s, w, b);
      case Register => RegisterBalances(s, w, b);
      case LoadWord => LoadBalances(s, w, b);
      case _ => RestBalances(s, e, w, b);
    }
  }

  lemma CatchStep(s: State, e: Event)
    requires CatchesSomething(s)
    ensures CatchesSomething(Apply(s, e))
  {
    var s' := Apply(s, e);
    if s.pc.Swap? && s'.pc.Swap? && s' != s {
      if HasBit(s.snapshot) {
        var k :| 0 <= k < |s.snapshot| && s.snapshot[k] != {};
        assert s'.snapshot[k] != {};
      } else {
        var w :| s.pc.word <= w < |s.words| && s.words[w] != {};
        if e.SwapWord? && w == s.pc.word {
          assert s'.snapshot[w] != {};
        } else {
          assert s'.words[w] != {} by {
            if e.FetchOr? && s.wakers[e.waker].word == w { assert s.wakers[e.waker].bit in s'.words[w]; }
          }
        }
      }
    }
  }

  /** In every interleaving of wakers with the poll loop: a set bit the poller has
      already passed over means an unpark permit or a waker between its fetch_or and
      its unpark; every rise of a bit ends in exactly one snapshot; and poll never
      returns an empty snapshot. */
  lemma {:induction false} EveryRun(s: State, events: seq<Event>)
    requires Inv(s)
    ensures Inv(Run(s, events))
    decreases |events|
  {
    if events != [] {
      SleepStep(s, events[0]);
      OnceStep(s, events[0]);
      CatchStep(s, events[0]);
      EveryRun(Apply(s, events[0]), events[1..]);
    }
  }

  /** So a poller that is parked for good, with no waker in flight, has missed
      nothing: the snapshots returned hold each bit exactly as often as it rose. */
  lemma ParkedMeansDrained(events: seq<Event>)
    ensures var s := Run(Init(), events);
            s.pc.Parked? && !s.permit && Rang !in s.wakers ==>
              forall w: nat, b: nat :: !IsSet(s, w, b) && s.raised[(w, b)] == Count(s.returned, w, b)
  {
    EveryRun(Init(), events);
    var s := Run(Init(), events);
    if s.pc.Parked? && !s.permit && Rang !in s.wakers {
      forall w: nat, b: nat ensures !IsSet(s, w, b) && s.raised[(w, b)] == Count(s.returned, w, b) {
        assert !IsSet(s, w, b) && !Holds(s.snapshot, w, b) && Balanced(s, w, b);
      }
    }
  }

  /** The number of poller steps, with no waker interfering, from a scan that has
      work ahead of it to the return from poll. */
  function ScanCost(s: State): nat
    requires s.pc.Scan? || s.pc.Swap?
  {
    if s.pc.Scan? then (if s.pc.word <= |s.words| then |s.words| - s.pc.word else 0) + |s.words| + 2
    else (if s.pc.word <= |s.words| then |s.words| - s.pc.word else 0) + 1
  }

  /** poll has returned, and its last snapshot holds bit b of word w. */
  predicate ReturnsBit(s: State, s': State, w: nat, b: nat)
  {
    && s'.pc.Outside? && |s'.returned| == |s.returned| + 1
    && w < |s'.returned[|s.returned|]| && b in s'.returned[|s.returned|][w]
  }

  /** A pass that starts with a bit set ends in a returned snapshot that holds it. */
  lemma {:induction false} ScanReturns(s: State, w: nat, b: nat)
    requires (s.pc.Scan? && s.pc.word <= w) || (s.pc.Swap? && s.pc.word <= w && |s.snapshot| == s.pc.word)
    requires IsSet(s, w, b)
    ensures ReturnsBit(s, Run(s, PollerSteps(s)), w, b)
    decreases ScanCost(s)
  {
    if s.pc.Scan? {
      ScanReturns(Apply(s, LoadWord), w, b);
    } else if s.pc.word < w {
      ScanReturns(Apply(s, SwapWord), w, b);
    } else {
      SwapReturns(Apply(s, SwapWord), w, b);
    }
  }

  lemma {:induction false} SwapReturns(s: State, w: nat, b: nat)
    requires s.pc.Swap? && w < s.pc.word <= |s.words| && |s.snapshot| == s.pc.word && b in s.snapshot[w]
    ensures ReturnsBit(s, Run(s, PollerSteps(s)), w, b)
    decreases ScanCost(s)
  {
    if s.pc.word < |s.words| {
      SwapReturns(Apply(s, SwapWord), w, b);
    } else {
      assert Run(s, PollerSteps(s)) == Run(Apply(s, Return), []);
    }
  }

  /** The poller's own steps from a scan to its return. */
  function PollerSteps(s: State): seq<Event>
    requires s.pc.Scan? || s.pc.Swap?
    decreases ScanCost(s)
  {
    if s.pc.Scan? then
      if s.pc.word < |s.words| then [LoadWord] + PollerSteps(Apply(s, LoadWord)) else []
    else if s.pc.word < |s.words| then [SwapWord] + PollerSteps(Apply(s, SwapWord))
    else [Return]
  }

  // ----- Every set bit is returned -----

  /** The poller's next step, whatever it is doing. */
  function OwnStep(s: State): Event
  {
    match s.pc
    case Outside => Poll(false)
    case Scan(_) => LoadWord
    case BeforePark => Park
    case Parked => Park
    case Swap(k) => if k < |s.words| then SwapWord else Return
  }

  function OwnRun(s: State, n: nat): State
    decreases n
  {
    if n == 0 then s else OwnRun(Apply(s, OwnStep(s)), n - 1)
  }

  /** The bit is set or in the snapshot being taken. */
  predicate Awaited(s: State, w: nat, b: nat)
  {
    IsSet(s, w, b) || (s.pc.Swap? && Holds(s.snapshot, w, b))
  }

  /** How far the poller is from returning it. A swap pass that is past the bit's word
      returns without it, and the next poll finds it. */
  function Distance(s: State, w: nat, b: nat): nat
  {
    var n := |s.words|;
    match s.pc
    case Swap(k) => (if k <= w || Holds(s.snapshot, w, b) then 0 else 4 * n + 9) + (if k <= n then n - k else 0)
    case Scan(k) => if k <= w then n + 1 + (w - k) else 3 * n + 4 + (if k <= n then n - k else 0)
    case Outside => n + 2 + w
    case BeforePark => n + 3 + w
    case Parked => n + 3 + w
  }

  /** If the poller has passed over the word it has the permit to look again. */
  predicate NeedsNoWake(s: State, w: nat)
  {
    w < Seen(s) ==> s.permit
  }

  /** poll returns the bit with its next step. */
  predicate AboutToReturn(s: State, w: nat, b: nat)
  {
    s.pc.Swap? && s.pc.word >= |s.words| && Holds(s.snapshot, w, b)
  }

  lemma SwapProgress(s: State, w: nat, b: nat)
    requires CatchesSomething(s) && s.pc.Swap? && Awaited(s, w, b) && !AboutToReturn(s, w, b)
    ensures var s' := Apply(s, OwnStep(s));
            s.returned <= s'.returned && NeedsNoWake(s', w)
            && Awaited(s', w, b) && Distance(s', w, b) < Distance(s, w, b)
  {
  }

  lemma ScanProgress(s: State, w: nat, b: nat)
    requires NeedsNoWake(s, w) && !s.pc.Swap? && Awaited(s, w, b)
    ensures var s' := Apply(s, OwnStep(s));
            s'.returned == s.returned && NeedsNoWake(s', w)
            && Awaited(s', w, b) && Distance(s', w, b) < Distance(s, w, b)
  {
  }

  ghost predicate ReturnsLater(s: State, s': State, w: nat, b: nat)
  {
    exists j :: |s.returned| <= j < |s'.returned| && Holds(s'.returned[j], w, b)
  }

  lemma {:induction false} AwaitedReturns(s: State, w: nat, b: nat) returns (n: nat)
    requires CatchesSomething(s) && NeedsNoWake(s, w) && Awaited(s, w, b)
    ensures ReturnsLater(s, OwnRun(s, n), w, b)
    decreases Distance(s, w, b)
  {
    var s' := Apply(s, OwnStep(s));
    if AboutToReturn(s, w, b) {
      n := 1;
      assert OwnRun(s, 1) == OwnRun(s', 0) == s';
      assert s'.returned[|s.returned|] == s.snapshot;
    } else {
      CatchStep(s, OwnStep(s));
      if s.pc.Swap? { SwapProgress(s, w, b); } else { ScanProgress(s, w, b); }
      var m := AwaitedReturns(s', w, b);
      n := m + 1;
    }
  }

  /** From any state a run reaches with a bit set and no waker in flight, wherever the
      poller is, its own finitely many steps return a snapshot that holds the bit. */
  lemma SetBitIsReturned(events: seq<Event>, w: nat, b: nat) returns (n: nat)
    ensures var s := Run(Init(), events);
            IsSet(s, w, b) && Rang !in s.wakers ==> ReturnsLater(s, OwnRun(s, n), w, b)
  {
    EveryRun(Init(), events);
    var s := Run(Init(), events);
    n := 0;
    if IsSet(s, w, b) && Rang !in s.wakers { n := AwaitedReturns(s, w, b); }
  }

  // ----- Which bit a wake sets -----

  /** A waker past its check sets the bit it was made for, and no other. */
  lemma WakeSetsItsBit(s: State, waker: nat, word: nat, bit: nat, w: nat, b: nat)
    requires waker < |s.wakers| && s.wakers[waker] == Loaded(word, bit) && word < |s.words|
    ensures IsSet(Apply(s, FetchOr(waker)), w, b) <==> IsSet(s, w, b) || (w == word && b == bit)
  {
  }

  /** One of the events begins a wake for that very bit. */
  predicate Rung(events: seq<Event>, w: nat, b: nat)
  {
    exists k :: 0 <= k < |events| && IsLoad(events[k], w, b)
  }

  predicate IsLoad(e: Event, w: nat, b: nat)
  {
    e.Load? && e.word == w && e.bit == b
  }

  /** The bit is set, caught or returned, or a waker is about to set it. */
  ghost predicate Shows(s: State, w: nat, b: nat)
  {
    || IsSet(s, w, b) || Holds(s.snapshot, w, b) || Loaded(w, b) in s.wakers
    || exists j :: 0 <= j < |s.returned| && Holds(s.returned[j], w, b)
  }

  lemma ReturnedStep(s: State, e: Event, w: nat, b: nat, j: nat)
    requires var s' := Apply(s, e); j < |s'.returned| && Holds(s'.returned[j], w, b)
    ensures Shows(s, w, b)
  {
    var s' := Apply(s, e);
    if j < |s.returned| { assert Holds(s.returned[j], w, b); } else { assert s'.returned[j] == s.snapshot; }
  }

  lemma LoadedStep(s: State, e: Event, w: nat, b: nat)
    requires Loaded(w, b) in Apply(s, e).wakers
    ensures Loaded(w, b) in s.wakers || IsLoad(e, w, b)
  {
    var s' := Apply(s, e);
    var i :| 0 <= i < |s'.wakers| && s'.wakers[i] == Loaded(w, b);
    if !IsLoad(e, w, b) { assert i < |s.wakers| && s.wakers[i] == Loaded(w, b); }
  }

  lemma SetStep(s: State, e: Event, w: nat, b: nat)
    requires IsSet(Apply(s, e), w, b)
    ensures IsSet(s, w, b) || Loaded(w, b) in s.wakers
  {
    if !IsSet(s, w, b) { assert e.FetchOr? && s.wakers[e.waker] == Loaded(w, b); }
  }

  lemma CaughtStep(s: State, e: Event, w: nat, b: nat)
    requires CatchesSomething(s) && Holds(Apply(s, e).snapshot, w, b)
    ensures Holds(s.snapshot, w, b) || IsSet(s, w, b)
  {
  }

  lemma ShowsStep(s: State, e: Event, w: nat, b: nat)
    requires CatchesSomething(s) && Shows(Apply(s, e), w, b)
    ensures Shows(s, w, b) || IsLoad(e, w, b)
  {
    var s' := Apply(s, e);
    if j :| 0 <= j < |s'.returned| && Holds(s'.returned[j], w, b) {
      ReturnedStep(s, e, w, b, j);
    } else if Loaded(w, b) in s'.wakers {
      LoadedStep(s, e, w, b);
    } else if IsSet(s', w, b) {
      SetStep(s, e, w, b);
    } else {
      CaughtStep(s, e, w, b);
    }
  }

  lemma {:induction false} RunSnoc(s: State, events: seq<Event>, e: Event)
    ensures Run(s, events + [e]) == Apply(Run(s, events), e)
    decreases |events|
  {
    if events == [] {
      assert Run(s, [e]) == Run(Apply(s, e), [e][1..]);
    } else {
      assert (events + [e])[0] == events[0] && (events + [e])[1..] == events[1..] + [e];
      RunSnoc(Apply(s, events[0]), events[1..], e);
    }
  }

  /** In every run: each bit set, caught or in a snapshot returned was rung, by a wake
      for that very word and bit. */
  lemma {:induction false} OnlyRungBits(events: seq<Event>, w: nat, b: nat)
    requires Shows(Run(Init(), events), w, b)
    ensures Rung(events, w, b)
  {
    if events != [] {
      var before, e := events[..|events| - 1], events[|events| - 1];
      assert events == before + [e];
      RunSnoc(Init(), before, e);
      EveryRun(Init(), before);
      ShowsStep(Run(Init(), before), e, w, b);
      if Shows(Run(Init(), before), w, b) {
        OnlyRungBits(before, w, b);
        var k :| 0 <= k < |before| && IsLoad(before[k], w, b);
        assert IsLoad(events[k], w, b);
      } else {
        assert IsLoad(events[|events| - 1], w, b);
      }
    }
  }

  lemma WholeWake(s: State, waker: nat, w: nat, b: nat)
    requires waker < |s.wakers| && s.wakers[waker].Quiet? && w < |s.words| && CatchesSomething(s)
    ensures var s1 := Apply(Apply(Apply(s, Load(waker, w, b)), FetchOr(waker)), Unpark(waker));
            IsSet(s1, w, b) && s1.permit && CatchesSomething(s1)
  {
    var a := Apply(s, Load(waker, w, b));
    var b' := Apply(a, FetchOr(waker));
    CatchStep(s, Load(waker, w, b));
    CatchStep(a, FetchOr(waker));
    CatchStep(b', Unpark(waker));
  }

  /** From any state a run reaches, wherever the poller is and whatever other wakers
      are at: a whole wake for a bit, and the poller's own finitely many steps return a
      snapshot that holds that very bit. */
  lemma WakeIsReturned(events: seq<Event>, waker: nat, w: nat, b: nat) returns (n: nat)
    ensures var s := Run(Init(), events);
            waker < |s.wakers| && s.wakers[waker].Quiet? && w < |s.words| ==>
              var s1 := Apply(Apply(Apply(s, Load(waker, w, b)), FetchOr(waker)), Unpark(waker));
              ReturnsLater(s1, OwnRun(s1, n), w, b)
  {
    EveryRun(Init(), events);
    var s := Run(Init(), events);
    n := 0;
    if waker < |s.wakers| && s.wakers[waker].Quiet? && w < |s.words| {
      WholeWake(s, waker, w, b);
      n := AwaitedReturns(Apply(Apply(Apply(s, Load(waker, w, b)), FetchOr(waker)), Unpark(waker)), w, b);
    }
  }
}

/** From a wake handle to the application's event: the bits a handle rings, and the
    events a snapshot is turned into. */
module PollerEvents {
  import opened ReadyBits
  import opened ReadyTokens
  import PollerSleep

  /** Each chunk of 64 slots has a word for readers and then one for writers. */
  function WordOf(slot: nat, write: bool): nat
  {
    2 * (slot / 64) + (if write then 1 else 0)
  }

  function BitOf(slot: nat): nat
  {
    slot % 64
  }

  /** The words of one kind of a snapshot, as the iterator gets them. */
  ghost predicate Frozen(words: seq<nat>, snapshot: PollerSleep.Snapshot, write: bool)
  {
    forall slot: nat :: BitAt(words, slot) <==> PollerSleep.Holds(snapshot, WordOf(slot, write), BitOf(slot))
  }

  ghost predicate Yields(events: seq<ReadyEvent>, slot: nat, write: bool)
  {
    exists e :: e in events && e.slot == slot && (e.state.Both? || e.state == if write then Write else Read)
  }

  /** A live slot's event says Read, Write or Both exactly as the bits its handles ring
      are in the snapshot. */
  lemma EventsAreSnapshot(snapshot: PollerSleep.Snapshot, readBits: seq<nat>, writeBits: seq<nat>,
                          live: seq<bool>, slot: nat, write: bool)
    requires Frozen(readBits, snapshot, false) && Frozen(writeBits, snapshot, true)
    ensures Yields(EventsFrom(readBits, writeBits, live, 0), slot, write) <==>
              slot < |live| && live[slot] && PollerSleep.Holds(snapshot, WordOf(slot, write), BitOf(slot))
  {
    EventsExactly(readBits, writeBits, live, 0);
    var events := EventsFrom(readBits, writeBits, live, 0);
    if slot < |live| && live[slot] && PollerSleep.Holds(snapshot, WordOf(slot, write), BitOf(slot)) {
      assert BitAt(if write then writeBits else readBits, slot);
      assert ReadyEvent(slot, StateOf(BitAt(readBits, slot), BitAt(writeBits, slot))) in events;
    }
  }

  /** Two handles ring the same bit only if they are of one slot and one kind. */
  lemma OwnBit(slot: nat, write: bool, slot': nat, write': bool)
    ensures WordOf(slot, write) == WordOf(slot', write') && BitOf(slot) == BitOf(slot')
       <==> slot == slot' && write == write'
  {
  }
}
