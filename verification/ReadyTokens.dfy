/** ReadyTokensByBits (lib/src/poller.rs): merges a read word and a write word
    per chunk into one ascending stream of readiness events. */
module ReadyTokens {
  import opened Common
  import opened Words
  import opened ReadyBits

  datatype ReadyState = Read | Write | Both

  datatype ReadyEvent = ReadyEvent(slot: nat, state: ReadyState)

  function StateOf(read: bool, write: bool): ReadyState
  {
    if read && write then Both else if read then Read else Write
  }

  /** One event for each live slot at or above lo with a read or a write bit set,
      ascending, tagged with exactly the bits that are set. */
  function EventsFrom(readBits: seq<nat>, writeBits: seq<nat>, live: seq<bool>, lo: nat): seq<ReadyEvent>
    decreases |live| - lo
  {
    if lo >= |live| then []
    else if (BitAt(readBits, lo) || BitAt(writeBits, lo)) && live[lo]
    then [ReadyEvent(lo, StateOf(BitAt(readBits, lo), BitAt(writeBits, lo)))]
       + EventsFrom(readBits, writeBits, live, lo + 1)
    else EventsFrom(readBits, writeBits, live, lo + 1)
  }

  lemma {:induction false} EventsExactly(readBits: seq<nat>, writeBits: seq<nat>, live: seq<bool>, lo: nat)
    ensures var r := EventsFrom(readBits, writeBits, live, lo);
            && (forall e :: e in r <==>
                  && lo <= e.slot < |live| && live[e.slot]
                  && (BitAt(readBits, e.slot) || BitAt(writeBits, e.slot))
                  && (e.state.Read? || e.state.Both? <==> BitAt(readBits, e.slot))
                  && (e.state.Write? || e.state.Both? <==> BitAt(writeBits, e.slot)))
            && (forall a, b :: 0 <= a < b < |r| ==> r[a].slot < r[b].slot)
    decreases |live| - lo
  {
    if lo < |live| {
      EventsExactly(readBits, writeBits, live, lo + 1);
      var r, rest := EventsFrom(readBits, writeBits, live, lo), EventsFrom(readBits, writeBits, live, lo + 1);
      forall a, b | 0 <= a < b < |r| ensures r[a].slot < r[b].slot {
        if r != rest { assert r[b] == rest[b - 1] && rest[b - 1] in rest; }
      }
    }
  }

  lemma {:induction false} EventsSkip(readBits: seq<nat>, writeBits: seq<nat>, live: seq<bool>, lo: nat, hi: nat)
    requires lo <= hi
    requires forall i :: lo <= i < hi ==> !BitAt(readBits, i) && !BitAt(writeBits, i)
    ensures EventsFrom(readBits, writeBits, live, lo) == EventsFrom(readBits, writeBits, live, hi)
    decreases hi - lo
  {
    if lo < hi && lo < |live| { EventsSkip(readBits, writeBits, live, lo + 1, hi); }
  }

  lemma {:induction false} EventsAgree(readBits: seq<nat>, writeBits: seq<nat>, readBits': seq<nat>,
                                       writeBits': seq<nat>, live: seq<bool>, lo: nat)
    requires forall i :: lo <= i < |live| ==>
               (BitAt(readBits, i) <==> BitAt(readBits', i)) && (BitAt(writeBits, i) <==> BitAt(writeBits', i))
    ensures EventsFrom(readBits, writeBits, live, lo) == EventsFrom(readBits', writeBits', live, lo)
    decreases |live| - lo
  {
    if lo < |live| { EventsAgree(readBits, writeBits, readBits', writeBits', live, lo + 1); }
  }

  /** The word with its lowest set bit cleared when `take` says so. */
  function Strip(words: seq<nat>, c: nat, take: bool): seq<nat>
    requires c < |words| && (take ==> words[c] > 0)
  {
    if take then words[c := And(words[c], words[c] - 1)] else words
  }

  /** What one word pair contributes: with r and w the trailing zeros of the two
      words, the slot min(r, w) is the least set in either array, it is set in the
      read array iff r <= w and in the write array iff w <= r, and stripping the
      words that name it clears it and nothing else. */
  lemma StripLowest(words: seq<nat>, c: nat, slot: nat)
    requires AreU64(words) && c < |words| && ClearBelow(words, c)
    requires 64 * c <= slot <= TrailingZeros(words[c]) + 64 * c && slot < 64 * c + 64
    ensures var take := slot == TrailingZeros(words[c]) + 64 * c;
            && (BitAt(words, slot) <==> take)
            && (take ==> words[c] > 0)
            && (forall i: nat :: i < slot ==> !BitAt(words, i))
            && (forall i: nat :: BitAt(Strip(words, c, take), i) <==> BitAt(words, i) && i != slot)
            && AreU64(Strip(words, c, take)) && ClearBelow(Strip(words, c, take), c)
  {
    if words[c] > 0 {
      TakeLowest(words, c);
    } else {
      forall i: nat | i < 64 * c + 64 ensures !BitAt(words, i) {
        BelowClear(words, c + 1, i);
      }
    }
  }

  lemma StripShrinks(words: seq<nat>, c: nat, take: bool)
    requires c < |words| && (take ==> words[c] > 0)
    ensures if take then Strip(words, c, take)[c] < words[c] else Strip(words, c, take)[c] == words[c]
  {
    if take { ClearLowest(words[c], 0); }
  }

  /** The slot a pair of words names next. */
  function NextSlot(read: nat, write: nat, c: nat): nat
  {
    (if TrailingZeros(read) <= TrailingZeros(write) then TrailingZeros(read) else TrailingZeros(write)) + 64 * c
  }

  lemma NamesBit(words: seq<nat>, c: nat)
    requires AreU64(words) && c < |words| && ClearBelow(words, c)
    ensures words[c] > 0 <==> TrailingZeros(words[c]) < 64
  {
    if words[c] > 0 { TakeLowest(words, c); }
  }

  lemma TakeEvent(readBits: seq<nat>, writeBits: seq<nat>, c: nat, live: seq<bool>)
    requires AreU64(readBits) && AreU64(writeBits) && |readBits| == |writeBits| && c < |readBits|
    requires ClearBelow(readBits, c) && ClearBelow(writeBits, c) && (readBits[c] > 0 || writeBits[c] > 0)
    ensures var r, w := TrailingZeros(readBits[c]), TrailingZeros(writeBits[c]);
            var slot := NextSlot(readBits[c], writeBits[c], c);
            && (r <= w ==> readBits[c] > 0) && (w <= r ==> writeBits[c] > 0)
            && slot < 64 * c + 64
            && var readBits', writeBits' := Strip(readBits, c, r <= w), Strip(writeBits, c, w <= r);
            && AreU64(readBits') && ClearBelow(readBits', c) && AreU64(writeBits') && ClearBelow(writeBits', c)
            && readBits'[c] + writeBits'[c] < readBits[c] + writeBits[c]
            && (forall i: nat :: i <= slot ==> !BitAt(readBits', i) && !BitAt(writeBits', i))
            && EventsFrom(readBits, writeBits, live, 0)
            == (if slot < |live| && live[slot] then [ReadyEvent(slot, StateOf(r <= w, w <= r))] else [])
             + EventsFrom(readBits', writeBits', live, 0)
  {
    var r, w := TrailingZeros(readBits[c]), TrailingZeros(writeBits[c]);
    NamesBit(readBits, c);
    NamesBit(writeBits, c);
    var slot := NextSlot(readBits[c], writeBits[c], c);
    StripLowest(readBits, c, slot);
    StripLowest(writeBits, c, slot);
    StripShrinks(readBits, c, r <= w);
    StripShrinks(writeBits, c, w <= r);
    DropEvent(readBits, writeBits, Strip(readBits, c, r <= w), Strip(writeBits, c, w <= r), slot, live);
  }

  lemma EventsAt(readBits: seq<nat>, writeBits: seq<nat>, live: seq<bool>, slot: nat)
    requires BitAt(readBits, slot) || BitAt(writeBits, slot)
    ensures EventsFrom(readBits, writeBits, live, slot)
         == (if slot < |live| && live[slot]
             then [ReadyEvent(slot, StateOf(BitAt(readBits, slot), BitAt(writeBits, slot)))] else [])
          + EventsFrom(readBits, writeBits, live, slot + 1)
  {
  }

  lemma DropEvent(readBits: seq<nat>, writeBits: seq<nat>, readBits': seq<nat>, writeBits': seq<nat>, slot: nat,
                  live: seq<bool>)
    requires BitAt(readBits, slot) || BitAt(writeBits, slot)
    requires forall i: nat :: i < slot ==> !BitAt(readBits, i) && !BitAt(writeBits, i)
    requires forall i: nat :: BitAt(readBits', i) <==> BitAt(readBits, i) && i != slot
    requires forall i: nat :: BitAt(writeBits', i) <==> BitAt(writeBits, i) && i != slot
    ensures EventsFrom(readBits, writeBits, live, 0)
         == (if slot < |live| && live[slot]
             then [ReadyEvent(slot, StateOf(BitAt(readBits, slot), BitAt(writeBits, slot)))] else [])
          + EventsFrom(readBits', writeBits', live, 0)
  {
    EventsSkip(readBits, writeBits, live, 0, slot);
    EventsSkip(readBits', writeBits', live, 0, slot + 1);
    EventsAgree(readBits, writeBits, readBits', writeBits', live, slot + 1);
    EventsAt(readBits, writeBits, live, slot);
  }

  lemma NoEventsLeft(readBits: seq<nat>, writeBits: seq<nat>, live: seq<bool>)
    requires forall i: nat :: i < |live| ==> !BitAt(readBits, i) && !BitAt(writeBits, i)
    ensures EventsFrom(readBits, writeBits, live, 0) == []
  {
    EventsSkip(readBits, writeBits, live, 0, |live|);
  }

  /** `live[i]` says that slot i tracks a token that is still held. */
  class ReadyTokensByBits {
    const live: seq<bool>
    var readBits: seq<nat>
    var writeBits: seq<nat>
    var currentChunk: nat

    ghost predicate Valid()
      reads this
    {
      && |readBits| == |writeBits|
      && AreU64(readBits) && AreU64(writeBits)
      && ClearBelow(readBits, currentChunk) && ClearBelow(writeBits, currentChunk)
    }

    ghost function Remaining(): seq<ReadyEvent>
      reads this
    {
      EventsFrom(readBits, writeBits, live, 0)
    }

    constructor (live: seq<bool>, readBits: seq<nat>, writeBits: seq<nat>)
      requires |readBits| == |writeBits| && |readBits| <= 64 * |live|
      requires AreU64(readBits) && AreU64(writeBits)
      ensures Valid() && this.live == live && |this.readBits| == |readBits|
      ensures Remaining() == EventsFrom(readBits, writeBits, live, 0)
    {
      this.live, this.readBits, this.writeBits := live, readBits, writeBits;
      currentChunk := 0;
    }

    /** Works out whether the read or the write word names the next slot, and clears
        that bit in the words that name it. */
    method StripWords() returns (slot: nat, state: ReadyState)
      requires currentChunk < |readBits| == |writeBits|
      requires readBits[currentChunk] > 0 || writeBits[currentChunk] > 0
      requires TrailingZeros(readBits[currentChunk]) < 64 <==> readBits[currentChunk] > 0
      requires TrailingZeros(writeBits[currentChunk]) < 64 <==> writeBits[currentChunk] > 0
      modifies this`readBits, this`writeBits
      ensures var r, w := old(TrailingZeros(readBits[currentChunk])), old(TrailingZeros(writeBits[currentChunk]));
              && (r <= w ==> old(readBits[currentChunk]) > 0) && (w <= r ==> old(writeBits[currentChunk]) > 0)
              && readBits == old(Strip(readBits, currentChunk, r <= w))
              && writeBits == old(Strip(writeBits, currentChunk, w <= r))
              && state == StateOf(r <= w, w <= r)
      ensures slot == old(NextSlot(readBits[currentChunk], writeBits[currentChunk], currentChunk))
    {
      var read, write := readBits[currentChunk], writeBits[currentChunk];
      var nextRead, nextWrite := TrailingZeros(read), TrailingZeros(write);
      var next;
      if nextRead < nextWrite {
        readBits := readBits[currentChunk := And(read, read - 1)];
        next, state := nextRead, ReadyState.Read;
      } else if nextRead == nextWrite {
        readBits := readBits[currentChunk := And(read, read - 1)];
        writeBits := writeBits[currentChunk := And(write, write - 1)];
        next, state := nextRead, Both;
      } else {
        writeBits := writeBits[currentChunk := And(write, write - 1)];
        next, state := nextWrite, ReadyState.Write;
      }
      slot := next + 64 * currentChunk;
    }

    /** And what that takes: the next event, if its slot is live. */
    method TakeLowest() returns (slot: nat, state: ReadyState)
      requires Valid() && currentChunk < |readBits|
      requires readBits[currentChunk] > 0 || writeBits[currentChunk] > 0
      modifies this`readBits, this`writeBits
      ensures Valid() && |readBits| == old(|readBits|)
      ensures readBits[currentChunk] + writeBits[currentChunk]
           < old(readBits[currentChunk]) + old(writeBits[currentChunk])
      ensures slot < 64 * |readBits|
      ensures old(Remaining())
           == (if slot < |live| && live[slot] then [ReadyEvent(slot, state)] else []) + Remaining()
      ensures forall i: nat :: i <= slot ==> !BitAt(readBits, i) && !BitAt(writeBits, i)
    {
      NamesBit(readBits, currentChunk);
      NamesBit(writeBits, currentChunk);
      TakeEvent(readBits, writeBits, currentChunk, live);
      slot, state := StripWords();
    }

    method Next() returns (r: Option<ReadyEvent>, ghost outOfRange: bool)
      requires Valid()
      modifies this
      ensures Valid() && |readBits| == old(|readBits|)
      ensures Yields(old(Remaining()), r, Remaining())
      // The early exit on an index beyond the table is dead once the table has a slot per bit.
      ensures |live| == 64 * |readBits| ==> !outOfRange
    {
      outOfRange := false;
      while true
        invariant Valid() && |readBits| == old(|readBits|) && Remaining() == old(Remaining())
        decreases |readBits| - currentChunk,
                  if currentChunk < |readBits| then readBits[currentChunk] + writeBits[currentChunk] else 0
      {
        if currentChunk >= |readBits| {
          ZeroWords(readBits);
          ZeroWords(writeBits);
          NoEventsLeft(readBits, writeBits, live);
          return None, false;
        }
        if readBits[currentChunk] == 0 && writeBits[currentChunk] == 0 {
          currentChunk := currentChunk + 1;
          continue;
        }
        var absolute, state := TakeLowest();
        if absolute >= |live| {
          NoEventsLeft(readBits, writeBits, live);
          return None, true;
        }
        if live[absolute] {
          return Some(ReadyEvent(absolute, state)), false;
        }
      }
      assert false;
    }
  }

  /** Runs the iterator to its end: it terminates and yields exactly the events of
      the specification. */
  method CollectEvents(live: seq<bool>, readBits: seq<nat>, writeBits: seq<nat>) returns (events: seq<ReadyEvent>)
    requires |readBits| == |writeBits| && |readBits| <= 64 * |live|
    requires AreU64(readBits) && AreU64(writeBits)
    ensures events == EventsFrom(readBits, writeBits, live, 0)
  {
    var iter := new ReadyTokensByBits(live, readBits, writeBits);
    ghost var all := iter.Remaining();
    ghost var pending := all;
    events := [];
    var next, dead := iter.Next();
    while next.Some?
      invariant iter.Valid() && iter.live == live && all == events + pending
      invariant Yields(pending, next, iter.Remaining())
      decreases |pending|
    {
      MoveFirst(events, pending);
      events, pending := events + [next.value], pending[1..];
      next, dead := iter.Next();
    }
    assert events == all;
  }
}
