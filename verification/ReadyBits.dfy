/** The iterators that turn words of ready bits into the slots to service
    (lib/src/ready_by_bits.rs and ReadyTokensByBits in lib/src/poller.rs). */
module ReadyBits {
  import opened Common
  import opened Words

  // ----- What the iterators are for: the set indices, filtered, ascending -----

  /** Bit i of an array of 64-bit words, 64 bits a word. */
  predicate BitAt(words: seq<nat>, i: nat)
  {
    i / 64 < |words| && Bit(words[i / 64], i % 64)
  }

  predicate AreU64(words: seq<nat>)
  {
    forall k :: 0 <= k < |words| ==> words[k] < Pow2(64)
  }

  /** The occupied slots at or above lo whose bit is set, in ascending order. */
  function ReadyFrom(words: seq<nat>, occupied: seq<bool>, lo: nat): seq<nat>
    decreases |occupied| - lo
  {
    if lo >= |occupied| then []
    else if BitAt(words, lo) && occupied[lo] then [lo] + ReadyFrom(words, occupied, lo + 1)
    else ReadyFrom(words, occupied, lo + 1)
  }

  /** ReadyFrom holds exactly the set and occupied slots, each once, ascending. */
  lemma {:induction false} ReadyExactly(words: seq<nat>, occupied: seq<bool>, lo: nat)
    ensures var r := ReadyFrom(words, occupied, lo);
            && (forall i :: i in r <==> lo <= i < |occupied| && BitAt(words, i) && occupied[i])
            && (forall a, b :: 0 <= a < b < |r| ==> r[a] < r[b])
    decreases |occupied| - lo
  {
    if lo < |occupied| {
      ReadyExactly(words, occupied, lo + 1);
      var r, rest := ReadyFrom(words, occupied, lo), ReadyFrom(words, occupied, lo + 1);
      forall a, b | 0 <= a < b < |r| ensures r[a] < r[b] {
        if r != rest { assert r[b] == rest[b - 1] && rest[b - 1] in rest; }
      }
    }
  }

  lemma {:induction false} ReadySkip(words: seq<nat>, occupied: seq<bool>, lo: nat, hi: nat)
    requires lo <= hi
    requires forall i :: lo <= i < hi && i < |occupied| ==> !(BitAt(words, i) && occupied[i])
    ensures ReadyFrom(words, occupied, lo) == ReadyFrom(words, occupied, hi)
    decreases hi - lo
  {
    if lo < hi && lo < |occupied| {
      assert !(BitAt(words, lo) && occupied[lo]);
      ReadySkip(words, occupied, lo + 1, hi);
    }
  }

  lemma {:induction false} ReadyAgree(words: seq<nat>, words': seq<nat>, occupied: seq<bool>, lo: nat)
    requires forall i :: lo <= i < |occupied| && occupied[i] ==> (BitAt(words, i) <==> BitAt(words', i))
    ensures ReadyFrom(words, occupied, lo) == ReadyFrom(words', occupied, lo)
    decreases |occupied| - lo
  {
    if lo < |occupied| { ReadyAgree(words, words', occupied, lo + 1); }
  }

  // ----- The lowest set bit of an array of words -----

  predicate ClearBelow(words: seq<nat>, chunk: nat)
  {
    chunk <= |words| && forall k :: 0 <= k < chunk ==> words[k] == 0
  }

  lemma BelowClear(words: seq<nat>, chunk: nat, i: nat)
    requires ClearBelow(words, chunk) && i < 64 * chunk
    ensures !BitAt(words, i)
  {
    ZeroHasNoBits(i % 64);
  }

  lemma UpdateU64(words: seq<nat>, c: nat, x: nat)
    requires AreU64(words) && c < |words| && x < Pow2(64)
    ensures AreU64(words[c := x])
  {
  }

  lemma SlotOf(i: nat, c: nat, t: nat)
    requires t < 64
    ensures i == t + 64 * c <==> i / 64 == c && i % 64 == t
  {
  }

  /** The lowest set bit of a 64-bit word. */
  lemma LowestIn(x: nat)
    requires 0 < x < Pow2(64)
    ensures TrailingZeros(x) < 64 && Bit(x, TrailingZeros(x))
    ensures And(x, x - 1) < x
  {
    LowestBit(x);
    BitBound(x, 64, TrailingZeros(x));
    ClearLowest(x, 0);
  }

  lemma BelowLowest(words: seq<nat>, c: nat, i: nat)
    requires AreU64(words) && c < |words| && ClearBelow(words, c) && words[c] > 0
    requires i < TrailingZeros(words[c]) + 64 * c
    ensures !BitAt(words, i)
  {
    LowestIn(words[c]);
    if i < 64 * c {
      BelowClear(words, c, i);
    } else {
      SlotOf(i, c, i - 64 * c);
      LowestBit(words[c]);
    }
  }

  lemma LowestCleared(words: seq<nat>, c: nat, i: nat)
    requires AreU64(words) && c < |words| && words[c] > 0
    ensures BitAt(words[c := And(words[c], words[c] - 1)], i)
       <==> BitAt(words, i) && i != TrailingZeros(words[c]) + 64 * c
  {
    LowestIn(words[c]);
    ClearLowest(words[c], i % 64);
    SlotOf(i, c, TrailingZeros(words[c]));
  }

  /** In the first non-zero word, the count of trailing zeros names the least set
      bit of the whole array; `&= word - 1` clears that bit and no other. */
  lemma TakeLowest(words: seq<nat>, c: nat)
    requires AreU64(words) && c < |words| && ClearBelow(words, c) && words[c] > 0
    ensures And(words[c], words[c] - 1) < words[c]
    ensures var t, x := TrailingZeros(words[c]), And(words[c], words[c] - 1);
            var slot, after := t + 64 * c, words[c := x];
            && t < 64 && BitAt(words, slot)
            && (forall i: nat :: i < slot ==> !BitAt(words, i))
            && (forall i: nat :: BitAt(after, i) <==> BitAt(words, i) && i != slot)
            && AreU64(after) && ClearBelow(after, c)
  {
    var x, t := words[c], TrailingZeros(words[c]);
    LowestIn(x);
    UpdateU64(words, c, And(x, x - 1));
    SlotOf(t + 64 * c, c, t);
    forall i: nat ensures BitAt(words[c := And(x, x - 1)], i) <==> BitAt(words, i) && i != t + 64 * c {
      LowestCleared(words, c, i);
    }
    forall i: nat | i < t + 64 * c ensures !BitAt(words, i) {
      BelowLowest(words, c, i);
    }
  }

  /** `fetch_or` of a bit sets that bit and no other. */
  function SetBit(words: seq<nat>, id: nat): seq<nat>
    requires id / 64 < |words|
  {
    words[id / 64 := Or(words[id / 64], Pow2(id % 64))]
  }

  lemma SetBitAt(words: seq<nat>, id: nat, i: nat)
    requires id / 64 < |words|
    ensures BitAt(SetBit(words, id), i) <==> BitAt(words, i) || i == id
  {
    if i / 64 == id / 64 {
      OrBit(words[id / 64], Pow2(id % 64), i % 64);
      Pow2Bit(id % 64, i % 64);
      SlotOf(i, id / 64, id % 64);
      SlotOf(id, id / 64, id % 64);
    }
  }

  lemma SetBitFits(words: seq<nat>, id: nat)
    requires id / 64 < |words| && AreU64(words)
    ensures AreU64(SetBit(words, id))
  {
    Pow2Monotone(id % 64, 64);
    OrBound(words[id / 64], Pow2(id % 64), 64);
    UpdateU64(words, id / 64, Or(words[id / 64], Pow2(id % 64)));
  }

  lemma SetBitSets(words: seq<nat>, id: nat)
    requires id / 64 < |words| && AreU64(words)
    ensures AreU64(SetBit(words, id))
    ensures forall i: nat :: BitAt(SetBit(words, id), i) <==> BitAt(words, i) || i == id
  {
    SetBitFits(words, id);
    forall i: nat ensures BitAt(SetBit(words, id), i) <==> BitAt(words, i) || i == id {
      SetBitAt(words, id, i);
    }
  }

  /** Taking the lowest set bit out takes its slot off the front of the ready
      list when the slot is occupied, and nothing off it otherwise. */
  lemma TakeFirst(words: seq<nat>, c: nat, occupied: seq<bool>)
    requires AreU64(words) && c < |words| && ClearBelow(words, c) && words[c] > 0
    ensures var slot, after := TrailingZeros(words[c]) + 64 * c, words[c := And(words[c], words[c] - 1)];
            ReadyFrom(words, occupied, 0)
            == (if slot < |occupied| && occupied[slot] then [slot] else []) + ReadyFrom(after, occupied, 0)
  {
    TakeLowest(words, c);
    var slot, after := TrailingZeros(words[c]) + 64 * c, words[c := And(words[c], words[c] - 1)];
    ReadySkip(words, occupied, 0, slot);
    ReadySkip(after, occupied, 0, slot + 1);
    ReadyAgree(words, after, occupied, slot + 1);
  }

  lemma ZeroWords(words: seq<nat>)
    requires ClearBelow(words, |words|)
    ensures forall i: nat :: !BitAt(words, i)
  {
    forall i: nat ensures !BitAt(words, i) {
      if i / 64 < |words| { BelowClear(words, |words|, i); }
    }
  }

  lemma NothingLeft(words: seq<nat>, occupied: seq<bool>)
    requires ClearBelow(words, |words|)
    ensures ReadyFrom(words, occupied, 0) == []
  {
    ZeroWords(words);
    ReadySkip(words, occupied, 0, |occupied|);
  }

  // ----- ReadyByBits: hands out the ready items while shrinking its slice -----

  function Occupied<T>(items: seq<Option<T>>): (occ: seq<bool>)
    ensures |occ| == |items| && forall i :: 0 <= i < |occ| ==> occ[i] == items[i].Some?
  {
    seq(|items|, i requires 0 <= i < |items| => items[i].Some?)
  }

  /** The iterator's slice is items[start..]: what has been handed out, and all
      before it, has been split off. */
  class ReadyByBits<T> {
    const items: array<Option<T>>
    var start: nat
    var readyBits: seq<nat>
    var currentChunk: nat

    ghost predicate Valid()
      reads this
    {
      && items.Length == 64 * |readyBits|
      && start <= items.Length
      && AreU64(readyBits)
      && ClearBelow(readyBits, currentChunk)
      && forall i: nat :: i < start ==> !BitAt(readyBits, i)
    }

    /** The slots still to be handed out. */
    ghost function Remaining(): seq<nat>
      reads this, items
    {
      ReadyFrom(readyBits, Occupied(items[..]), 0)
    }

    constructor (items: array<Option<T>>, readyBits: seq<nat>)
      requires items.Length == 64 * |readyBits| && AreU64(readyBits)
      ensures Valid() && this.items == items
      ensures Remaining() == ReadyFrom(readyBits, Occupied(items[..]), 0)
    {
      this.items := items;
      this.readyBits := readyBits;
      start, currentChunk := 0, 0;
    }

    /** Clears the lowest ready bit; its index in the whole array, and in what is
        left of the slice. */
    method TakeReady() returns (ghost slot: nat, current: nat)
      requires Valid() && currentChunk < |readyBits| && readyBits[currentChunk] > 0
      modifies this`readyBits
      ensures Valid() && |readyBits| == old(|readyBits|) && readyBits[currentChunk] < old(readyBits[currentChunk])
      ensures slot == start + current && slot < items.Length
      ensures old(Remaining()) == (if items[slot].Some? then [slot] else []) + Remaining()
      ensures forall i: nat :: i <= slot ==> !BitAt(readyBits, i)
    {
      var chunk := readyBits[currentChunk];
      TakeLowest(readyBits, currentChunk);
      TakeFirst(readyBits, currentChunk, Occupied(items[..]));
      var nextReady := TrailingZeros(chunk);
      readyBits := readyBits[currentChunk := And(chunk, chunk - 1)];
      var absolute := nextReady + 64 * currentChunk;
      var sliceLength := items.Length - start;
      current := absolute - (64 * |readyBits| - sliceLength);
      slot := absolute;
    }

    /** The position in the underlying array of the item handed out. */
    method Next() returns (r: Option<nat>)
      requires Valid()
      modifies this
      ensures Valid() && start >= old(start)
      ensures Yields(old(Remaining()), r, Remaining())
      ensures r.Some? ==> start == r.value + 1 && r.value < items.Length && items[r.value].Some?
    {
      while true
        invariant Valid() && start == old(start) && Remaining() == old(Remaining())
        decreases |readyBits| - currentChunk,
                  if currentChunk < |readyBits| then readyBits[currentChunk] else 0
      {
        if currentChunk >= |readyBits| {
          NothingLeft(readyBits, Occupied(items[..]));
          return None;
        }
        if readyBits[currentChunk] == 0 {
          currentChunk := currentChunk + 1;
          continue;
        }
        var slot, current := TakeReady();
        // The bit may be that of an empty slot.
        if items[start + current].None? {
          continue;
        }
        // The slice is split: the item leaves, what follows it stays.
        r := Some(start + current);
        start := start + current + 1;
        return r;
      }
      assert false;
    }
  }

  /** Runs the iterator to its end: it yields exactly the specified slots. */
  method CollectReady<T>(items: array<Option<T>>, readyBits: seq<nat>) returns (slots: seq<nat>)
    requires items.Length == 64 * |readyBits| && AreU64(readyBits)
    ensures slots == ReadyFrom(readyBits, Occupied(items[..]), 0)
  {
    var iter := new ReadyByBits(items, readyBits);
    ghost var all := iter.Remaining();
    ghost var pending := all;
    slots := [];
    var next := iter.Next();
    while next.Some?
      invariant iter.Valid() && iter.items == items && all == slots + pending
      invariant Yields(pending, next, iter.Remaining())
      decreases |pending|
    {
      MoveFirst(slots, pending);
      slots, pending := slots + [next.value], pending[1..];
      next := iter.Next();
    }
    assert slots == all;
  }
}
