/** The time data of an echo message (EchoMessageDataUnix in
    lib/src/protocols/ipv4/icmp.rs) and the duration on_echo_reply
    (lib/src/runtime/interface/l4_managers/ping.rs) computes from it. Durations are
    numbers of nanoseconds. */
module EchoTime {
  import opened Common

  const SECOND := 1_000_000_000
  const WORD := 0x1_0000_0000_0000_0000
  const DURATION_MAX := (WORD - 1) * SECOND + 999_999_999
  const LENGTH := 56

  /** What the build decides: whether an overflow panics or wraps, and the order of a
      word's octets. */
  datatype Build = Build(checked: bool, bigEndian: bool)

  /** What stands in place of an instant, and after it: octets that count up. */
  const NO_INSTANT: seq<Byte> := [16, 17, 18, 19, 20, 21, 22, 23, 24, 25, 26, 27, 28, 29, 30, 31]
  const TAIL: seq<Byte> := [32, 33, 34, 35, 36, 37, 38, 39, 40, 41, 42, 43,
                            44, 45, 46, 47, 48, 49, 50, 51, 52, 53, 54, 55]

  datatype Time = Time(sinceEpoch: nat, monotonic: Option<nat>)

  datatype Parse = Known(time: Time) | TooShort | Panics

  // ----- Words as octets -----

  function Word(big: bool, b: seq<Byte>): nat
  {
    if b == [] then 0
    else if big then 0x100 * Word(big, b[..|b| - 1]) + b[|b| - 1]
    else b[0] + 0x100 * Word(big, b[1..])
  }

  function Octets(big: bool, n: nat, length: nat): (b: seq<Byte>)
    ensures |b| == length
    decreases length
  {
    if length == 0 then []
    else if big then Octets(big, n / 0x100, length - 1) + [n % 0x100]
    else [n % 0x100] + Octets(big, n / 0x100, length - 1)
  }

  function Limit(length: nat): nat
  {
    if length == 0 then 1 else 0x100 * Limit(length - 1)
  }

  lemma {:induction false} WordRoundTrip(big: bool, n: nat, length: nat)
    requires n < Limit(length)
    ensures Word(big, Octets(big, n, length)) == n
    decreases length
  {
    if length > 0 {
      var b, rest := Octets(big, n, length), Octets(big, n / 0x100, length - 1);
      WordRoundTrip(big, n / 0x100, length - 1);
      assert if big then b[..length - 1] == rest else b[1..] == rest;
    }
  }

  // ----- The data of an echo message -----

  function Seconds(big: bool, data: seq<Byte>): nat
    requires |data| >= LENGTH
  {
    Word(big, data[..8])
  }

  function Micros(big: bool, data: seq<Byte>): nat
    requires |data| >= LENGTH
  {
    Word(big, data[8..16])
  }

  /** The instant after boot, unless its octets are the placeholder's or name none. */
  function Monotonic(big: bool, data: seq<Byte>): Option<nat>
    requires |data| >= LENGTH
  {
    var nanos := Word(big, data[16..32]);
    if data[16..32] != NO_INSTANT && 0 < nanos < DURATION_MAX then Some(nanos) else None
  }

  function FromBytes(build: Build, data: seq<Byte>): Parse
  {
    if |data| < LENGTH then TooShort
    else
      var scaled := Micros(build.bigEndian, data) * 1_000;
      if build.checked && scaled >= WORD then Panics
      else
        var nanos := Seconds(build.bigEndian, data) * SECOND + scaled % WORD;
        if nanos > DURATION_MAX then Panics
        else Known(Time(nanos, Monotonic(build.bigEndian, data)))
  }

  function Encode(big: bool, t: Time): (data: seq<Byte>)
    ensures |data| == LENGTH
  {
    Octets(big, t.sinceEpoch / SECOND, 8) + Octets(big, t.sinceEpoch % SECOND / 1_000, 8)
    + (if t.monotonic.Some? then Octets(big, t.monotonic.value, 16) else NO_INSTANT) + TAIL
  }

  // ----- There and back -----

  lemma Limits()
    ensures Limit(8) == WORD && Limit(15) > DURATION_MAX && Limit(16) > DURATION_MAX
  {
    assert Limit(4) == 0x1_0000_0000;
    assert Limit(12) == 0x1_0000_0000_0000_0000_0000_0000;
  }

  /** A word whose highest octet is not zero. */
  lemma {:induction false} AtLeast(big: bool, b: seq<Byte>)
    requires b != [] && b[if big then 0 else |b| - 1] > 0
    ensures Word(big, b) >= Limit(|b| - 1)
    decreases |b|
  {
    if |b| > 1 { AtLeast(big, if big then b[..|b| - 1] else b[1..]); }
  }

  /** Read as an instant the placeholder would be out of range, so that it can stand
      for none. */
  lemma PlaceholderIsNoInstant(big: bool)
    ensures Word(big, NO_INSTANT) > DURATION_MAX
  {
    AtLeast(big, NO_INSTANT);
    Limits();
  }

  /** What a reader of the written time sees: whole microseconds, and the instant
      unless it is 0 or the longest duration. */
  function AsRead(t: Time): Time
  {
    Time(t.sinceEpoch / 1_000 * 1_000,
         if t.monotonic.Some? && 0 < t.monotonic.value < DURATION_MAX then t.monotonic else None)
  }

  lemma InstantReads(big: bool, t: Time)
    requires t.monotonic.Some? ==> t.monotonic.value <= DURATION_MAX
    ensures Monotonic(big, Encode(big, t)) == AsRead(t).monotonic
  {
    var data := Encode(big, t);
    Limits();
    PlaceholderIsNoInstant(big);
    if t.monotonic.Some? {
      assert data[16..32] == Octets(big, t.monotonic.value, 16);
      WordRoundTrip(big, t.monotonic.value, 16);
    } else {
      assert data[16..32] == NO_INSTANT;
    }
  }

  lemma WordsRead(big: bool, first: nat, second: nat, rest: seq<Byte>)
    requires first < WORD && second < WORD
    ensures var data := Octets(big, first, 8) + Octets(big, second, 8) + rest;
            Word(big, data[..8]) == first && Word(big, data[8..16]) == second
  {
    var data := Octets(big, first, 8) + Octets(big, second, 8) + rest;
    Limits();
    assert data[..8] == Octets(big, first, 8) && data[8..16] == Octets(big, second, 8);
    WordRoundTrip(big, first, 8);
    WordRoundTrip(big, second, 8);
  }

  lemma EpochFits(nanos: nat)
    requires nanos <= DURATION_MAX
    ensures nanos / SECOND < WORD && nanos % SECOND / 1_000 < 1_000_000
  {
  }

  lemma EpochReads(big: bool, t: Time)
    requires t.sinceEpoch <= DURATION_MAX
    ensures Seconds(big, Encode(big, t)) == t.sinceEpoch / SECOND
    ensures Micros(big, Encode(big, t)) == t.sinceEpoch % SECOND / 1_000 < 1_000_000
  {
    EpochFits(t.sinceEpoch);
    var rest := (if t.monotonic.Some? then Octets(big, t.monotonic.value, 16) else NO_INSTANT) + TAIL;
    var data := Octets(big, t.sinceEpoch / SECOND, 8) + Octets(big, t.sinceEpoch % SECOND / 1_000, 8) + rest;
    assert Encode(big, t) == data;
    WordsRead(big, t.sinceEpoch / SECOND, t.sinceEpoch % SECOND / 1_000, rest);
  }

  lemma WholeMicros(nanos: nat)
    ensures nanos / SECOND * SECOND + nanos % SECOND / 1_000 * 1_000 == nanos / 1_000 * 1_000 <= nanos
    ensures nanos / 1_000 * 1_000 == nanos <==> nanos % 1_000 == 0
  {
  }

  lemma InRangeReads(build: Build, data: seq<Byte>, nanos: nat)
    requires |data| >= LENGTH && Micros(build.bigEndian, data) < 1_000_000 && nanos <= DURATION_MAX
    requires Seconds(build.bigEndian, data) * SECOND + Micros(build.bigEndian, data) * 1_000 == nanos
    ensures FromBytes(build, data) == Known(Time(nanos, Monotonic(build.bigEndian, data)))
  {
  }

  /** The time this stack writes never makes its reader panic, whatever the build. */
  lemma TimeReads(build: Build, t: Time)
    requires t.sinceEpoch <= DURATION_MAX && (t.monotonic.Some? ==> t.monotonic.value <= DURATION_MAX)
    ensures FromBytes(build, Encode(build.bigEndian, t)) == Known(AsRead(t))
  {
    var data := Encode(build.bigEndian, t);
    InstantReads(build.bigEndian, t);
    EpochReads(build.bigEndian, t);
    WholeMicros(t.sinceEpoch);
    InRangeReads(build, data, t.sinceEpoch / 1_000 * 1_000);
  }

  /** And it comes back whole exactly when it has no fraction of a microsecond and its
      instant is in range. */
  lemma TimeRoundTrip(build: Build, t: Time)
    requires t.sinceEpoch <= DURATION_MAX && (t.monotonic.Some? ==> t.monotonic.value <= DURATION_MAX)
    ensures FromBytes(build, Encode(build.bigEndian, t)) == Known(t) <==>
              t.sinceEpoch % 1_000 == 0 && (t.monotonic.Some? ==> 0 < t.monotonic.value < DURATION_MAX)
  {
    TimeReads(build, t);
    WholeMicros(t.sinceEpoch);
  }

  // ----- How long an answer took -----

  /** Readings when the answer is handled: the time since boot, if that was ever noted,
      and since the epoch, if the system clock is not before it. */
  datatype Clocks = Clocks(sinceBoot: Option<nat>, sinceEpoch: Option<nat>)

  datatype Measured = Took(duration: Option<nat>) | Fails

  /** By the monotonic clock if that gives one, else by the system's. */
  function Since(t: Time, clocks: Clocks): Measured
  {
    match t.monotonic
    case None => Took(None)
    case Some(instant) =>
      if clocks.sinceBoot.Some? && instant <= clocks.sinceBoot.value then Took(Some(clocks.sinceBoot.value - instant))
      else
        match clocks.sinceEpoch
        case None => Fails
        case Some(now) => Took(if t.sinceEpoch <= now then Some(now - t.sinceEpoch) else None)
  }

  function Measure(build: Build, data: seq<Byte>, clocks: Clocks): Measured
  {
    match FromBytes(build, data)
    case Panics => Fails
    case TooShort => Took(None)
    case Known(t) => Since(t, clocks)
  }

  lemma ReadMeasured(t: Time, clocks: Clocks)
    requires t.monotonic.Some? && 0 < t.monotonic.value < DURATION_MAX
    requires clocks.sinceBoot.Some? && t.monotonic.value <= clocks.sinceBoot.value
    ensures Since(AsRead(t), clocks) == Took(Some(clocks.sinceBoot.value - t.monotonic.value))
  {
  }

  /** The answer to a request of this stack's own is measured right. */
  lemma OwnEchoMeasured(build: Build, t: Time, clocks: Clocks)
    requires t.sinceEpoch <= DURATION_MAX && t.monotonic.Some? && 0 < t.monotonic.value < DURATION_MAX
    requires clocks.sinceBoot.Some? && t.monotonic.value <= clocks.sinceBoot.value
    ensures Measure(build, Encode(build.bigEndian, t), clocks)
         == Took(Some(clocks.sinceBoot.value - t.monotonic.value))
  {
    TimeReads(build, t);
    ReadMeasured(t, clocks);
  }

  /** Time data that makes any build panic: all ones. */
  lemma AllOnesFail(build: Build, rest: seq<Byte>, clocks: Clocks)
    requires |rest| >= 40
    ensures Measure(build, ONES + rest, clocks).Fails?
  {
    var data := ONES + rest;
    assert data[..8] == ONES[..8] && data[8..16] == ONES[..8];
    OnesAre(build.bigEndian);
  }

  const ONES: seq<Byte> := [255, 255, 255, 255, 255, 255, 255, 255, 255, 255, 255, 255, 255, 255, 255, 255]

  lemma OnesAre(big: bool)
    ensures Word(big, ONES[..8]) == WORD - 1
  {
    var b: seq<Byte> := [255, 255, 255, 255, 255, 255, 255, 255];
    assert ONES[..8] == b == Octets(big, WORD - 1, 8);
    WordRoundTrip(big, WORD - 1, 8);
    Limits();
  }

  /** In whole: data that is too short, or names no instant, yields no duration; the
      instant is read against the time since boot unless that is earlier or was never
      noted, and then the time since the epoch decides, if the clock is past both. */
  lemma MeasuresExactly(build: Build, data: seq<Byte>, clocks: Clocks)
    requires FromBytes(build, data).Known? || FromBytes(build, data).TooShort?
    ensures var m := Measure(build, data, clocks);
            if |data| < 56 then m == Took(None)
            else
              var t := FromBytes(build, data).time;
              if t.monotonic.None? then m == Took(None)
              else if clocks.sinceBoot.Some? && clocks.sinceBoot.value >= t.monotonic.value
              then m == Took(Some(clocks.sinceBoot.value - t.monotonic.value))
              else if clocks.sinceEpoch.None? then m.Fails?
              else m == Took(if clocks.sinceEpoch.value >= t.sinceEpoch
                             then Some(clocks.sinceEpoch.value - t.sinceEpoch) else None)
  {
  }
}
