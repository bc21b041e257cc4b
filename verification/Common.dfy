/** Small shared types. */
module Common {

  datatype Option<+T> = None | Some(value: T)

  /** One call of an iterator that had `before` still to yield. */
  predicate Yields<T(==)>(before: seq<T>, r: Option<T>, after: seq<T>)
  {
    if before == [] then r == None && after == [] else r == Some(before[0]) && after == before[1..]
  }

  lemma MoveFirst<T>(done: seq<T>, pending: seq<T>)
    requires pending != []
    ensures done + pending == done + [pending[0]] + pending[1..]
  {
  }

  /** duration_since on a clock, which saturates at zero. */
  function Elapsed(now: nat, since: nat): nat
  {
    if now >= since then now - since else 0
  }

  /** One octet. */
  type Byte = x: nat | x < 0x100 witness 0

  /** An unsigned 16-bit value. */
  type U16 = x: nat | x < 0x1_0000 witness 0

  /** An IPv4 address as the unsigned 32-bit number of its four octets; ordering
      addresses is ordering these numbers. */
  type Ipv4 = x: nat | x < 0x1_0000_0000 witness 0

  const UNSPECIFIED: Ipv4 := 0
}
