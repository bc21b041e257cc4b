/** The table of the interface's own addresses (lib/src/runtime/address_table.rs). */
module Addresses {
  import opened Common
  import opened Words

  datatype Assigned = Assigned(address: Ipv4, mask: Ipv4, network: Ipv4, broadcast: Ipv4)

  function Assign(address: Ipv4, mask: Ipv4): Assigned
  {
    MaskedInRange(address, mask);
    var network := And(address, mask);
    Assigned(address, mask, network, Broadcast(network, mask))
  }

  function Broadcast(network: Ipv4, mask: Ipv4): Ipv4
  {
    Pow2Of32();
    OrBound(network, 0xFFFF_FFFF - mask, 32);
    Or(network, 0xFFFF_FFFF - mask)
  }

  lemma {:induction false} MaskedInRange(x: nat, mask: nat)
    ensures And(x, mask) <= x
  {
    if x > 0 && mask > 0 { MaskedInRange(x / 2, mask / 2); }
  }

  /** The pairs the applications see. */
  function Shared(local: seq<Assigned>): seq<(Ipv4, Ipv4)>
  {
    seq(|local|, i requires 0 <= i < |local| => (local[i].address, local[i].mask))
  }

  /** Position of the first entry for an address, the length if there is none. */
  function Position(local: seq<Assigned>, address: Ipv4): (i: nat)
    ensures i <= |local|
    ensures i < |local| ==> local[i].address == address
    ensures forall j :: 0 <= j < i ==> local[j].address != address
  {
    if local == [] || local[0].address == address then 0 else 1 + Position(local[1..], address)
  }

  function Without(local: seq<Assigned>, address: Ipv4): seq<Assigned>
  {
    var i := Position(local, address);
    if i < |local| then local[..i] + local[i + 1..] else local
  }

  predicate Has(local: seq<Assigned>, address: Ipv4)
  {
    exists i :: 0 <= i < |local| && local[i].address == address
  }

  /** Removal takes out one entry of that address and no other address. */
  lemma WithoutKeepsOthers(local: seq<Assigned>, address: Ipv4, other: Ipv4)
    requires other != address
    ensures Has(Without(local, address), other) <==> Has(local, other)
  {
    var i, after := Position(local, address), Without(local, address);
    if Has(local, other) {
      var j :| 0 <= j < |local| && local[j].address == other;
      assert after[if j < i then j else if i < |local| then j - 1 else j].address == other;
    }
    if Has(after, other) {
      var j :| 0 <= j < |after| && after[j].address == other;
      assert local[if j < i then j else if i < |local| then j + 1 else j].address == other;
    }
  }

  /** How often an address is assigned. */
  function Copies(local: seq<Assigned>, address: Ipv4): nat
  {
    if local == [] then 0 else (if local[0].address == address then 1 else 0) + Copies(local[1..], address)
  }

  lemma {:induction false} CopiesAppend(a: seq<Assigned>, b: seq<Assigned>, address: Ipv4)
    ensures Copies(a + b, address) == Copies(a, address) + Copies(b, address)
  {
    if a == [] {
      assert a + b == b;
    } else {
      assert (a + b)[1..] == a[1..] + b;
      CopiesAppend(a[1..], b, address);
    }
  }

  lemma {:induction false} HasCopies(local: seq<Assigned>, address: Ipv4)
    ensures Has(local, address) <==> Copies(local, address) > 0
  {
    if local != [] {
      HasCopies(local[1..], address);
      if Has(local[1..], address) {
        var i :| 0 <= i < |local[1..]| && local[1..][i].address == address;
        assert local[i + 1].address == address;
      }
      if Has(local, address) && local[0].address != address {
        var i :| 0 <= i < |local| && local[i].address == address;
        assert local[1..][i - 1].address == address;
      }
    }
  }

  /** Removal takes out the first entry of the address: every other one stays, so the
      address is gone exactly if it was assigned no more than once. */
  lemma RemovedExactly(local: seq<Assigned>, address: Ipv4, other: Ipv4)
    ensures Copies(Without(local, address), other)
         == Copies(local, other) - (if other == address && Has(local, address) then 1 else 0)
    ensures Has(Without(local, address), address) <==> Copies(local, address) >= 2
  {
    HasCopies(local, address);
    HasCopies(Without(local, address), address);
    WithoutCopies(local, address, address);
    WithoutCopies(local, address, other);
  }

  lemma WithoutCopies(local: seq<Assigned>, address: Ipv4, other: Ipv4)
    ensures Copies(Without(local, address), other)
         == Copies(local, other) - (if other == address && Has(local, address) then 1 else 0)
  {
    var i := Position(local, address);
    if i < |local| {
      assert local == local[..i] + [local[i]] + local[i + 1..];
      CopiesAppend(local[..i] + [local[i]], local[i + 1..], other);
      CopiesAppend(local[..i], [local[i]], other);
      CopiesAppend(local[..i], local[i + 1..], other);
    }
  }

  lemma RemovesFirst(local: seq<Assigned>, address: Ipv4)
    requires Has(local, address)
    ensures exists i: nat :: i < |local| && IsFirst(local, i, address)
                          && Without(local, address) == local[..i] + local[i + 1..]
  {
    assert IsFirst(local, Position(local, address), address);
  }

  predicate IsFirst(local: seq<Assigned>, i: nat, address: Ipv4)
    requires i < |local|
  {
    local[i].address == address && forall j :: 0 <= j < i ==> local[j].address != address
  }

  predicate IsFirstHolding(local: seq<Assigned>, i: nat, value: Ipv4)
    requires i < |local|
  {
    && And(value, local[i].mask) == local[i].network
    && forall j :: 0 <= j < i ==> And(value, local[j].mask) != local[j].network
  }

  class AddressTable {
    var local: seq<Assigned>
    var shared: seq<(Ipv4, Ipv4)>

    ghost predicate Valid()
      reads this
    {
      && shared == Shared(local)
      && forall i :: 0 <= i < |local| ==> local[i] == Assign(local[i].address, local[i].mask)
    }

    constructor ()
      ensures Valid() && local == []
    {
      local, shared := [], [];
    }

    method Insert(address: Ipv4, mask: Ipv4)
      requires Valid()
      modifies this
      ensures Valid() && local == old(local) + [Assign(address, mask)]
    {
      local := local + [Assign(address, mask)];
      shared := Shared(local);
    }

    method Remove(address: Ipv4)
      requires Valid()
      modifies this
      ensures Valid() && local == Without(old(local), address)
    {
      var position := Position(local, address);
      if position < |local| {
        local := local[..position] + local[position + 1..];
      }
      shared := Shared(local);
    }

    /** The first assigned address whose subnet holds the value. */
    method FirstWithSubnetContaining(value: Ipv4) returns (r: Option<Ipv4>)
      requires Valid()
      ensures r == None ==> forall i :: 0 <= i < |local| ==> And(value, local[i].mask) != local[i].network
      ensures r.Some? ==> exists i :: 0 <= i < |local| && IsFirstHolding(local, i, value) && local[i].address == r.value
    {
      for i := 0 to |local|
        invariant forall j :: 0 <= j < i ==> And(value, local[j].mask) != local[j].network
      {
        if And(value, local[i].mask) == local[i].network {
          return Some(local[i].address);
        }
      }
      return None;
    }
  }
}
