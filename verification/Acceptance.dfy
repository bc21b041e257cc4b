/** Which addresses a host receives packets for, by the addresses and prefix lengths it
    was given. */
module Acceptance {
  import opened Common
  import opened Words
  import opened Addresses
  import opened Routes
  import opened Delivery
  import H = Ipv4Header

  lemma {:induction false} OrLow(x: nat, n: nat)
    requires x % Pow2(n) == 0
    ensures Or(x, Pow2(n) - 1) == x + Pow2(n) - 1
    decreases n
  {
    if n > 0 && x > 0 {
      var p := Pow2(n - 1);
      assert x == 2 * p * (x / (2 * p));
      EvenQuotient(x, p);
      OrLow(x / 2, n - 1);
    }
  }

  lemma EvenQuotient(x: nat, p: nat)
    requires p >= 1 && x % (2 * p) == 0
    ensures x % 2 == 0 && (x / 2) % p == 0 && (2 * p - 1) / 2 == p - 1 && (2 * p - 1) % 2 == 1
  {
    var q := x / (2 * p);
    assert x == 2 * p * q;
    assert x == 2 * (p * q);
    assert x / 2 == p * q;
    assert (p * q) % p == 0 by { QuotientUnique(p * q, p, q, 0); }
  }

  /** The two ends of the subnet an address lies in. */
  lemma SubnetEnds(address: Ipv4, prefix: nat)
    requires prefix <= WIDTH
    ensures var p, e := Pow2(WIDTH - prefix), Assign(address, PrefixToMask(prefix));
            && e.network == address / p * p && e.broadcast == address / p * p + p - 1
  {
    var p := Pow2(WIDTH - prefix);
    MaskCuts(address, prefix);
    MaskValue(prefix);
    assert address / p * p % p == 0 by { QuotientUnique(address / p * p, p, address / p, 0); }
    OrLow(address / p * p, WIDTH - prefix);
  }

  /** The last address of the subnet, the one with all host bits set. */
  predicate EndsSubnet(a: Ipv4, address: Ipv4, prefix: nat)
    requires prefix <= WIDTH
  {
    SamePrefix(a, address, prefix) && a % Pow2(WIDTH - prefix) == Pow2(WIDTH - prefix) - 1
  }

  lemma EndOfBlock(a: nat, q: nat, p: nat)
    requires p >= 1
    ensures a == q * p + p - 1 <==> a / p == q && a % p == p - 1
  {
    if a == q * p + p - 1 { QuotientUnique(a, p, q, p - 1); }
  }

  lemma BroadcastEnds(a: Ipv4, address: Ipv4, prefix: nat)
    requires prefix <= WIDTH
    ensures Assign(address, PrefixToMask(prefix)).broadcast == a <==> EndsSubnet(a, address, prefix)
  {
    SubnetEnds(address, prefix);
    EndOfBlock(a, address / Pow2(WIDTH - prefix), Pow2(WIDTH - prefix));
  }

  /** The prefix lengths the entries were assigned with. */
  ghost predicate Prefixed(local: seq<Assigned>, prefixes: seq<nat>)
  {
    && |local| == |prefixes|
    && forall i :: 0 <= i < |local| ==>
         prefixes[i] <= WIDTH && local[i] == Assign(local[i].address, PrefixToMask(prefixes[i]))
  }

  /** A host receives for its own addresses and the last ones of their subnets, multicast
      groups excepted, and for 255.255.255.255; and for nothing else. */
  lemma AcceptableExactly(local: seq<Assigned>, prefixes: seq<nat>, a: Ipv4)
    requires Prefixed(local, prefixes)
    ensures IsAcceptable(local, a) <==>
              || a == 0xFFFF_FFFF
              || (a / 0x1000_0000 != 14
                  && exists i :: 0 <= i < |local|
                       && (a == local[i].address || EndsSubnet(a, local[i].address, prefixes[i])))
  {
    forall i | 0 <= i < |local| ensures local[i].broadcast == a <==> EndsSubnet(a, local[i].address, prefixes[i]) {
      BroadcastEnds(a, local[i].address, prefixes[i]);
    }
  }

  /** So every packet to an address of the host's own arrives. */
  lemma OwnAddressReceived(local: seq<Assigned>, i: nat, protocol: H.Protocol, source: Ipv4, id: U16,
                           payload: seq<Byte>, padding: seq<Byte>)
    requires i < |local| && local[i].address / 0x1000_0000 != 14
    requires H.LENGTH_NO_OPTIONS + |payload| < 0x1_0000 && H.Canonical(protocol)
    ensures Receive(local, Sent(protocol, source, local[i].address, id, payload) + padding)
         == match protocol
            case ICMP => ReceiveIcmp(source, local[i].address, payload)
            case UDP => Datagram(source, local[i].address, payload)
            case _ => Ignored
  {
    SentIsReceived(local, protocol, source, local[i].address, id, payload, padding);
  }
}
