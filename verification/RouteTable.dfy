/** The route table (lib/src/runtime/route_table.rs) and its netmasks
    (prefix_to_mask in lib/src/protocols/ipv4.rs). */
module Routes {
  import opened Common
  import opened Words

  datatype Route = Route(target: Ipv4, mask: Ipv4, source: Ipv4, nextHop: Option<Ipv4>)

  type Key = (Ipv4, Ipv4)

  function KeyOf(r: Route): Key
  {
    (r.target, r.mask)
  }

  datatype Ordering = Less | Equal | Greater

  function CompareAddress(a: Ipv4, b: Ipv4): Ordering
  {
    if a < b then Less else if a == b then Equal else Greater
  }

  /** Masks compare inverted, so the longest come first; targets break ties. */
  function Compare(a: Route, b: Route): Ordering
  {
    match CompareAddress(b.mask, a.mask)
    case Equal => CompareAddress(a.target, b.target)
    case other => other
  }

  /** Strictly ascending in that order. */
  ghost predicate Sorted(routes: seq<Route>)
  {
    forall i, j :: 0 <= i < j < |routes| ==> Compare(routes[i], routes[j]) == Less
  }

  /** The vector lists exactly the entries of the map. */
  ghost predicate Lists(routes: seq<Route>, entries: map<Key, Route>)
  {
    && (forall r :: r in routes ==> KeyOf(r) in entries && entries[KeyOf(r)] == r)
    && (forall k :: k in entries ==> entries[k] in routes && KeyOf(entries[k]) == k)
  }

  predicate Matches(r: Route, destination: Ipv4)
  {
    And(destination, r.mask) == r.target
  }

  /** The first route in the vector that matches. */
  function Lookup(routes: seq<Route>, destination: Ipv4): Option<Route>
  {
    if routes == [] then None
    else if Matches(routes[0], destination) then Some(routes[0])
    else Lookup(routes[1..], destination)
  }

  function Retain(routes: seq<Route>, drop: Route -> bool): seq<Route>
  {
    if routes == [] then []
    else
      var last := routes[|routes| - 1];
      Retain(routes[..|routes| - 1], drop) + (if drop(last) then [] else [last])
  }

  lemma {:induction false} RetainExactly(routes: seq<Route>, drop: Route -> bool)
    requires Sorted(routes)
    ensures Sorted(Retain(routes, drop))
    ensures forall r :: r in Retain(routes, drop) <==> r in routes && !drop(r)
  {
    if routes != [] {
      var rest, last := routes[..|routes| - 1], routes[|routes| - 1];
      RetainExactly(rest, drop);
      var kept := Retain(rest, drop);
      assert forall r :: r in routes <==> r in rest || r == last;
      forall i | 0 <= i < |kept| ensures Compare(kept[i], last) == Less {
        assert kept[i] in rest;
      }
    }
  }

  lemma DistinctKeys(routes: seq<Route>, i: nat, j: nat)
    requires Sorted(routes) && i < |routes| && j < |routes| && i != j
    ensures KeyOf(routes[i]) != KeyOf(routes[j])
  {
    assert Compare(routes[if i < j then i else j], routes[if i < j then j else i]) == Less;
  }

  lemma ReplaceKeeps(routes: seq<Route>, index: nat, route: Route, entries: map<Key, Route>)
    requires Sorted(routes) && Lists(routes, entries) && index < |routes| && KeyOf(routes[index]) == KeyOf(route)
    ensures Sorted(routes[index := route]) && Lists(routes[index := route], entries[KeyOf(route) := route])
  {
    var after := routes[index := route];
    var entries' := entries[KeyOf(route) := route];
    forall r | r in after ensures KeyOf(r) in entries' && entries'[KeyOf(r)] == r {
      var i :| 0 <= i < |after| && after[i] == r;
      if i != index {
        DistinctKeys(routes, i, index);
        assert routes[i] in routes;
      }
    }
    forall k | k in entries && k != KeyOf(route) ensures entries[k] in after {
      var i :| 0 <= i < |routes| && routes[i] == entries[k];
      assert after[i] == routes[i];
    }
    assert after[index] == route;
  }

  lemma InsertKeeps(routes: seq<Route>, index: nat, route: Route, entries: map<Key, Route>)
    requires Sorted(routes) && Lists(routes, entries) && index <= |routes|
    requires forall i :: 0 <= i < index ==> Compare(routes[i], route) == Less
    requires forall i :: index <= i < |routes| ==> Compare(route, routes[i]) == Less
    ensures var after := routes[..index] + [route] + routes[index..];
            Sorted(after) && Lists(after, entries[KeyOf(route) := route])
  {
    InsertSorted(routes, index, route);
    assert routes == routes[..index] + routes[index..];
    assert KeyOf(route) !in entries by {
      forall i | 0 <= i < |routes| ensures KeyOf(routes[i]) != KeyOf(route) {
        if i < index { assert Compare(routes[i], route) == Less; } else { assert Compare(route, routes[i]) == Less; }
      }
    }
  }

  lemma InsertSorted(routes: seq<Route>, index: nat, route: Route)
    requires Sorted(routes) && index <= |routes|
    requires forall i :: 0 <= i < index ==> Compare(routes[i], route) == Less
    requires forall i :: index <= i < |routes| ==> Compare(route, routes[i]) == Less
    ensures Sorted(routes[..index] + [route] + routes[index..])
  {
    var after := routes[..index] + [route] + routes[index..];
    forall i, j | 0 <= i < j < |after| ensures Compare(after[i], after[j]) == Less {
      if i != index && j != index {
        assert Compare(routes[if i < index then i else i - 1], routes[if j < index then j else j - 1]) == Less;
      }
    }
  }

  function Kept(entries: map<Key, Route>, drop: Route -> bool): map<Key, Route>
  {
    map k | k in entries && !drop(entries[k]) :: entries[k]
  }

  lemma RetainLists(routes: seq<Route>, drop: Route -> bool, entries: map<Key, Route>)
    requires Sorted(routes) && Lists(routes, entries)
    ensures Lists(Retain(routes, drop), Kept(entries, drop))
  {
    RetainExactly(routes, drop);
  }

  class RouteTable {
    var routes: seq<Route>
    var shared: seq<Route>
    ghost var entries: map<Key, Route>

    ghost predicate Valid()
      reads this
    {
      Sorted(routes) && Lists(routes, entries) && shared == routes
    }

    constructor ()
      ensures Valid() && entries == map[] && routes == []
    {
      routes, shared, entries := [], [], map[];
    }

    /** Where the route's key is, or where it belongs. */
    method BinarySearch(route: Route) returns (found: bool, index: nat)
      requires Sorted(routes)
      ensures index <= |routes|
      ensures found ==> index < |routes| && KeyOf(routes[index]) == KeyOf(route)
      ensures !found ==>
                && (forall i :: 0 <= i < index ==> Compare(routes[i], route) == Less)
                && (forall i :: index <= i < |routes| ==> Compare(route, routes[i]) == Less)
    {
      var low, high := 0, |routes|;
      while low < high
        invariant 0 <= low <= high <= |routes|
        invariant forall i :: 0 <= i < low ==> Compare(routes[i], route) == Less
        invariant forall i :: high <= i < |routes| ==> Compare(route, routes[i]) == Less
      {
        var mid := (low + high) / 2;
        match Compare(routes[mid], route)
        case Less => low := mid + 1;
        case Equal => return true, mid;
        case Greater => high := mid;
      }
      return false, low;
    }

    method InsertOrUpdate(target: Ipv4, mask: Ipv4, source: Ipv4, nextHop: Option<Ipv4>)
      requires Valid()
      modifies this
      ensures Valid()
      ensures entries == old(entries)[(target, mask) := Route(target, mask, source, nextHop)]
    {
      var route := Route(target, mask, source, nextHop);
      var found, index := BinarySearch(route);
      if found {
        ReplaceKeeps(routes, index, route, entries);
        routes := routes[index := route];
      } else {
        InsertKeeps(routes, index, route, entries);
        routes := routes[..index] + [route] + routes[index..];
      }
      entries := entries[(target, mask) := route];
      UpdateShared();
    }

    method Retained(drop: Route -> bool) returns (kept: seq<Route>)
      ensures kept == Retain(routes, drop)
    {
      kept := [];
      for i := 0 to |routes|
        invariant kept == Retain(routes[..i], drop)
      {
        assert routes[..i + 1][..i] == routes[..i];
        if !drop(routes[i]) {
          kept := kept + [routes[i]];
        }
      }
      assert routes[..|routes|] == routes;
    }

    method RemoveMatching(drop: Route -> bool)
      requires Valid()
      modifies this
      ensures Valid()
      ensures entries == Kept(old(entries), drop)
      ensures forall r :: r in routes <==> r in old(routes) && !drop(r)
    {
      RetainExactly(routes, drop);
      RetainLists(routes, drop, entries);
      routes := Retained(drop);
      entries := Kept(entries, drop);
      UpdateShared();
    }

    method UpdateShared()
      modifies this`shared
      ensures shared == routes
    {
      shared := routes;
    }

    method Find(destination: Ipv4) returns (r: Option<Route>)
      ensures r == Lookup(routes, destination)
    {
      var i := 0;
      while i < |routes|
        invariant i <= |routes| && Lookup(routes, destination) == Lookup(routes[i..], destination)
      {
        if Matches(routes[i], destination) {
          return Some(routes[i]);
        }
        assert routes[i..][1..] == routes[i + 1..];
        i := i + 1;
      }
      return None;
    }
  }

  // ----- Lookup is longest-prefix match -----

  const WIDTH := 32

  /** prefix_to_mask: all ones shifted left by the host length, cut to 32 bits. */
  function PrefixToMask(prefix: nat): (mask: Ipv4)
    requires prefix <= WIDTH
  {
    if prefix == 0 then 0 else 0xFFFF_FFFF * Pow2(WIDTH - prefix) % 0x1_0000_0000
  }

  lemma MaskValue(prefix: nat)
    requires prefix <= WIDTH
    ensures PrefixToMask(prefix) == 0x1_0000_0000 - Pow2(WIDTH - prefix)
  {
    Pow2Of32();
    if prefix > 0 {
      var p := Pow2(WIDTH - prefix);
      Pow2Monotone(WIDTH - prefix, WIDTH);
      assert 0xFFFF_FFFF * p == (p - 1) * 0x1_0000_0000 + (0x1_0000_0000 - p);
      QuotientUnique(0xFFFF_FFFF * p, 0x1_0000_0000, p - 1, 0x1_0000_0000 - p);
    }
  }

  lemma LongerMaskLarger(p: nat, q: nat)
    requires p <= WIDTH && q <= WIDTH
    ensures PrefixToMask(p) < PrefixToMask(q) <==> p < q
    ensures PrefixToMask(p) == PrefixToMask(q) <==> p == q
  {
    if p < q { LargerMask(p, q); }
    if q < p { LargerMask(q, p); }
  }

  lemma LargerMask(p: nat, q: nat)
    requires p < q <= WIDTH
    ensures PrefixToMask(p) < PrefixToMask(q)
  {
    MaskValue(p);
    MaskValue(q);
    Pow2Monotone(WIDTH - q, WIDTH - p);
  }

  /** Masking an address rounds it down to a multiple of the host range. */
  lemma MaskCuts(a: Ipv4, prefix: nat)
    requires prefix <= WIDTH
    ensures var p := Pow2(WIDTH - prefix); And(a, PrefixToMask(prefix)) == a / p * p
  {
    Pow2Of32();
    MaskValue(prefix);
    AndHighMask(a, WIDTH, WIDTH - prefix);
  }

  /** The first `prefix` bits of two addresses agree. */
  predicate SamePrefix(a: Ipv4, b: Ipv4, prefix: nat)
    requires prefix <= WIDTH
  {
    a / Pow2(WIDTH - prefix) == b / Pow2(WIDTH - prefix)
  }

  /** The network of that prefix length which the target, host bits zero, names. */
  predicate IsNetwork(r: Route, prefix: nat)
  {
    prefix <= WIDTH && r.mask == PrefixToMask(prefix) && And(r.target, r.mask) == r.target
  }

  /** The destination lies in the route's network. */
  predicate Holds(r: Route, prefix: nat, destination: Ipv4)
  {
    prefix <= WIDTH && SamePrefix(destination, r.target, prefix)
  }

  lemma MatchesIsSamePrefix(r: Route, prefix: nat, destination: Ipv4)
    requires IsNetwork(r, prefix)
    ensures Matches(r, destination) <==> Holds(r, prefix, destination)
  {
    MaskedEqual(destination, r.target, prefix);
  }

  lemma MaskedEqual(a: Ipv4, b: Ipv4, prefix: nat)
    requires prefix <= WIDTH
    ensures And(a, PrefixToMask(prefix)) == And(b, PrefixToMask(prefix)) <==> SamePrefix(a, b, prefix)
  {
    MaskCuts(a, prefix);
    MaskCuts(b, prefix);
    var p := Pow2(WIDTH - prefix);
    SameQuotientSameMultiple(a / p, b / p, p);
  }

  lemma SameQuotientSameMultiple(a: nat, b: nat, p: nat)
    requires p > 0
    ensures a * p == b * p <==> a == b
  {
    if a < b { MultipleGap(b, a, p); }
    if b < a { MultipleGap(a, b, p); }
  }

  lemma {:induction false} LookupIsFirst(routes: seq<Route>, destination: Ipv4)
    ensures match Lookup(routes, destination)
            case None => forall i :: 0 <= i < |routes| ==> !Matches(routes[i], destination)
            case Some(r) => exists i :: 0 <= i < |routes| && routes[i] == r && Matches(r, destination)
                                     && forall j :: 0 <= j < i ==> !Matches(routes[j], destination)
  {
    if routes != [] && !Matches(routes[0], destination) {
      LookupIsFirst(routes[1..], destination);
      match Lookup(routes[1..], destination)
      case None =>
      case Some(r) =>
        var i :| 0 <= i < |routes[1..]| && routes[1..][i] == r
              && forall j :: 0 <= j < i ==> !Matches(routes[1..][j], destination);
        forall j | 0 <= j < i + 1 ensures !Matches(routes[j], destination) {
          if j > 0 { assert routes[j] == routes[1..][j - 1]; }
        }
        assert routes[i + 1] == r;
    }
  }

  /** Of two networks that hold an address the earlier in the order is the smaller:
      equal masks would make both targets the same masked address. */
  lemma FirstIsLonger(a: Route, p: nat, b: Route, q: nat, destination: Ipv4)
    requires IsNetwork(a, p) && IsNetwork(b, q) && Compare(a, b) == Less
    requires Matches(a, destination) && Matches(b, destination)
    ensures q < p
  {
    LongerMaskLarger(q, p);
  }

  lemma BeforeOther(routes: seq<Route>, i: nat, r: Route, destination: Ipv4)
    requires Sorted(routes) && i < |routes| && r in routes && r != routes[i] && Matches(r, destination)
    requires forall j :: 0 <= j < i ==> !Matches(routes[j], destination)
    ensures Compare(routes[i], r) == Less
  {
    var j :| 0 <= j < |routes| && routes[j] == r;
    assert i < j;
  }

  /** For routes to networks, the first match is the one with the longest prefix,
      it is unique, and there is none exactly when no network holds the destination. */
  lemma LookupIsLongestPrefix(routes: seq<Route>, prefixes: map<Route, nat>, destination: Ipv4)
    requires Sorted(routes)
    requires forall r :: r in routes ==> r in prefixes && IsNetwork(r, prefixes[r])
    ensures match Lookup(routes, destination)
            case None => forall r :: r in routes ==> !Holds(r, prefixes[r], destination)
            case Some(best) =>
              && best in routes && Holds(best, prefixes[best], destination)
              && forall r :: r in routes && r != best && Holds(r, prefixes[r], destination) ==>
                   prefixes[r] < prefixes[best]
  {
    LookupIsFirst(routes, destination);
    forall r | r in routes ensures Matches(r, destination) <==> Holds(r, prefixes[r], destination) {
      MatchesIsSamePrefix(r, prefixes[r], destination);
    }
    match Lookup(routes, destination)
    case None =>
    case Some(best) =>
      var i :| 0 <= i < |routes| && routes[i] == best && forall j :: 0 <= j < i ==> !Matches(routes[j], destination);
      forall r | r in routes && r != best && Holds(r, prefixes[r], destination)
        ensures prefixes[r] < prefixes[best]
      {
        BeforeOther(routes, i, r, destination);
        FirstIsLonger(best, prefixes[best], r, prefixes[r], destination);
      }
  }

  /** The route goes to a network of some prefix length. */
  predicate IsPrefixRoute(r: Route)
  {
    exists prefix: nat :: prefix <= WIDTH && IsNetwork(r, prefix)
  }

  ghost function PrefixOf(r: Route): (prefix: nat)
    requires IsPrefixRoute(r)
    ensures IsNetwork(r, prefix)
  {
    var prefix: nat :| prefix <= WIDTH && IsNetwork(r, prefix);
    prefix
  }

  lemma CutTwice(x: nat, p: nat)
    requires p > 0
    ensures x / p * p <= x && x / p * p / p == x / p
  {
    QuotientUnique(x / p * p, p, x / p, 0);
  }

  /** Masking a target makes it a network's. */
  lemma MaskedIsNetwork(target: Ipv4, prefix: nat)
    requires prefix <= WIDTH
    ensures And(target, PrefixToMask(prefix)) <= target
    ensures And(And(target, PrefixToMask(prefix)), PrefixToMask(prefix)) == And(target, PrefixToMask(prefix))
  {
    MaskCuts(target, prefix);
    CutTwice(target, Pow2(WIDTH - prefix));
    MaskCuts(And(target, PrefixToMask(prefix)), prefix);
  }

  /** The same of a table's entries: the route looked up, if there is one, holds the
      destination under a longer prefix than any other route that holds it. */
  ghost predicate IsBest(entries: map<Key, Route>, found: Option<Route>, destination: Ipv4)
    requires forall k :: k in entries ==> IsPrefixRoute(entries[k])
  {
    match found
    case None => forall k :: k in entries ==> !Holds(entries[k], PrefixOf(entries[k]), destination)
    case Some(best) =>
      && KeyOf(best) in entries && entries[KeyOf(best)] == best && Holds(best, PrefixOf(best), destination)
      && forall k :: k in entries && k != KeyOf(best) && Holds(entries[k], PrefixOf(entries[k]), destination) ==>
           PrefixOf(entries[k]) < PrefixOf(best)
  }

  lemma LookupIsBest(routes: seq<Route>, entries: map<Key, Route>, destination: Ipv4)
    requires Sorted(routes) && Lists(routes, entries)
    requires forall k :: k in entries ==> IsPrefixRoute(entries[k])
    ensures IsBest(entries, Lookup(routes, destination), destination)
  {
    assert forall r :: r in routes ==> IsPrefixRoute(r);
    var prefixes := map r | r in routes :: PrefixOf(r);
    LookupIsLongestPrefix(routes, prefixes, destination);
  }
}
