/** UDP port bindings (lib/src/runtime/interface/l4_managers/udp/port_binding.rs). */
module PortBinding {
  import opened Common

  datatype Ip = V4(v4: Ipv4) | V6(v6: nat)

  datatype SocketAddr = SocketAddr(ip: Ip, port: U16)

  datatype Target = Any | AnyIpv4 | AnyIpv6 | Specific(ip: Ip)

  /** A socket's handle, by its identity. */
  datatype Handle = Handle(id: nat, allowReuse: bool)

  datatype Binding = Binding(target: Target, original: SocketAddr, handle: Handle)

  predicate IsUnspecified(ip: Ip)
  {
    ip == V4(0) || ip == V6(0)
  }

  function ToUnspecified(ip: Ip): Ip
  {
    if ip.V4? then V4(0) else V6(0)
  }

  predicate Matches(target: Target, ip: Ip)
  {
    match target
    case Any => true
    case AnyIpv4 => ip.V4?
    case AnyIpv6 => ip.V6?
    case Specific(l) => ip == l
  }

  predicate IsIpv4(target: Target)
  {
    match target
    case Any => true
    case AnyIpv4 => true
    case AnyIpv6 => false
    case Specific(ip) => ip.V4?
  }

  predicate IsIpv6(target: Target)
  {
    match target
    case Any => true
    case AnyIpv6 => true
    case AnyIpv4 => false
    case Specific(ip) => ip.V6?
  }

  /** What a binding of the address listens to. */
  function TargetOf(addr: SocketAddr, dualStack: bool): Target
  {
    if !IsUnspecified(addr.ip) then Specific(addr.ip)
    else if dualStack then Any
    else if addr.ip.V4? then AnyIpv4
    else AnyIpv6
  }

  /** A binding of an unspecified address receives for every address, or for all of its
      family; one of a specific address for that address alone. */
  lemma ListensExactly(addr: SocketAddr, dualStack: bool, ip: Ip)
    ensures Matches(TargetOf(addr, dualStack), ip) <==>
              if addr.ip == V4(0) || addr.ip == V6(0) then dualStack || ip.V4? == addr.ip.V4? else ip == addr.ip
  {
  }

  predicate IsBindableExclusive(bindings: seq<Binding>, request: SocketAddr, dualStack: bool)
  {
    if IsUnspecified(request.ip) then
      if dualStack then bindings == []
      else if request.ip.V4? then !exists b :: b in bindings && IsIpv4(b.target)
      else !exists b :: b in bindings && IsIpv6(b.target)
    else forall b :: b in bindings ==> !Matches(b.target, request.ip)
  }

  predicate IsBindableAllowReuse(bindings: seq<Binding>, request: SocketAddr, dualStack: bool)
  {
    if IsUnspecified(request.ip) then
      if dualStack then forall b :: b in bindings ==> b.handle.allowReuse
      else if request.ip.V4? then forall b :: b in bindings && IsIpv4(b.target) ==> b.handle.allowReuse
      else forall b :: b in bindings && IsIpv6(b.target) ==> b.handle.allowReuse
    else !exists b :: b in bindings && Matches(b.target, request.ip) && !b.handle.allowReuse
  }

  predicate IsBindable(bindings: seq<Binding>, request: SocketAddr, allowReuse: bool, dualStack: bool)
  {
    if allowReuse then IsBindableAllowReuse(bindings, request, dualStack)
    else IsBindableExclusive(bindings, request, dualStack)
  }

  // ----- What the checks are for -----

  /** Some address reaches both. */
  ghost predicate Overlap(a: Target, b: Target)
  {
    exists ip :: Matches(a, ip) && Matches(b, ip)
  }

  ghost predicate Compatible(a: Target, aReuse: bool, b: Target, bReuse: bool)
  {
    Overlap(a, b) ==> aReuse && bReuse
  }

  lemma OverlapExactly(request: SocketAddr, dualStack: bool, b: Target)
    ensures Overlap(TargetOf(request, dualStack), b) <==>
              if !IsUnspecified(request.ip) then Matches(b, request.ip)
              else dualStack || (if request.ip.V4? then IsIpv4(b) else IsIpv6(b))
  {
    var a := TargetOf(request, dualStack);
    if !IsUnspecified(request.ip) {
      if Matches(b, request.ip) { assert Matches(a, request.ip); }
    } else {
      if b.Specific? { assert Matches(b, b.ip); }
      if b.Any? || b.AnyIpv4? { assert Matches(b, V4(0)) && (Matches(a, V4(0)) || a.AnyIpv6?); }
      if b.Any? || b.AnyIpv6? { assert Matches(b, V6(0)) && (Matches(a, V6(0)) || a.AnyIpv4?); }
    }
  }

  /** A request is bindable exactly when every binding an address could also reach
      agrees with it on reuse. */
  lemma BindableExactly(bindings: seq<Binding>, request: SocketAddr, allowReuse: bool, dualStack: bool)
    ensures IsBindable(bindings, request, allowReuse, dualStack) <==>
              forall b :: b in bindings ==>
                Compatible(b.target, b.handle.allowReuse, TargetOf(request, dualStack), allowReuse)
  {
    forall b: Binding
      ensures Overlap(b.target, TargetOf(request, dualStack)) <==> Overlap(TargetOf(request, dualStack), b.target)
    {
    }
    forall b: Binding { OverlapExactly(request, dualStack, b.target); }
    if bindings != [] { assert bindings[0] in bindings; }
  }

  /** Two bindings on a port that one address reaches both allow reuse. */
  ghost predicate Exclusive(bindings: seq<Binding>)
  {
    forall i, j :: 0 <= i < j < |bindings| ==>
      Compatible(bindings[i].target, bindings[i].handle.allowReuse, bindings[j].target, bindings[j].handle.allowReuse)
  }

  /** The target is the one the binding's own address asks for. */
  ghost predicate Formed(bindings: seq<Binding>)
  {
    forall i :: 0 <= i < |bindings| ==>
      || bindings[i].target == TargetOf(bindings[i].original, true)
      || bindings[i].target == TargetOf(bindings[i].original, false)
  }

  /** The first binding that matches. */
  function Find(bindings: seq<Binding>, ip: Ip): (r: Option<Handle>)
    ensures r.Some? <==> exists i :: 0 <= i < |bindings| && Matches(bindings[i].target, ip)
    ensures r.Some? ==>
              exists i :: 0 <= i < |bindings| && Matches(bindings[i].target, ip) && bindings[i].handle == r.value
                                     && forall j :: 0 <= j < i ==> !Matches(bindings[j].target, ip)
  {
    if bindings == [] then None
    else if Matches(bindings[0].target, ip) then Some(bindings[0].handle)
    else
      var r := Find(bindings[1..], ip);
      assert forall i :: 0 < i < |bindings| ==> bindings[i] == bindings[1..][i - 1];
      assert forall i :: 0 <= i < |bindings[1..]| ==> bindings[1..][i] == bindings[i + 1];
      r
  }

  /** Where the address was first bound, the length if nowhere. */
  function Position(bindings: seq<Binding>, original: SocketAddr): (i: nat)
    ensures i <= |bindings| && (i < |bindings| ==> bindings[i].original == original)
    ensures forall j :: 0 <= j < i ==> bindings[j].original != original
  {
    if bindings == [] || bindings[0].original == original then 0 else 1 + Position(bindings[1..], original)
  }

  function Inserted(bindings: seq<Binding>, addr: SocketAddr, handle: Handle, dualStack: bool): seq<Binding>
  {
    bindings + [Binding(TargetOf(addr, dualStack), addr, handle)]
  }

  function Without(bindings: seq<Binding>, original: SocketAddr): seq<Binding>
  {
    var i := Position(bindings, original);
    if i < |bindings| then bindings[..i] + bindings[i + 1..] else bindings
  }

  lemma InsertKeeps(bindings: seq<Binding>, addr: SocketAddr, handle: Handle, dualStack: bool)
    requires Exclusive(bindings) && Formed(bindings) && IsBindable(bindings, addr, handle.allowReuse, dualStack)
    ensures Exclusive(Inserted(bindings, addr, handle, dualStack))
    ensures Formed(Inserted(bindings, addr, handle, dualStack))
  {
    BindableExactly(bindings, addr, handle.allowReuse, dualStack);
    forall i | 0 <= i < |bindings|
      ensures Compatible(bindings[i].target, bindings[i].handle.allowReuse,
                         TargetOf(addr, dualStack), handle.allowReuse)
    {
      assert bindings[i] in bindings;
    }
  }

  lemma RemoveKeeps(bindings: seq<Binding>, original: SocketAddr)
    requires Exclusive(bindings) && Formed(bindings)
    ensures Exclusive(Without(bindings, original)) && Formed(Without(bindings, original))
  {
  }

  /** Without reuse at most one binding matches any address, so whatever the order of
      the vector a lookup finds it. */
  lemma FindIsUnique(bindings: seq<Binding>, i: nat, ip: Ip)
    requires Exclusive(bindings) && i < |bindings| && !bindings[i].handle.allowReuse && Matches(bindings[i].target, ip)
    ensures Find(bindings, ip) == Some(bindings[i].handle)
    ensures forall j :: 0 <= j < |bindings| && j != i ==> !Matches(bindings[j].target, ip)
  {
    forall j | 0 <= j < |bindings| && j != i ensures !Matches(bindings[j].target, ip) {
      var a, b := if i < j then i else j, if i < j then j else i;
      assert Compatible(bindings[a].target, bindings[a].handle.allowReuse,
                        bindings[b].target, bindings[b].handle.allowReuse);
    }
  }

  /** The second lookup UdpManager::recv makes, by the unspecified address of the
      same family, never finds a socket the first one missed. */
  lemma FallbackFindsNothing(bindings: seq<Binding>, ip: Ip)
    requires Formed(bindings) && Find(bindings, ip) == None
    ensures Find(bindings, ToUnspecified(ip)) == None
  {
    forall i | 0 <= i < |bindings| ensures !Matches(bindings[i].target, ToUnspecified(ip)) {
      assert !Matches(bindings[i].target, ip);
    }
  }

  // ----- All ports -----

  /** The bindings of the ports that were ever bound. The map stands for the array of
      65536 optional boxes. */
  type Ports = map<U16, seq<Binding>>

  function At(ports: Ports, port: U16): seq<Binding>
  {
    if port in ports then ports[port] else []
  }

  function Get(ports: Ports, addr: SocketAddr): Option<Handle>
  {
    Find(At(ports, addr.port), addr.ip)
  }

  ghost predicate Deterministic(ports: Ports)
  {
    forall p :: p in ports ==> Exclusive(ports[p]) && Formed(ports[p])
  }

  class PortBindings {
    var ports: Ports

    ghost predicate Valid()
      reads this
    {
      Deterministic(ports)
    }

    constructor ()
      ensures Valid() && ports == map[]
    {
      ports := map[];
    }

    method CanBind(addr: SocketAddr, allowReuse: bool, dualStack: bool) returns (r: bool)
      requires Valid()
      ensures r <==> forall b :: b in At(ports, addr.port) ==>
                       Compatible(b.target, b.handle.allowReuse, TargetOf(addr, dualStack), allowReuse)
      ensures r == IsBindable(At(ports, addr.port), addr, allowReuse, dualStack)
    {
      BindableExactly(At(ports, addr.port), addr, allowReuse, dualStack);
      r := addr.port !in ports || IsBindable(ports[addr.port], addr, allowReuse, dualStack);
    }

    /** The caller has checked that the address is bindable. */
    method Insert(addr: SocketAddr, handle: Handle, dualStack: bool)
      requires Valid() && IsBindable(At(ports, addr.port), addr, handle.allowReuse, dualStack)
      modifies this
      ensures Valid()
      ensures ports == old(ports)[addr.port := Inserted(At(old(ports), addr.port), addr, handle, dualStack)]
    {
      InsertKeeps(At(ports, addr.port), addr, handle, dualStack);
      if addr.port !in ports {
        ports := ports[addr.port := []];
      }
      ports := ports[addr.port := Inserted(ports[addr.port], addr, handle, dualStack)];
    }

    method Remove(original: SocketAddr)
      requires Valid()
      modifies this
      ensures Valid()
      ensures ports == if original.port in old(ports)
                       then old(ports)[original.port := Without(old(ports)[original.port], original)] else old(ports)
    {
      if original.port in ports {
        RemoveKeeps(ports[original.port], original);
        ports := ports[original.port := Without(ports[original.port], original)];
      }
    }

    /** The socket a datagram goes to: by its address, else by the unspecified one. */
    method Receiver(ip: Ip, port: U16) returns (r: Option<Handle>)
      requires Valid()
      ensures r == Get(ports, SocketAddr(ip, port))
    {
      r := Get(ports, SocketAddr(ip, port));
      if r == None {
        if port in ports { FallbackFindsNothing(ports[port], ip); }
        r := Get(ports, SocketAddr(ToUnspecified(ip), port));
      }
    }
  }
}
