/** The IPv4 header codec (lib/src/protocols/ipv4.rs). */
module Ipv4Header {
  import opened Common
  import C = Checksum

  datatype Protocol = ICMP | TCP | UDP | Other(value: Byte)

  function ProtocolOf(value: Byte): Protocol
  {
    match value
    case 1 => ICMP
    case 6 => TCP
    case 17 => UDP
    case _ => Other(value)
  }

  function ProtocolByte(protocol: Protocol): Byte
  {
    match protocol
    case ICMP => 1
    case TCP => 6
    case UDP => 17
    case Other(value) => value
  }

  /** The protocol is the reading of its own byte: not Other(1), Other(6) or Other(17). */
  predicate Canonical(protocol: Protocol)
  {
    protocol.Other? ==> protocol.value != 1 && protocol.value != 6 && protocol.value != 17
  }

  datatype TypeOfService = TypeOfService(precedence: nat, lowDelay: bool, highThroughput: bool, highReliability: bool)

  const ROUTINE := TypeOfService(0, false, false, false)

  function TypeOfServiceOf(b: Byte): TypeOfService
  {
    TypeOfService(b / 32, b / 16 % 2 == 1, b / 8 % 2 == 1, b / 4 % 2 == 1)
  }

  const OFFSET_MAX := 0x1FFF

  datatype Fragment = Fragment(identification: U16, doNotFragment: bool, moreFragments: bool, offset: U16)

  function FragmentOf(b: seq<Byte>): Fragment
    requires |b| == 4
  {
    Fragment(C.U16Of(b[0], b[1]), b[2] / 64 % 2 == 1, b[2] / 32 % 2 == 1, C.U16Of(b[2], b[3]) % (OFFSET_MAX + 1))
  }

  /** DF is bit 14 and MF bit 13 of the second word, the offset its low 13 bits. */
  function FragmentBytes(f: Fragment): (b: seq<Byte>)
    ensures |b| == 4
  {
    C.Bytes16(f.identification)
    + C.Bytes16((if f.doNotFragment then 0x4000 else 0) + (if f.moreFragments then 0x2000 else 0)
                + f.offset % (OFFSET_MAX + 1))
  }

  function Octets(a: Ipv4): (b: seq<Byte>)
    ensures |b| == 4
  {
    C.Bytes16(a / 0x1_0000) + C.Bytes16(a % 0x1_0000)
  }

  function AddressOf(b: seq<Byte>): Ipv4
    requires |b| == 4
  {
    var high, low := C.U16Of(b[0], b[1]), C.U16Of(b[2], b[3]);
    0x1_0000 * (high as nat) + low
  }

  datatype Header = Header(
    headerLength: nat, typeOfService: TypeOfService, totalLength: U16, fragment: Fragment, timeToLive: Byte,
    protocol: Protocol, checksum: U16, source: Ipv4, destination: Ipv4)

  const LENGTH_NO_OPTIONS := 20

  /** IPv4Header::new; the random identification is an argument, and the u16 sum of
      the lengths wraps. */
  function New(protocol: Protocol, source: Ipv4, destination: Ipv4, payloadLength: U16, identification: U16): Header
  {
    Header(5, ROUTINE, (LENGTH_NO_OPTIONS + payloadLength) % 0x1_0000, Fragment(identification, true, false, 0), 64,
           protocol, 0, source, destination)
  }

  datatype ParseError = InvalidVersion | UnexpectedEof | InvalidChecksum

  /** Panics: an index or a slice is out of range. */
  datatype Parse = Parsed(header: Header) | Rejected(error: ParseError) | Panics

  /** The octets the header checksum covers, its own field zeroed. */
  function Covered(b: seq<Byte>, length: nat): seq<Byte>
    requires 12 <= length <= |b|
  {
    b[..10] + [0, 0] + b[12..length]
  }

  function Fields(b: seq<Byte>): Header
    requires |b| >= 20
  {
    Header(b[0] % 16, TypeOfServiceOf(b[1]), C.U16Of(b[2], b[3]), FragmentOf(b[4..8]), b[8],
           ProtocolOf(b[9]), C.U16Of(b[10], b[11]), AddressOf(b[12..16]), AddressOf(b[16..20]))
  }

  function FromBytes(b: seq<Byte>): Parse
  {
    if |b| == 0 then Panics
    else if b[0] / 16 != 4 then Rejected(InvalidVersion)
    else
      var length := 4 * (b[0] % 16);
      if |b| < length then Rejected(UnexpectedEof)
      else if length < 12 then Panics
      else if [b[10], b[11]] != C.Of(Covered(b, length)) then Rejected(InvalidChecksum)
      else if |b| < 20 then Panics
      else Parsed(Fields(b))
  }

  /** For a header of at least five words: accepted exactly when it is long enough,
      RFC 1071 verifies it over its length, and it does not store 0xFFFF. */
  lemma AcceptsExactlyVerified(b: seq<Byte>)
    requires |b| > 0 && b[0] / 16 == 4 && b[0] % 16 >= 5
    ensures var length := 4 * (b[0] % 16);
            FromBytes(b).Parsed? <==>
              |b| >= length && C.Verifies(b[..length]) && !(b[10] == 0xFF && b[11] == 0xFF)
    ensures !FromBytes(b).Panics?
  {
    var length := 4 * (b[0] % 16);
    if |b| >= length {
      var stored := C.U16Of(b[10], b[11]);
      assert C.Bytes16(stored) == [b[10], b[11]];
      assert b[..length] == b[..10] + C.Bytes16(stored) + b[12..length];
      assert C.WordSum(Covered(b, length)) > 0;
      C.CompareVersusVerify(b[..10], stored, b[12..length]);
    }
  }

  /** In octets: none; or version 4 and as many as the header length says, if that is
      below 12, or if the checksum matches and fewer than 20 came. */
  predicate HeaderPanics(b: seq<Byte>)
  {
    || |b| == 0
    || (&& b[0] / 16 == 4 && |b| >= 4 * (b[0] % 16)
        && (|| 4 * (b[0] % 16) < 12
            || (|b| < 20 && [b[10], b[11]] == C.Of(Covered(b, 4 * (b[0] % 16))))))
  }

  lemma PanicsExactly(b: seq<Byte>)
    ensures FromBytes(b).Panics? <==> HeaderPanics(b)
  {
  }

  // ----- Encoding -----

  /** The octet that bit packing makes of a type of service. */
  type Packing = TypeOfService -> Byte

  /** The header with given type of service and checksum fields; five words, no
      options. */
  function Layout(h: Header, tos: Byte, checksum: seq<Byte>): (b: seq<Byte>)
    requires |checksum| == 2
    ensures |b| == LENGTH_NO_OPTIONS
  {
    var t, f, s, d := C.Bytes16(h.totalLength), FragmentBytes(h.fragment), Octets(h.source), Octets(h.destination);
    [0x45, tos, t[0], t[1], f[0], f[1], f[2], f[3], h.timeToLive, ProtocolByte(h.protocol),
     checksum[0], checksum[1], s[0], s[1], s[2], s[3], d[0], d[1], d[2], d[3]]
  }

  function Encode(h: Header, tos: Byte): seq<Byte>
  {
    Layout(h, tos, C.Of(Layout(h, tos, [0, 0])))
  }

  /** write_to_buffer: lay the header out with a zero checksum, sum it, patch the
      two octets, append the result. */
  method WriteToBuffer(h: Header, pack: Packing, buffer: seq<Byte>) returns (written: seq<Byte>)
    requires h.headerLength == 5
    ensures written == buffer + Encode(h, pack(h.typeOfService))
  {
    var tos := pack(h.typeOfService);
    var bytes := new Byte[20](_ => 0);
    LayOut(h, tos, bytes);
    var accumulator := new C.Accumulator();
    accumulator.AddBytes(bytes[..]);
    var checksum := accumulator.Value();
    assert accumulator.fed == bytes[..];
    bytes[10] := checksum[0];
    bytes[11] := checksum[1];
    Patch(h, tos, checksum);
    assert bytes[..] == Layout(h, tos, [0, 0])[10 := checksum[0]][11 := checksum[1]];
    written := buffer + bytes[..];
  }

  lemma Patch(h: Header, tos: Byte, checksum: seq<Byte>)
    requires |checksum| == 2
    ensures Layout(h, tos, [0, 0])[10 := checksum[0]][11 := checksum[1]] == Layout(h, tos, checksum)
  {
  }

  /** The puts before the checksum is known, in order. */
  method LayOut(h: Header, tos: Byte, bytes: array<Byte>)
    requires h.headerLength == 5 && bytes.Length == 20
    modifies bytes
    ensures bytes[..] == Layout(h, tos, [0, 0])
  {
    var cursor := PutSlice(bytes, 0, [], [0x45]);
    cursor := PutSlice(bytes, cursor, [0x45], [tos]);
    cursor := PutSlice(bytes, cursor, [0x45, tos], C.Bytes16(h.totalLength));
    ghost var front := Front(h, tos);
    cursor := PutSlice(bytes, cursor, front[..4], FragmentBytes(h.fragment));
    cursor := PutSlice(bytes, cursor, front[..8], [h.timeToLive]);
    cursor := PutSlice(bytes, cursor, front[..9], [ProtocolByte(h.protocol)]);
    cursor := PutSlice(bytes, cursor, front, [0, 0]);
    cursor := PutSlice(bytes, cursor, front + [0, 0], Octets(h.source));
    cursor := PutSlice(bytes, cursor, front + [0, 0] + Octets(h.source), Octets(h.destination));
    assert bytes[..] == bytes[..20];
  }

  /** The octets before the checksum. */
  ghost function Front(h: Header, tos: Byte): (front: seq<Byte>)
    ensures |front| == 10 && front[..2] + C.Bytes16(h.totalLength) == front[..4]
    ensures front[..2] == [0x45, tos] && front[..4] + FragmentBytes(h.fragment) == front[..8]
    ensures front[..8] + [h.timeToLive] == front[..9] && front[..9] + [ProtocolByte(h.protocol)] == front
    ensures front + [0, 0] + Octets(h.source) + Octets(h.destination) == Layout(h, tos, [0, 0])
  {
    [0x45, tos] + C.Bytes16(h.totalLength) + FragmentBytes(h.fragment) + [h.timeToLive, ProtocolByte(h.protocol)]
  }

  /** `before` is what has been put so far. */
  method PutSlice(bytes: array<Byte>, cursor: nat, ghost before: seq<Byte>, slice: seq<Byte>) returns (next: nat)
    requires cursor + |slice| <= bytes.Length && bytes[..cursor] == before
    modifies bytes
    ensures next == cursor + |slice| && bytes[..next] == before + slice
  {
    for i := 0 to |slice|
      invariant bytes[..cursor + i] == before + slice[..i]
    {
      bytes[cursor + i] := slice[i];
    }
    next := cursor + |slice|;
  }

  lemma AddressRoundTrip(a: Ipv4)
    ensures AddressOf(Octets(a)) == a
  {
    C.Bytes16RoundTrip(a / 0x1_0000);
    C.Bytes16RoundTrip(a % 0x1_0000);
  }

  /** The fragment details with the offset cut to 13 bits. */
  function Masked(f: Fragment): Fragment
  {
    f.(offset := f.offset % (OFFSET_MAX + 1))
  }

  lemma FragmentRoundTrip(f: Fragment)
    ensures FragmentOf(FragmentBytes(f)) == Masked(f)
  {
    var df, mf := if f.doNotFragment then 1 else 0, if f.moreFragments then 1 else 0;
    var offset := f.offset % (OFFSET_MAX + 1);
    var raw: U16 := 0x4000 * df + 0x2000 * mf + offset;
    assert FragmentBytes(f) == C.Bytes16(f.identification) + C.Bytes16(raw);
    FlagBits(df, mf, offset);
  }

  lemma FlagBits(df: nat, mf: nat, offset: nat)
    requires df <= 1 && mf <= 1 && offset <= OFFSET_MAX
    ensures var raw := 0x4000 * df + 0x2000 * mf + offset;
            raw / 0x100 / 64 % 2 == df && raw / 0x100 / 32 % 2 == mf && raw % (OFFSET_MAX + 1) == offset
  {
    var raw := 0x4000 * df + 0x2000 * mf + offset;
    assert raw / 0x100 == 64 * df + 32 * mf + offset / 0x100 && offset / 0x100 < 32;
  }

  /** What a reader of the written header sees: the type of service its octet
      stands for, a 13-bit fragment offset, the canonical protocol. */
  function AsRead(h: Header, tos: Byte): Header
  {
    h.(typeOfService := TypeOfServiceOf(tos), fragment := Masked(h.fragment),
       protocol := ProtocolOf(ProtocolByte(h.protocol)))
  }

  /** Parsing what was written gives the header back, with the checksum it was written
      with, whatever follows it: whole exactly when the packing keeps its type of
      service, its offset fits 13 bits and its protocol is canonical. */
  lemma PackedRoundTrip(h: Header, pack: Packing, payload: seq<Byte>)
    requires h.headerLength == 5
    ensures var c := C.Of(Layout(h, pack(h.typeOfService), [0, 0]));
            var sent := h.(checksum := C.U16Of(c[0], c[1]));
            FromBytes(Encode(h, pack(h.typeOfService)) + payload) == Parsed(sent) <==>
              && TypeOfServiceOf(pack(h.typeOfService)) == h.typeOfService
              && h.fragment.offset <= OFFSET_MAX && Canonical(h.protocol)
  {
    RoundTrip(h, pack(h.typeOfService), payload);
    ReadsWhole(h, pack(h.typeOfService));
  }

  lemma ReadsWhole(h: Header, tos: Byte)
    ensures AsRead(h, tos) == h <==>
              TypeOfServiceOf(tos) == h.typeOfService && h.fragment.offset <= OFFSET_MAX && Canonical(h.protocol)
  {
  }

  /** The same in terms of what a reader sees. */
  lemma RoundTrip(h: Header, tos: Byte, payload: seq<Byte>)
    requires h.headerLength == 5
    ensures var c := C.Of(Layout(h, tos, [0, 0]));
            FromBytes(Encode(h, tos) + payload) == Parsed(AsRead(h, tos).(checksum := C.U16Of(c[0], c[1])))
    ensures ProtocolOf(ProtocolByte(h.protocol)) == h.protocol <==> Canonical(h.protocol)
  {
    var c := C.Of(Layout(h, tos, [0, 0]));
    var b := Encode(h, tos) + payload;
    LayoutParts(h, tos, c);
    assert b[..20] == Layout(h, tos, c) && b[..10] == b[..20][..10] && b[12..20] == b[..20][12..20];
    OctetFields(h, tos, c, b);
    LayoutFields(h, tos, c, b);
    AcceptsLayout(b);
  }

  lemma FiveWords(b: Byte)
    requires b == 0x45
    ensures b / 16 == 4 && b % 16 == 5
  {
  }

  lemma AcceptsLayout(b: seq<Byte>)
    requires |b| >= 20 && b[0] == 0x45 && [b[10], b[11]] == C.Of(Covered(b, 20))
    ensures FromBytes(b) == Parsed(Fields(b))
  {
    FiveWords(b[0]);
    var length := 4 * (b[0] % 16);
    assert length == 20;
  }

  lemma AddressFields(h: Header, tos: Byte, c: seq<Byte>, b: seq<Byte>)
    requires |c| == 2 && |b| >= 20 && b[..20] == Layout(h, tos, c)
    ensures AddressOf(b[12..16]) == h.source && AddressOf(b[16..20]) == h.destination
  {
    LayoutParts(h, tos, c);
    assert b[12..16] == b[..20][12..16] && b[16..20] == b[..20][16..20];
    AddressRoundTrip(h.source);
    AddressRoundTrip(h.destination);
  }

  lemma FragmentField(h: Header, tos: Byte, c: seq<Byte>, b: seq<Byte>)
    requires |c| == 2 && |b| >= 20 && b[..20] == Layout(h, tos, c)
    ensures FragmentOf(b[4..8]) == Masked(h.fragment)
  {
    LayoutParts(h, tos, c);
    assert b[4..8] == b[..20][4..8];
    FragmentRoundTrip(h.fragment);
  }

  lemma OctetFields(h: Header, tos: Byte, c: seq<Byte>, b: seq<Byte>)
    requires |c| == 2 && |b| >= 20 && b[..20] == Layout(h, tos, c)
    ensures b[0] == 0x45 && b[1] == tos && b[8] == h.timeToLive && b[9] == ProtocolByte(h.protocol)
    ensures b[10] == c[0] && b[11] == c[1] && C.U16Of(b[2], b[3]) == h.totalLength
  {
    assert forall i :: 0 <= i < 20 ==> b[i] == b[..20][i];
    C.Bytes16RoundTrip(h.totalLength);
  }

  lemma LayoutFields(h: Header, tos: Byte, c: seq<Byte>, b: seq<Byte>)
    requires |c| == 2 && |b| >= 20 && b[..20] == Layout(h, tos, c)
    requires h.headerLength == 5
    ensures Fields(b) == AsRead(h, tos).(checksum := C.U16Of(c[0], c[1]))
  {
    OctetFields(h, tos, c, b);
    FiveWords(b[0]);
    FragmentField(h, tos, c, b);
    AddressFields(h, tos, c, b);
  }

  lemma LayoutParts(h: Header, tos: Byte, c: seq<Byte>)
    requires |c| == 2
    ensures var e := Layout(h, tos, c);
            && e[..10] + [0, 0] + e[12..20] == Layout(h, tos, [0, 0])
            && e[4..8] == FragmentBytes(h.fragment)
            && e[12..16] == Octets(h.source) && e[16..20] == Octets(h.destination)
  {
  }

  /** What IPv4Header::new builds survives the wire, checksum aside, exactly when
      its protocol is canonical. Its type of service packs into a zero octet. */
  lemma NewRoundTrip(protocol: Protocol, source: Ipv4, destination: Ipv4, payloadLength: U16, id: U16,
                     payload: seq<Byte>)
    ensures var h := New(protocol, source, destination, payloadLength, id);
            var parsed := FromBytes(Encode(h, 0) + payload);
            && parsed.Parsed?
            && (parsed.header.(checksum := 0) == h <==> Canonical(protocol))
            && C.Verifies(Encode(h, 0))
  {
    var h := New(protocol, source, destination, payloadLength, id);
    RoundTrip(h, 0, payload);
    var b := Encode(h, 0);
    assert b + [] == b;
    RoundTrip(h, 0, []);
    assert b[0] == 0x45 && b[..20] == b;
    AcceptsExactlyVerified(b);
  }
}
