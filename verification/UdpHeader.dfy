/** The UDP header and its checksum (lib/src/protocols/udp.rs). */
module UdpHeader {
  import opened Common
  import C = Checksum
  import I = Ipv4Header

  const LENGTH := 8

  datatype Header = Header(sourcePort: U16, destinationPort: U16, length: U16, checksum: U16)

  function FromBytes(b: seq<Byte>): Option<Header>
  {
    if |b| < LENGTH then None
    else Some(Header(C.U16Of(b[0], b[1]), C.U16Of(b[2], b[3]), C.U16Of(b[4], b[5]), C.U16Of(b[6], b[7])))
  }

  function Encode(h: Header): seq<Byte>
  {
    C.Bytes16(h.sourcePort) + C.Bytes16(h.destinationPort) + C.Bytes16(h.length) + C.Bytes16(h.checksum)
  }

  /** The length field covers the header and data that is there: the slices taken
      of the data need it. */
  predicate LengthFits(h: Header, data: seq<Byte>)
  {
    LENGTH <= h.length <= LENGTH + |data|
  }

  /** The pseudo-header of RFC 768, then the header up to its checksum field. */
  function Before(h: Header, source: Ipv4, destination: Ipv4): (b: seq<Byte>)
    ensures |b| == 18
  {
    I.Octets(source) + I.Octets(destination) + [0, 17] + C.Bytes16(h.length)
    + C.Bytes16(h.sourcePort) + C.Bytes16(h.destinationPort) + C.Bytes16(h.length)
  }

  /** What RFC 768 sums: pseudo-header, header with the given checksum field, data. */
  function Summed(h: Header, source: Ipv4, destination: Ipv4, data: seq<Byte>, checksum: U16): seq<Byte>
    requires LengthFits(h, data)
  {
    Before(h, source, destination) + C.Bytes16(checksum) + data[..h.length - LENGTH]
  }

  function ComputedV4(h: Header, source: Ipv4, destination: Ipv4, data: seq<Byte>): seq<Byte>
    requires LengthFits(h, data)
  {
    var c := C.Of(Summed(h, source, destination, data, 0));
    if c == [0, 0] then [0xFF, 0xFF] else c
  }

  method ComputeChecksumV4(h: Header, source: Ipv4, destination: Ipv4, data: seq<Byte>) returns (checksum: seq<Byte>)
    requires LengthFits(h, data)
    ensures checksum == ComputedV4(h, source, destination, data)
  {
    var accumulator := new C.Accumulator();
    accumulator.AddBytes(I.Octets(source));
    accumulator.AddBytes(I.Octets(destination));
    accumulator.AddBytes([0, 17]);
    accumulator.AddBytes(C.Bytes16(h.length));
    accumulator.AddBytes(C.Bytes16(h.sourcePort));
    accumulator.AddBytes(C.Bytes16(h.destinationPort));
    accumulator.AddBytes(C.Bytes16(h.length));
    assert accumulator.fed == Before(h, source, destination);
    accumulator.AddBytes([0, 0]);
    accumulator.AddBytes(data[..h.length - LENGTH]);
    assert C.Bytes16(0) == [0, 0];
    assert accumulator.fed == Summed(h, source, destination, data, 0);
    checksum := accumulator.Value();
    if checksum == [0, 0] {
      checksum := [0xFF, 0xFF];
    }
  }

  predicate ValidatesV4(h: Header, source: Ipv4, destination: Ipv4, data: seq<Byte>)
    requires LengthFits(h, data)
  {
    ComputedV4(h, source, destination, data) == C.Bytes16(h.checksum)
  }

  /** The computed value is never zero. With a non-zero stored checksum the
      comparison accepts exactly the datagrams whose sum, checksum included, folds
      to all ones. A stored zero, RFC 768's "no checksum", is never accepted. */
  lemma ValidatesExactly(h: Header, source: Ipv4, destination: Ipv4, data: seq<Byte>)
    requires LengthFits(h, data)
    ensures ComputedV4(h, source, destination, data) != [0, 0]
    ensures h.checksum != 0 ==>
              (ValidatesV4(h, source, destination, data)
               <==> C.Verifies(Summed(h, source, destination, data, h.checksum)))
    ensures h.checksum == 0 ==> !ValidatesV4(h, source, destination, data)
  {
    var before, after := Before(h, source, destination), data[..h.length - LENGTH];
    assert C.Bytes16(0) == [0, 0] && C.Bytes16(0xFFFF) == [0xFF, 0xFF];
    SumPositive(h, source, destination, after);
    C.CompareVersusVerify(before, h.checksum, after);
    C.SameBytes(h.checksum, 0xFFFF);
    C.SameBytes(h.checksum, 0);
  }

  /** The protocol number alone makes the sum positive. */
  lemma SumPositive(h: Header, source: Ipv4, destination: Ipv4, after: seq<Byte>)
    ensures C.WordSum(Before(h, source, destination) + [0, 0] + after) > 0
  {
    var addresses := I.Octets(source) + I.Octets(destination);
    var rest := C.Bytes16(h.length) + C.Bytes16(h.sourcePort) + C.Bytes16(h.destinationPort) + C.Bytes16(h.length)
                + [0, 0] + after;
    assert Before(h, source, destination) + [0, 0] + after == addresses + ([0, 17] + rest);
    C.WordSumAppend(addresses, [0, 17] + rest);
    C.WordSumAppend([0, 17], rest);
  }

  /** What the sender writes with compute_and_update_checksum_v4, the receiver reads
      back and accepts. */
  lemma SendThenReceive(h: Header, source: Ipv4, destination: Ipv4, data: seq<Byte>)
    requires LengthFits(h, data)
    ensures var c := ComputedV4(h, source, destination, data);
            var sent := h.(checksum := C.U16Of(c[0], c[1]));
            && FromBytes(Encode(sent) + data) == Some(sent)
            && ValidatesV4(sent, source, destination, data)
            && sent.checksum != 0
  {
    var c := ComputedV4(h, source, destination, data);
    var sent := h.(checksum := C.U16Of(c[0], c[1]));
    assert C.Bytes16(sent.checksum) == c;
    assert Summed(sent, source, destination, data, 0) == Summed(h, source, destination, data, 0);
    var b := Encode(sent) + data;
    assert b[..8] == Encode(sent);
    assert b[0..2] == C.Bytes16(h.sourcePort) && b[2..4] == C.Bytes16(h.destinationPort);
    assert b[4..6] == C.Bytes16(h.length) && b[6..8] == c;
    C.Bytes16RoundTrip(h.sourcePort);
    C.Bytes16RoundTrip(h.destinationPort);
    C.Bytes16RoundTrip(h.length);
    ValidatesExactly(h, source, destination, data);
    C.SameBytes(sent.checksum, 0);
  }
}
