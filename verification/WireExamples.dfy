/** Octets on the wire, as other implementations of RFC 791, RFC 768 and RFC 792 write
    and read them. */
module WireExamples {
  import opened Common
  import C = Checksum
  import H = Ipv4Header
  import I = Icmp
  import U = UdpHeader
  import Delivery
  import T = EchoTime

  /** From 192.168.0.1 to 192.168.0.199, 95 octets of UDP, not to be fragmented; but
      for the two octets of the checksum, 0xB861. */
  const FRONT: seq<Byte> := [0x45, 0, 0, 0x73, 0, 0, 0x40, 0, 0x40, 0x11]
  const SOURCE: Ipv4 := 0xC0A8_0001
  const DESTINATION: Ipv4 := 0xC0A8_00C7
  const SOURCE_OCTETS: seq<Byte> := [0xC0, 0xA8, 0, 1]
  const DESTINATION_OCTETS: seq<Byte> := [0xC0, 0xA8, 0, 0xC7]

  lemma AddressSums()
    ensures C.WordSum(SOURCE_OCTETS) == 0xC0A9 && C.WordSum(DESTINATION_OCTETS) == 0xC16F
    ensures H.Octets(SOURCE) == SOURCE_OCTETS && H.AddressOf(SOURCE_OCTETS) == SOURCE
    ensures H.Octets(DESTINATION) == DESTINATION_OCTETS && H.AddressOf(DESTINATION_OCTETS) == DESTINATION
  {
  }

  lemma FrontSum()
    ensures C.WordSum(FRONT) == 0xC584
  {
    var a: seq<Byte> := [0x45, 0, 0, 0x73, 0, 0];
    var b: seq<Byte> := [0x40, 0, 0x40, 0x11];
    assert C.WordSum(a) == 0x4573 && C.WordSum(b) == 0x8011;
    assert FRONT == a + b;
    C.WordSumAppend(a, b);
  }

  lemma HeaderSum()
    ensures C.Of(FRONT + ([0, 0] + (SOURCE_OCTETS + DESTINATION_OCTETS))) == [0xB8, 0x61]
  {
    AddressSums();
    FrontSum();
    assert C.WordSum([0, 0]) == 0;
    C.WordSumAppend(SOURCE_OCTETS, DESTINATION_OCTETS);
    C.WordSumAppend([0, 0], SOURCE_OCTETS + DESTINATION_OCTETS);
    C.WordSumAppend(FRONT, [0, 0] + (SOURCE_OCTETS + DESTINATION_OCTETS));
    assert C.Fold(0x2_479C) == 0x479E;
  }

  lemma Unfragmented()
    ensures H.FragmentBytes(H.Fragment(0, true, false, 0)) == [0, 0, 0x40, 0]
  {
  }

  /** A later fragment, 1480 octets in, with more to come. */
  lemma FragmentRead(b: seq<Byte>)
    requires b == [0x12, 0x34, 0x20, 0xB9]
    ensures H.FragmentOf(b) == H.Fragment(0x1234, false, true, 185)
  {
  }

  /** Section 3.1 of RFC 791: three bits of precedence, then low delay, high throughput
      and high reliability. */
  lemma ServiceOctet()
    ensures H.TypeOfServiceOf(0x50) == H.TypeOfService(2, true, false, false)
    ensures H.TypeOfServiceOf(0x08) == H.TypeOfService(0, false, true, false)
    ensures H.TypeOfServiceOf(0x04) == H.TypeOfService(0, false, false, true)
  {
  }

  lemma LaidOut(checksum: seq<Byte>)
    requires |checksum| == 2
    ensures H.Layout(H.New(H.UDP, SOURCE, DESTINATION, 95, 0), 0, checksum)
         == FRONT + (checksum + (SOURCE_OCTETS + DESTINATION_OCTETS))
  {
    Unfragmented();
    AddressSums();
    assert C.Bytes16(0x73) == [0, 0x73];
  }

  lemma HeaderWritten()
    ensures H.Encode(H.New(H.UDP, SOURCE, DESTINATION, 95, 0), 0)
         == FRONT + ([0xB8, 0x61] + (SOURCE_OCTETS + DESTINATION_OCTETS))
  {
    HeaderSum();
    LaidOut([0, 0]);
    LaidOut([0xB8, 0x61]);
  }

  const PORTS: seq<Byte> := [4, 0, 0, 53]

  lemma DatagramWords()
    ensures C.Bytes16(1024) == [4, 0] && C.Bytes16(53) == [0, 53] && C.Bytes16(10) == [0, 10]
    ensures C.Bytes16(0) == [0, 0] && C.Bytes16(0x1123) == [0x11, 0x23]
  {
  }

  lemma DatagramSummed(h: U.Header, data: seq<Byte>)
    requires h == U.Header(1024, 53, 10, 0) && data == [0x68, 0x69]
    ensures U.Summed(h, SOURCE, DESTINATION, data, 0)
         == SOURCE_OCTETS + (DESTINATION_OCTETS + ([0, 17, 0, 10] + (PORTS + [0, 10, 0, 0, 0x68, 0x69])))
  {
    AddressSums();
    DatagramWords();
  }

  /** "hi" from port 1024 to port 53. */
  lemma DatagramWritten(h: U.Header, data: seq<Byte>)
    requires h == U.Header(1024, 53, 10, 0) && data == [0x68, 0x69]
    ensures Delivery.Datagrammed(h, SOURCE, DESTINATION, data) == PORTS + [0, 10, 0x11, 0x23] + data
  {
    DatagramSum();
    DatagramSummed(h, data);
    DatagramWords();
    assert U.ComputedV4(h, SOURCE, DESTINATION, data) == [0x11, 0x23];
  }

  lemma PieceSums()
    ensures C.WordSum([0, 17, 0, 10]) == 27 && C.WordSum(PORTS) == 0x435
    ensures C.WordSum([0, 10, 0, 0, 0x68, 0x69]) == 0x6873
  {
  }

  lemma DatagramSum()
    ensures C.Of(SOURCE_OCTETS + (DESTINATION_OCTETS + ([0, 17, 0, 10] + (PORTS + [0, 10, 0, 0, 0x68, 0x69]))))
         == [0x11, 0x23]
  {
    var last: seq<Byte>, pseudo: seq<Byte> := [0, 10, 0, 0, 0x68, 0x69], [0, 17, 0, 10];
    AddressSums();
    PieceSums();
    C.WordSumAppend(PORTS, last);
    C.WordSumAppend(pseudo, PORTS + last);
    C.WordSumAppend(DESTINATION_OCTETS, pseudo + (PORTS + last));
    C.WordSumAppend(SOURCE_OCTETS, DESTINATION_OCTETS + (pseudo + (PORTS + last)));
    assert C.Fold(0x1_EEDB) == 0xEEDC;
  }

  /** An echo request and its reply. */
  lemma EchoWritten()
    ensures I.Encode(I.EchoRequest(I.EchoMessage(1, 2, [0x61]))) == [8, 0, 0x96, 0xFC, 0, 1, 0, 2, 0x61]
    ensures I.Encode(I.EchoReply(I.EchoMessage(1, 2, [0x61]))) == [0, 0, 0x9E, 0xFC, 0, 1, 0, 2, 0x61]
  {
    EchoSum(8);
    EchoSum(0);
    assert C.Bytes16(1) == [0, 1] && C.Bytes16(2) == [0, 2];
    var e := I.EchoMessage(1, 2, [0x61]);
    assert I.Body(e) == [0, 1, 0, 2, 0x61];
    assert I.Layout(I.EchoRequest(e), [0, 0]) == [8, 0, 0, 0] + [0, 1, 0, 2, 0x61];
    assert I.Layout(I.EchoReply(e), [0, 0]) == [0, 0, 0, 0] + [0, 1, 0, 2, 0x61];
  }

  lemma EchoSum(kind: Byte)
    requires kind == 0 || kind == 8
    ensures C.Of([kind, 0, 0, 0] + [0, 1, 0, 2, 0x61]) == if kind == 8 then [0x96, 0xFC] else [0x9E, 0xFC]
  {
    assert C.WordSum([0, 0]) == 0 && [kind, 0, 0, 0][2..] == [0, 0];
    assert C.WordSum([kind, 0, 0, 0]) == 0x100 * kind;
    assert C.WordSum([0, 1, 0, 2, 0x61]) == 0x6103;
    C.WordSumAppend([kind, 0, 0, 0], [0, 1, 0, 2, 0x61]);
  }

  /** A word of the time data, most significant octet first or last. */
  lemma WordsRead()
    ensures T.Word(true, [0, 0, 1, 2]) == 258 && T.Word(false, [2, 1, 0, 0]) == 258
  {
    assert [0, 0, 1, 2][..3] == [0, 0, 1] && [0, 0, 1][..2] == [0, 0] && [0, 0][..1] == [0];
    assert T.Word(true, [0]) == 0 && T.Word(true, [0, 0]) == 0 && T.Word(true, [0, 0, 1]) == 1;
    assert [2, 1, 0, 0][1..] == [1, 0, 0] && [1, 0, 0][1..] == [0, 0] && [0, 0][1..] == [0];
    assert T.Word(false, [0]) == 0 && T.Word(false, [0, 0]) == 0 && T.Word(false, [1, 0, 0]) == 1;
  }
}
