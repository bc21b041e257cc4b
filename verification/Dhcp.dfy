/** The DHCP options field (lib/src/protocols/ipv4/dhcp.rs): a scan over tagged,
    length-prefixed options (section 2 of RFC 2132). */
module Dhcp {
  import opened Common
  import opened Words
  import C = Checksum
  import H = Ipv4Header

  const PAD: Byte := 0
  const END: Byte := 255

  datatype Value =
    | Address(address: Ipv4)
    | Addresses(addresses: seq<Ipv4>)
    | Pairs(pairs: seq<(Ipv4, Ipv4)>)
    | Short(short: U16)
    | Shorts(shorts: seq<U16>)
    | Long(long: nat)
    | Signed(signed: int)
    | Text(text: seq<Byte>)
    | Octets(octets: seq<Byte>)
    | Choice(choice: Byte)
    | Hardware(mac: seq<Byte>)

  datatype DhcpOption = DhcpOption(code: Byte, value: Value)

  /** Which byte strings are UTF-8 is a parameter. */
  type Utf8 = seq<Byte> -> bool

  // ----- One option -----

  function ToSigned(n: Ipv4): int
  {
    if n < 0x8000_0000 then n else n - 0x1_0000_0000
  }

  function FromSigned(i: int): Ipv4
    requires -0x8000_0000 <= i < 0x8000_0000
  {
    if i >= 0 then i else i + 0x1_0000_0000
  }

  /** chunks_exact: what is left over at the end is dropped. */
  function AddressesOf(data: seq<Byte>): seq<Ipv4>
  {
    if |data| < 4 then [] else [H.AddressOf(data[..4])] + AddressesOf(data[4..])
  }

  function PairsOf(data: seq<Byte>): seq<(Ipv4, Ipv4)>
  {
    if |data| < 8 then [] else [(H.AddressOf(data[..4]), H.AddressOf(data[4..8]))] + PairsOf(data[8..])
  }

  function ShortsOf(data: seq<Byte>): seq<U16>
  {
    if |data| < 2 then [] else [C.U16Of(data[0], data[1])] + ShortsOf(data[2..])
  }

  /** What an option's data is read as: one kind per parsing function. */
  datatype Kind =
    | AnAddress | SomeAddresses | SomePairs | AShort | SomeShorts | ALong | ASigned | AText | SomeOctets
    | AChoice(most: Byte) | AHardware

  /** The kind each code known here calls for. */
  function KindOf(code: Byte): Option<Kind>
  {
    match code
    case 1 => Some(AnAddress)
    case 2 => Some(ASigned)
    case 3 => Some(SomeAddresses)
    case 6 => Some(SomeAddresses)
    case 12 => Some(AText)
    case 15 => Some(AText)
    case 24 => Some(ALong)
    case 25 => Some(SomeShorts)
    case 28 => Some(AnAddress)
    case 33 => Some(SomePairs)
    case 42 => Some(SomeAddresses)
    case 50 => Some(AnAddress)
    case 51 => Some(ALong)
    case 52 => Some(AChoice(3))
    case 53 => Some(AChoice(7))
    case 54 => Some(AnAddress)
    case 55 => Some(SomeOctets)
    case 56 => Some(AText)
    case 57 => Some(AShort)
    case 58 => Some(ALong)
    case 59 => Some(ALong)
    case 60 => Some(AText)
    case 61 => Some(AHardware)
    case _ => None
  }

  /** A choice's values 1 to `most` each name a case of an enumeration; a list of
      addresses, pairs or 16-bit numbers must hold one at least. */
  function ParseKind(utf8: Utf8, kind: Kind, data: seq<Byte>): Option<Value>
  {
    match kind
    case AnAddress => if |data| == 4 then Some(Address(H.AddressOf(data))) else None
    case SomeAddresses => if |data| >= 4 then Some(Addresses(AddressesOf(data))) else None
    case SomePairs => if |data| >= 8 then Some(Pairs(PairsOf(data))) else None
    case AShort => if |data| == 2 then Some(Short(C.U16Of(data[0], data[1]))) else None
    case SomeShorts => if |data| >= 2 then Some(Shorts(ShortsOf(data))) else None
    case ALong => if |data| == 4 then Some(Long(H.AddressOf(data))) else None
    case ASigned => if |data| == 4 then Some(Signed(ToSigned(H.AddressOf(data)))) else None
    case AText => if utf8(data) then Some(Text(data)) else None
    case SomeOctets => Some(Octets(data))
    case AChoice(most) => if |data| == 1 && 1 <= data[0] <= most then Some(Choice(data[0])) else None
    case AHardware => if |data| == 7 && data[0] == 1 then Some(Hardware(data[1..])) else None
  }

  function ParseValue(utf8: Utf8, code: Byte, data: seq<Byte>): Option<Value>
  {
    match KindOf(code)
    case Some(kind) => ParseKind(utf8, kind, data)
    case None => None
  }

  function ParseOption(utf8: Utf8, code: Byte, data: seq<Byte>): Option<DhcpOption>
  {
    match ParseValue(utf8, code, data)
    case Some(v) => Some(DhcpOption(code, v))
    case None => None
  }

  // ----- The scan, whatever decodes an option -----

  type Parser<!O> = (Byte, seq<Byte>) -> Option<O>

  function Parsed<O>(parse: Parser<O>, code: Byte, data: seq<Byte>): seq<O>
  {
    match parse(code, data)
    case Some(o) => [o]
    case None => []
  }

  function Scan<O>(parse: Parser<O>, b: seq<Byte>): seq<O>
  {
    if b == [] || b[0] == END then []
    else if b[0] == PAD then Scan(parse, b[1..])
    // Strictly: an option that ends where the field ends is not taken.
    else if |b| < 2 || 2 + (b[1] as nat) >= |b| then []
    else
      var n: nat := b[1];
      Parsed(parse, b[0], b[2..2 + n]) + Scan(parse, b[2 + n..])
  }

  lemma Associative<T>(a: seq<T>, b: seq<T>, c: seq<T>)
    ensures a + b + c == a + (b + c)
  {
  }

  /** The scan of what follows a position, in terms of the whole field. */
  lemma ScanAt<O>(parse: Parser<O>, value: seq<Byte>, p: nat)
    requires p < |value|
    ensures var all := Scan(parse, value[p..]);
            if value[p] == END then all == []
            else if value[p] == PAD then all == Scan(parse, value[p + 1..])
            else if p + 1 >= |value| || p + 2 + (value[p + 1] as nat) >= |value| then all == []
            else
              var q := p + 2 + (value[p + 1] as nat);
              all == Parsed(parse, value[p], value[p + 2..q]) + Scan(parse, value[q..])
  {
    var rest := value[p..];
    assert rest[1..] == value[p + 1..];
    if p + 1 < |value| && p + 2 + (value[p + 1] as nat) < |value| {
      var n: nat := value[p + 1];
      assert rest[2..2 + n] == value[p + 2..p + 2 + n] && rest[2 + n..] == value[p + 2 + n..];
    }
  }

  /** `options` is what the scan finds before a position. */
  ghost predicate Scanned<O>(parse: Parser<O>, value: seq<Byte>, p: nat, options: seq<O>)
    requires p <= |value|
  {
    options + Scan(parse, value[p..]) == Scan(parse, value)
  }

  lemma ScanStops<O>(parse: Parser<O>, value: seq<Byte>, p: nat, options: seq<O>)
    requires p <= |value| && Scanned(parse, value, p, options)
    requires p == |value| || value[p] == END
          || (value[p] != PAD && (p + 1 >= |value| || p + 2 + (value[p + 1] as nat) >= |value|))
    ensures options == Scan(parse, value)
  {
    if p < |value| { ScanAt(parse, value, p); }
    assert options + [] == options;
  }

  lemma ScanPasses<O>(parse: Parser<O>, value: seq<Byte>, p: nat, options: seq<O>)
    requires p < |value| && value[p] == PAD && Scanned(parse, value, p, options)
    ensures Scanned(parse, value, p + 1, options)
  {
    ScanAt(parse, value, p);
  }

  lemma ScanTakes<O>(parse: Parser<O>, value: seq<Byte>, p: nat, q: nat, options: seq<O>)
    requires p + 2 <= q < |value| && q == p + 2 + (value[p + 1] as nat) && value[p] != END && value[p] != PAD
    requires Scanned(parse, value, p, options)
    ensures Scanned(parse, value, q, options + Parsed(parse, value[p], value[p + 2..q]))
  {
    ScanAt(parse, value, p);
    Associative(options, Parsed(parse, value[p], value[p + 2..q]), Scan(parse, value[q..]));
  }

  method FromBytes<O>(parse: Parser<O>, value: seq<Byte>) returns (options: seq<O>)
    ensures options == Scan(parse, value)
  {
    var position := 0;
    options := [];
    ghost var stopped := false;
    while position < |value|
      invariant 0 <= position <= |value|
      invariant !stopped && Scanned(parse, value, position, options)
    {
      ghost var start, before := position, options;
      var code := value[position];
      position := position + 1;
      if code == END {
        ScanStops(parse, value, start, options);
        stopped := true;
        break;
      }
      if code == PAD {
        ScanPasses(parse, value, start, options);
        continue;
      }
      if position >= |value| {
        ScanStops(parse, value, start, options);
        stopped := true;
        break;
      }
      var length: nat := value[position];
      position := position + 1;
      if position + length >= |value| {
        ScanStops(parse, value, start, options);
        stopped := true;
        break;
      }
      var data := value[position..position + length];
      position := position + length;
      match parse(code, data) {
        case Some(option) => options := options + [option];
        case None =>
      }
      assert options == before + Parsed(parse, code, data);
      ScanTakes(parse, value, start, position, before);
    }
    if !stopped { ScanStops(parse, value, position, options); }
  }

  // ----- What the scan recovers -----

  /** What a well-formed field is made of. */
  datatype Item = Pad | Tlv(code: Byte, data: seq<Byte>)

  predicate Encodable(i: Item)
  {
    i.Tlv? ==> PAD < i.code < END && |i.data| <= 255
  }

  function EncodeItem(i: Item): seq<Byte>
    requires Encodable(i)
  {
    match i
    case Pad => [PAD]
    case Tlv(code, data) => [code, |data| as Byte] + data
  }

  function Encode(items: seq<Item>): seq<Byte>
    requires forall k :: 0 <= k < |items| ==> Encodable(items[k])
  {
    if items == [] then [] else EncodeItem(items[0]) + Encode(items[1..])
  }

  function Decoded<O>(parse: Parser<O>, i: Item): seq<O>
  {
    if i.Tlv? then Parsed(parse, i.code, i.data) else []
  }

  /** The items that decode, in order. */
  function Decodable<O>(parse: Parser<O>, items: seq<Item>): seq<O>
  {
    if items == [] then []
    else Decoded(parse, items[0]) + Decodable(parse, items[1..])
  }

  lemma ScanItem<O>(parse: Parser<O>, i: Item, rest: seq<Byte>)
    requires Encodable(i) && rest != []
    ensures Scan(parse, EncodeItem(i) + rest) == Decoded(parse, i) + Scan(parse, rest)
  {
    var b := EncodeItem(i) + rest;
    match i
    case Pad => assert b[1..] == rest;
    case Tlv(code, data) => assert b[2..2 + |data|] == data && b[2 + |data|..] == rest;
  }

  /** As long as something follows them, all items are recovered. */
  lemma {:induction false} ScanItems<O>(parse: Parser<O>, items: seq<Item>, rest: seq<Byte>)
    requires forall k :: 0 <= k < |items| ==> Encodable(items[k])
    requires rest != []
    ensures Scan(parse, Encode(items) + rest) == Decodable(parse, items) + Scan(parse, rest)
  {
    if items == [] {
      assert Encode(items) + rest == rest;
      assert Decodable(parse, items) == [];
    } else {
      var tail := Encode(items[1..]) + rest;
      ScanItems(parse, items[1..], rest);
      ScanItem(parse, items[0], tail);
      Associative(EncodeItem(items[0]), Encode(items[1..]), rest);
      Associative(Decoded(parse, items[0]), Decodable(parse, items[1..]), Scan(parse, rest));
      assert Encode(items) + rest == EncodeItem(items[0]) + tail;
    }
  }

  /** Options and pads up to an End come back exactly, whatever follows the End. */
  lemma ScanEnded<O>(parse: Parser<O>, items: seq<Item>, rest: seq<Byte>)
    requires forall k :: 0 <= k < |items| ==> Encodable(items[k])
    ensures Scan(parse, Encode(items) + [END] + rest) == Decodable(parse, items)
  {
    assert Encode(items) + [END] + rest == Encode(items) + ([END] + rest);
    ScanItems(parse, items, [END] + rest);
  }

  lemma {:induction false} EncodeSnoc(items: seq<Item>, i: Item)
    requires Encodable(i) && forall k :: 0 <= k < |items| ==> Encodable(items[k])
    ensures Encode(items + [i]) == Encode(items) + EncodeItem(i)
  {
    if items == [] {
      assert Encode([i]) == EncodeItem(i) + Encode([]);
    } else {
      EncodeSnoc(items[1..], i);
      assert (items + [i])[1..] == items[1..] + [i];
      Associative(EncodeItem(items[0]), Encode(items[1..]), EncodeItem(i));
    }
  }

  lemma {:induction false} DecodableSnoc<O>(parse: Parser<O>, items: seq<Item>, i: Item)
    ensures Decodable(parse, items + [i]) == Decodable(parse, items) + Decoded(parse, i)
  {
    if items == [] {
      assert [i][1..] == [];
      assert Decodable(parse, [i]) == Decoded(parse, i) + [];
    } else {
      DecodableSnoc(parse, items[1..], i);
      assert (items + [i])[1..] == items[1..] + [i];
      Associative(Decoded(parse, items[0]), Decodable(parse, items[1..]), Decoded(parse, i));
    }
  }

  /** The last option of a field is not taken. */
  lemma ScanLast<O>(parse: Parser<O>, last: Item)
    requires Encodable(last)
    ensures Scan(parse, EncodeItem(last)) == []
  {
    if last.Pad? { assert EncodeItem(last)[1..] == []; }
  }

  /** Without an End the field still yields its options, except that one which ends
      the field is lost: the strict comparison refuses it. */
  lemma ScanUnended<O>(parse: Parser<O>, items: seq<Item>, last: Item)
    requires Encodable(last) && forall k :: 0 <= k < |items| ==> Encodable(items[k])
    ensures Scan(parse, Encode(items + [last])) == Decodable(parse, items)
    ensures Scan(parse, Encode(items + [last])) == Decodable(parse, items + [last])
       <==> last.Pad? || parse(last.code, last.data) == None
  {
    EncodeSnoc(items, last);
    DecodableSnoc(parse, items, last);
    ScanItems(parse, items, EncodeItem(last));
    ScanLast(parse, last);
    if last.Tlv? && parse(last.code, last.data).Some? {
      assert |Decodable(parse, items + [last])| == |Decodable(parse, items)| + 1;
    }
  }

  // ----- Any field at all -----

  /** One step of the scan, over an option that is taken. */
  lemma ScanOption<O>(parse: Parser<O>, b: seq<Byte>, rest: seq<Byte>)
    requires |b| >= 2 && b[0] != END && b[0] != PAD
    requires 2 + (b[1] as nat) < |b| && rest == b[2 + (b[1] as nat)..]
    ensures Scan(parse, b) == Parsed(parse, b[0], b[2..2 + (b[1] as nat)]) + Scan(parse, rest)
  {
  }

  lemma ScanNothing<O>(parse: Parser<O>, b: seq<Byte>)
    requires |b| > 0 ==> b[0] == END || (b[0] != PAD && (|b| < 2 || 2 + (b[1] as nat) >= |b|))
    ensures Scan(parse, b) == []
  {
  }

  lemma DropPrefix(a: seq<Byte>, b: seq<Byte>, n: nat)
    requires a <= b && n <= |a|
    ensures a[n..] <= b[n..] && (n >= 2 ==> a[2..n] == b[2..n])
  {
  }

  lemma AppendPrefix<T>(x: seq<T>, a: seq<T>, b: seq<T>)
    requires a <= b
    ensures x + a <= x + b
  {
  }

  /** Cutting a field short only loses options at its end. */
  lemma {:induction false} ScanTruncated<O>(parse: Parser<O>, cut: seq<Byte>, b: seq<Byte>)
    requires cut <= b
    ensures Scan(parse, cut) <= Scan(parse, b)
    decreases |cut|
  {
    if cut == [] || cut[0] == END {
    } else if cut[0] == PAD {
      DropPrefix(cut, b, 1);
      ScanTruncated(parse, cut[1..], b[1..]);
    } else if |cut| >= 2 && 2 + (cut[1] as nat) < |cut| {
      var next := 2 + (cut[1] as nat);
      DropPrefix(cut, b, next);
      ScanTruncated(parse, cut[next..], b[next..]);
      ScanOption(parse, cut, cut[next..]);
      ScanOption(parse, b, b[next..]);
      AppendPrefix(Parsed(parse, b[0], b[2..next]), Scan(parse, cut[next..]), Scan(parse, b[next..]));
    } else {
      ScanNothing(parse, cut);
    }
  }

  /** The items a field starts with, as the scan splits it, and what it stops at. */
  function Split(b: seq<Byte>): (r: (seq<Item>, seq<Byte>))
    ensures forall k :: 0 <= k < |r.0| ==> Encodable(r.0[k])
  {
    if b == [] || b[0] == END then ([], b)
    else if b[0] == PAD then
      var (items, rest) := Split(b[1..]);
      ([Pad] + items, rest)
    else if |b| < 2 || 2 + (b[1] as nat) >= |b| then ([], b)
    else
      var n: nat := b[1];
      var (items, rest) := Split(b[2 + n..]);
      ([Tlv(b[0], b[2..2 + n])] + items, rest)
  }

  lemma EncodeCons(i: Item, items: seq<Item>, rest: seq<Byte>)
    requires Encodable(i) && forall k :: 0 <= k < |items| ==> Encodable(items[k])
    ensures Encode([i] + items) + rest == EncodeItem(i) + (Encode(items) + rest)
  {
    assert ([i] + items)[1..] == items;
    Associative(EncodeItem(i), Encode(items), rest);
  }

  lemma EncodeHead(b: seq<Byte>, n: nat)
    requires |b| >= 2 + n && b[1] == n && PAD < b[0] < END
    ensures EncodeItem(Tlv(b[0], b[2..2 + n])) + b[2 + n..] == b
  {
  }

  /** Where the scan stops: at nothing, an End, or an option the field is too short for. */
  predicate Stops(rest: seq<Byte>)
  {
    rest == [] || rest[0] == END || (rest[0] != PAD && (|rest| < 2 || 2 + (rest[1] as nat) >= |rest|))
  }

  /** Every field is the encoding of the items it splits into and what stops the scan. */
  lemma {:induction false} SplitEncodes(b: seq<Byte>)
    ensures Encode(Split(b).0) + Split(b).1 == b && Stops(Split(b).1)
  {
    if b == [] || b[0] == END {
    } else if b[0] == PAD {
      SplitEncodes(b[1..]);
      var (items, rest) := Split(b[1..]);
      EncodeCons(Pad, items, rest);
    } else if |b| >= 2 && 2 + (b[1] as nat) < |b| {
      var n: nat := b[1];
      SplitEncodes(b[2 + n..]);
      var (items, rest) := Split(b[2 + n..]);
      EncodeCons(Tlv(b[0], b[2..2 + n]), items, rest);
      EncodeHead(b, n);
    }
  }

  /** And the scan returns the options among those items. */
  lemma {:induction false} ScanIsSplit<O>(parse: Parser<O>, b: seq<Byte>)
    ensures Scan(parse, b) == Decodable(parse, Split(b).0)
  {
    if b == [] || b[0] == END {
    } else if b[0] == PAD {
      ScanIsSplit(parse, b[1..]);
      assert ([Pad] + Split(b[1..]).0)[1..] == Split(b[1..]).0;
    } else if |b| >= 2 && 2 + (b[1] as nat) < |b| {
      var n: nat := b[1];
      ScanIsSplit(parse, b[2 + n..]);
      assert ([Tlv(b[0], b[2..2 + n])] + Split(b[2 + n..]).0)[1..] == Split(b[2 + n..]).0;
    }
  }

  // ----- The options themselves, there and back -----

  function AddressesData(addresses: seq<Ipv4>): (data: seq<Byte>)
    ensures |data| == 4 * |addresses|
  {
    if addresses == [] then [] else H.Octets(addresses[0]) + AddressesData(addresses[1..])
  }

  function PairsData(pairs: seq<(Ipv4, Ipv4)>): (data: seq<Byte>)
    ensures |data| == 8 * |pairs|
  {
    if pairs == [] then [] else H.Octets(pairs[0].0) + H.Octets(pairs[0].1) + PairsData(pairs[1..])
  }

  function ShortsData(shorts: seq<U16>): (data: seq<Byte>)
    ensures |data| == 2 * |shorts|
  {
    if shorts == [] then [] else C.Bytes16(shorts[0]) + ShortsData(shorts[1..])
  }

  predicate Representable(v: Value)
  {
    && (v.Long? ==> v.long < 0x1_0000_0000)
    && (v.Signed? ==> -0x8000_0000 <= v.signed < 0x8000_0000)
  }

  function Data(v: Value): seq<Byte>
    requires Representable(v)
  {
    match v
    case Address(a) => H.Octets(a)
    case Addresses(s) => AddressesData(s)
    case Pairs(s) => PairsData(s)
    case Short(n) => C.Bytes16(n)
    case Shorts(s) => ShortsData(s)
    case Long(n) => H.Octets(n)
    case Signed(i) => H.Octets(FromSigned(i))
    case Text(t) => t
    case Octets(b) => b
    case Choice(c) => [c]
    case Hardware(mac) => [1] + mac
  }

  /** The value is one of the kind, and a list is not empty. */
  predicate Suits(utf8: Utf8, kind: Kind, v: Value)
  {
    match kind
    case AnAddress => v.Address?
    case SomeAddresses => v.Addresses? && v.addresses != []
    case SomePairs => v.Pairs? && v.pairs != []
    case AShort => v.Short?
    case SomeShorts => v.Shorts? && v.shorts != []
    case ALong => v.Long?
    case ASigned => v.Signed?
    case AText => v.Text? && utf8(v.text)
    case SomeOctets => v.Octets?
    case AChoice(most) => v.Choice? && 1 <= v.choice <= most
    case AHardware => v.Hardware? && |v.mac| == 6
  }

  /** The value is of the kind the option's code calls for. */
  predicate WellFormed(utf8: Utf8, o: DhcpOption)
  {
    && Representable(o.value) && |Data(o.value)| <= 255
    && KindOf(o.code).Some? && Suits(utf8, KindOf(o.code).value, o.value)
  }

  lemma {:induction false} AddressesRoundTrip(s: seq<Ipv4>)
    ensures AddressesOf(AddressesData(s)) == s
  {
    if s != [] {
      var data := AddressesData(s);
      assert data[..4] == H.Octets(s[0]) && data[4..] == AddressesData(s[1..]);
      H.AddressRoundTrip(s[0]);
      AddressesRoundTrip(s[1..]);
    }
  }

  lemma {:induction false} PairsRoundTrip(s: seq<(Ipv4, Ipv4)>)
    ensures PairsOf(PairsData(s)) == s
  {
    if s != [] {
      var data := PairsData(s);
      assert data[..4] == H.Octets(s[0].0) && data[4..8] == H.Octets(s[0].1) && data[8..] == PairsData(s[1..]);
      H.AddressRoundTrip(s[0].0);
      H.AddressRoundTrip(s[0].1);
      PairsRoundTrip(s[1..]);
    }
  }

  lemma {:induction false} ShortsRoundTrip(s: seq<U16>)
    ensures ShortsOf(ShortsData(s)) == s
  {
    if s != [] {
      var data := ShortsData(s);
      assert data[0] == C.Bytes16(s[0])[0] && data[1] == C.Bytes16(s[0])[1] && data[2..] == ShortsData(s[1..]);
      C.Bytes16RoundTrip(s[0]);
      ShortsRoundTrip(s[1..]);
    }
  }

  /** A value of a kind is read from its own data. */
  ghost predicate Reads(utf8: Utf8, kind: Kind, v: Value)
    requires Representable(v)
  {
    Suits(utf8, kind, v) ==> ParseKind(utf8, kind, Data(v)) == Some(v)
  }

  lemma AddressReads(utf8: Utf8, address: Ipv4)
    ensures Reads(utf8, AnAddress, Address(address))
  {
    H.AddressRoundTrip(address);
  }

  lemma LongReads(utf8: Utf8, long: Ipv4)
    ensures Reads(utf8, ALong, Long(long))
  {
    H.AddressRoundTrip(long);
  }

  lemma SignedReads(utf8: Utf8, i: int)
    requires -0x8000_0000 <= i < 0x8000_0000
    ensures Reads(utf8, ASigned, Signed(i))
  {
    H.AddressRoundTrip(FromSigned(i));
    assert ToSigned(FromSigned(i)) == i;
  }

  lemma KindReads(utf8: Utf8, kind: Kind, v: Value)
    requires Representable(v)
    ensures Reads(utf8, kind, v)
  {
    if Suits(utf8, kind, v) {
      match kind
      case AnAddress => AddressReads(utf8, v.address);
      case SomeAddresses => AddressesRoundTrip(v.addresses);
      case SomePairs => PairsRoundTrip(v.pairs);
      case AShort => C.Bytes16RoundTrip(v.short);
      case SomeShorts => ShortsRoundTrip(v.shorts);
      case ALong => LongReads(utf8, v.long);
      case ASigned => SignedReads(utf8, v.signed);
      case AText =>
      case SomeOctets =>
      case AChoice(_) =>
      case AHardware => assert ([1] + v.mac)[1..] == v.mac;
    }
  }

  lemma KnownCode(code: Byte)
    requires KindOf(code).Some?
    ensures PAD < code < END
  {
  }

  /** A well-formed option is decoded from its own data. */
  lemma OptionRoundTrip(utf8: Utf8, o: DhcpOption)
    requires WellFormed(utf8, o)
    ensures ParseOption(utf8, o.code, Data(o.value)) == Some(o)
    ensures Encodable(Tlv(o.code, Data(o.value)))
  {
    KindReads(utf8, KindOf(o.code).value, o.value);
    assert ParseValue(utf8, o.code, Data(o.value)) == Some(o.value);
    KnownCode(o.code);
  }

  function Parsing(utf8: Utf8): Parser<DhcpOption>
  {
    (code: Byte, data: seq<Byte>) => ParseOption(utf8, code, data)
  }

  /** A field built from the options, pads between them or not. */
  function ItemOf(o: Option<DhcpOption>): Item
    requires o.Some? ==> Representable(o.value.value)
  {
    if o.Some? then Tlv(o.value.code, Data(o.value.value)) else Pad
  }

  function Items(utf8: Utf8, options: seq<Option<DhcpOption>>): (items: seq<Item>)
    requires forall o :: o in options && o.Some? ==> WellFormed(utf8, o.value)
    ensures |items| == |options| && forall k :: 0 <= k < |items| ==> Encodable(items[k])
  {
    if options == [] then []
    else
      assert options[0] in options;
      assert options[0].Some? ==> Encodable(ItemOf(options[0])) by {
        if options[0].Some? { OptionRoundTrip(utf8, options[0].value); }
      }
      [ItemOf(options[0])] + Items(utf8, options[1..])
  }

  function Present(options: seq<Option<DhcpOption>>): seq<DhcpOption>
  {
    if options == [] then []
    else (if options[0].Some? then [options[0].value] else []) + Present(options[1..])
  }

  lemma {:induction false} ItemsDecode(utf8: Utf8, options: seq<Option<DhcpOption>>)
    requires forall o :: o in options && o.Some? ==> WellFormed(utf8, o.value)
    ensures Decodable(Parsing(utf8), Items(utf8, options)) == Present(options)
  {
    if options != [] {
      assert options[0] in options;
      if options[0].Some? { OptionRoundTrip(utf8, options[0].value); }
      ItemsDecode(utf8, options[1..]);
      assert Items(utf8, options)[1..] == Items(utf8, options[1..]);
    }
  }

  /** Options encoded with pads (the None) interleaved and a final End are all
      recovered, in order, whatever follows. */
  lemma FieldRoundTrip(utf8: Utf8, options: seq<Option<DhcpOption>>, rest: seq<Byte>)
    requires forall o :: o in options && o.Some? ==> WellFormed(utf8, o.value)
    ensures Scan(Parsing(utf8), Encode(Items(utf8, options)) + [END] + rest) == Present(options)
  {
    ScanEnded(Parsing(utf8), Items(utf8, options), rest);
    ItemsDecode(utf8, options);
  }

  // ----- Nothing else decodes -----

  lemma ShortUnique(a: Byte, b: Byte, c: Byte, d: Byte)
    requires C.U16Of(a, b) == C.U16Of(c, d)
    ensures a == c && b == d
  {
    SameQuotient(0x100, a, b, c, d);
  }

  lemma AddressUnique(x: seq<Byte>, y: seq<Byte>)
    requires |x| == 4 && |y| == 4 && H.AddressOf(x) == H.AddressOf(y)
    ensures x == y
  {
    SameQuotient(0x1_0000, C.U16Of(x[0], x[1]), C.U16Of(x[2], x[3]), C.U16Of(y[0], y[1]), C.U16Of(y[2], y[3]));
    ShortUnique(x[0], x[1], y[0], y[1]);
    ShortUnique(x[2], x[3], y[2], y[3]);
  }

  lemma ShortBytes(high: Byte, low: Byte)
    ensures C.Bytes16(C.U16Of(high, low)) == [high, low]
  {
    var b := C.Bytes16(C.U16Of(high, low));
    C.Bytes16RoundTrip(C.U16Of(high, low));
    ShortUnique(b[0], b[1], high, low);
  }

  lemma AddressBytes(data: seq<Byte>)
    requires |data| == 4
    ensures H.Octets(H.AddressOf(data)) == data
  {
    H.AddressRoundTrip(H.AddressOf(data));
    AddressUnique(H.Octets(H.AddressOf(data)), data);
  }

  /** All of the data but less than one element. */
  predicate AllBut(d: seq<Byte>, data: seq<Byte>, element: nat)
  {
    d <= data && |data| < |d| + element
  }

  lemma AllButCons(head: seq<Byte>, d: seq<Byte>, data: seq<Byte>, element: nat)
    requires head <= data && AllBut(d, data[|head|..], element)
    ensures AllBut(head + d, data, element)
  {
    assert data == head + data[|head|..];
  }

  lemma {:induction false} AddressesBytes(data: seq<Byte>)
    ensures AllBut(AddressesData(AddressesOf(data)), data, 4)
  {
    if |data| >= 4 {
      AddressBytes(data[..4]);
      AddressesBytes(data[4..]);
      AllButCons(data[..4], AddressesData(AddressesOf(data[4..])), data, 4);
    }
  }

  lemma {:induction false} PairsBytes(data: seq<Byte>)
    ensures AllBut(PairsData(PairsOf(data)), data, 8)
  {
    if |data| >= 8 {
      AddressBytes(data[..4]);
      AddressBytes(data[4..8]);
      PairsBytes(data[8..]);
      assert data[..4] + data[4..8] == data[..8];
      AllButCons(data[..8], PairsData(PairsOf(data[8..])), data, 8);
    }
  }

  lemma {:induction false} ShortsBytes(data: seq<Byte>)
    ensures AllBut(ShortsData(ShortsOf(data)), data, 2)
  {
    if |data| >= 2 {
      ShortBytes(data[0], data[1]);
      ShortsBytes(data[2..]);
      assert data[..2] == [data[0], data[1]];
      AllButCons(data[..2], ShortsData(ShortsOf(data[2..])), data, 2);
    }
  }

  /** The octets of one element of a list value; an incomplete last one is ignored. */
  function ElementOf(v: Value): nat
  {
    match v
    case Addresses(_) => 4
    case Pairs(_) => 8
    case Shorts(_) => 2
    case _ => 1
  }

  /** Whatever is read is of the kind, and has the data but for an incomplete element. */
  ghost predicate Covers(utf8: Utf8, kind: Kind, data: seq<Byte>)
  {
    match ParseKind(utf8, kind, data)
    case Some(v) => Representable(v) && Suits(utf8, kind, v) && AllBut(Data(v), data, ElementOf(v))
    case None => true
  }

  lemma AllButAll(data: seq<Byte>, element: nat)
    requires element > 0
    ensures AllBut(data, data, element)
  {
  }

  lemma AddressCovers(utf8: Utf8, data: seq<Byte>)
    ensures Covers(utf8, AnAddress, data)
  {
    if |data| == 4 {
      var v := Address(H.AddressOf(data));
      assert ParseKind(utf8, AnAddress, data) == Some(v);
      assert Representable(v) && Suits(utf8, AnAddress, v) && ElementOf(v) == 1;
      assert Data(v) == data by { AddressBytes(data); }
    }
  }

  lemma LongCovers(utf8: Utf8, data: seq<Byte>)
    ensures Covers(utf8, ALong, data)
  {
    if |data| == 4 {
      AddressBytes(data);
      AllButAll(data, 1);
    }
  }

  lemma SignedInverse(n: Ipv4)
    ensures -0x8000_0000 <= ToSigned(n) < 0x8000_0000 && FromSigned(ToSigned(n)) == n
  {
  }

  lemma SignedCovers(utf8: Utf8, data: seq<Byte>)
    ensures Covers(utf8, ASigned, data)
  {
    if |data| == 4 {
      AddressBytes(data);
      SignedInverse(H.AddressOf(data));
    }
  }

  lemma AddressesCovers(utf8: Utf8, data: seq<Byte>)
    ensures Covers(utf8, SomeAddresses, data)
  {
    AddressesBytes(data);
  }

  lemma PairsCovers(utf8: Utf8, data: seq<Byte>)
    ensures Covers(utf8, SomePairs, data)
  {
    PairsBytes(data);
  }

  lemma ShortCovers(utf8: Utf8, data: seq<Byte>)
    ensures Covers(utf8, AShort, data)
  {
    if |data| == 2 { ShortBytes(data[0], data[1]); }
  }

  lemma ShortsCovers(utf8: Utf8, data: seq<Byte>)
    ensures Covers(utf8, SomeShorts, data)
  {
    ShortsBytes(data);
  }

  lemma KindCovers(utf8: Utf8, kind: Kind, data: seq<Byte>)
    ensures Covers(utf8, kind, data)
  {
    match kind
    case AnAddress => AddressCovers(utf8, data);
    case SomeAddresses => AddressesCovers(utf8, data);
    case SomePairs => PairsCovers(utf8, data);
    case AShort => ShortCovers(utf8, data);
    case SomeShorts => ShortsCovers(utf8, data);
    case ALong => LongCovers(utf8, data);
    case ASigned => SignedCovers(utf8, data);
    case AText =>
    case SomeOctets =>
    case AChoice(_) =>
    case AHardware =>
  }

  /** So whatever decodes is well-formed. */
  lemma DecodesWellFormed(utf8: Utf8, code: Byte, data: seq<Byte>)
    requires |data| <= 255 && ParseOption(utf8, code, data).Some?
    ensures var o := ParseOption(utf8, code, data).value;
            o.code == code && WellFormed(utf8, o) && AllBut(Data(o.value), data, ElementOf(o.value))
  {
    KindCovers(utf8, KindOf(code).value, data);
  }

  // ----- By code -----

  /** What each code takes, in octets: nothing else is decoded. */
  lemma DecodesExactly(utf8: Utf8, code: Byte, data: seq<Byte>)
    ensures ParseOption(utf8, code, data).Some? <==>
              || (code in {1, 2, 24, 28, 50, 51, 54, 58, 59} && |data| == 4)
              || (code in {3, 6, 42} && |data| >= 4)
              || (code == 33 && |data| >= 8)
              || (code == 57 && |data| == 2)
              || (code == 25 && |data| >= 2)
              || (code in {12, 15, 56, 60} && utf8(data))
              || code == 55
              || (code == 52 && |data| == 1 && 1 <= data[0] <= 3)
              || (code == 53 && |data| == 1 && 1 <= data[0] <= 7)
              || (code == 61 && |data| == 7 && data[0] == 1)
  {
  }

  /** What each code is decoded as; and the value stands for all of the data but an
      incomplete last element. */
  lemma DecodesAs(utf8: Utf8, code: Byte, data: seq<Byte>)
    requires |data| <= 255 && ParseOption(utf8, code, data).Some?
    ensures var v := ParseOption(utf8, code, data).value.value;
            && (v.Address? <==> code in {1, 28, 50, 54}) && (v.Signed? <==> code == 2)
            && (v.Long? <==> code in {24, 51, 58, 59}) && (v.Addresses? <==> code in {3, 6, 42})
            && (v.Pairs? <==> code == 33) && (v.Short? <==> code == 57) && (v.Shorts? <==> code == 25)
            && (v.Text? <==> code in {12, 15, 56, 60}) && (v.Octets? <==> code == 55)
            && (v.Choice? <==> code in {52, 53}) && (v.Hardware? <==> code == 61)
            && Representable(v) && AllBut(Data(v), data, ElementOf(v))
  {
    DecodesWellFormed(utf8, code, data);
  }

  lemma LeaseOptions(utf8: Utf8)
    ensures ParseOption(utf8, 53, [5]) == Some(DhcpOption(53, Choice(5)))
    ensures ParseOption(utf8, 51, [0, 1, 81, 128]) == Some(DhcpOption(51, Long(86_400)))
  {
  }

  lemma LeaseScan<O>(parse: Parser<O>, a: O, b: O)
    requires parse(53, [5]) == Some(a) && parse(51, [0, 1, 81, 128]) == Some(b)
    ensures Scan(parse, [53, 1, 5, 51, 4, 0, 1, 81, 128, 255]) == [a, b]
  {
    var time: seq<Byte> := [51, 4, 0, 1, 81, 128, 255];
    var all: seq<Byte> := [53, 1, 5, 51, 4, 0, 1, 81, 128, 255];
    ScanNothing(parse, [255]);
    assert time[2..6] == [0, 1, 81, 128] && time[6..] == [255];
    ScanOption(parse, time, [255]);
    assert all[2..3] == [5] && all[3..] == time;
    ScanOption(parse, all, time);
  }

  /** An acknowledgement of a lease, type 5, for one day. */
  lemma LeaseField(utf8: Utf8)
    ensures Scan(Parsing(utf8), [53, 1, 5, 51, 4, 0, 1, 81, 128, 255])
         == [DhcpOption(53, Choice(5)), DhcpOption(51, Long(86_400))]
  {
    LeaseOptions(utf8);
    LeaseScan(Parsing(utf8), DhcpOption(53, Choice(5)), DhcpOption(51, Long(86_400)));
  }
}
