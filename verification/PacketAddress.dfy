/** Packet-address frames: `| type | address | port | length | data |`, parsed incrementally and written. */
module PacketAddress {
  import opened Bytes
  import opened Framing

  const ATYP_IPV4: byte := 0
  const ATYP_IPV6: byte := 1
  const ATYP_DOMAIN: byte := 2

  datatype Address = Ipv4(octets: seq<byte>) | Ipv6(octets: seq<byte>) | Hostname(name: seq<byte>)
  datatype Location = Location(address: Address, port: u16)

  /** A socket address: what the writer is given. */
  predicate IsSocketAddr(l: Location) {
    match l.address
    case Ipv4(o) => |o| == 4
    case Ipv6(o) => |o| == 16
    case Hostname(_) => false
  }

  /** A frame's target and payload. */
  datatype Message = Message(location: Location, payload: seq<byte>)

  /** `parse_uot_address`; `utf8` says which bytes are a valid domain name. */
  function ParseAddress(s: seq<byte>, utf8: seq<byte> -> bool): (r: Step<Location>)
    ensures r.Item? ==> 0 < r.used <= |s|
  {
    if s == [] then More
    else if s[0] == ATYP_IPV4 then
      if |s| < 7 then More else Item(Location(Ipv4(s[1..5]), U16FromBe(s[5], s[6])), 7)
    else if s[0] == ATYP_IPV6 then
      if |s| < 19 then More else Item(Location(Ipv6(s[1..17]), U16FromBe(s[17], s[18])), 19)
    else if s[0] == ATYP_DOMAIN then
      if |s| < 2 then More else
      var n: nat := s[1];
      if |s| < n + 4 then More
      else if !utf8(s[2..2 + n]) then Bad
      else Item(Location(Hostname(s[2..2 + n]), U16FromBe(s[2 + n], s[3 + n])), n + 4)
    else Bad
  }

  /** `try_parse_packet`, with the payload it announces. */
  function ParsePacket(s: seq<byte>, utf8: seq<byte> -> bool): (r: Step<Message>)
    ensures r.Item? ==> 0 < r.used <= |s|
  {
    match ParseAddress(s, utf8)
    case More => More
    case Bad => Bad
    case Item(location, n) =>
      if |s| < n + 2 then More else
      var length := U16FromBe(s[n], s[n + 1]);
      var start := n + 2;
      if |s| < start + length then More
      else Item(Message(location, s[start..start + length]), start + length)
  }

  /** The parser for one choice of `utf8`. */
  function Packets(utf8: seq<byte> -> bool): Parser<Message> {
    s => ParsePacket(s, utf8)
  }

  lemma ParseAddressStable(s: seq<byte>, more: seq<byte>, utf8: seq<byte> -> bool)
    requires !ParseAddress(s, utf8).More?
    ensures ParseAddress(s + more, utf8) == ParseAddress(s, utf8)
  {
    hide U16FromBe;
    var t := s + more;
    if s[0] == ATYP_IPV4 {
      assert t[1..5] == s[1..5];
    } else if s[0] == ATYP_IPV6 {
      assert t[1..17] == s[1..17];
    } else if s[0] == ATYP_DOMAIN {
      assert t[2..2 + s[1]] == s[2..2 + s[1]];
    }
  }

  lemma ParsePacketStable(s: seq<byte>, more: seq<byte>, utf8: seq<byte> -> bool)
    requires !ParsePacket(s, utf8).More?
    ensures ParsePacket(s + more, utf8) == ParsePacket(s, utf8)
  {
    hide U16FromBe, ParseAddress;
    ParseAddressStable(s, more, utf8);
    if ParsePacket(s, utf8).Item? {
      var n, used := ParseAddress(s, utf8).used, ParsePacket(s, utf8).used;
      assert (s + more)[n + 2..used] == s[n + 2..used];
    }
  }

  lemma PacketsIncremental(utf8: seq<byte> -> bool)
    ensures Incremental(Packets(utf8))
  {
    hide ParsePacket;
    forall s, more | !Packets(utf8)(s).More?
      ensures Packets(utf8)(s + more) == Packets(utf8)(s)
    {
      ParsePacketStable(s, more, utf8);
    }
  }

  // ----- what it accepts -----

  /** An address of any kind, in bytes: types 0, 1 and 2, a name behind its length, and the port in network order. */
  ghost function AddressBytes(l: Location): seq<byte>
    requires IsAddress(l)
  {
    match l.address
    case Ipv4(o) => [0] + o + U16ToBe(l.port)
    case Ipv6(o) => [1] + o + U16ToBe(l.port)
    case Hostname(name) => [2, |name|] + name + U16ToBe(l.port)
  }

  predicate IsAddress(l: Location) {
    IsSocketAddr(l) || (l.address.Hostname? && |l.address.name| <= 0xFF)
  }

  /** Every address is read from its bytes, whatever follows, but a name that is not one is refused. */
  lemma AddressParsed(l: Location, more: seq<byte>, utf8: seq<byte> -> bool)
    requires IsAddress(l)
    ensures ParseAddress(AddressBytes(l) + more, utf8) ==
            if l.address.Hostname? && !utf8(l.address.name) then Bad else Item(l, |AddressBytes(l)|)
  {
    hide U16ToBe, U16FromBe;
    var p, s := U16ToBe(l.port), AddressBytes(l) + more;
    var start := if l.address.Hostname? then 2 else 1;
    var o := if l.address.Hostname? then l.address.name else l.address.octets;
    assert s[start..start + |o|] == o;
    assert s[start + |o|] == p[0] && s[start + 1 + |o|] == p[1];
  }

  /** So is a packet to any address. */
  lemma PacketParsed(l: Location, payload: seq<byte>, more: seq<byte>, utf8: seq<byte> -> bool)
    requires IsAddress(l) && |payload| <= 0xFFFF && (l.address.Hostname? ==> utf8(l.address.name))
    ensures ParsePacket(AddressBytes(l) + U16ToBe(|payload|) + payload + more, utf8) ==
            Item(Message(l, payload), |AddressBytes(l)| + 2 + |payload|)
  {
    hide U16ToBe, U16FromBe, ParseAddress, AddressBytes;
    var a, two := AddressBytes(l), U16ToBe(|payload|);
    var s := a + two + payload + more;
    assert s == a + (two + payload + more);
    AddressParsed(l, two + payload + more, utf8);
    assert s[|a|] == two[0] && s[|a| + 1] == two[1];
    assert s[|a| + 2..|a| + 2 + |payload|] == payload;
  }

  /** A type above 2 is refused at once; nothing else is, but a name that is not one. */
  lemma AddressRefusedIff(s: seq<byte>, utf8: seq<byte> -> bool)
    ensures ParseAddress(s, utf8).Bad? <==>
            s != [] && (s[0] > 2 || (s[0] == 2 && |s| >= 2 && var n: nat := s[1]; |s| >= n + 4 && !utf8(s[2..2 + n])))
  {
  }

  // ----- writing -----

  /** `write_uot_address` */
  function EncodeAddress(l: Location): seq<byte>
    requires IsSocketAddr(l)
  {
    match l.address
    case Ipv4(o) => [ATYP_IPV4] + o + U16ToBe(l.port)
    case Ipv6(o) => [ATYP_IPV6] + o + U16ToBe(l.port)
  }

  lemma WrittenAddress(l: Location)
    requires IsSocketAddr(l)
    ensures EncodeAddress(l) == AddressBytes(l)
  {
  }

  method WriteUotAddress(buf: array<byte>, l: Location) returns (n: nat)
    requires IsSocketAddr(l) && buf.Length >= 19
    modifies buf
    ensures n == |EncodeAddress(l)| == (if l.address.Ipv4? then 7 else 19)
    ensures buf[..n] == EncodeAddress(l)
    ensures forall i :: n <= i < buf.Length ==> buf[i] == old(buf[i])
  {
    hide U16ToBe;
    var o, port := l.address.octets, U16ToBe(l.port);
    buf[0] := if l.address.Ipv4? then ATYP_IPV4 else ATYP_IPV6;
    forall i | 0 <= i < |o| {
      buf[1 + i] := o[i];
    }
    buf[1 + |o|], buf[2 + |o|] := port[0], port[1];
    n := 3 + |o|;
    assert buf[..n] == [buf[0]] + o + port;
  }

  predicate Writable(m: Message) {
    IsSocketAddr(m.location) && |m.payload| <= 0xFFFF
  }

  function EncodePacket(m: Message): seq<byte> {
    if !Writable(m) then [] else EncodeAddress(m.location) + (U16ToBe(|m.payload|) + m.payload)
  }

  lemma AddressRoundTrip(l: Location, more: seq<byte>, utf8: seq<byte> -> bool)
    requires IsSocketAddr(l)
    ensures ParseAddress(EncodeAddress(l) + more, utf8) == Item(l, |EncodeAddress(l)|)
  {
    hide ParseAddress, EncodeAddress, AddressBytes;
    WrittenAddress(l);
    AddressParsed(l, more, utf8);
  }

  /** What the writer lays out, the parser reads back, and leaves what follows. */
  lemma PacketRoundTrip(m: Message, more: seq<byte>, utf8: seq<byte> -> bool)
    requires Writable(m)
    ensures ParsePacket(EncodePacket(m) + more, utf8) == Item(m, |EncodePacket(m)|)
  {
    hide U16ToBe, U16FromBe, ParseAddress, EncodeAddress;
    var a, two := EncodeAddress(m.location), U16ToBe(|m.payload|);
    var s := EncodePacket(m) + more;
    assert s == a + (two + m.payload + more);
    AddressRoundTrip(m.location, two + m.payload + more, utf8);
    assert s[|a|] == two[0] && s[|a| + 1] == two[1];
    assert s[|a| + 2..|a| + 2 + |m.payload|] == m.payload;
  }

  /** A list of written frames is read back as it was, however it is cut up on the way. */
  lemma PacketsRoundTrip(ms: seq<Message>, tail: seq<byte>, utf8: seq<byte> -> bool)
    requires forall i :: 0 <= i < |ms| ==> Writable(ms[i])
    ensures Incremental(Packets(utf8))
    ensures Items(Packets(utf8), Encoded(EncodePacket, ms) + tail) == Prepend(ms, Items(Packets(utf8), tail))
  {
    hide ParsePacket, EncodePacket, Items;
    PacketsIncremental(utf8);
    forall i | 0 <= i < |ms|
      ensures Recovers(Packets(utf8), EncodePacket, ms[i])
    {
      forall more
        ensures Packets(utf8)(EncodePacket(ms[i]) + more) == Item(ms[i], |EncodePacket(ms[i])|)
      {
        PacketRoundTrip(ms[i], more, utf8);
      }
    }
    ItemsOfEncoded(Packets(utf8), EncodePacket, ms, tail);
  }
}
