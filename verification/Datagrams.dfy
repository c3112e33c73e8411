/** Hysteria2 UDP datagrams: their layout, how a payload is cut into them, and how they are read back. */
module Datagrams {
  import opened Bytes
  import Varint
  import opened Reassembly
  import opened Delivery

  const MAX_ADDRESS: nat := 2048

  /** A datagram: session id, packet id, fragment index and count, address length, address, payload. */
  function Layout(session: u32, f: Fragment): seq<byte>
    requires |f.location| < Varint.LIMIT
  {
    Header(session, f.id, f.index, f.count) + (Varint.Encode(|f.location|).value + (f.location + f.data))
  }

  function Header(session: u32, id: u16, index: u8, count: u8): (s: seq<byte>)
    ensures |s| == 8
  {
    U32ToBe(session) + U16ToBe(id) + [index, count]
  }

  function Overhead(address: Location): nat
    requires |address| < Varint.LIMIT
  {
    8 + |Varint.Encode(|address|).value| + |address|
  }

  datatype Parsed = Short | OutOfBounds | Skipped | Datagram(session: u32, f: Fragment)

  /** The parsing part of the datagram loop; `valid` decides which address texts name a location. */
  function Parse(data: seq<byte>, valid: Location -> bool): Parsed {
    if |data| < 9 then Short else
    match Varint.Decode(data[8..])
    case Truncated => OutOfBounds
    case Value(length, used) =>
      var next := 8 + used;
      if length == 0 || length > MAX_ADDRESS || |data| < next + length then Skipped
      else if !valid(data[next..next + length]) then Skipped
      else Datagram(U32FromBe(data[..4]),
                    Fragment(U16FromBe(data[4], data[5]), data[6], data[7],
                             data[next + length..], data[next..next + length]))
  }

  /** The varint slice runs off the datagram exactly when its announced width is not all there. */
  lemma OutOfBoundsIff(data: seq<byte>, valid: Location -> bool)
    ensures Parse(data, valid).OutOfBounds? <==> |data| >= 9 && |data| < 8 + Varint.WidthOf(data[8])
  {
  }

  /**
   The decoder written out in the datagram loop: the value and the index after it, or nothing if its slice runs off
   the datagram. It agrees with `read_varint` on the bytes from index eight on.
   */
  method DecodeInline(data: seq<byte>) returns (value: nat, nextIndex: nat, inBounds: bool)
    requires |data| >= 9
    ensures inBounds <==> Varint.Decode(data[8..]).Value?
    ensures inBounds ==> 9 <= nextIndex <= |data| && Varint.Decode(data[8..]) == Varint.Value(value, nextIndex - 8)
  {
    var indicator := data[8] / 64;
    value := data[8] % 64;
    var count := if indicator == 0 then 1 else if indicator == 1 then 2 else if indicator == 2 then 4 else 8;
    nextIndex := 9;
    if count > 1 {
      if 9 + (count - 1) > |data| {
        return value, nextIndex, false;
      }
      var remaining := data[9..9 + (count - 1)];
      for i := 0 to |remaining|
        invariant value == Varint.Shift(data[8] % 64, remaining[..i])
      {
        assert remaining[..i + 1][..i] == remaining[..i];
        value := 0x100 * value + remaining[i];
      }
      assert remaining[..|remaining|] == remaining;
      assert data[8..][1..count] == data[8 + 1..8 + count];
      nextIndex := nextIndex + (count - 1);
    } else {
      assert data[8..][1..1] == [];
    }
    inBounds := true;
  }

  /** The parsing part of the datagram loop, step by step. */
  method ReadDatagram(data: seq<byte>, valid: Location -> bool) returns (p: Parsed)
    ensures p == Parse(data, valid)
  {
    hide Varint.Decode, U32FromBe, U16FromBe;
    if |data| < 9 {
      return Short;
    }
    var session, id := U32FromBe(data[..4]), U16FromBe(data[4], data[5]);
    var length, next, inBounds := DecodeInline(data);
    if !inBounds {
      return OutOfBounds;
    }
    if length == 0 || length > MAX_ADDRESS || |data| < next + length {
      return Skipped;
    }
    var address := data[next..next + length];
    if !valid(address) {
      return Skipped;
    }
    p := Datagram(session, Fragment(id, data[6], data[7], data[next + length..], address));
  }

  /** Nine bytes that announce two for the length do so. */
  lemma OutOfBoundsAtNine(valid: Location -> bool)
    ensures Parse([0, 0, 0, 0, 0, 0, 0, 2, 0x40], valid).OutOfBounds?
  {
    OutOfBoundsIff([0, 0, 0, 0, 0, 0, 0, 2, 0x40], valid);
  }

  /** What a sender lays out, a receiver that knows the address reads back unchanged. */
  lemma ParseLayout(session: u32, f: Fragment, valid: Location -> bool)
    requires 0 < |f.location| <= MAX_ADDRESS && valid(f.location)
    ensures Parse(Layout(session, f), valid) == Datagram(session, f)
  {
    hide Varint.Decode, Varint.Encode;
    var s, enc := Layout(session, f), Varint.Encode(|f.location|).value;
    Varint.RoundTrip(|f.location|, f.location + f.data);
    HeaderFields(session, f.id, f.index, f.count, enc + (f.location + f.data));
    var next := 8 + |enc|;
    assert s[next..] == f.location + f.data;
    assert s[next..next + |f.location|] == s[next..][..|f.location|] == f.location;
    assert s[next + |f.location|..] == s[next..][|f.location|..] == f.data;
  }

  lemma HeaderFields(session: u32, id: u16, index: u8, count: u8, rest: seq<byte>)
    ensures var s := Header(session, id, index, count) + rest;
            && s[..4] == U32ToBe(session) && U16FromBe(s[4], s[5]) == id
            && s[6] == index && s[7] == count && s[8..] == rest
  {
    hide U32ToBe, U32FromBe;
  }

  // ----- cutting a payload -----

  /** `div_ceil` */
  function DivCeil(n: nat, d: nat): (q: nat)
    requires d > 0
    ensures n <= q * d && (q > 0 ==> (q - 1) * d < n)
  {
    var q := (n + d - 1) / d;
    assert q * d <= n + d - 1 < q * d + d;
    q
  }

  /** The first `count` slices of at most `size` bytes. */
  function Parts(payload: seq<byte>, size: nat, count: nat): (parts: seq<seq<byte>>)
    requires size > 0 && (count > 0 ==> (count - 1) * size <= |payload|)
    ensures |parts| == count
  {
    if count == 0 then [] else
    ProductStep(count - 1, size);
    var start := (count - 1) * size;
    Parts(payload, size, count - 1) + [payload[start..Min(start + size, |payload|)]]
  }

  lemma ProductStep(n: nat, size: nat)
    ensures (n + 1) * size == n * size + size
    ensures n > 0 ==> 0 <= (n - 1) * size <= n * size
  {
    assert n > 0 ==> n * size == (n - 1) * size + size;
  }

  /** The slices are consecutive: together they are the payload up to where the last one ends. */
  lemma {:induction false} PartsFlatten(payload: seq<byte>, size: nat, count: nat)
    requires size > 0 && (count > 0 ==> (count - 1) * size <= |payload|)
    ensures Flatten(Parts(payload, size, count)) == payload[..Min(count * size, |payload|)]
  {
    hide Flatten;
    FlattenNothing<byte>();
    if count > 0 {
      ProductStep(count - 1, size);
      var start := (count - 1) * size;
      PartsFlatten(payload, size, count - 1);
      var end := Min(start + size, |payload|);
      assert end == Min(count * size, |payload|);
      FlattenSnoc(Parts(payload, size, count - 1), payload[start..end]);
      Consecutive(payload, start, end);
    }
  }

  lemma Consecutive(s: seq<byte>, start: nat, end: nat)
    requires start <= end <= |s|
    ensures s[..start] + s[start..end] == s[..end]
  {
  }

  /** Every slice of a cut that is needed holds at least one byte and at most `size`. */
  lemma {:induction false} PartSizes(payload: seq<byte>, size: nat, count: nat, i: nat)
    requires size > 0 && i < count && (count - 1) * size < |payload|
    ensures 0 < |Parts(payload, size, count)[i]| <= size
  {
    ProductStep(count - 1, size);
    if i < count - 1 {
      if count > 1 {
        ProductStep(count - 2, size);
      }
      PartSizes(payload, size, count - 1, i);
    }
  }

  /** The count as the code computes it, cut to eight bits. */
  function FragmentCount(n: nat, size: nat): u8
    requires size > 0
  {
    DivCeil(n, size) % 0x100
  }

  lemma CountFits(n: nat, size: nat)
    requires size > 0
    ensures var count := FragmentCount(n, size); count > 0 ==> (count - 1) * size < n
  {
    var q, count := DivCeil(n, size), FragmentCount(n, size);
    if count > 0 {
      Monotone(count - 1, q - 1, size);
    }
  }

  lemma Monotone(a: nat, b: nat, size: nat)
    requires a <= b
    ensures a * size <= b * size
  {
    assert (b - a) * size >= 0;
    assert a * size + (b - a) * size == b * size;
  }

  /** The slices the code cuts a payload into. */
  function Slices(payload: seq<byte>, size: nat): (parts: seq<seq<byte>>)
    requires size > 0
    ensures |parts| <= 255
  {
    CountFits(|payload|, size);
    Parts(payload, size, FragmentCount(|payload|, size))
  }

  /** The fragments sent carry the whole payload, without gap or overlap, exactly if 255 of them can. */
  lemma WholeIff(payload: seq<byte>, size: nat)
    requires size > 0 && |payload| > 0
    ensures Flatten(Slices(payload, size)) == payload <==> |payload| <= 255 * size
  {
    var q, count := DivCeil(|payload|, size), FragmentCount(|payload|, size);
    CountFits(|payload|, size);
    PartsFlatten(payload, size, count);
    if q <= 255 {
      Monotone(q, 255, size);
      assert payload[..|payload|] == payload;
    } else {
      Monotone(255, q - 1, size);
      Monotone(count, q - 1, size);
    }
  }

  /** With slices of one byte, a payload of 256 bytes is sent as nothing at all. */
  lemma NothingSentOf256()
    ensures Slices(Zeros(256), 1) == []
  {
    assert DivCeil(256, 1) == 256;
  }

  /** The fragment with index `i` of a cut payload. */
  function Piece(id: u16, address: Location, parts: seq<seq<byte>>, i: nat): Fragment
    requires i < |parts| <= 255
  {
    Fragment(id, i, |parts|, parts[i], address)
  }

  /** What the sending loop puts on the connection for one received packet. */
  function Sent(session: u32, id: u16, address: Location, payload: seq<byte>, max: nat): (ds: seq<seq<byte>>)
    requires |address| < Varint.LIMIT && max > Overhead(address)
  {
    if Overhead(address) + |payload| <= max then [Layout(session, Fragment(id, 0, 1, payload, address))]
    else
      var parts := Slices(payload, max - Overhead(address));
      seq(|parts|, i requires 0 <= i < |parts| => Layout(session, Piece(id, address, parts, i)))
  }

  /** The body of `run_udp_remote_to_local_loop` for one packet. */
  method SendPacket(session: u32, id: u16, address: Location, payload: seq<byte>, max: nat)
    returns (datagrams: seq<seq<byte>>)
    requires |address| < Varint.LIMIT && max > Overhead(address)
    ensures datagrams == Sent(session, id, address, payload, max)
    ensures forall i :: 0 <= i < |datagrams| ==> |datagrams[i]| <= max
  {
    if Overhead(address) + |payload| <= max {
      datagrams := [Layout(session, Fragment(id, 0, 1, payload, address))];
    } else {
      datagrams := SendFragments(session, id, address, payload, max);
    }
  }

  method SendFragments(session: u32, id: u16, address: Location, payload: seq<byte>, max: nat)
    returns (datagrams: seq<seq<byte>>)
    requires |address| < Varint.LIMIT && max > Overhead(address) && max < Overhead(address) + |payload|
    ensures datagrams == Sent(session, id, address, payload, max)
    ensures forall i :: 0 <= i < |datagrams| ==> |datagrams[i]| <= max
  {
    hide Varint.Encode, Header, FragmentCount, Layout, Offset, Sent;
    var size := max - Overhead(address);
    var count := FragmentCount(|payload|, size);
    ghost var parts := CutOf(payload, size);
    datagrams := [];
    for i := 0 to count
      invariant |datagrams| == i
      invariant forall j :: 0 <= j < i ==> datagrams[j] == Layout(session, Piece(id, address, parts, j))
      invariant forall j :: 0 <= j < i ==> |datagrams[j]| <= max
    {
      var start := Offset(i, size);
      var end := Min(start + size, |payload|);
      var d := Header(session, id, i, count) + Varint.Encode(|address|).value;
      d := d + address;
      d := d + payload[start..end];
      PieceLayout(session, id, address, parts, i, payload[start..end]);
      datagrams := datagrams + [d];
    }
    SentIs(session, id, address, payload, max, parts, datagrams);
  }

  function Offset(i: nat, size: nat): nat {
    i * size
  }

  /** The slices the loop cuts, by their offsets. */
  lemma CutOf(payload: seq<byte>, size: nat) returns (parts: seq<seq<byte>>)
    requires size > 0
    ensures |parts| == FragmentCount(|payload|, size)
    ensures parts == Slices(payload, size)
    ensures forall i :: 0 <= i < |parts| ==>
              Offset(i, size) <= |payload| &&
              parts[i] == payload[Offset(i, size)..Min(Offset(i, size) + size, |payload|)]
  {
    hide DivCeil;
    var count := FragmentCount(|payload|, size);
    CountFits(|payload|, size);
    parts := Parts(payload, size, count);
    forall i | 0 <= i < count
      ensures Offset(i, size) <= |payload|
      ensures parts[i] == payload[Offset(i, size)..Min(Offset(i, size) + size, |payload|)]
    {
      PartAt(payload, size, count, i);
    }
  }

  lemma SentIs(session: u32, id: u16, address: Location, payload: seq<byte>, max: nat,
               parts: seq<seq<byte>>, ds: seq<seq<byte>>)
    requires |address| < Varint.LIMIT && max > Overhead(address) && max < Overhead(address) + |payload|
    requires parts == Slices(payload, max - Overhead(address)) && |parts| == |ds|
    requires forall j :: 0 <= j < |ds| ==> ds[j] == Layout(session, Piece(id, address, parts, j))
    ensures ds == Sent(session, id, address, payload, max)
  {
    hide Slices, Layout;
  }

  lemma PieceLayout(session: u32, id: u16, address: Location, parts: seq<seq<byte>>, i: nat, part: seq<byte>)
    requires |address| < Varint.LIMIT && i < |parts| <= 255 && parts[i] == part
    ensures Header(session, id, i, |parts|) + Varint.Encode(|address|).value + address + part
            == Layout(session, Piece(id, address, parts, i))
    ensures |Layout(session, Piece(id, address, parts, i))| == Overhead(address) + |part|
  {
    hide Varint.Encode, Header;
    NestRight(Header(session, id, i, |parts|), Varint.Encode(|address|).value, address, part);
  }

  lemma {:induction false} PartAt(payload: seq<byte>, size: nat, count: nat, i: nat)
    requires size > 0 && i < count && (count - 1) * size <= |payload|
    ensures i * size <= |payload|
    ensures Parts(payload, size, count)[i] == payload[i * size..Min(i * size + size, |payload|)]
  {
    ProductStep(count - 1, size);
    if i < count - 1 {
      PartAt(payload, size, count - 1, i);
    }
  }

  /**
   A fragmented send that fits its eight-bit count makes at least two datagrams, each within the limit and
   each with some payload; a receiver parses the i-th into the i-th consecutive slice; and the slices
   together are the payload.
   */
  lemma FragmentedSend(session: u32, id: u16, address: Location, payload: seq<byte>, max: nat, valid: Location -> bool)
    returns (parts: seq<seq<byte>>)
    requires 0 < |address| <= MAX_ADDRESS && valid(address) && max > Overhead(address)
    requires max < Overhead(address) + |payload| && |payload| <= 255 * (max - Overhead(address))
    ensures 2 <= |parts| <= 255 && Flatten(parts) == payload
    ensures var ds := Sent(session, id, address, payload, max);
            && |ds| == |parts|
            && forall i :: 0 <= i < |ds| ==>
                 && parts[i] != [] && |ds[i]| <= max
                 && Parse(ds[i], valid) == Datagram(session, Piece(id, address, parts, i))
  {
    hide Parse, Varint.Encode, Header;
    var size := max - Overhead(address);
    var q := DivCeil(|payload|, size);
    CountRange(|payload|, size, q);
    CountFits(|payload|, size);
    parts := Parts(payload, size, q);
    WholeIff(payload, size);
    forall i | 0 <= i < q
      ensures parts[i] != [] && |Layout(session, Piece(id, address, parts, i))| <= max
      ensures Parse(Layout(session, Piece(id, address, parts, i)), valid) ==
          Datagram(session, Piece(id, address, parts, i))
    {
      PartSizes(payload, size, q, i);
      ParseLayout(session, Piece(id, address, parts, i), valid);
    }
  }

  /**
   A payload that fits one datagram: it is sent as one, within the limit, which the receiver reads back and hands on
   at once, to the same address, whatever its cache holds.
   */
  lemma UnfragmentedSend(session: u32, id: u16, address: Location, payload: seq<byte>, max: nat,
                         valid: Location -> bool, c: Cache)
    requires 0 < |address| <= MAX_ADDRESS && valid(address) && max > Overhead(address)
    requires Overhead(address) + |payload| <= max
    ensures var ds := Sent(session, id, address, payload, max);
            && |ds| == 1 && |ds[0]| == Overhead(address) + |payload|
            && var p := Parse(ds[0], valid);
               && p.Datagram? && p.session == session && p.f.id == id
               && Accept(c, p.f) == Accepted(c, Complete(payload, address))
  {
    hide Parse, Varint.Encode, Header, Accept;
    var f := Fragment(id, 0, 1, payload, address);
    ParseLayout(session, f, valid);
    UnsplitPasses(c, f);
  }

  /** Which datagrams are taken, and which are skipped or too short. */
  lemma TakenIff(data: seq<byte>, valid: Location -> bool)
    ensures Parse(data, valid).Short? <==> |data| < 9
    ensures Parse(data, valid).Datagram? <==>
            && |data| >= 9 && Varint.Decode(data[8..]).Value?
            && var Value(n, used) := Varint.Decode(data[8..]);
               0 < n <= 2048 && |data| >= 8 + used + n && valid(data[8 + used..8 + used + n])
  {
    hide Varint.Decode;
  }

  lemma CountRange(n: nat, size: nat, q: nat)
    requires size > 0 && size < n <= 255 * size && q == DivCeil(n, size)
    ensures 2 <= q <= 255 && q == FragmentCount(n, size)
  {
    if q >= 256 {
      Monotone(255, q - 1, size);
    }
    assert 0 * size == 0 && 1 * size == size;
  }

  /**
   From one socket read to the other side's socket write: whatever order the datagrams of a fragmented send
   arrive in, and whatever else arrives between them within the cache's reach, the packet comes out once,
   when its last fragment is in, with exactly the payload that was sent.
   */
  lemma EndToEnd(session: u32, id: u16, address: Location, payload: seq<byte>, max: nat, valid: Location -> bool,
                 c0: Cache, h: seq<Fragment>, k: nat)
    requires 0 < |address| <= MAX_ADDRESS && valid(address) && max > Overhead(address)
    requires max < Overhead(address) + |payload| && |payload| <= 255 * (max - Overhead(address))
    requires CacheOk(c0) && !Contains(c0, id) && Calm(c0, h, id)
    requires forall j :: 0 <= j < |h| && h[j].id == id ==>
               h[j].index < |Sent(session, id, address, payload, max)| &&
               Parse(Sent(session, id, address, payload, max)[h[j].index], valid) == Datagram(session, h[j])
    requires forall i, j :: 0 <= i < j < |h| && h[i].id == id && h[j].id == id ==> h[i].index != h[j].index
    requires k < |h| && h[k].id == id
    requires |Indices(h, id)| == |Sent(session, id, address, payload, max)|
    ensures OutcomeAt(c0, h, k) ==
            if forall j :: k < j < |h| ==> h[j].id != id then Complete(payload, address) else Stored
  {
    hide Parse, Sent, Flatten, OutcomeAt, CacheOk, Calm, Indices;
    var parts := FragmentedSend(session, id, address, payload, max, valid);
    assert Carries(h, id, parts, address);
    DeliveredOnce(c0, h, id, parts, address, k);
    WholeAtLast(h, id, parts, address, k);
  }
}
