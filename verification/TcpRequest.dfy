/** The header of a Hysteria2 TCP request, read through the buffered reader, and the relay that follows it. */
module TcpRequest {
  import opened Bytes
  import opened Transport
  import opened StreamReader
  import CopyBidirectional
  import Varint

  const FRAME_TYPE_TCP_REQUEST: nat := 0x401
  const MAX_ADDRESS: nat := 2048
  const MAX_PADDING: nat := 4096
  const READER_SIZE: nat := 8192
  const RELAY_SIZE: nat := 32768

  /** `Done(v, used)`: the value, and how many bytes it took. */
  datatype Parsed<+T> = Short | Bad | Done(value: T, used: nat)

  // ----- the format, on bytes -----

  function ParseVarint(s: seq<byte>): (r: Parsed<nat>)
    ensures r.Done? ==> r.used <= |s|
  {
    match Varint.Decode(s)
    case Truncated => Short
    case Value(v, used) => Done(v, used)
  }

  /** A length of at most `limit`, and that many bytes. */
  function ParseCounted(s: seq<byte>, limit: nat): (r: Parsed<seq<byte>>)
    ensures r.Done? ==> r.used <= |s|
  {
    match ParseVarint(s)
    case Short => Short
    case Bad => Bad
    case Done(length, used) =>
      if length > limit then Bad
      else if |s| < used + length then Short
      else Done(s[used..used + length], used + length)
  }

  /** The address, which must name a location, and the padding. */
  function ParseTarget(s: seq<byte>, valid: seq<byte> -> bool): (r: Parsed<seq<byte>>)
    ensures r.Done? ==> r.used <= |s|
  {
    match ParseCounted(s, MAX_ADDRESS)
    case Short => Short
    case Bad => Bad
    case Done(address, used) =>
      if !valid(address) then Bad else
      match ParseCounted(s[used..], MAX_PADDING)
      case Short => Short
      case Bad => Bad
      case Done(_, more) => Done(address, used + more)
  }

  /** A whole request header. */
  function ParseRequest(s: seq<byte>, valid: seq<byte> -> bool): (r: Parsed<seq<byte>>)
    ensures r.Done? ==> r.used <= |s|
  {
    match ParseVarint(s)
    case Short => Short
    case Bad => Bad
    case Done(id, used) =>
      if id != FRAME_TYPE_TCP_REQUEST then Bad else
      match ParseTarget(s[used..], valid)
      case Short => Short
      case Bad => Bad
      case Done(address, more) => Done(address, used + more)
  }

  // ----- a verdict on a prefix is final -----

  lemma ParseVarintStable(s: seq<byte>, more: seq<byte>)
    requires ParseVarint(s).Done?
    ensures ParseVarint(s + more) == ParseVarint(s)
  {
    Varint.Stable(s, more);
  }

  lemma ParseCountedStable(s: seq<byte>, more: seq<byte>, limit: nat)
    requires !ParseCounted(s, limit).Short?
    ensures ParseCounted(s + more, limit) == ParseCounted(s, limit)
  {
    hide ParseVarint;
    NeverBad(s);
    ParseVarintStable(s, more);
    var Done(length, used) := ParseVarint(s);
    if length <= limit {
      assert used + length <= |s|;
      assert (s + more)[used..used + length] == s[used..used + length];
    }
  }

  lemma NeverBad(s: seq<byte>)
    ensures !ParseVarint(s).Bad?
  {
  }

  lemma ParseTargetStable(s: seq<byte>, more: seq<byte>, valid: seq<byte> -> bool)
    requires !ParseTarget(s, valid).Short?
    ensures ParseTarget(s + more, valid) == ParseTarget(s, valid)
  {
    hide ParseCounted;
    ParseCountedStable(s, more, MAX_ADDRESS);
    if ParseCounted(s, MAX_ADDRESS).Done? {
      var Done(address, used) := ParseCounted(s, MAX_ADDRESS);
      assert (s + more)[used..] == s[used..] + more;
      if valid(address) {
        ParseCountedStable(s[used..], more, MAX_PADDING);
      }
    }
  }

  /** Once a header is there, or can no longer be, later bytes change nothing: they belong to the destination. */
  lemma ParseRequestStable(s: seq<byte>, more: seq<byte>, valid: seq<byte> -> bool)
    requires !ParseRequest(s, valid).Short?
    ensures ParseRequest(s + more, valid) == ParseRequest(s, valid)
  {
    hide ParseVarint, ParseTarget;
    NeverBad(s);
    ParseVarintStable(s, more);
    var Done(id, used) := ParseVarint(s);
    assert (s + more)[used..] == s[used..] + more;
    if id == FRAME_TYPE_TCP_REQUEST {
      ParseTargetStable(s[used..], more, valid);
    }
  }

  // ----- what it accepts -----

  /** A request header: its id, the address and the padding, each behind its length. */
  ghost function Request(id: nat, address: seq<byte>, padding: seq<byte>): seq<byte>
    requires id < Varint.LIMIT && |address| < Varint.LIMIT && |padding| < Varint.LIMIT
  {
    Varint.Encode(id).value + (Counted(address) + Counted(padding))
  }

  ghost function Counted(bytes: seq<byte>): seq<byte>
    requires |bytes| < Varint.LIMIT
  {
    Varint.Encode(|bytes|).value + bytes
  }

  lemma CountedParsed(bytes: seq<byte>, rest: seq<byte>, limit: nat)
    requires |bytes| < Varint.LIMIT
    ensures ParseCounted(Counted(bytes) + rest, limit) ==
            if |bytes| > limit then Bad else Done(bytes, |Counted(bytes)|)
  {
    hide Varint.Encode, Varint.Decode;
    var enc := Varint.Encode(|bytes|).value;
    var s := Counted(bytes) + rest;
    Varint.RoundTrip(|bytes|, bytes + rest);
    Associate(enc, bytes, rest);
    assert s[|enc|..|enc| + |bytes|] == bytes;
  }

  /**
   What a request with id `id`, address and padding of any length comes to, whatever follows it: exactly id 0x401, an
   address of at most 2048 bytes that names a location and at most 4096 bytes of padding are accepted, with that
   address, and the header ends where the padding does.
   */
  lemma RequestParsed(id: nat, address: seq<byte>, padding: seq<byte>, rest: seq<byte>, valid: seq<byte> -> bool)
    requires id < Varint.LIMIT && |address| < Varint.LIMIT && |padding| < Varint.LIMIT
    ensures ParseRequest(Request(id, address, padding) + rest, valid) ==
            if id == 0x401 && |address| <= 2048 && valid(address) && |padding| <= 4096
            then Done(address, |Request(id, address, padding)|) else Bad
  {
    hide Varint.Encode, Varint.Decode, ParseCounted, Counted;
    var enc, a, p := Varint.Encode(id).value, Counted(address), Counted(padding);
    var s := Request(id, address, padding) + rest;
    Varint.RoundTrip(id, a + (p + rest));
    assert s == enc + (a + (p + rest));
    assert s[|enc|..] == a + (p + rest) && (a + (p + rest))[|a|..] == p + rest;
    CountedParsed(address, p + rest, 2048);
    CountedParsed(padding, rest, 4096);
  }

  /** A request is not told before its last byte is there. */
  lemma RequestUnfinished(address: seq<byte>, padding: seq<byte>, n: nat, valid: seq<byte> -> bool)
    requires |address| <= 2048 && valid(address) && |padding| <= 4096 && n < |Request(0x401, address, padding)|
    ensures ParseRequest(Request(0x401, address, padding)[..n], valid).Short?
  {
    hide Request, ParseRequest;
    var s := Request(0x401, address, padding);
    RequestParsed(0x401, address, padding, [], valid);
    assert s + [] == s == s[..n] + s[n..];
    if !ParseRequest(s[..n], valid).Short? {
      ParseRequestStable(s[..n], s[n..], valid);
    }
  }

  // ----- reading it -----

  /** What a reader had, then what it has pulled since `d0` was delivered. */
  ghost function Available(had: seq<byte>, d0: seq<byte>, d: seq<byte>): seq<byte>
    requires d0 <= d
  {
    had + d[|d0|..]
  }

  /** The reader's result and what it left are what the format says of the bytes it had, however they came. */
  ghost predicate Agrees<T>(r: Parsed<T>, parsed: Parsed<T>, available: seq<byte>, left: seq<byte>) {
    r == parsed && (r.Done? ==> r.used <= |available| && left == available[r.used..])
  }

  /** The stream ended, failed, or does not go on. */
  twostate predicate GaveOut(stream: Source)
    reads stream
  {
    stream.ended || stream.failures > old(stream.failures) || stream.script == []
  }

  /** Bytes taken, then those left, then those pulled later, are all that was available. */
  lemma AvailableGrows(had: seq<byte>, d0: seq<byte>, d1: seq<byte>, d2: seq<byte>, taken: seq<byte>, left: seq<byte>)
    requires d0 <= d1 <= d2 && taken + left == had + d1[|d0|..]
    ensures taken + (left + d2[|d1|..]) == had + d2[|d0|..]
  {
    var more := d2[|d1|..];
    assert d2[|d0|..] == d1[|d0|..] + more;
    Associate(taken, left, more);
    Associate(had, d1[|d0|..], more);
  }

  lemma VarintFrom(first: byte, rest: seq<byte>)
    ensures var n := Varint.WidthOf(first);
            ParseVarint([first] + rest) ==
            if |rest| < n - 1 then Short else Done(Varint.Shift(first % 64, rest[..n - 1]), n)
  {
    hide Varint.Shift;
    var s, n := [first] + rest, Varint.WidthOf(first);
    if n - 1 <= |rest| {
      assert s[1..n] == rest[..n - 1];
    }
  }

  /** The first byte, the bytes it announced if they came, and what is left. */
  lemma VarintRead(first: byte, taken: Option<seq<byte>>, left: seq<byte>, all: seq<byte>)
    requires var n := Varint.WidthOf(first);
             match taken
             case Some(bytes) => |bytes| == n - 1 && all == [first] + (bytes + left)
             case None => |left| < n - 1 && all == [first] + left
    ensures taken.None? ==> ParseVarint(all) == Short
    ensures taken.Some? ==>
              Agrees(Done(Varint.Shift(first % 64, taken.value), Varint.WidthOf(first)), ParseVarint(all), all, left)
  {
    hide Varint.Shift, ParseVarint;
    VarintFrom(first, all[1..]);
    assert all == [first] + all[1..];
    if taken.Some? {
      assert (taken.value + left)[..|taken.value|] == taken.value;
      assert all[1..][|taken.value|..] == left;
    }
  }

  /** `read_varint` */
  method ReadVarint(reader: StreamReader, stream: Source) returns (r: Parsed<nat>)
    requires reader.Valid() && reader.buf.Length >= 8
    modifies reader, reader.buf, stream
    ensures reader.Valid() && old(stream.delivered) <= stream.delivered
    ensures var all := Available(old(reader.Unparsed()), old(stream.delivered), stream.delivered);
            Agrees(r, ParseVarint(all), all, reader.Unparsed())
    ensures stream.failures >= old(stream.failures) && stream.pendings >= old(stream.pendings)
    ensures r.Short? ==> GaveOut(stream)
  {
    hide Varint.Shift, Varint.WidthOf, ParseVarint;
    var first := reader.ReadU8(stream);
    if !first.Got? {
      NoVarint();
      return Short;
    }
    ghost var had, pulled := reader.Unparsed(), stream.delivered;
    var width := Varint.WidthOf(first.value);
    var rest: Outcome<seq<byte>> := Got([]);
    if width > 1 {
      rest := reader.ReadSlice(stream, width - 1);
    } else {
      assert stream.delivered[|pulled|..] == [];
    }
    AvailableGrows(old(reader.Unparsed()), old(stream.delivered), pulled, stream.delivered, [first.value], had);
    ghost var all := Available(old(reader.Unparsed()), old(stream.delivered), stream.delivered);
    if !rest.Got? {
      VarintRead(first.value, None, reader.Unparsed(), all);
      return Short;
    }
    VarintRead(first.value, Some(rest.value), reader.Unparsed(), all);
    var v := Varint.ShiftLoop(first.value, rest.value);
    return Done(v, width);
  }

  lemma NoVarint()
    ensures ParseVarint([]) == Short
  {
  }

  /** Splitting what is available after `used` bytes, before and after more arrived. */
  lemma SplitLater(early: seq<byte>, used: nat, more: seq<byte>)
    requires used <= |early|
    ensures early == early[..used] + early[used..]
    ensures early + more == early[..used] + (early[used..] + more)
    ensures (early + more)[used..] == early[used..] + more
  {
  }

  method ReadCounted(reader: StreamReader, stream: Source, limit: nat) returns (r: Parsed<seq<byte>>)
    requires reader.Valid() && limit <= reader.buf.Length && reader.buf.Length >= 8
    modifies reader, reader.buf, stream
    ensures reader.Valid() && old(stream.delivered) <= stream.delivered
    ensures var all := Available(old(reader.Unparsed()), old(stream.delivered), stream.delivered);
            Agrees(r, ParseCounted(all, limit), all, reader.Unparsed())
    ensures stream.failures >= old(stream.failures) && stream.pendings >= old(stream.pendings)
    ensures r.Short? ==> GaveOut(stream)
  {
    hide ParseVarint, ParseCounted;
    var length := ReadVarint(reader, stream);
    CountedRefused(Available(old(reader.Unparsed()), old(stream.delivered), stream.delivered), limit);
    if !length.Done? {
      return if length.Bad? then Bad else Short;
    }
    if length.value > limit {
      return Bad;
    }
    ghost var early, pulled, had := Available(old(reader.Unparsed()), old(stream.delivered), stream.delivered),
        stream.delivered, reader.Unparsed();
    var bytes := reader.ReadSlice(stream, length.value);
    ghost var more := stream.delivered[|pulled|..];
    ParseVarintStable(early, more);
    SplitLater(early, length.used, more);
    AvailableGrows(old(reader.Unparsed()), old(stream.delivered), pulled, stream.delivered, early[..length.used], had);
    ghost var all := Available(old(reader.Unparsed()), old(stream.delivered), stream.delivered);
    if bytes.Got? {
      r := Done(bytes.value, length.used + length.value);
      CountedRead(all, limit, Some(bytes.value), reader.Unparsed());
    } else {
      r := Short;
      CountedRead(all, limit, None, reader.Unparsed());
    }
  }

  lemma CountedRefused(all: seq<byte>, limit: nat)
    ensures ParseVarint(all).Short? ==> ParseCounted(all, limit).Short?
    ensures ParseVarint(all).Bad? ==> ParseCounted(all, limit).Bad?
    ensures ParseVarint(all).Done? && ParseVarint(all).value > limit ==> ParseCounted(all, limit).Bad?
  {
    hide ParseVarint;
  }

  /** The length, then the bytes it announced if they came, and what is left. */
  lemma CountedRead(all: seq<byte>, limit: nat, taken: Option<seq<byte>>, left: seq<byte>)
    requires ParseVarint(all).Done? && ParseVarint(all).value <= limit
    requires var Done(length, used) := ParseVarint(all);
             match taken
             case Some(bytes) => |bytes| == length && all[used..] == bytes + left
             case None => |left| < length && all[used..] == left
    ensures taken.None? ==> ParseCounted(all, limit) == Short
    ensures taken.Some? ==>
              Agrees(Done(taken.value, ParseVarint(all).used + ParseVarint(all).value),
                     ParseCounted(all, limit), all, left)
  {
    hide ParseVarint;
    var Done(length, used) := ParseVarint(all);
    if taken.Some? {
      assert |all| == used + length + |left|;
      assert all[used..used + length] == all[used..][..length] == taken.value;
      assert all[used + length..] == all[used..][length..] == left;
    }
  }

  method ReadTarget(reader: StreamReader, stream: Source, valid: seq<byte> -> bool) returns (r: Parsed<seq<byte>>)
    requires reader.Valid() && reader.buf.Length == READER_SIZE
    modifies reader, reader.buf, stream
    ensures reader.Valid() && old(stream.delivered) <= stream.delivered
    ensures var all := Available(old(reader.Unparsed()), old(stream.delivered), stream.delivered);
            Agrees(r, ParseTarget(all, valid), all, reader.Unparsed())
    ensures stream.failures >= old(stream.failures) && stream.pendings >= old(stream.pendings)
    ensures r.Short? ==> GaveOut(stream)
  {
    hide ParseCounted;
    var address := ReadCounted(reader, stream, MAX_ADDRESS);
    if !address.Done? {
      return address;
    }
    if !valid(address.value) {
      return Bad;
    }
    ghost var early, pulled, had := Available(old(reader.Unparsed()), old(stream.delivered), stream.delivered),
        stream.delivered, reader.Unparsed();
    var padding := ReadCounted(reader, stream, MAX_PADDING);
    ghost var more := stream.delivered[|pulled|..];
    ParseCountedStable(early, more, MAX_ADDRESS);
    SplitLater(early, address.used, more);
    AvailableGrows(old(reader.Unparsed()), old(stream.delivered), pulled, stream.delivered, early[..address.used], had);
    r := if padding.Done? then Done(address.value, address.used + padding.used) else padding;
  }

  /** The reading half of `handle_tcp_header`. */
  method ReadRequest(reader: StreamReader, stream: Source, valid: seq<byte> -> bool) returns (r: Parsed<seq<byte>>)
    requires reader.Valid() && reader.buf.Length == READER_SIZE
    modifies reader, reader.buf, stream
    ensures reader.Valid() && old(stream.delivered) <= stream.delivered
    ensures var all := Available(old(reader.Unparsed()), old(stream.delivered), stream.delivered);
            Agrees(r, ParseRequest(all, valid), all, reader.Unparsed())
    ensures stream.failures >= old(stream.failures) && stream.pendings >= old(stream.pendings)
    ensures r.Short? ==> GaveOut(stream)
  {
    hide ParseVarint, ParseTarget;
    var id := ReadVarint(reader, stream);
    if !id.Done? {
      return if id.Bad? then Bad else Short;
    }
    if id.value != FRAME_TYPE_TCP_REQUEST {
      return Bad;
    }
    ghost var early, pulled, had := Available(old(reader.Unparsed()), old(stream.delivered), stream.delivered),
        stream.delivered, reader.Unparsed();
    var target := ReadTarget(reader, stream, valid);
    ghost var more := stream.delivered[|pulled|..];
    ParseVarintStable(early, more);
    SplitLater(early, id.used, more);
    AvailableGrows(old(reader.Unparsed()), old(stream.delivered), pulled, stream.delivered, early[..id.used], had);
    r := if target.Done? then Done(target.value, id.used + target.used) else target;
  }

  // ----- and relaying the rest -----

  datatype Served = Rejected | Unanswered | Unreachable | Interrupted | Relayed(finished: bool)

  /** The answer to a good request: status, an empty message, and random padding. */
  function Response(padding: seq<byte>): seq<byte>
    requires |padding| <= 63
  {
    [0, 0, |padding|] + padding
  }

  /**
   `process_tcp_stream` on a fresh stream, with `padding` as the random bytes of the answer and `dialed` as the
   outcome of the connect. Under every chunking and every partial write the destination gets exactly the bytes
   after the request header, from the first on; all of them, if the relay runs to its end. Without a good header
   it gets nothing, and neither does the client. `target` is the address to connect to. It stops short only for a bad
   header, a failed connect, an operation that failed, or because something does not go on.
   */
  method ProcessTcpStream(client: Source, answers: Sink, dest: Source, destSink: Sink, valid: seq<byte> -> bool,
                          padding: seq<byte>, dialed: bool, polls: seq<CopyBidirectional.Turn>)
    returns (r: Served, target: Option<seq<byte>>)
    requires client != dest && answers != destSink && |padding| <= 63
    requires client.delivered == [] && dest.delivered == []
    requires answers.Valid() && !answers.closed && answers.accepted == []
    requires destSink.Valid() && !destSink.closed && destSink.accepted == []
    modifies client, answers, dest, destSink
    ensures r.Rejected? <==> !ParseRequest(client.delivered, valid).Done?
    ensures r.Rejected? ==> destSink.accepted == [] && answers.accepted == []
    ensures r.Rejected? ==> ParseRequest(client.delivered, valid).Bad? || GaveOut(client)
    ensures r.Unanswered? || r.Unreachable? ==> destSink.accepted == []
    ensures r.Unanswered? ==> answers.failures > old(answers.failures) || answers.script == []
    ensures r.Unreachable? ==> !dialed && answers.accepted == [0, 0, |padding|] + padding
    ensures r.Interrupted? ==> destSink.failures > old(destSink.failures) || destSink.script == []
    ensures r.Relayed? ==> dialed
    ensures r == Relayed(false) ==>
              CopyBidirectional.HeldUp(client, answers, dest, destSink, CopyBidirectional.Allowed(polls))
    ensures target.None? <==> r.Rejected?
    ensures var header := ParseRequest(client.delivered, valid);
            header.Done? ==>
              && target == Some(header.value)
              && destSink.accepted <= client.delivered[header.used..]
              && answers.accepted <= [0, 0, |padding|] + padding + dest.delivered
              && (r == Relayed(true) ==>
                    && client.ended && destSink.accepted == client.delivered[header.used..]
                    && dest.ended && answers.accepted == [0, 0, |padding|] + padding + dest.delivered
                    && destSink.flushed == |destSink.accepted|
                    && (answers.flushed == |answers.accepted| || dest.delivered == []))
  {
    hide ParseRequest;
    var reader := new StreamReader(READER_SIZE);
    var header := ReadRequest(reader, client, valid);
    assert Available([], [], client.delivered) == client.delivered;
    if !header.Done? {
      return Rejected, None;
    }
    target := Some(header.value);
    var response := Response(padding);
    assert response + dest.delivered == response;
    var answered := answers.WriteLoop(response);
    if !answered.Ready? {
      return Unanswered, target;
    }
    if !dialed {
      return Unreachable, target;
    }
    var unparsed := reader.Unparsed();
    if unparsed != [] {
      var forwarded := destSink.WriteLoop(unparsed);
      if !forwarded.Ready? {
        return Interrupted, target;
      }
    }
    ghost var early := client.delivered;
    assert destSink.accepted == unparsed == early[header.used..];
    var finished := CopyBidirectional.Relay(client, answers, dest, destSink, false, unparsed != [], RELAY_SIZE, polls);
    assert dest.delivered[0..] == dest.delivered;
    HeaderThenRest(early, client.delivered, valid);
    r := Relayed(finished);
  }

  lemma HeaderThenRest(early: seq<byte>, later: seq<byte>, valid: seq<byte> -> bool)
    requires early <= later && ParseRequest(early, valid).Done?
    ensures ParseRequest(later, valid) == ParseRequest(early, valid)
    ensures var used := ParseRequest(early, valid).used; early[used..] + later[|early|..] == later[used..]
  {
    assert later == early + later[|early|..];
    ParseRequestStable(early, later[|early|..], valid);
  }
}
