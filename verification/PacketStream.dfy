/** Packet-address frames over a byte stream: a sliding read buffer of fixed size, and a pending write. */
module PacketStream {
  import opened Bytes
  import opened Transport
  import opened Framing
  import opened PacketAddress

  const BUFFER_SIZE: nat := 65535
  const COMPACT_THRESHOLD: nat := 4096

  /** The longest frame the reader takes in every state it can be in. */
  const SAFE_FRAME: nat := BUFFER_SIZE - COMPACT_THRESHOLD

  // ----- the sliding buffer, as a value -----

  /** The unread bytes and where they start. */
  datatype Slide = Slide(start: nat, bytes: seq<byte>)

  const EMPTY := Slide(0, [])

  ghost predicate SlideOk(s: Slide) {
    s.start + |s.bytes| <= BUFFER_SIZE && (s.bytes == [] ==> s.start == 0)
  }

  function Room(s: Slide): int {
    BUFFER_SIZE - (s.start + |s.bytes|)
  }

  function Consume(s: Slide, n: nat): Slide
    requires n <= |s.bytes|
  {
    if n == |s.bytes| then EMPTY else Slide(s.start + n, s.bytes[n..])
  }

  function Compact(s: Slide): Slide {
    if s.start > COMPACT_THRESHOLD then Slide(0, s.bytes) else s
  }

  /** How one poll of the reader ends. */
  datatype ReadEnd = Delivered(m: Message) | Malformed | BufferFull | Ended | Waiting | Broken

  datatype Polled = Polled(slide: Slide, end: ReadEnd)

  /**
   One poll of the reader, given the chunks the stream yields during it and what it answers after them. It
   parses, makes room, and reads, until a packet is there or it cannot go on.
   */
  ghost function PollReader(s: Slide, chunks: seq<seq<byte>>, last: ReadEnd, utf8: seq<byte> -> bool): Polled
    decreases |chunks|
  {
    match ParsePacket(s.bytes, utf8)
    case Item(m, used) => Polled(Consume(s, used), Delivered(m))
    case Bad => Polled(s, Malformed)
    case More =>
      var c := Compact(s);
      if Room(c) <= 0 then Polled(c, BufferFull)
      else if chunks == [] then Polled(c, last)
      else PollReader(Slide(c.start, c.bytes + chunks[0]), chunks[1..], last, utf8)
  }

  /** Every chunk fits the room there is when it is read. */
  ghost predicate ChunksFit(s: Slide, chunks: seq<seq<byte>>, utf8: seq<byte> -> bool)
    decreases |chunks|
  {
    chunks != [] ==>
      && ParsePacket(s.bytes, utf8).More?
      && 0 < |chunks[0]| <= Room(Compact(s))
      && ChunksFit(Slide(Compact(s).start, Compact(s).bytes + chunks[0]), chunks[1..], utf8)
  }

  lemma {:induction false} PollKeeps(s: Slide, chunks: seq<seq<byte>>, last: ReadEnd, utf8: seq<byte> -> bool)
    requires SlideOk(s) && ChunksFit(s, chunks, utf8)
    ensures SlideOk(PollReader(s, chunks, last, utf8).slide)
    decreases |chunks|
  {
    hide ParsePacket;
    if chunks != [] {
      PollKeeps(Slide(Compact(s).start, Compact(s).bytes + chunks[0]), chunks[1..], last, utf8);
    }
  }

  /** The bytes of a poll are accounted for: a delivered packet is the first one of them, the rest stays. */
  lemma {:induction false} PollConserves(s: Slide, chunks: seq<seq<byte>>, last: ReadEnd, utf8: seq<byte> -> bool)
    requires ChunksFit(s, chunks, utf8) && !last.Delivered? && !last.Malformed?
    ensures var r := PollReader(s, chunks, last, utf8);
            var all := s.bytes + Flatten(chunks);
            match r.end
            case Delivered(m) =>
              ParsePacket(all, utf8).Item? && ParsePacket(all, utf8).value == m &&
              r.slide.bytes == all[ParsePacket(all, utf8).used..]
            case Malformed => ParsePacket(all, utf8) == Bad && r.slide.bytes == all
            case _ => ParsePacket(all, utf8) == More && r.slide.bytes == all
    decreases |chunks|
  {
    hide ParsePacket;
    if chunks == [] {
      assert s.bytes + Flatten(chunks) == s.bytes;
    } else {
      var next := Slide(Compact(s).start, Compact(s).bytes + chunks[0]);
      PollConserves(next, chunks[1..], last, utf8);
      Associate(s.bytes, chunks[0], Flatten(chunks[1..]));
    }
  }

  // ----- the buffer never rejects what is short enough -----

  /** The reader gives up only when over 61439 bytes of an unfinished frame are waiting. */
  lemma {:induction false} FullMeansLong(s: Slide, chunks: seq<seq<byte>>, last: ReadEnd, utf8: seq<byte> -> bool)
    requires SlideOk(s) && ChunksFit(s, chunks, utf8) && !last.BufferFull?
    requires PollReader(s, chunks, last, utf8).end.BufferFull?
    ensures var r := PollReader(s, chunks, last, utf8);
            ParsePacket(r.slide.bytes, utf8).More? && |r.slide.bytes| >= SAFE_FRAME
    decreases |chunks|
  {
    hide ParsePacket;
    if chunks != [] {
      FullMeansLong(Slide(Compact(s).start, Compact(s).bytes + chunks[0]), chunks[1..], last, utf8);
    }
  }

  /** A frame is what the parser takes, whole, from its bytes. */
  ghost predicate IsFrame(f: seq<byte>, utf8: seq<byte> -> bool) {
    ParsePacket(f, utf8).Item? && ParsePacket(f, utf8).used == |f|
  }

  /** A frame cannot be told from its proper prefixes until it is complete. */
  lemma ProperPrefixIsMore(f: seq<byte>, n: nat, utf8: seq<byte> -> bool)
    requires IsFrame(f, utf8) && n < |f|
    ensures ParsePacket(f[..n], utf8).More?
  {
    hide ParsePacket;
    assert f[..n] + f[n..] == f;
    if !ParsePacket(f[..n], utf8).More? {
      ParsePacketStable(f[..n], f[n..], utf8);
    }
  }

  /**
   A frame of at most 61439 bytes passes in every state and under every chunking: it is delivered, and what follows it
   kept, exactly if all of it is there by the end of the poll; otherwise the poll ends as the stream answered.
   */
  lemma ShortFramesPass(s: Slide, chunks: seq<seq<byte>>, last: ReadEnd, utf8: seq<byte> -> bool, f: seq<byte>)
    requires SlideOk(s) && ChunksFit(s, chunks, utf8) && !last.BufferFull? && !last.Delivered? && !last.Malformed?
    requires IsFrame(f, utf8) && |f| <= 61439
    requires f <= s.bytes + Flatten(chunks) || s.bytes + Flatten(chunks) <= f
    ensures var r, all := PollReader(s, chunks, last, utf8), s.bytes + Flatten(chunks);
            if f <= all then r.end == Delivered(ParsePacket(f, utf8).value) && r.slide.bytes == all[|f|..]
            else r.end == last && r.slide.bytes == all
  {
    hide ParsePacket, PollReader, ChunksFit;
    var r, all := PollReader(s, chunks, last, utf8), s.bytes + Flatten(chunks);
    PollConserves(s, chunks, last, utf8);
    OtherEnds(s, chunks, last, utf8);
    if f <= all {
      ParsePacketStable(f, all[|f|..], utf8);
      assert f + all[|f|..] == all;
    } else {
      ProperPrefixIsMore(f, |all|, utf8);
      assert f[..|all|] == all;
      if r.end.BufferFull? {
        FullMeansLong(s, chunks, last, utf8);
        assert false;
      }
    }
  }

  /**
   The bound is exact: after a frame of 4096 bytes, any longer frame is rejected, the two having arrived in
   one piece as far as the buffer takes them.
   */
  lemma LongFramesCanFail(first: seq<byte>, f: seq<byte>, last: ReadEnd, utf8: seq<byte> -> bool)
    requires IsFrame(first, utf8) && |first| == 4096
    requires IsFrame(f, utf8) && |f| > 61439
    ensures var chunk := first + f[..61439];
            && ChunksFit(EMPTY, [chunk], utf8)
            && var one := PollReader(EMPTY, [chunk], last, utf8);
               && one.end == Delivered(ParsePacket(first, utf8).value)
               && one.slide.bytes == f[..61439] && one.slide.start == 4096
               && PollReader(one.slide, [], last, utf8).end == BufferFull
  {
    hide ParsePacket;
    var chunk := first + f[..SAFE_FRAME];
    NothingIsMore(utf8);
    ParsePacketStable(first, f[..SAFE_FRAME], utf8);
    ProperPrefixIsMore(f, SAFE_FRAME, utf8);
    assert Compact(EMPTY) == EMPTY && EMPTY.bytes + chunk == chunk;
    var filled := Slide(0, chunk);
    assert ChunksFit(filled, [chunk][1..], utf8);
    assert PollReader(EMPTY, [chunk], last, utf8) == PollReader(filled, [chunk][1..], last, utf8);
    assert chunk[COMPACT_THRESHOLD..] == f[..SAFE_FRAME];
  }

  lemma NothingIsMore(utf8: seq<byte> -> bool)
    ensures ParsePacket([], utf8) == More
  {
  }

  /** There is a frame of every length from nine bytes to the whole buffer, so both cases above occur. */
  lemma FrameOfLength(n: nat, utf8: seq<byte> -> bool) returns (f: seq<byte>)
    requires 9 <= n <= BUFFER_SIZE
    ensures IsFrame(f, utf8) && |f| == n
  {
    hide ParsePacket, Zeros, U16ToBe;
    var m := Message(Location(Ipv4(Zeros(4)), 0), Zeros(n - 9));
    f := EncodePacket(m);
    PacketRoundTrip(m, [], utf8);
    assert f + [] == f;
  }

  // ----- whole runs -----

  /** What the stream does during one poll. */
  datatype Input = Input(chunks: seq<seq<byte>>, last: ReadEnd)

  /** What a run of polls comes to: the buffer, the packets delivered, the bytes read, how it ended if it did. */
  datatype Ran = Ran(slide: Slide, delivered: seq<Message>, read: seq<byte>, end: Option<ReadEnd>)

  ghost predicate Answers(last: ReadEnd) {
    last.Waiting? || last.Ended? || last.Broken?
  }

  ghost function RunReader(s: Slide, polls: seq<Input>, utf8: seq<byte> -> bool): Ran
    decreases |polls|
  {
    if polls == [] then Ran(s, [], [], None) else
    var r := PollReader(s, polls[0].chunks, polls[0].last, utf8);
    var bytes := Flatten(polls[0].chunks);
    if r.end.Delivered? || r.end.Waiting? then
      var next := RunReader(r.slide, polls[1..], utf8);
      next.(delivered := (if r.end.Delivered? then [r.end.m] else []) + next.delivered, read := bytes + next.read)
    else Ran(r.slide, [], bytes, Some(r.end))
  }

  ghost predicate RunFits(s: Slide, polls: seq<Input>, utf8: seq<byte> -> bool)
    decreases |polls|
  {
    polls != [] ==>
      && Answers(polls[0].last) && ChunksFit(s, polls[0].chunks, utf8)
      && RunFits(PollReader(s, polls[0].chunks, polls[0].last, utf8).slide, polls[1..], utf8)
  }

  /**
   For any bytes at all, well formed or not: the packets a run delivers are the first items of the bytes it
   read, and what is left in the buffer is what is left of them. How the bytes were cut up does not matter.
   */
  lemma {:induction false} ChunkingIndependence(s: Slide, polls: seq<Input>, utf8: seq<byte> -> bool)
    requires RunFits(s, polls, utf8)
    ensures Incremental(Packets(utf8))
    ensures var r := RunReader(s, polls, utf8);
            Items(Packets(utf8), s.bytes + r.read) == Prepend(r.delivered, Items(Packets(utf8), r.slide.bytes))
    decreases |polls|
  {
    hide ParsePacket, PollReader, ChunksFit, Flatten, Items, Incremental;
    PacketsIncremental(utf8);
    if polls == [] {
      assert s.bytes + [] == s.bytes;
    } else {
      var Input(chunks, last) := polls[0];
      var r, all := PollReader(s, chunks, last, utf8), s.bytes + Flatten(chunks);
      PollConserves(s, chunks, last, utf8);
      if r.end.Delivered? || r.end.Waiting? {
        var next := RunReader(r.slide, polls[1..], utf8);
        Associate(s.bytes, Flatten(chunks), next.read);
        ChunkingIndependence(r.slide, polls[1..], utf8);
        if r.end.Delivered? {
          ItemsFirst(Packets(utf8), all, next.read);
          PrependOne(r.end.m, next.delivered, Items(Packets(utf8), next.slide.bytes));
        }
      }
    }
  }

  ghost predicate AllShort(ms: seq<Message>) {
    forall i :: 0 <= i < |ms| ==> Writable(ms[i]) && |EncodePacket(ms[i])| <= 61439
  }

  /** Of the frames `ms` on a stream, the next one is all at hand. */
  ghost predicate NextIsThere(bytes: seq<byte>, ms: seq<Message>) {
    ms != [] && |EncodePacket(ms[0])| <= |bytes|
  }

  /** How the last poll that a run makes ends. */
  ghost function LastEnd(s: Slide, polls: seq<Input>, utf8: seq<byte> -> bool): ReadEnd
    requires polls != []
    decreases |polls|
  {
    var r := PollReader(s, polls[0].chunks, polls[0].last, utf8);
    if (r.end.Delivered? || r.end.Waiting?) && |polls| > 1 then LastEnd(r.slide, polls[1..], utf8) else r.end
  }

  /** The next poll on a stream of written frames, of which `all` is at hand and `rest` still to come. */
  lemma OnePoll(s: Slide, chunks: seq<seq<byte>>, last: ReadEnd, utf8: seq<byte> -> bool, ms: seq<Message>,
                rest: seq<byte>)
    requires SlideOk(s) && ChunksFit(s, chunks, utf8) && Answers(last) && AllShort(ms)
    requires s.bytes + Flatten(chunks) + rest == Encoded(EncodePacket, ms)
    ensures var r := PollReader(s, chunks, last, utf8);
            && (r.end.Delivered? <==> NextIsThere(s.bytes + Flatten(chunks), ms))
            && (r.end.Delivered? ==> r.end.m == ms[0] && r.slide.bytes + rest == Encoded(EncodePacket, ms[1..]))
            && (!r.end.Delivered? ==> r.end == last && r.slide.bytes == s.bytes + Flatten(chunks))
  {
    hide ParsePacket, EncodePacket, PollReader, ChunksFit, Flatten;
    var r, all := PollReader(s, chunks, last, utf8), s.bytes + Flatten(chunks);
    PollConserves(s, chunks, last, utf8);
    if ms == [] {
      NothingIsMore(utf8);
      assert all == [];
      NotFullWhenEmpty(s, chunks, last, utf8);
    } else {
      var f, later := EncodePacket(ms[0]), Encoded(EncodePacket, ms[1..]);
      PacketRoundTrip(ms[0], [], utf8);
      PacketRoundTrip(ms[0], later, utf8);
      assert f + [] == f && all + rest == f + later;
      Comparable(all, rest, f, later);
      ShortFramesPass(s, chunks, last, utf8, f);
      Suffixes(all, rest, f, later);
    }
  }

  lemma Comparable(all: seq<byte>, rest: seq<byte>, f: seq<byte>, later: seq<byte>)
    requires all + rest == f + later
    ensures f <= all || all <= f
  {
    if |f| <= |all| {
      assert (all + rest)[..|f|] == all[..|f|] && (f + later)[..|f|] == f;
    } else {
      assert (all + rest)[..|all|] == all && (f + later)[..|all|] == f[..|all|];
    }
  }

  /** A poll ends as the stream answered, unless the parser or the buffer ended it. */
  lemma {:induction false} OtherEnds(s: Slide, chunks: seq<seq<byte>>, last: ReadEnd, utf8: seq<byte> -> bool)
    ensures var e := PollReader(s, chunks, last, utf8).end;
            e.Delivered? || e.Malformed? || e.BufferFull? || e == last
    decreases |chunks|
  {
    hide ParsePacket;
    if chunks != [] {
      OtherEnds(Slide(Compact(s).start, Compact(s).bytes + chunks[0]), chunks[1..], last, utf8);
    }
  }

  lemma NotFullWhenEmpty(s: Slide, chunks: seq<seq<byte>>, last: ReadEnd, utf8: seq<byte> -> bool)
    requires SlideOk(s) && ChunksFit(s, chunks, utf8) && Answers(last) && s.bytes + Flatten(chunks) == []
    ensures PollReader(s, chunks, last, utf8).end == last
  {
    NothingIsMore(utf8);
  }

  /**
   Whatever frames of at most 61439 bytes were written, and however their bytes arrive, a run of polls delivers
   them in order, none lost, none repeated, none invented: the frames delivered are the first of those written,
   the buffer and the bytes still to come hold the others, and neither the buffer nor the parser ever gives up. Once a
   poll does not deliver, no frame is left that is all there; if all bytes have arrived, every frame was delivered.
   */
  lemma {:induction false} FramesArrive(s: Slide, polls: seq<Input>, utf8: seq<byte> -> bool, ms: seq<Message>,
                                        rest: seq<byte>)
    requires SlideOk(s) && RunFits(s, polls, utf8) && AllShort(ms)
    requires s.bytes + RunReader(s, polls, utf8).read + rest == Encoded(EncodePacket, ms)
    ensures var r := RunReader(s, polls, utf8);
            && r.delivered <= ms
            && r.slide.bytes + rest == Encoded(EncodePacket, ms[|r.delivered|..])
            && r.end != Some(BufferFull) && r.end != Some(Malformed)
            && (polls != [] && !LastEnd(s, polls, utf8).Delivered? ==>
                  !NextIsThere(r.slide.bytes, ms[|r.delivered|..]) && (rest == [] ==> r.delivered == ms))
    decreases |polls|
  {
    hide ParsePacket, EncodePacket, PollReader, ChunksFit, Flatten, Encoded, NextIsThere, LastEnd;
    if polls == [] {
      assert s.bytes + [] + rest == s.bytes + rest;
      assert ms[0..] == ms;
    } else {
      LastEndStep(s, polls, utf8);
      var Input(chunks, last) := polls[0];
      var r := PollReader(s, chunks, last, utf8);
      var bytes := Flatten(chunks);
      PollKeeps(s, chunks, last, utf8);
      if r.end.Delivered? || r.end.Waiting? {
        var next := RunReader(r.slide, polls[1..], utf8);
        Regroup(s.bytes, bytes, next.read, rest);
        OnePoll(s, chunks, last, utf8, ms, next.read + rest);
        Associate(r.slide.bytes, next.read, rest);
        if r.end.Delivered? {
          HasNext(s.bytes + bytes, ms);
        }
        var left := if r.end.Delivered? then ms[1..] else ms;
        FramesArrive(r.slide, polls[1..], utf8, left, rest);
        if r.end.Delivered? {
          DeliveredMore(ms, next.delivered);
        } else if |polls| == 1 {
          assert next.read + rest == rest && ms[0..] == ms;
          AllThere(r.slide.bytes, rest, ms);
        }
      } else {
        OnePoll(s, chunks, last, utf8, ms, rest);
        assert ms[0..] == ms;
        AllThere(r.slide.bytes, rest, ms);
      }
    }
  }

  lemma LastEndStep(s: Slide, polls: seq<Input>, utf8: seq<byte> -> bool)
    requires polls != []
    ensures var r := PollReader(s, polls[0].chunks, polls[0].last, utf8);
            LastEnd(s, polls, utf8) ==
            if (r.end.Delivered? || r.end.Waiting?) && polls[1..] != [] then LastEnd(r.slide, polls[1..], utf8)
                else r.end
  {
    hide PollReader;
  }

  lemma HasNext(bytes: seq<byte>, ms: seq<Message>)
    ensures NextIsThere(bytes, ms) ==> ms != []
  {
  }

  /** With nothing to come and no whole frame at hand, there is no frame left. */
  lemma AllThere(bytes: seq<byte>, rest: seq<byte>, ms: seq<Message>)
    requires bytes + rest == Encoded(EncodePacket, ms) && !NextIsThere(bytes, ms)
    ensures rest == [] ==> ms == []
  {
    hide EncodePacket;
  }

  // ----- the objects -----

  class SlideBuffer {
    const data: array<byte>
    var start: nat
    var end: nat

    ghost predicate Valid()
      reads this
    {
      start <= end <= data.Length == BUFFER_SIZE && (start == end ==> start == 0)
    }

    ghost function View(): Slide
      requires Valid()
      reads this, data
    {
      Slide(start, data[start..end])
    }

    constructor ()
      ensures Valid() && View() == EMPTY && fresh(data)
    {
      data := new byte[BUFFER_SIZE](_ => 0);
      start, end := 0, 0;
    }

    method ConsumeBytes(n: nat)
      requires Valid() && n <= end - start
      modifies this
      ensures Valid() && View() == Consume(old(View()), n)
    {
      start := start + n;
      if start >= end {
        start, end := 0, 0;
      }
    }

    method MaybeCompact()
      requires Valid()
      modifies this, data
      ensures Valid() && View() == Compact(old(View()))
    {
      if start > COMPACT_THRESHOLD {
        ghost var kept := data[start..end];
        forall i | 0 <= i < end - start {
          data[i] := data[start + i];
        }
        end := end - start;
        start := 0;
        assert data[..end] == kept;
      }
    }

    /** One read into the free tail, which is not empty. */
    method ReadMore(stream: Source) returns (p: Poll<nat>)
      requires Valid() && end < BUFFER_SIZE
      modifies this, data, stream
      ensures Valid() && old(stream.delivered) <= stream.delivered
      ensures View() == Slide(old(start), old(View().bytes) + stream.delivered[|old(stream.delivered)|..])
      ensures |stream.delivered| == |old(stream.delivered)| + if p.Ready? then p.value else 0
      ensures p == Ready(0) ==> stream.ended
      ensures stream.pendings == old(stream.pendings) + if p.Pending? then 1 else 0
      ensures stream.failures == old(stream.failures) + if p.Failed? then 1 else 0
      ensures if old(stream.script) == [] then stream.script == [] && p.Pending?
              else Work(stream.script) < Work(old(stream.script))
    {
      ghost var kept := data[start..end];
      p := stream.PollInto(data, end, BUFFER_SIZE);
      ghost var n := if p.Ready? then p.value else 0;
      assert data[start..end] == kept;
      assert stream.delivered[|old(stream.delivered)|..] == data[end..end + n];
      if p.Ready? {
        end := end + p.value;
      }
      assert data[start..end] == kept + data[old(end)..old(end) + n];
    }
  }

  class PacketAddrStream {
    const stream: Source
    const sink: Sink
    const utf8: seq<byte> -> bool
    const readBuf: SlideBuffer
    var isEof: bool
    const writeBuf: array<byte>
    var writeLen: nat
    var writeSent: nat

    ghost predicate Valid()
      reads this, readBuf, sink
    {
      && readBuf.Valid() && readBuf.data != writeBuf
      && writeBuf.Length == BUFFER_SIZE && writeSent <= writeLen <= BUFFER_SIZE
      && sink.Valid() && !sink.closed
    }

    /** A write or flush stops short only because an operation of the stream was pending or failed. */
    twostate predicate NotForNothing<T>(new p: Poll<T>)
      reads sink
    {
      && sink.pendings >= old(sink.pendings) && (p.Pending? ==> sink.pendings > old(sink.pendings))
      && sink.failures >= old(sink.failures) && (p.Failed? ==> sink.failures > old(sink.failures))
    }

    /** The bytes of written frames that the stream has not taken yet. */
    ghost function Unsent(): seq<byte>
      requires Valid()
      reads this, readBuf, sink, writeBuf
    {
      writeBuf[writeSent..writeLen]
    }

    constructor (stream: Source, sink: Sink, utf8: seq<byte> -> bool)
      requires sink.Valid() && !sink.closed
      ensures Valid() && readBuf.View() == EMPTY && Unsent() == [] && !isEof
      ensures this.stream == stream && this.sink == sink && this.utf8 == utf8
      ensures fresh(readBuf) && fresh(readBuf.data) && fresh(writeBuf)
    {
      this.stream, this.sink, this.utf8 := stream, sink, utf8;
      readBuf := new SlideBuffer();
      writeBuf := new byte[BUFFER_SIZE](_ => 0);
      isEof, writeLen, writeSent := false, 0, 0;
    }

    /**
     `poll_read_targeted_message`: the poll above, for whatever chunks the stream yields and whatever it answers
     last. After the end of the stream it reports the end again and touches nothing.
     */
    method PollReadTargetedMessage() returns (end: ReadEnd, ghost chunks: seq<seq<byte>>, ghost last: ReadEnd)
      requires Valid()
      modifies this`isEof, readBuf, readBuf.data, stream
      ensures Valid() && old(stream.delivered) <= stream.delivered && Answers(last)
      ensures Flatten(chunks) == stream.delivered[|old(stream.delivered)|..]
      ensures old(isEof) ==> isEof && end == Ended && chunks == [] && readBuf.View() == old(readBuf.View())
      ensures !old(isEof) ==>
                && ChunksFit(old(readBuf.View()), chunks, utf8)
                && Polled(readBuf.View(), end) == PollReader(old(readBuf.View()), chunks, last, utf8)
                && isEof == end.Ended? && (isEof ==> stream.ended)
      ensures stream.pendings == old(stream.pendings) + if end.Waiting? then 1 else 0
      ensures stream.failures == old(stream.failures) + if end.Broken? then 1 else 0
    {
      hide ParsePacket, Flatten, PollReader, ChunksFit, FillAll, Compact, Consume;
      chunks, last := [], Waiting;
      FlattenNothing<byte>();
      NothingYet(readBuf.View(), utf8);
      assert stream.delivered[|old(stream.delivered)|..] == [];
      if isEof {
        return Ended, chunks, last;
      }
      ghost var first := readBuf.View();
      ghost var got: seq<byte> := [];
      while true
        invariant Valid() && !isEof && stream.delivered == old(stream.delivered) + got
        invariant stream.pendings == old(stream.pendings) && stream.failures == old(stream.failures)
        invariant ChunksFit(first, chunks, utf8) && readBuf.View() == FillAll(first, chunks) && Flatten(chunks) == got
        decreases Work(stream.script)
      {
        assert stream.delivered[|old(stream.delivered)|..] == got;
        ghost var filled := readBuf.View();
        var parsed := ParsePacket(readBuf.data[readBuf.start..readBuf.end], utf8);
        PollResume(first, chunks, last, utf8);
        PollNow(filled, last, utf8);
        if parsed.Item? {
          readBuf.ConsumeBytes(parsed.used);
          return Delivered(parsed.value), chunks, last;
        } else if parsed.Bad? {
          return Malformed, chunks, last;
        }
        readBuf.MaybeCompact();
        if readBuf.end == BUFFER_SIZE {
          return BufferFull, chunks, last;
        }
        ghost var pulled := stream.delivered;
        var p := readBuf.ReadMore(stream);
        ghost var chunk := stream.delivered[|pulled|..];
        if !p.Ready? || p.value == 0 {
          assert chunk == [] && stream.delivered == pulled && readBuf.View() == Compact(filled);
          end := if p.Pending? then Waiting else if p.Failed? then Broken else Ended;
          last := end;
          PollResume(first, chunks, last, utf8);
          PollNow(filled, last, utf8);
          isEof := end.Ended?;
          return;
        }
        FillOne(first, chunks, chunk, utf8);
        FlattenSnoc(chunks, chunk);
        Associate(old(stream.delivered), got, chunk);
        got, chunks := got + chunk, chunks + [chunk];
      }
    }

    /** `poll_flush_message`, up to the flush of the stream: hands over what is pending. */
    method PollDrain() returns (p: Poll<()>)
      requires Valid()
      modifies this`writeSent, this`writeLen, sink
      ensures Valid()
      ensures sink.accepted + Unsent() == old(sink.accepted) + old(Unsent())
      ensures p.Ready? ==> writeLen == 0
      ensures NotForNothing(p)
    {
      while writeSent < writeLen
        invariant Valid() && writeLen == old(writeLen)
        invariant sink.accepted + Unsent() == old(sink.accepted) + old(Unsent())
        invariant sink.pendings == old(sink.pendings) && sink.failures >= old(sink.failures)
        decreases |sink.script|
      {
        ghost var accepted, unsent := sink.accepted, Unsent();
        var w := sink.PollWrite(writeBuf[writeSent..writeLen]);
        if !w.Ready? {
          return if w.Pending? then Pending else Failed(w.retry);
        }
        Associate(accepted, unsent[..w.value], unsent[w.value..]);
        assert unsent == unsent[..w.value] + unsent[w.value..];
        writeSent := writeSent + w.value;
        assert Unsent() == unsent[w.value..];
      }
      writeLen, writeSent := 0, 0;
      p := Ready(());
    }

    /** `poll_flush_message` */
    method PollFlushMessage() returns (p: Poll<()>)
      requires Valid()
      modifies this`writeSent, this`writeLen, sink
      ensures Valid()
      ensures sink.accepted + Unsent() == old(sink.accepted) + old(Unsent())
      ensures p.Ready? ==> Unsent() == [] && sink.flushed == |sink.accepted|
      ensures NotForNothing(p)
    {
      p := PollDrain();
      if p.Ready? {
        p := sink.PollFlush();
      }
    }

    /**
     `poll_write_sourced_message`: once ready, the frame is queued behind what was pending, unless it is too
     long for the buffer, which is the only reason to refuse it.
     */
    method PollWriteSourcedMessage(m: Message) returns (p: Poll<bool>)
      requires Valid() && IsSocketAddr(m.location)
      modifies this`writeSent, this`writeLen, writeBuf, sink
      ensures Valid()
      ensures p.Ready? ==> (p.value <==> |EncodeAddress(m.location)| + 2 + |m.payload| <= BUFFER_SIZE)
      ensures NotForNothing(p)
      ensures sink.accepted + Unsent() ==
              old(sink.accepted) + old(Unsent()) + if p == Ready(true) then EncodePacket(m) else []
    {
      ghost var before := sink.accepted + Unsent();
      assert before + [] == before;
      var d := PollDrain();
      if !d.Ready? {
        return if d.Pending? then Pending else Failed(d.retry);
      }
      assert sink.accepted + [] == sink.accepted;
      var addrLen := if m.location.address.Ipv4? then 7 else 19;
      var total := addrLen + 2 + |m.payload|;
      if total > writeBuf.Length {
        return Ready(false);
      }
      writeLen := LayOut(writeBuf, m);
      assert Unsent() == writeBuf[..writeLen];
      p := Ready(true);
    }
  }

  /**
   Any run of writes and flushes: behind what was under way, the bytes handed over and still pending are the frames of
   the messages taken, in order. A message is refused only if its frame does not fit the buffer.
   */
  method WriteRun(st: PacketAddrStream, attempts: seq<Attempt<Message>>) returns (took: seq<bool>)
    requires st.Valid() && forall a :: a in attempts && a.Send? ==> IsSocketAddr(a.x.location)
    modifies st`writeSent, st`writeLen, st.writeBuf, st.sink
    ensures st.Valid() && |took| == |attempts|
    ensures st.sink.accepted + st.Unsent() ==
            old(st.sink.accepted) + old(st.Unsent()) + Encoded(EncodePacket, Taken(attempts, took))
    ensures forall m :: m in Taken(attempts, took) ==> Writable(m)
  {
    hide EncodePacket, Encoded, Taken, EncodeAddress;
    took := [];
    ghost var base := st.sink.accepted + st.Unsent();
    NothingTaken(base);
    for i := 0 to |attempts|
      invariant st.Valid() && |took| == i
      invariant st.sink.accepted + st.Unsent() == base + Encoded(EncodePacket, Taken(attempts[..i], took))
      invariant forall m :: m in Taken(attempts[..i], took) ==> Writable(m)
    {
      var a, yes := attempts[i], false;
      ghost var ms := Taken(attempts[..i], took);
      if a.Send? {
        var p := st.PollWriteSourcedMessage(a.x);
        yes := p == Ready(true);
        EncodedSnoc(EncodePacket, ms, a.x);
        Associate(base, Encoded(EncodePacket, ms), EncodePacket(a.x));
      } else {
        var _ := st.PollFlushMessage();
      }
      ghost var all := Encoded(EncodePacket, ms);
      assert base + all + [] == base + all && ms + [] == ms;
      assert attempts[..i + 1] == attempts[..i] + [a];
      TakenSnoc(attempts[..i], took, a, yes);
      took := took + [yes];
    }
    assert attempts[..|attempts|] == attempts;
  }

  lemma NothingTaken(base: seq<byte>)
    ensures Taken<Message>([], []) == [] && base + Encoded(EncodePacket, []) == base
  {
  }

  /**
   Writer and reader undo each other: of the messages a run of writes took, with frames of at most 61439 bytes, a fresh
   reader of the bytes handed over delivers the first ones, in order and unchanged, whatever the partial writes and the
   chunks; and all of them once nothing is pending, every byte was read and a poll delivers nothing more.
   */
  lemma WrittenIsRead(ms: seq<Message>, accepted: seq<byte>, unsent: seq<byte>, polls: seq<Input>,
                      utf8: seq<byte> -> bool)
    requires accepted + unsent == Encoded(EncodePacket, ms) && AllShort(ms)
    requires RunFits(EMPTY, polls, utf8) && RunReader(EMPTY, polls, utf8).read <= accepted
    ensures var r := RunReader(EMPTY, polls, utf8);
            && r.delivered <= ms && r.end != Some(BufferFull) && r.end != Some(Malformed)
            && (unsent == [] && r.read == accepted && polls != [] && !LastEnd(EMPTY, polls, utf8).Delivered? ==>
                  r.delivered == ms)
  {
    hide RunReader, RunFits, EncodePacket, Encoded, AllShort, LastEnd;
    var read := RunReader(EMPTY, polls, utf8).read;
    var rest := accepted[|read|..] + unsent;
    assert EMPTY.bytes + read + rest == accepted + unsent;
    FramesArrive(EMPTY, polls, utf8, ms, rest);
  }

  /** Lays a frame out at the front of the buffer. */
  method LayOut(buf: array<byte>, m: Message) returns (n: nat)
    requires Writable(m) && buf.Length == BUFFER_SIZE && |EncodeAddress(m.location)| + 2 + |m.payload| <= BUFFER_SIZE
    modifies buf
    ensures n == |EncodePacket(m)| == |EncodeAddress(m.location)| + 2 + |m.payload|
    ensures n <= BUFFER_SIZE && buf[..n] == EncodePacket(m)
  {
    hide EncodeAddress, U16ToBe;
    var offset := WriteUotAddress(buf, m.location);
    var length := U16ToBe(|m.payload|);
    PutAt(buf, offset, length);
    PutAt(buf, offset + 2, m.payload);
    n := offset + 2 + |m.payload|;
    Associate(EncodeAddress(m.location), length, m.payload);
  }

  /** Copies a slice into the buffer. */
  method PutAt(buf: array<byte>, offset: nat, data: seq<byte>)
    requires offset + |data| <= buf.Length
    modifies buf
    ensures buf[..offset + |data|] == old(buf[..offset]) + data
  {
    ghost var before := buf[..offset];
    forall i | 0 <= i < |data| {
      buf[offset + i] := data[i];
    }
    assert buf[..offset] == before;
    assert buf[offset..offset + |data|] == data;
    assert buf[..offset + |data|] == buf[..offset] + buf[offset..offset + |data|];
  }

  /** The buffer after some chunks of a poll, before the next parse. */
  ghost function FillAll(s: Slide, chunks: seq<seq<byte>>): Slide
    decreases |chunks|
  {
    if chunks == [] then s else FillAll(Slide(Compact(s).start, Compact(s).bytes + chunks[0]), chunks[1..])
  }

  lemma NothingYet(s: Slide, utf8: seq<byte> -> bool)
    ensures ChunksFit(s, [], utf8) && FillAll(s, []) == s
  {
  }

  /** A poll in which the stream yields nothing more. */
  lemma PollNow(s: Slide, last: ReadEnd, utf8: seq<byte> -> bool)
    ensures PollReader(s, [], last, utf8) ==
            match ParsePacket(s.bytes, utf8)
            case Item(m, used) => Polled(Consume(s, used), Delivered(m))
            case Bad => Polled(s, Malformed)
            case More => if Room(Compact(s)) <= 0 then Polled(Compact(s), BufferFull) else Polled(Compact(s), last)
  {
    hide ParsePacket;
  }

  lemma {:induction false} PollResume(s: Slide, chunks: seq<seq<byte>>, last: ReadEnd, utf8: seq<byte> -> bool)
    requires ChunksFit(s, chunks, utf8)
    ensures PollReader(s, chunks, last, utf8) == PollReader(FillAll(s, chunks), [], last, utf8)
    decreases |chunks|
  {
    hide ParsePacket;
    if chunks != [] {
      PollResume(Slide(Compact(s).start, Compact(s).bytes + chunks[0]), chunks[1..], last, utf8);
    }
  }

  lemma {:induction false} FillOne(s: Slide, chunks: seq<seq<byte>>, chunk: seq<byte>, utf8: seq<byte> -> bool)
    requires ChunksFit(s, chunks, utf8)
    requires var f := FillAll(s, chunks); ParsePacket(f.bytes, utf8).More? && 0 < |chunk| <= Room(Compact(f))
    ensures ChunksFit(s, chunks + [chunk], utf8)
    ensures var c := Compact(FillAll(s, chunks)); FillAll(s, chunks + [chunk]) == Slide(c.start, c.bytes + chunk)
    decreases |chunks|
  {
    hide ParsePacket;
    if chunks == [] {
      assert (chunks + [chunk])[1..] == [];
    } else {
      assert (chunks + [chunk])[1..] == chunks[1..] + [chunk];
      FillOne(Slide(Compact(s).start, Compact(s).bytes + chunks[0]), chunks[1..], chunk, utf8);
    }
  }
}
