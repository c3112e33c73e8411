/** Messages with a two-byte length before them, over a byte stream. */
module LengthPrefixed {
  import opened Bytes
  import opened Transport
  import opened Framing

  const CAPACITY: nat := 65537
  const MAX_MESSAGE: nat := 65535

  function Parse(s: seq<byte>): (r: Step<seq<byte>>)
    ensures r.Item? ==> 0 < r.used <= |s|
  {
    if |s| < 2 then More else
    var length := U16FromBe(s[0], s[1]);
    if |s| < 2 + length then More else Item(s[2..2 + length], 2 + length)
  }

  function Encode(m: seq<byte>): seq<byte> {
    U16ToBe(|m| % 0x1_0000) + m
  }

  /** A full buffer always holds a whole message: the slice given to the stream is never empty. */
  lemma UnfinishedLeavesRoom(s: seq<byte>)
    requires Parse(s).More?
    ensures |s| < CAPACITY
  {
  }

  lemma Stable(s: seq<byte>, more: seq<byte>)
    requires Parse(s).Item?
    ensures Parse(s + more) == Parse(s)
  {
    assert (s + more)[2..Parse(s).used] == s[2..Parse(s).used];
  }

  lemma ParseIncremental()
    ensures Incremental(Parse)
  {
    hide Parse;
    forall s, more | !Parse(s).More?
      ensures Parse(s + more) == Parse(s)
    {
      NeverBad(s);
      Stable(s, more);
    }
  }

  lemma NeverBad(s: seq<byte>)
    ensures !Parse(s).Bad?
  {
  }

  /** A message comes back from its encoding exactly if its length was not cut. */
  lemma RoundTrip(m: seq<byte>, more: seq<byte>)
    ensures Parse(Encode(m) + more) == Item(m, |Encode(m)|) <==> |m| <= 65535
  {
    hide U16ToBe, U16FromBe;
    var two := U16ToBe(|m| % 0x1_0000);
    var s := Encode(m) + more;
    assert s[0] == two[0] && s[1] == two[1];
    if |m| <= MAX_MESSAGE {
      assert s[2..2 + |m|] == m;
    }
  }

  // ----- the reader, as a value -----

  datatype ReadEnd = Delivered(m: seq<byte>) | TooSmall | Ended | Torn | Waiting | Broken

  /** What the stream answers after its last chunk of a poll. */
  datatype Answer = Later | Error | Eof

  datatype Polled = Polled(bytes: seq<byte>, end: ReadEnd)

  /** One poll with room for `room` bytes of payload. */
  ghost function PollReader(b: seq<byte>, chunks: seq<seq<byte>>, last: Answer, room: nat): Polled
    decreases |chunks|
  {
    var p := Parse(b);
    if p.Item? then
      if room < |p.value| then Polled(b, TooSmall) else Polled(b[p.used..], Delivered(p.value))
    else if chunks != [] then PollReader(b + chunks[0], chunks[1..], last, room)
    else Polled(b, EndOf(b, last))
  }

  /** The end of the stream between messages is the end; inside one it is an error. */
  function EndOf(b: seq<byte>, last: Answer): (r: ReadEnd)
    ensures (r.Ended? || r.Torn? <==> last.Eof?) && (r.Waiting? <==> last.Later?) && (r.Broken? <==> last.Error?)
  {
    match last
    case Later => Waiting
    case Error => Broken
    case Eof => if b == [] then Ended else Torn
  }

  /** Chunks are read only while no message is complete, and fit what is left of the buffer. */
  ghost predicate ChunksFit(b: seq<byte>, chunks: seq<seq<byte>>)
    decreases |chunks|
  {
    chunks != [] ==>
      && Parse(b).More? && 0 < |chunks[0]| <= CAPACITY - |b|
      && ChunksFit(b + chunks[0], chunks[1..])
  }

  lemma {:induction false} PollConserves(b: seq<byte>, chunks: seq<seq<byte>>, last: Answer, room: nat)
    requires ChunksFit(b, chunks) && room >= 65535
    ensures var r, all := PollReader(b, chunks, last, room), b + Flatten(chunks);
            if Parse(all).Item? then r == Polled(all[Parse(all).used..], Delivered(Parse(all).value))
            else r.bytes == all && (r.end.Waiting? || r.end.Broken? || r.end.Torn? || (r.end.Ended? && all == []))
    decreases |chunks|
  {
    hide Parse;
    PayloadBound(b);
    NeverBad(b);
    if chunks == [] {
      assert b + Flatten(chunks) == b;
    } else {
      PollConserves(b + chunks[0], chunks[1..], last, room);
      Associate(b, chunks[0], Flatten(chunks[1..]));
    }
  }

  lemma PayloadBound(s: seq<byte>)
    ensures Parse(s).Item? ==> |Parse(s).value| <= MAX_MESSAGE
  {
  }

  // ----- whole runs -----

  datatype Input = Input(chunks: seq<seq<byte>>, last: Answer)
  datatype Ran = Ran(bytes: seq<byte>, delivered: seq<seq<byte>>, read: seq<byte>, end: Option<ReadEnd>)

  ghost function RunReader(b: seq<byte>, polls: seq<Input>, room: nat): Ran
    decreases |polls|
  {
    if polls == [] then Ran(b, [], [], None) else
    var r := PollReader(b, polls[0].chunks, polls[0].last, room);
    var bytes := Flatten(polls[0].chunks);
    if r.end.Delivered? || r.end.Waiting? then
      var next := RunReader(r.bytes, polls[1..], room);
      next.(delivered := (if r.end.Delivered? then [r.end.m] else []) + next.delivered, read := bytes + next.read)
    else Ran(r.bytes, [], bytes, Some(r.end))
  }

  ghost predicate RunFits(b: seq<byte>, polls: seq<Input>, room: nat)
    decreases |polls|
  {
    polls != [] ==>
      && ChunksFit(b, polls[0].chunks)
      && RunFits(PollReader(b, polls[0].chunks, polls[0].last, room).bytes, polls[1..], room)
  }

  /** For any bytes: a run delivers the first items of the bytes it read, however these were cut up. */
  lemma {:induction false} ChunkingIndependence(b: seq<byte>, polls: seq<Input>, room: nat)
    requires RunFits(b, polls, room) && room >= 65535
    ensures Incremental(Parse)
    ensures var r := RunReader(b, polls, room);
            Items(Parse, b + r.read) == Prepend(r.delivered, Items(Parse, r.bytes))
    decreases |polls|
  {
    hide Parse, PollReader, ChunksFit, Flatten, Items, Incremental;
    ParseIncremental();
    if polls == [] {
      assert b + [] == b;
    } else {
      var Input(chunks, last) := polls[0];
      var r, all := PollReader(b, chunks, last, room), b + Flatten(chunks);
      PollConserves(b, chunks, last, room);
      if r.end.Delivered? || r.end.Waiting? {
        var next := RunReader(r.bytes, polls[1..], room);
        Associate(b, Flatten(chunks), next.read);
        ChunkingIndependence(r.bytes, polls[1..], room);
        if r.end.Delivered? {
          ItemsFirst(Parse, all, next.read);
          PrependOne(r.end.m, next.delivered, Items(Parse, next.bytes));
        }
      }
    }
  }

  /**
   However their bytes arrive, messages of at most 65535 bytes are delivered in order, none lost, none repeated,
   boundaries kept; a 65535-byte buffer is never too small for one; and what is left over is the rest. Once a poll does
   not deliver, no message is left that is all there; if all bytes have arrived, every message was delivered.
   */
  lemma {:induction false} MessagesArrive(b: seq<byte>, polls: seq<Input>, room: nat, ms: seq<seq<byte>>,
                                          rest: seq<byte>)
    requires RunFits(b, polls, room) && room >= 65535 && Fitting(ms)
    requires b + RunReader(b, polls, room).read + rest == Encoded(Encode, ms)
    ensures var r := RunReader(b, polls, room);
            && r.delivered <= ms
            && r.bytes + rest == Encoded(Encode, ms[|r.delivered|..])
            && r.end != Some(TooSmall)
            && (polls != [] && !LastEnd(b, polls, room).Delivered? ==>
                  !NextIsThere(r.bytes, ms[|r.delivered|..]) && (rest == [] ==> r.delivered == ms))
    decreases |polls|
  {
    hide Parse, Encode, PollReader, ChunksFit, Flatten, Encoded, NextIsThere, LastEnd, Fitting;
    if polls == [] {
      assert b + [] + rest == b + rest && ms[0..] == ms;
    } else {
      LastEndStep(b, polls, room);
      var Input(chunks, last) := polls[0];
      var r, bytes := PollReader(b, chunks, last, room), Flatten(chunks);
      if r.end.Delivered? || r.end.Waiting? {
        var next := RunReader(r.bytes, polls[1..], room);
        Regroup(b, bytes, next.read, rest);
        OnePoll(b, chunks, last, room, ms, next.read + rest);
        Associate(r.bytes, next.read, rest);
        if r.end.Delivered? {
          HasNext(b + bytes, ms);
          FittingRest(ms);
        }
        var left := if r.end.Delivered? then ms[1..] else ms;
        MessagesArrive(r.bytes, polls[1..], room, left, rest);
        if r.end.Delivered? {
          DeliveredMore(ms, next.delivered);
        } else if |polls| == 1 {
          assert next.read + rest == rest && ms[0..] == ms;
          AllThere(r.bytes, rest, ms);
        }
      } else {
        OnePoll(b, chunks, last, room, ms, rest);
        assert ms[0..] == ms;
        AllThere(r.bytes, rest, ms);
      }
    }
  }

  ghost predicate Fitting(ms: seq<seq<byte>>) {
    forall i :: 0 <= i < |ms| ==> |ms[i]| <= 65535
  }

  lemma FittingRest(ms: seq<seq<byte>>)
    requires ms != [] && Fitting(ms)
    ensures Fitting(ms[1..])
  {
  }

  lemma LastEndStep(b: seq<byte>, polls: seq<Input>, room: nat)
    requires polls != []
    ensures var r := PollReader(b, polls[0].chunks, polls[0].last, room);
            LastEnd(b, polls, room) ==
            if (r.end.Delivered? || r.end.Waiting?) && polls[1..] != [] then LastEnd(r.bytes, polls[1..], room)
                else r.end
  {
    hide PollReader;
  }

  lemma HasNext(bytes: seq<byte>, ms: seq<seq<byte>>)
    ensures NextIsThere(bytes, ms) ==> ms != []
  {
  }

  /** With nothing to come and no whole message at hand, there is no message left. */
  lemma AllThere(bytes: seq<byte>, rest: seq<byte>, ms: seq<seq<byte>>)
    requires bytes + rest == Encoded(Encode, ms) && !NextIsThere(bytes, ms)
    ensures rest == [] ==> ms == []
  {
    hide Encode;
  }

  /** Of the messages `ms` on a stream, the next one is all at hand. */
  ghost predicate NextIsThere(bytes: seq<byte>, ms: seq<seq<byte>>) {
    ms != [] && |Encode(ms[0])| <= |bytes|
  }

  /** How the last poll that a run makes ends. */
  ghost function LastEnd(b: seq<byte>, polls: seq<Input>, room: nat): ReadEnd
    requires polls != []
    decreases |polls|
  {
    var r := PollReader(b, polls[0].chunks, polls[0].last, room);
    if (r.end.Delivered? || r.end.Waiting?) && |polls| > 1 then LastEnd(r.bytes, polls[1..], room) else r.end
  }

  lemma OnePoll(b: seq<byte>, chunks: seq<seq<byte>>, last: Answer, room: nat, ms: seq<seq<byte>>, rest: seq<byte>)
    requires ChunksFit(b, chunks) && room >= 65535 && Fitting(ms)
    requires b + Flatten(chunks) + rest == Encoded(Encode, ms)
    ensures var r := PollReader(b, chunks, last, room);
            && !r.end.TooSmall?
            && (r.end.Delivered? <==> NextIsThere(b + Flatten(chunks), ms))
            && (r.end.Delivered? ==> r.end.m == ms[0] && r.bytes + rest == Encoded(Encode, ms[1..]))
            && (!r.end.Delivered? ==> r.bytes == b + Flatten(chunks))
  {
    hide Parse, Encode, PollReader, ChunksFit, Flatten;
    var all := b + Flatten(chunks);
    PollConserves(b, chunks, last, room);
    if ms == [] {
      assert |all + rest| == 0;
    } else {
      var f, later := Encode(ms[0]), Encoded(Encode, ms[1..]);
      RoundTrip(ms[0], later);
      Suffixes(all, rest, f, later);
      if |f| <= |all| {
        assert (all + rest)[..|f|] == all[..|f|] && (f + later)[..|f|] == f;
        assert all == f + all[|f|..];
        RoundTrip(ms[0], all[|f|..]);
      } else if Parse(all).Item? {
        Stable(all, rest);
        assert false;
      }
    }
  }

  // ----- the object -----

  class VlessMessageStream {
    const stream: Source
    const sink: Sink
    const readBuf: array<byte>
    var readEnd: nat
    var isEof: bool
    var pendingWrite: seq<byte>
    var writeOffset: nat

    ghost predicate Valid()
      reads this, sink
    {
      && readBuf.Length == CAPACITY && readEnd <= CAPACITY
      && writeOffset <= |pendingWrite|
      && sink.Valid() && !sink.closed
    }

    ghost function Unread(): seq<byte>
      requires Valid()
      reads this, sink, readBuf
    {
      readBuf[..readEnd]
    }

    /** A write or flush stops short only because an operation of the stream was pending or failed. */
    twostate predicate NotForNothing<T>(new p: Poll<T>)
      reads sink
    {
      && sink.pendings >= old(sink.pendings) && (p.Pending? ==> sink.pendings > old(sink.pendings))
      && sink.failures >= old(sink.failures) && (p.Failed? ==> sink.failures > old(sink.failures))
    }

    /** The bytes of written messages that the stream has not taken yet. */
    ghost function Unsent(): seq<byte>
      requires Valid()
      reads this, sink
    {
      pendingWrite[writeOffset..]
    }

    constructor (stream: Source, sink: Sink)
      requires sink.Valid() && !sink.closed
      ensures Valid() && Unread() == [] && Unsent() == [] && !isEof
      ensures this.stream == stream && this.sink == sink && fresh(readBuf)
    {
      this.stream, this.sink := stream, sink;
      readBuf := new byte[CAPACITY](_ => 0);
      readEnd, isEof, pendingWrite, writeOffset := 0, false, [], 0;
    }

    /** Takes a whole message off the front, moving the rest down. */
    method TakeMessage(total: nat)
      requires Valid() && 2 <= total <= readEnd
      modifies this`readEnd, readBuf
      ensures Valid() && Unread() == old(Unread())[total..]
    {
      ghost var kept := readBuf[total..readEnd];
      if readEnd > total {
        forall i | 0 <= i < readEnd - total {
          readBuf[i] := readBuf[total + i];
        }
        readEnd := readEnd - total;
      } else {
        readEnd := 0;
      }
      assert readBuf[..readEnd] == kept;
    }

    /** One read into the free tail, which is not empty. */
    method ReadMore() returns (p: Poll<nat>)
      requires Valid() && readEnd < CAPACITY
      modifies this`readEnd, readBuf, stream
      ensures Valid() && old(stream.delivered) <= stream.delivered
      ensures Unread() == old(Unread()) + stream.delivered[|old(stream.delivered)|..]
      ensures |stream.delivered| == |old(stream.delivered)| + if p.Ready? then p.value else 0
      ensures p == Ready(0) ==> stream.ended
      ensures stream.pendings == old(stream.pendings) + if p.Pending? then 1 else 0
      ensures stream.failures == old(stream.failures) + if p.Failed? then 1 else 0
      ensures if old(stream.script) == [] then stream.script == [] && p.Pending?
              else Work(stream.script) < Work(old(stream.script))
    {
      ghost var kept := readBuf[..readEnd];
      p := stream.PollInto(readBuf, readEnd, CAPACITY);
      ghost var n := if p.Ready? then p.value else 0;
      assert readBuf[..readEnd] == kept;
      assert stream.delivered[|old(stream.delivered)|..] == readBuf[readEnd..readEnd + n];
      if p.Ready? {
        readEnd := readEnd + p.value;
      }
      assert readBuf[..readEnd] == kept + readBuf[old(readEnd)..old(readEnd) + n];
    }

    /** `poll_read_message`: the poll above, for whatever the stream does. After its end, nothing changes. */
    method PollReadMessage(room: nat) returns (end: ReadEnd, ghost chunks: seq<seq<byte>>, ghost last: Answer)
      requires Valid()
      modifies this`readEnd, this`isEof, readBuf, stream
      ensures Valid() && old(stream.delivered) <= stream.delivered
      ensures Flatten(chunks) == stream.delivered[|old(stream.delivered)|..]
      ensures old(isEof) ==> isEof && end == Ended && chunks == [] && Unread() == old(Unread())
      ensures !old(isEof) ==>
                && ChunksFit(old(Unread()), chunks)
                && Polled(Unread(), end) == PollReader(old(Unread()), chunks, last, room)
                && isEof == (end.Ended? || end.Torn?) && (isEof ==> stream.ended)
      ensures stream.pendings == old(stream.pendings) + if end.Waiting? then 1 else 0
      ensures stream.failures == old(stream.failures) + if end.Broken? then 1 else 0
    {
      hide Parse, Flatten, PollReader, ChunksFit, EndOf;
      chunks, last := [], Later;
      NoChunks(Unread());
      FlattenNothing<byte>();
      ghost var got: seq<byte> := [];
      assert stream.delivered[|old(stream.delivered)|..] == [];
      if isEof {
        return Ended, chunks, last;
      }
      ghost var first := Unread();
      while true
        invariant Valid() && !isEof && stream.delivered == old(stream.delivered) + got
        invariant stream.pendings == old(stream.pendings) && stream.failures == old(stream.failures)
        invariant ChunksFit(first, chunks) && Unread() == first + got && Flatten(chunks) == got
        decreases Work(stream.script)
      {
        assert stream.delivered[|old(stream.delivered)|..] == got;
        ghost var filled := Unread();
        var parsed := Parse(readBuf[..readEnd]);
        PollEnds(first, chunks, last, room, filled);
        if parsed.Item? {
          if room < |parsed.value| {
            return TooSmall, chunks, last;
          }
          TakeMessage(parsed.used);
          return Delivered(parsed.value), chunks, last;
        }
        ghost var pulled := stream.delivered;
        var p := ReadMore();
        ghost var chunk := stream.delivered[|pulled|..];
        if !p.Ready? || p.value == 0 {
          assert chunk == [] && Unread() == filled && stream.delivered == pulled;
          var answer := if p.Pending? then Later else if p.Failed? then Error else Eof;
          end, last := EndOf(readBuf[..readEnd], answer), answer;
          PollEnds(first, chunks, last, room, filled);
          isEof := p.Ready?;
          return;
        }
        Received(old(stream.delivered), first, chunks, got, chunk);
        got, chunks := got + chunk, chunks + [chunk];
      }
    }

    /** `poll_flush_message` */
    method PollFlushMessage() returns (p: Poll<()>)
      requires Valid()
      modifies this`pendingWrite, this`writeOffset, sink
      ensures Valid()
      ensures sink.accepted + Unsent() == old(sink.accepted) + old(Unsent())
      ensures p.Ready? ==> pendingWrite == [] && sink.flushed == |sink.accepted|
      ensures pendingWrite == [] ==> p.Ready? || old(pendingWrite) == []
      ensures NotForNothing(p)
    {
      while writeOffset < |pendingWrite|
        invariant Valid() && pendingWrite == old(pendingWrite)
        invariant sink.accepted + Unsent() == old(sink.accepted) + old(Unsent())
        invariant sink.pendings == old(sink.pendings) && sink.failures >= old(sink.failures)
        decreases |sink.script|
      {
        ghost var accepted, unsent := sink.accepted, Unsent();
        var w := sink.PollWrite(pendingWrite[writeOffset..]);
        if w.Pending? {
          return Pending;
        } else if w.Failed? || w.value == 0 {
          assert w.Ready? ==> accepted + unsent[..0] == accepted;
          return Failed(false);
        }
        Associate(accepted, unsent[..w.value], unsent[w.value..]);
        assert unsent == unsent[..w.value] + unsent[w.value..];
        writeOffset := writeOffset + w.value;
        assert Unsent() == unsent[w.value..];
      }
      p := sink.PollFlush();
      if p.Ready? {
        pendingWrite, writeOffset := [], 0;
      }
    }

    /** `poll_write_message`: once ready, the message is queued behind what was pending, unless it is too long. */
    method PollWriteMessage(m: seq<byte>) returns (p: Poll<bool>)
      requires Valid()
      modifies this`pendingWrite, this`writeOffset, sink
      ensures Valid()
      ensures p.Ready? ==> (p.value <==> |m| <= 65535)
      ensures NotForNothing(p)
      ensures sink.accepted + Unsent() ==
              old(sink.accepted) + old(Unsent()) + if p == Ready(true) then Encode(m) else []
    {
      hide Encode;
      ghost var before := sink.accepted + Unsent();
      assert before + [] == before;
      if pendingWrite != [] {
        var f := PollFlushMessage();
        if f.Failed? {
          return Failed(f.retry);
        }
        if pendingWrite != [] {
          return Pending;
        }
      }
      if |m| > MAX_MESSAGE {
        return Ready(false);
      }
      assert sink.accepted + [] == sink.accepted;
      pendingWrite := pendingWrite + Encode(m);
      writeOffset := 0;
      assert Unsent() == Encode(m);
      p := Ready(true);
    }
  }

  /**
   Any run of writes and flushes: behind what was under way, the bytes handed over and still pending are the encodings
   of the messages taken, in order. A message is refused only if it is too long.
   */
  method WriteRun(st: VlessMessageStream, attempts: seq<Attempt<seq<byte>>>) returns (took: seq<bool>)
    requires st.Valid()
    modifies st`pendingWrite, st`writeOffset, st.sink
    ensures st.Valid() && |took| == |attempts|
    ensures st.sink.accepted + st.Unsent() ==
            old(st.sink.accepted) + old(st.Unsent()) + Encoded(Encode, Taken(attempts, took))
    ensures Fitting(Taken(attempts, took))
  {
    hide Encode, Encoded, Taken;
    took := [];
    ghost var base := st.sink.accepted + st.Unsent();
    NothingTaken(base);
    for i := 0 to |attempts|
      invariant st.Valid() && |took| == i
      invariant st.sink.accepted + st.Unsent() == base + Encoded(Encode, Taken(attempts[..i], took))
      invariant Fitting(Taken(attempts[..i], took))
    {
      var a, yes := attempts[i], false;
      ghost var ms := Taken(attempts[..i], took);
      if a.Send? {
        var p := st.PollWriteMessage(a.x);
        yes := p == Ready(true);
        EncodedSnoc(Encode, ms, a.x);
        Associate(base, Encoded(Encode, ms), Encode(a.x));
      } else {
        var _ := st.PollFlushMessage();
      }
      ghost var all := Encoded(Encode, ms);
      assert base + all + [] == base + all && ms + [] == ms;
      assert attempts[..i + 1] == attempts[..i] + [a];
      TakenSnoc(attempts[..i], took, a, yes);
      took := took + [yes];
    }
    assert attempts[..|attempts|] == attempts;
  }

  lemma NothingTaken(base: seq<byte>)
    ensures Taken<seq<byte>>([], []) == [] && base + Encoded(Encode, []) == base
  {
  }

  /**
   Writer and reader undo each other: of the messages a run of writes took, a fresh reader of the bytes handed over
   delivers the first ones, in order and unchanged, whatever the partial writes and the chunks; and all of them once
   nothing is pending, every byte was read and a poll delivers nothing more.
   */
  lemma WrittenIsRead(ms: seq<seq<byte>>, accepted: seq<byte>, unsent: seq<byte>, polls: seq<Input>, room: nat)
    requires accepted + unsent == Encoded(Encode, ms) && Fitting(ms) && room >= 65535
    requires RunFits([], polls, room) && RunReader([], polls, room).read <= accepted
    ensures var r := RunReader([], polls, room);
            && r.delivered <= ms && r.end != Some(TooSmall)
            && (unsent == [] && r.read == accepted && polls != [] && !LastEnd([], polls, room).Delivered? ==>
                  r.delivered == ms)
  {
    hide RunReader, RunFits, Encode, Encoded, Fitting, LastEnd;
    var read := RunReader([], polls, room).read;
    var rest := accepted[|read|..] + unsent;
    assert [] + read + rest == accepted + unsent;
    MessagesArrive([], polls, room, ms, rest);
  }

  /** One more chunk at the end of what a poll has read. */
  lemma Received(before: seq<byte>, first: seq<byte>, chunks: seq<seq<byte>>, got: seq<byte>, chunk: seq<byte>)
    requires ChunksFit(first, chunks) && Flatten(chunks) == got
    requires Parse(first + got).More? && 0 < |chunk| <= CAPACITY - |first + got|
    ensures ChunksFit(first, chunks + [chunk]) && Flatten(chunks + [chunk]) == got + chunk
    ensures first + (got + chunk) == first + got + chunk
    ensures before + (got + chunk) == before + got + chunk
  {
    hide Parse, Flatten, ChunksFit;
    FillOne(first, chunks, chunk);
    FlattenSnoc(chunks, chunk);
    Associate(first, got, chunk);
    Associate(before, got, chunk);
  }

  lemma NoChunks(b: seq<byte>)
    ensures ChunksFit(b, []) && b + [] == b
  {
  }

  /** How the poll ends if the stream answers `last` now, and that there is room to read if it does not end. */
  lemma PollEnds(b: seq<byte>, chunks: seq<seq<byte>>, last: Answer, room: nat, filled: seq<byte>)
    requires ChunksFit(b, chunks) && filled == b + Flatten(chunks)
    ensures var p := Parse(filled);
            && (p.Item? ==> 2 <= p.used <= |filled|)
            && (!p.Item? ==> p.More? && |filled| < CAPACITY)
            && PollReader(b, chunks, last, room) ==
               (if !p.Item? then Polled(filled, EndOf(filled, last))
                else if room < |p.value| then Polled(filled, TooSmall)
                else Polled(filled[p.used..], Delivered(p.value)))
  {
    hide PollReader, ChunksFit, Flatten, EndOf, U16FromBe;
    NeverBad(filled);
    PollResume(b, chunks, last, room);
    PollNow(filled, last, room);
    if Parse(filled).More? {
      UnfinishedLeavesRoom(filled);
    }
  }

  /** A poll in which the stream yields nothing more. */
  lemma PollNow(b: seq<byte>, last: Answer, room: nat)
    ensures PollReader(b, [], last, room) ==
            var p := Parse(b);
            if !p.Item? then Polled(b, EndOf(b, last))
            else if room < |p.value| then Polled(b, TooSmall)
            else Polled(b[p.used..], Delivered(p.value))
  {
    hide Parse;
  }

  lemma {:induction false} PollResume(b: seq<byte>, chunks: seq<seq<byte>>, last: Answer, room: nat)
    requires ChunksFit(b, chunks)
    ensures PollReader(b, chunks, last, room) == PollReader(b + Flatten(chunks), [], last, room)
    decreases |chunks|
  {
    hide Parse;
    if chunks == [] {
      assert b + Flatten(chunks) == b;
    } else {
      PollResume(b + chunks[0], chunks[1..], last, room);
      Associate(b, chunks[0], Flatten(chunks[1..]));
    }
  }

  lemma {:induction false} FillOne(b: seq<byte>, chunks: seq<seq<byte>>, chunk: seq<byte>)
    requires ChunksFit(b, chunks)
    requires var f := b + Flatten(chunks); Parse(f).More? && 0 < |chunk| <= CAPACITY - |f|
    ensures ChunksFit(b, chunks + [chunk])
    decreases |chunks|
  {
    hide Parse;
    if chunks == [] {
      assert (chunks + [chunk])[1..] == [] && b + Flatten(chunks) == b;
    } else {
      assert (chunks + [chunk])[1..] == chunks[1..] + [chunk];
      Associate(b, chunks[0], Flatten(chunks[1..]));
      FillOne(b + chunks[0], chunks[1..], chunk);
    }
  }
}
