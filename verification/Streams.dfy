/** One multiplexed stream: what its reads, writes, shutdown and drop do to it and to its two channels. */
module Streams {
  import opened Bytes

  const STREAM_CHANNEL_BUFFER := 16
  const OUTGOING_CHANNEL_BUFFER := 4 * STREAM_CHANNEL_BUFFER
  const MAX_FRAME_DATA_SIZE := 65535

  /** An item for the session to send; no data stands for the end of the stream. */
  datatype Item = Item(id: u32, data: seq<byte>)

  datatype StreamState = StreamState(
    readBuffer: seq<byte>, readOffset: nat, eof: bool, closed: bool, shuttingDown: bool)

  const FRESH := StreamState([], 0, false, false, false)

  predicate Consistent(s: StreamState) {
    s.readOffset < |s.readBuffer| || (s.readBuffer == [] && s.readOffset == 0)
  }

  function Unread(s: StreamState): seq<byte>
    requires Consistent(s)
  {
    s.readBuffer[s.readOffset..]
  }

  // ----- the steps, on values -----

  datatype Read = Refused | Wait | Data(bytes: seq<byte>)
  datatype ReadStep = ReadStep(state: StreamState, queue: seq<seq<byte>>, result: Read)

  /** `poll_read` into a buffer with room for `room` bytes; `connected` says whether a sender is left. */
  function ReadFrom(s: StreamState, queue: seq<seq<byte>>, connected: bool, room: nat): (r: ReadStep)
    requires Consistent(s)
    ensures Consistent(r.state)
  {
    var left := |s.readBuffer| - s.readOffset;
    if s.closed then ReadStep(s, queue, Refused)
    else if s.eof && left == 0 then ReadStep(s, queue, Data([]))
    else if left > 0 then
      var n := Min(left, room);
      var next := s.readOffset + n;
      ReadStep(if next >= |s.readBuffer| then s.(readBuffer := [], readOffset := 0) else s.(readOffset := next),
               queue, Data(s.readBuffer[s.readOffset..next]))
    else if queue != [] then
      var data := queue[0];
      if data == [] then ReadStep(s.(eof := true), queue[1..], Data([]))
      else
        var n := Min(|data|, room);
        ReadStep(if n < |data| then s.(readBuffer := data, readOffset := n) else s, queue[1..], Data(data[..n]))
    else if connected then ReadStep(s, queue, Wait)
    else ReadStep(s.(eof := true), queue, Data([]))
  }

  datatype Write = Broken | Blocked | Wrote(n: nat)
  datatype WriteStep = WriteStep(state: StreamState, send: Option<seq<byte>>, result: Write)

  /** `poll_write`; `full` and `gone` tell the state of the session's channel. */
  function WriteTo(s: StreamState, sessionClosed: bool, full: bool, gone: bool, buf: seq<byte>): WriteStep {
    if s.closed || s.shuttingDown || sessionClosed || gone then WriteStep(s, None, Broken)
    else if full then WriteStep(s, None, Blocked)
    else
      var n := Min(|buf|, MAX_FRAME_DATA_SIZE);
      WriteStep(s, Some(buf[..n]), Wrote(n))
  }

  /** `poll_shutdown` */
  function Shutdown(s: StreamState, sessionClosed: bool, full: bool, gone: bool): WriteStep {
    if s.closed then WriteStep(s, None, Wrote(0))
    else if sessionClosed then WriteStep(s.(closed := true), None, Wrote(0))
    else
      var s' := s.(shuttingDown := true);
      if gone then WriteStep(s'.(closed := true), None, Broken)
      else if full then WriteStep(s', None, Blocked)
      else WriteStep(s'.(closed := true), Some([]), Wrote(0))
  }

  /** `drop`: the end of the stream is announced if it was not yet and there is room. */
  function Drop(s: StreamState, full: bool, gone: bool): WriteStep {
    if s.closed then WriteStep(s, None, Wrote(0))
    else WriteStep(s.(closed := true), if full || gone then None else Some([]), Wrote(0))
  }

  // ----- what the steps promise -----

  /** A read hands out the next bytes, in order, and keeps the rest: nothing is lost or repeated. */
  lemma ReadConserves(s: StreamState, queue: seq<seq<byte>>, connected: bool, room: nat)
    requires Consistent(s)
    ensures var r := ReadFrom(s, queue, connected, room);
            && (if r.result.Data? then r.result.bytes else []) + (Unread(r.state) + Flatten(r.queue))
               == Unread(s) + Flatten(queue)
            && (r.result.Data? ==> |r.result.bytes| <= room)
  {
    hide Flatten;
    var r := ReadFrom(s, queue, connected, room);
    if s.closed {
    } else if Unread(s) != [] {
      var n := Min(|Unread(s)|, room);
      assert r.result.bytes == Unread(s)[..n] && Unread(r.state) == Unread(s)[n..];
      SplitFirst(Unread(s), n, Flatten(queue));
    } else if !s.eof && queue != [] && queue[0] != [] {
      var n := Min(|queue[0]|, room);
      assert r.result.bytes == queue[0][..n] && Unread(r.state) == queue[0][n..];
      FlattenFirst(queue);
      SplitFirst(queue[0], n, Flatten(queue[1..]));
    } else if !s.eof && queue != [] {
      FlattenFirst(queue);
    }
  }

  /**
   When a read waits: exactly if the stream is open and not at its end, nothing is unread or queued and a sender is
   left. With room, it returns bytes whenever some are buffered or next in the queue.
   */
  lemma ReadWaitsIff(s: StreamState, queue: seq<seq<byte>>, connected: bool, room: nat)
    requires Consistent(s)
    ensures var r := ReadFrom(s, queue, connected, room).result;
            && (r.Refused? <==> s.closed)
            && (r.Wait? <==> !s.closed && !s.eof && Unread(s) == [] && queue == [] && connected)
            && (!s.closed && Unread(s) != [] ==> r.Data? && |r.bytes| == Min(room, |Unread(s)|))
            && (!s.closed && !s.eof && Unread(s) == [] && queue != [] ==> r.Data? && |r.bytes| == Min(room, |queue[0]|))
  {
  }

  /**
   What a write reports is what it queues: the first bytes of the slice, all of them up to 65535. It is taken exactly
   if the stream is open and not shutting down, the session is open and there is room in the channel.
   */
  lemma WriteReportsQueued(s: StreamState, sessionClosed: bool, full: bool, gone: bool, buf: seq<byte>)
    ensures var r := WriteTo(s, sessionClosed, full, gone, buf);
            && r.state == s
            && (r.result.Wrote? <==> r.send.Some?)
            && (r.result.Wrote? ==> r.result.n == Min(|buf|, 65535) && r.send == Some(buf[..r.result.n]))
            && (r.result.Broken? <==> s.closed || s.shuttingDown || sessionClosed || gone)
            && (r.result.Blocked? <==> !r.result.Broken? && full)
  {
  }

  /**
   A shutdown blocks later writes at once, whatever comes of it; it queues the end mark exactly if the stream and the
   session were open and there is room, and waits exactly if there is none.
   */
  lemma ShutdownMarksIff(s: StreamState, sessionClosed: bool, full: bool, gone: bool)
    ensures var r := Shutdown(s, sessionClosed, full, gone);
            && (r.state.closed || r.state.shuttingDown)
            && (r.send.Some? ==> r.send == Some([]) && r.state.closed)
            && (r.send.Some? <==> !s.closed && !sessionClosed && !gone && !full)
            && (r.result.Blocked? <==> !s.closed && !sessionClosed && !gone && full)
            && (r.result.Broken? <==> !s.closed && !sessionClosed && gone)
            && (!r.result.Blocked? ==> r.state.closed)
            && r.state.(closed := s.closed, shuttingDown := s.shuttingDown) == s
  {
  }

  /** A dropped stream is closed, and queues its end mark exactly if it was open and there is room. */
  lemma DropMarksIff(s: StreamState, full: bool, gone: bool)
    ensures var r := Drop(s, full, gone);
            && r.state == s.(closed := true)
            && (r.send.Some? ==> r.send == Some([]))
            && (r.send.Some? <==> !s.closed && !gone && !full)
  {
  }

  lemma SplitFirst(data: seq<byte>, n: nat, rest: seq<byte>)
    requires n <= |data|
    ensures data[..n] + (data[n..] + rest) == data + rest
  {
    assert data[..n] + data[n..] == data;
    Associate(data[..n], data[n..], rest);
  }

  lemma FlattenFirst(queue: seq<seq<byte>>)
    requires queue != []
    ensures Flatten(queue) == queue[0] + Flatten(queue[1..])
  {
  }

  // ----- the stream object -----

  class Inbox {
    var queue: seq<seq<byte>>
    var connected: bool
  }

  class Outbox {
    var items: seq<Item>
    var gone: bool

    predicate Full()
      reads this
    {
      |items| >= OUTGOING_CHANNEL_BUFFER
    }
  }

  class AnyTlsStream {
    const id: u32
    const inbox: Inbox
    const outbox: Outbox
    var readBuffer: seq<byte>
    var readOffset: nat
    var eof: bool
    var streamClosed: bool
    var shutdownInProgress: bool

    ghost function State(): StreamState
      reads this
    {
      StreamState(readBuffer, readOffset, eof, streamClosed, shutdownInProgress)
    }

    constructor (id: u32, inbox: Inbox, outbox: Outbox)
      ensures State() == FRESH && this.id == id && this.inbox == inbox && this.outbox == outbox
    {
      this.id, this.inbox, this.outbox := id, inbox, outbox;
      readBuffer, readOffset := [], 0;
      eof, streamClosed, shutdownInProgress := false, false, false;
    }

    method PollRead(room: nat) returns (r: Read)
      requires Consistent(State())
      modifies this, inbox
      ensures var step := old(ReadFrom(State(), inbox.queue, inbox.connected, room));
              State() == step.state && inbox.queue == step.queue && r == step.result
      ensures Consistent(State()) && inbox.connected == old(inbox.connected)
    {
      if streamClosed {
        return Refused;
      }
      var left := |readBuffer| - readOffset;
      if eof && left == 0 {
        return Data([]);
      }
      if left > 0 {
        var n := Min(left, room);
        r := Data(readBuffer[readOffset..readOffset + n]);
        readOffset := readOffset + n;
        if readOffset >= |readBuffer| {
          readBuffer, readOffset := [], 0;
        }
        return;
      }
      if inbox.queue != [] {
        var data := inbox.queue[0];
        inbox.queue := inbox.queue[1..];
        if data == [] {
          eof := true;
          return Data([]);
        }
        var n := Min(|data|, room);
        r := Data(data[..n]);
        if n < |data| {
          readBuffer, readOffset := data, n;
        }
      } else if inbox.connected {
        r := Wait;
      } else {
        eof := true;
        r := Data([]);
      }
    }

    method PollWrite(sessionClosed: bool, buf: seq<byte>) returns (r: Write)
      modifies this, outbox
      ensures var step := old(WriteTo(State(), sessionClosed, outbox.Full(), outbox.gone, buf));
              State() == step.state && r == step.result && outbox.items == Sent(old(outbox.items), step.send)
      ensures outbox.gone == old(outbox.gone)
    {
      if streamClosed || shutdownInProgress || sessionClosed {
        return Broken;
      }
      if outbox.gone {
        return Broken;
      } else if outbox.Full() {
        return Blocked;
      }
      var n := Min(|buf|, MAX_FRAME_DATA_SIZE);
      outbox.items := outbox.items + [Item(id, buf[..n])];
      r := Wrote(n);
    }

    method PollShutdown(sessionClosed: bool) returns (r: Write)
      modifies this, outbox
      ensures var step := old(Shutdown(State(), sessionClosed, outbox.Full(), outbox.gone));
              State() == step.state && r == step.result && outbox.items == Sent(old(outbox.items), step.send)
      ensures outbox.gone == old(outbox.gone)
    {
      if streamClosed {
        return Wrote(0);
      }
      if sessionClosed {
        streamClosed := true;
        return Wrote(0);
      }
      shutdownInProgress := true;
      if outbox.gone {
        streamClosed := true;
        r := Broken;
      } else if outbox.Full() {
        r := Blocked;
      } else {
        outbox.items := outbox.items + [Item(id, [])];
        streamClosed := true;
        r := Wrote(0);
      }
    }

    method Dropped()
      modifies this, outbox
      ensures var step := old(Drop(State(), outbox.Full(), outbox.gone));
              State() == step.state && outbox.items == Sent(old(outbox.items), step.send)
      ensures outbox.gone == old(outbox.gone)
    {
      if !streamClosed {
        streamClosed := true;
        if !outbox.gone && !outbox.Full() {
          outbox.items := outbox.items + [Item(id, [])];
        }
      }
    }

    function Sent(items: seq<Item>, send: Option<seq<byte>>): seq<Item> {
      if send.None? then items else items + [Item(id, send.value)]
    }
  }
}
