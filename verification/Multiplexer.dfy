/**
 The session as a step machine. The receive loop, the outgoing loop, the stream tasks and a close
 interleave freely; each step is what one of them does between two suspension points.
 */
module Multiplexer {
  import opened Bytes
  import opened Frames
  import opened Streams

  /** A stream that was opened, with the history of both its directions. */
  datatype Inst = Inst(
    id: u32,
    stream: StreamState,
    queue: seq<seq<byte>>,   // payloads waiting in its channel; no bytes mark the end
    alive: bool,             // the stream object has not been dropped
    dispatched: seq<byte>,   // payload of the PSH frames taken for it
    returned: seq<byte>,     // what its reads have handed out
    written: seq<byte>)      // what its writes have accepted

  /** What the receive loop is holding while it waits for room in a stream's channel. */
  datatype Hand = Idle | Holding(k: nat, data: seq<byte>)

  /** Where the outgoing loop is: waiting for an item, writing its frame, or about to take a stream off the map. */
  datatype Pumping = Resting | Writing | Removing(id: u32)

  /** A close sets the flag first, and later lets go of the streams. */
  datatype Closing = Running | Flagged | Cleared

  datatype State = State(
    insts: seq<Inst>,
    streams: map<u32, nat>,  // the open streams, by id
    hand: Hand,
    settings: bool,
    recvStopped: bool,
    closing: Closing,
    log: seq<Item>,          // everything ever queued for sending
    head: nat,               // how much of it the outgoing loop is done with
    pumping: Pumping,        // while writing, the next item is out of the queue
    sent: seq<Item>,         // what it has written as frames
    outStopped: bool)
  {
    predicate Closed() { !closing.Running? }
  }

  const START := State([], map[], Idle, false, false, Running, [], 0, Resting, [], false)

  datatype Action =
    | Receive(f: Frame, replied: bool)     // handle_frame; did a control reply, if any, go out
    | Deliver                              // the channel send in handle_frame completes
    | Read(k: nat, room: nat)
    | Write(k: nat, buf: seq<byte>, gone: bool)
    | ShutDown(k: nat, gone: bool)
    | DropStream(k: nat, gone: bool)
    | Pump(ok: bool)                       // process_outgoing goes on; did a frame being written go out
    | Close                                // the close flag is set
    | Clear                                // the close, having it set, lets go of the streams

  predicate WellFormed(s: State) {
    && (forall k :: 0 <= k < |s.insts| ==> Consistent(s.insts[k].stream))
    && (forall id :: id in s.streams ==> s.streams[id] < |s.insts| && s.insts[s.streams[id]].id == id)
    && (s.hand.Holding? ==> s.hand.k < |s.insts|)
    && s.head <= |s.log| && (s.pumping.Writing? ==> s.head < |s.log|) && (s.outStopped ==> s.pumping.Resting?)
  }

  /** A sender to stream `k` is left: in the map, or in the receive loop's hand. */
  predicate Connected(s: State, k: nat)
    requires k < |s.insts|
  {
    InMap(s, k) || (s.hand.Holding? && s.hand.k == k)
  }

  predicate InMap(s: State, k: nat)
    requires k < |s.insts|
  {
    s.insts[k].id in s.streams && s.streams[s.insts[k].id] == k
  }

  predicate Full(s: State)
    requires s.head <= |s.log|
  {
    |s.log| - s.head - (if s.pumping.Writing? then 1 else 0) >= OUTGOING_CHANNEL_BUFFER
  }

  /** Streams are only ever added. */
  ghost predicate Extends(s: State, r: State) {
    |s.insts| <= |r.insts| && forall k :: 0 <= k < |s.insts| ==> r.insts[k].id == s.insts[k].id
  }

  function Step(s: State, a: Action): (r: State)
    requires WellFormed(s)
    ensures WellFormed(r) && Extends(s, r)
  {
    hide Handle, DeliverHeld, ReadOne, Enqueue, PumpOne;
    match a
    case Receive(f, replied) => if s.hand.Idle? && !s.recvStopped then Handle(s, f, replied) else s
    case Deliver => DeliverHeld(s)
    case Read(k, room) => if !Usable(s, k) then s else ReadOne(s, k, room)
    case Write(k, buf, gone) =>
      if !Usable(s, k) then s else
      Enqueue(s, k, WriteTo(s.insts[k].stream, s.Closed(), Full(s), gone, buf), true)
    case ShutDown(k, gone) =>
      if !Usable(s, k) then s else
      Enqueue(s, k, Shutdown(s.insts[k].stream, s.Closed(), Full(s), gone), true)
    case DropStream(k, gone) =>
      if !Usable(s, k) then s else
      Enqueue(s, k, Drop(s.insts[k].stream, Full(s), gone), false)
    case Pump(ok) => PumpOne(s, ok)
    case Close => if s.Closed() then s else s.(closing := Flagged)
    case Clear => if s.closing != Flagged then s else s.(closing := Cleared, streams := map[])
  }

  predicate Usable(s: State, k: nat) {
    k < |s.insts| && s.insts[k].alive
  }

  function ReadOne(s: State, k: nat, room: nat): (r: State)
    requires WellFormed(s) && k < |s.insts|
    ensures WellFormed(r) && Extends(s, r)
  {
    var i := s.insts[k];
    var step := ReadFrom(i.stream, i.queue, Connected(s, k), room);
    var bytes := if step.result.Data? then step.result.bytes else [];
    s.(insts := s.insts[k := i.(stream := step.state, queue := step.queue, returned := i.returned + bytes)])
  }

  /** `handle_frame`, up to the point where it must wait for a channel. */
  function Handle(s: State, f: Frame, replied: bool): (r: State)
    requires WellFormed(s)
    ensures WellFormed(r) && Extends(s, r)
  {
    hide Take, Open, Finish;
    match f.cmd
    case Psh => if f.data == [] || f.streamId !in s.streams then s else Take(s, s.streams[f.streamId], f.data)
    case Syn =>
      if !s.settings then s.(recvStopped := true)
      else if f.streamId in s.streams then s
      else Open(s, f.streamId)
    case Fin => if f.streamId !in s.streams then s else Finish(s, f.streamId)
    case Settings => s.(settings := true, recvStopped := !replied)
    case HeartRequest => s.(recvStopped := !replied)
    case Alert => s.(recvStopped := true)
    case _ => s
  }

  /** The frames that touch a stream. */
  predicate Acts(s: State, f: Frame) {
    match f.cmd
    case Psh => f.data != [] && f.streamId in s.streams
    case Syn => s.settings && f.streamId !in s.streams
    case Fin => f.streamId in s.streams
    case _ => false
  }

  lemma HandleFlags(s: State, f: Frame, replied: bool)
    requires WellFormed(s) && !Acts(s, f)
    ensures Handle(s, f, replied).(settings := s.settings, recvStopped := s.recvStopped) == s
  {
    hide WellFormed, Take, Open, Finish;
  }

  function Take(s: State, k: nat, data: seq<byte>): (r: State)
    requires WellFormed(s) && k < |s.insts|
    ensures WellFormed(r) && Extends(s, r)
  {
    s.(hand := Holding(k, data), insts := s.insts[k := s.insts[k].(dispatched := s.insts[k].dispatched + data)])
  }

  function Open(s: State, id: u32): (r: State)
    requires WellFormed(s) && id !in s.streams
    ensures WellFormed(r) && Extends(s, r)
  {
    s.(insts := s.insts + [Inst(id, FRESH, [], true, [], [], [])], streams := s.streams[id := |s.insts|])
  }

  function Finish(s: State, id: u32): (r: State)
    requires WellFormed(s) && id in s.streams
    ensures WellFormed(r) && Extends(s, r)
  {
    s.(streams := s.streams - {id}, hand := Holding(s.streams[id], []))
  }

  function DeliverHeld(s: State): (r: State)
    requires WellFormed(s)
    ensures WellFormed(r) && Extends(s, r)
  {
    if s.hand.Idle? then s else
    var k := s.hand.k;
    var i := s.insts[k];
    if !i.alive then s.(hand := Idle)
    else if |i.queue| >= STREAM_CHANNEL_BUFFER then s
    else s.(hand := Idle, insts := s.insts[k := i.(queue := i.queue + [s.hand.data])])
  }

  function Enqueue(s: State, k: nat, step: WriteStep, alive: bool): (r: State)
    requires WellFormed(s) && k < |s.insts| && Consistent(step.state)
    ensures WellFormed(r) && Extends(s, r)
  {
    var i := s.insts[k].(stream := step.state, alive := alive);
    match step.send
    case None => s.(insts := s.insts[k := i])
    case Some(data) =>
      s.(insts := s.insts[k := i.(written := i.written + data)], log := s.log + [Item(i.id, data)])
  }

  /** `process_outgoing` between suspension points: taking an item, writing it, removing its stream. */
  function PumpOne(s: State, ok: bool): (r: State)
    requires WellFormed(s)
    ensures WellFormed(r) && Extends(s, r)
  {
    match s.pumping
    case Resting =>
      if s.outStopped || s.head == |s.log| then s
      else if s.Closed() then s.(head := s.head + 1, outStopped := true)
      else s.(pumping := Writing)
    case Writing =>
      var item := s.log[s.head];
      var s' := s.(head := s.head + 1, sent := if ok then s.sent + [item] else s.sent);
      if item.data == [] then s'.(pumping := Removing(item.id))
      else s'.(pumping := Resting, outStopped := !ok)
    case Removing(id) => s.(pumping := Resting, streams := s.streams - {id})
  }

  /** Delivering changes one stream's channel, and empties the hand. */
  lemma DeliverForm(s: State)
    requires WellFormed(s)
    ensures s.hand.Idle? ==> DeliverHeld(s) == s
    ensures s.hand.Holding? ==>
              && s.hand.k < |s.insts|
              && var i := s.insts[s.hand.k];
                 DeliverHeld(s) ==
                 if !i.alive then s.(hand := Idle)
                 else if |i.queue| >= STREAM_CHANNEL_BUFFER then s
                 else s.(hand := Idle, insts := s.insts[s.hand.k := i.(queue := i.queue + [s.hand.data])])
  {
    hide Consistent, Extends;
  }

  /** Queueing changes one stream, and what it has written by what is queued. */
  lemma EnqueueForm(s: State, k: nat, step: WriteStep, alive: bool)
    requires WellFormed(s) && k < |s.insts| && Consistent(step.state)
    ensures var r, i, data := Enqueue(s, k, step, alive), s.insts[k], if step.send.Some? then step.send.value else [];
            && r.insts == s.insts[k := i.(stream := step.state, alive := alive, written := i.written + data)]
            && r.log == s.log + (if step.send.Some? then [Item(i.id, data)] else [])
            && r.(insts := s.insts, log := s.log) == s
  {
    hide WellFormed, Extends, Consistent;
    assert s.insts[k].written + [] == s.insts[k].written && s.log + [] == s.log;
  }

  /** The outgoing loop touches no stream; it may take one off the map. */
  lemma PumpForm(s: State, ok: bool)
    requires WellFormed(s)
    ensures var r := PumpOne(s, ok);
            && r.insts == s.insts && r.hand == s.hand && r.log == s.log
            && r.settings == s.settings && r.recvStopped == s.recvStopped
            && r.streams == if s.pumping.Removing? then s.streams - {s.pumping.id} else s.streams
  {
    hide Consistent, Extends;
    match s.pumping
    case Resting =>
    case Writing => assert PumpOne(s, ok).insts == s.insts;
    case Removing(id) => assert PumpOne(s, ok) == s.(pumping := Resting, streams := s.streams - {id});
  }

  function Run(actions: seq<Action>): (s: State)
    ensures WellFormed(s)
  {
    if actions == [] then START else Step(Run(actions[..|actions| - 1]), actions[|actions| - 1])
  }
}
